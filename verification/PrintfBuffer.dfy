/** The printing functions of lab8/libs/printfmt.c on struct sprintbuf: vsnprintf stores a prefix of what
    the unbounded formatter prints, and counts all of it. */
module PrintfBuffer {
  import opened Common
  import opened Printf

  class SprintBuf {
    const buf: array<char>
    const ebuf: nat              // the last place of the buffer, kept for the NUL
    var pos: nat                 // the first unused place
    var cnt: nat
    ghost var out: string        // everything that was printed
    ghost const orig: string     // what the array held before

    ghost predicate Valid()
      reads this, buf
    {
      && ebuf < buf.Length == |orig| && cnt == |out| && pos == Min(|out|, ebuf)
      && (forall i :: 0 <= i < pos ==> buf[i] == out[i])
      && (forall i :: pos <= i < buf.Length ==> buf[i] == orig[i])
    }

    constructor (str: array<char>, size: nat)
      requires 0 < size <= str.Length
      ensures Valid() && buf == str && ebuf == size - 1 && out == "" && orig == str[..]
    {
      buf, ebuf, pos, cnt, out, orig := str, size - 1, 0, 0, "", str[..];
    }

    /** sprintputch */
    method Putch(ch: char)
      requires Valid()
      modifies this, buf
      ensures Valid() && out == old(out) + [ch]
    {
      cnt := cnt + 1;
      if pos < ebuf {
        buf[pos] := ch;
        pos := pos + 1;
      }
      out := out + [ch];
    }
  }

  // ---------- printnum ----------

  /** The pad characters, one by one. */
  method PutFill(b: SprintBuf, c: char, n: int)
    requires b.Valid()
    modifies b, b.buf
    ensures b.Valid() && b.out == old(b.out) + Fill(c, n)
  {
    var width := n;
    ghost var k := 0;
    while width > 0
      invariant b.Valid() && k >= 0 && (n > 0 ==> width == n - k >= 0) && (n <= 0 ==> width == n && k == 0)
      invariant b.out == old(b.out) + Fill(c, k)
    {
      b.Putch(c);
      assert Fill(c, k + 1) == Fill(c, k) + [c];
      width, k := width - 1, k + 1;
    }
  }

  method PrintNum(b: SprintBuf, num: nat, base: nat, width: int, padc: char)
    requires b.Valid() && 2 <= base <= 16
    modifies b, b.buf
    ensures b.Valid() && b.out == old(b.out) + Number(num, base, width, padc)
    decreases num
  {
    if num >= base {
      QuotientShrinks(num, base);
      PrintNum(b, num / base, base, width - 1, padc);
      b.Putch(Digit(num % base));
      NumberAbove(old(b.out), num, base, width, padc);
    } else {
      PutFill(b, padc, width - 1);
      b.Putch(Digit(num % base));
      NumberBelow(old(b.out), num, base, width, padc);
    }
  }

  /** A number of several digits: the last one comes behind the others. */
  lemma NumberAbove(out: string, num: nat, base: nat, width: int, padc: char)
    requires 2 <= base <= 16 && num >= base
    ensures out + Number(num / base, base, width - 1, padc) + [Digit(num % base)]
            == out + Number(num, base, width, padc)
  {
    var high, d := Digits(num / base, base), Digit(num % base);
    var pad := Fill(padc, width - 1 - |high|);
    assert Digits(num, base) == high + [d];
    Assoc(pad, high, [d]);
    Assoc(out, pad + high, [d]);
  }

  lemma NumberBelow(out: string, num: nat, base: nat, width: int, padc: char)
    requires 2 <= base <= 16 && num < base
    ensures out + Fill(padc, width - 1) + [Digit(num % base)] == out + Number(num, base, width, padc)
  {
    assert Digits(num, base) == "" + [Digit(num % base)] == [Digit(num % base)];
    Assoc(out, Fill(padc, width - 1), [Digit(num % base)]);
  }

  method PutAll(b: SprintBuf, s: string)
    requires b.Valid()
    modifies b, b.buf
    ensures b.Valid() && b.out == old(b.out) + s
  {
    var i: nat := 0;
    while i < |s|
      invariant i <= |s| && b.Valid() && b.out == old(b.out) + s[..i]
    {
      b.Putch(s[i]);
      assert s[..i + 1] == s[..i] + [s[i]];
      i := i + 1;
    }
    assert s[..i] == s;
  }

  // ---------- strings ----------

  /** strnlen; a negative limit is a huge unsigned one. */
  method Strnlen(s: string, len: int) returns (cnt: nat)
    requires forall i :: 0 <= i < |s| ==> s[i] != '\0'
    ensures cnt == |Clip(s, len)|
  {
    cnt := 0;
    while (len < 0 || cnt < len) && At(s, cnt) != '\0'
      invariant cnt <= |s| && (len < 0 || cnt <= len)
      decreases |s| - cnt
    {
      cnt := cnt + 1;
    }
  }

  /** The characters of the string up to the precision. */
  method PutBody(b: SprintBuf, s: string, precision0: int, alt: bool) returns (p: nat)
    requires b.Valid() && forall i :: 0 <= i < |s| ==> s[i] != '\0'
    modifies b, b.buf
    ensures b.Valid() && p == |Clip(s, precision0)| && b.out == old(b.out) + VisibleAll(Clip(s, precision0), alt)
  {
    var precision := precision0;
    ghost var clip := Clip(s, precision0);
    p := 0;
    while At(s, p) != '\0' && (precision < 0 || precision - 1 >= 0)
      invariant p <= |clip| <= |s| && b.Valid()
      invariant precision0 < 0 ==> precision < 0
      invariant precision0 >= 0 ==> precision == precision0 - p >= 0
      invariant b.out == old(b.out) + VisibleAll(clip[..p], alt)
      decreases |s| - p
    {
      b.Putch(Visible(s[p], alt));
      if precision >= 0 {
        precision := precision - 1;
      }
      VisibleStep(clip, p, alt);
      p := p + 1;
    }
    assert p == |clip| && clip[..p] == clip;
  }

  lemma VisibleStep(s: string, p: nat, alt: bool)
    requires p < |s|
    ensures VisibleAll(s[..p + 1], alt) == VisibleAll(s[..p], alt) + [Visible(s[p], alt)]
  {
    assert s[..p + 1][..p] == s[..p];
  }

  method PrintText(b: SprintBuf, s: string, width0: int, precision: int, padc: char, alt: bool)
    requires b.Valid() && forall i :: 0 <= i < |s| ==> s[i] != '\0'
    modifies b, b.buf
    ensures b.Valid() && b.out == old(b.out) + Text(s, width0, precision, padc, alt)
  {
    ghost var body := VisibleAll(Clip(s, precision), alt);
    var width := width0;
    if width > 0 && padc != '-' {
      var n := Strnlen(s, precision);
      width := width - n;
      PutFill(b, padc, width);
      width := if width > 0 then 0 else width;
    }
    ghost var left := b.out;
    var n := PutBody(b, s, precision, alt);
    width := width - n;
    PutFill(b, ' ', width);
    TextIs(old(b.out), left, b.out, s, width0, precision, padc, alt, width);
  }

  lemma TextIs(before: string, left: string, all: string, s: string, width: int, precision: int, padc: char, alt: bool,
               rest: int)
    requires all == left + VisibleAll(Clip(s, precision), alt) + Fill(' ', rest)
    requires var n := |Clip(s, precision)|;
             if width > 0 && padc != '-' then left == before + Fill(padc, width - n) && rest <= 0
             else left == before && rest == width - n
    ensures all == before + Text(s, width, precision, padc, alt)
  {
    var body := VisibleAll(Clip(s, precision), alt);
    var n := |body|;
    if padc == '-' {
      Assoc(before, body, Fill(' ', width - n));
    } else {
      assert Fill(' ', rest) == "" && all == left + body;
      Assoc(before, Fill(padc, width - n), body);
      if width <= 0 {
        assert Fill(padc, width - n) == "";
      }
    }
  }

  method PrintError(b: SprintBuf, v: int)
    requires b.Valid()
    modifies b, b.buf
    ensures b.Valid() && b.out == old(b.out) + ErrorText(v)
  {
    var err := if v < 0 then -v else v;
    PrintMessage(b, err, if err > 24 then "" else ERRORS[err]);
  }

  /** The message, or the code where there is none. */
  method PrintMessage(b: SprintBuf, err: nat, message: string)
    requires b.Valid()
    modifies b, b.buf
    ensures b.Valid() && b.out == old(b.out) + if message == "" then "error " + SignedNumber(err, -1, ' ') else message
  {
    if message == "" {
      PutAll(b, "error ");
      PrintNum(b, err, 10, -1, ' ');
      Assoc(old(b.out), "error ", Number(err, 10, -1, ' '));
    } else {
      PutAll(b, message);
    }
  }

  lemma SignFirst(out: string, v: int, width: int, padc: char)
    requires v < 0
    ensures out + ['-'] + Number(-v, 10, width, padc) == out + SignedNumber(v, width, padc)
  {
    Assoc(out, "-", Number(-v, 10, width, padc));
  }

  method PrintSigned(b: SprintBuf, v: int, width: int, padc: char)
    requires b.Valid()
    modifies b, b.buf
    ensures b.Valid() && b.out == old(b.out) + SignedNumber(v, width, padc)
  {
    if v < 0 {
      b.Putch('-');
      PrintNum(b, -v, 10, width, padc);
      SignFirst(old(b.out), v, width, padc);
    } else {
      PrintNum(b, v, 10, width, padc);
    }
  }

  // ---------- vprintfmt ----------

  /** One turn of the reswitch loop: the flag before f0 goes into the specification. */
  method ReadFlag(fmt: string, f0: nat, s0: Spec, ap0: seq<Arg>) returns (s: Spec, f: nat, ap: seq<Arg>)
    requires 0 < f0 <= |fmt| + 1 && IsFlag(At(fmt, f0 - 1))
    ensures f0 <= f <= |fmt| && ScanFlags(fmt, f0 - 1, s0, ap0) == ScanFlags(fmt, f, s, ap)
  {
    s, f, ap := s0, f0, ap0;
    var ch := At(fmt, f - 1);
    if ch == '-' || ch == '0' {
      s := s.(padc := ch);
    } else if IsDigit(ch) {
      var n, j := ReadNumber(fmt, f - 1);
      s := WithNumber(s, n);
      f := j;
    } else if ch == '*' {
      s := WithNumber(s, Signed(Raw(ap), TWO32));
      ap := Rest(ap);
    } else if ch == '.' {
      s := if s.width < 0 then s.(width := 0) else s;
    } else if ch == '#' {
      s := s.(alt := true);
    } else {
      s := s.(lflag := s.lflag + 1);
    }
  }

  /** The reswitch loop: flags up to the conversion character. */
  method ReadFlags(fmt: string, f0: nat, ap0: seq<Arg>) returns (s: Spec, ch: char, f: nat, ap: seq<Arg>)
    requires f0 <= |fmt|
    ensures ScanFlags(fmt, f0, PLAIN, ap0) == Scan(s, ch, f, ap)
  {
    f, ap, s := f0, ap0, PLAIN;
    ch := At(fmt, f);
    f := f + 1;
    while IsFlag(ch)
      invariant f0 < f <= |fmt| + 1 && ch == At(fmt, f - 1)
      invariant ScanFlags(fmt, f0, PLAIN, ap0) == ScanFlags(fmt, f - 1, s, ap)
      decreases |fmt| + 1 - f
    {
      s, f, ap := ReadFlag(fmt, f, s, ap);
      ch := At(fmt, f);
      f := f + 1;
    }
  }

  /** The width field, from its first digit on. */
  method ReadNumber(fmt: string, f: nat) returns (n: nat, j: nat)
    requires f < |fmt| && IsDigit(fmt[f])
    ensures j == DigitsEnd(fmt, f + 1) && (forall i :: f <= i < j ==> IsDigit(fmt[i])) && n == Decimal(fmt, f, j)
  {
    n, j := Value(fmt[f]), f + 1;
    assert Decimal(fmt, f, f + 1) == Decimal(fmt, f, f) * 10 + Value(fmt[f]);
    while IsDigit(At(fmt, j))
      invariant f < j <= |fmt| && (forall i :: f <= i < j ==> IsDigit(fmt[i]))
      invariant n == Decimal(fmt, f, j) && DigitsEnd(fmt, f + 1) == DigitsEnd(fmt, j)
      decreases |fmt| - j
    {
      n := n * 10 + Value(fmt[j]);
      j := j + 1;
    }
  }

  method PutConversion(b: SprintBuf, ch: char, s: Spec, ap: seq<Arg>)
    requires b.Valid() && IsConversion(ch)
    modifies b, b.buf
    ensures b.Valid() && b.out == old(b.out) + Convert(ch, s, ap)
  {
    match ch {
      case 'c' => b.Putch((Raw(ap) % 256) as char);
      case 'e' => PrintError(b, Signed(Raw(ap), TWO32));
      case 's' => PrintText(b, GetStr(ap), s.width, s.precision, s.padc, s.alt);
      case 'd' => PrintSigned(b, GetInt(ap, s.lflag), s.width, s.padc);
      case 'u' => PrintNum(b, GetUint(ap, s.lflag), 10, s.width, s.padc);
      case 'o' => PrintNum(b, GetUint(ap, s.lflag), 8, s.width, s.padc);
      case 'p' =>
        b.Putch('0');
        b.Putch('x');
        PrintNum(b, Unsigned(Raw(ap), TWO64), 16, s.width, s.padc);
      case 'x' => PrintNum(b, GetUint(ap, s.lflag), 16, s.width, s.padc);
      case '%' => b.Putch('%');
    }
  }

  method VPrintFmt(b: SprintBuf, fmt: string, args: seq<Arg>)
    requires b.Valid()
    modifies b, b.buf
    ensures b.Valid() && b.out == old(b.out) + Format(fmt, 0, args)
  {
    var f: nat := 0;
    var ap := args;
    while true
      invariant b.Valid() && f <= |fmt| + 1
      invariant b.out + Format(fmt, f, ap) == old(b.out) + Format(fmt, 0, args)
      decreases |fmt| + 1 - f
    {
      f := PutPlain(b, fmt, f, ap);
      if At(fmt, f) == '\0' {
        return;
      }
      f, ap := PutEscape(b, fmt, f, ap);
    }
  }

  /** The inner loop: text up to the next '%' or the end. */
  method PutPlain(b: SprintBuf, fmt: string, f0: nat, ghost ap: seq<Arg>) returns (f: nat)
    requires b.Valid() && f0 <= |fmt| + 1
    modifies b, b.buf
    ensures b.Valid() && f0 <= f <= |fmt| + 1 && (At(fmt, f) == '%' || At(fmt, f) == '\0')
    ensures b.out + Format(fmt, f, ap) == old(b.out) + Format(fmt, f0, ap)
  {
    f := f0;
    while At(fmt, f) != '%' && At(fmt, f) != '\0'
      invariant b.Valid() && f0 <= f <= |fmt| + 1
      invariant b.out + Format(fmt, f, ap) == old(b.out) + Format(fmt, f0, ap)
      decreases |fmt| + 1 - f
    {
      ghost var out := b.out;
      b.Putch(fmt[f]);
      Assoc(out, [fmt[f]], Format(fmt, f + 1, ap));
      f := f + 1;
    }
  }

  /** The escape at position f: a conversion, or back to the character behind the '%'. */
  method PutEscape(b: SprintBuf, fmt: string, f: nat, ap: seq<Arg>) returns (f': nat, ap': seq<Arg>)
    requires b.Valid() && f < |fmt| && fmt[f] == '%'
    modifies b, b.buf
    ensures b.Valid() && f < f' <= |fmt| + 1
    ensures b.out + Format(fmt, f', ap') == old(b.out) + Format(fmt, f, ap)
  {
    var s, ch;
    s, ch, f', ap' := ReadFlags(fmt, f + 1, ap);
    ghost var out := b.out;
    if IsConversion(ch) {
      PutConversion(b, ch, s, ap');
      Assoc(out, Convert(ch, s, ap'), Format(fmt, f', After(ch, ap')));
      ap' := After(ch, ap');
    } else {
      b.Putch('%');
      f' := BackUp(fmt, f, f', ap);
      Assoc(out, ['%'], Format(fmt, f', ap'));
    }
  }

  /** The loop that goes back, from behind the last character of an unrecognised escape. */
  method BackUp(fmt: string, ghost f: nat, next: nat, ghost ap: seq<Arg>) returns (g: nat)
    requires f < |fmt| && fmt[f] == '%' && next == ScanFlags(fmt, f + 1, PLAIN, ap).next
    requires next - 1 < |fmt| ==> fmt[next - 1] != '%'
    ensures g == f + 1
  {
    g := next - 1;
    while At(fmt, g - 1) != '%'
      invariant f + 1 <= g < next
      decreases g
    {
      g := g - 1;
    }
    NearestPercent(fmt, f, ap, g);
  }

  /** The back-up stops behind the '%' of this escape. */
  lemma NearestPercent(fmt: string, f: nat, ap: seq<Arg>, g: nat)
    requires f < |fmt| && fmt[f] == '%'
    requires f + 1 <= g && At(fmt, g - 1) == '%' && g < ScanFlags(fmt, f + 1, PLAIN, ap).next
    ensures g == f + 1
  {
  }

  // ---------- vsnprintf ----------

  /** Returns the length of the whole output; stores as much of it as fits, then a NUL, and touches nothing else. */
  method VSNPrintF(str: array?<char>, size: nat, fmt: string, args: seq<Arg>) returns (r: int)
    requires str != null ==> size <= str.Length
    modifies str
    ensures str == null || size == 0 ==> r == -3 && (str != null ==> str[..] == old(str[..]))
    ensures str != null && size > 0 ==>
              var full := Format(fmt, 0, args);
              var n := Min(|full|, size - 1);
              && r == |full| && (forall i :: 0 <= i < n ==> str[i] == full[i]) && str[n] == '\0'
              && forall i :: n < i < str.Length ==> str[i] == old(str[i])
  {
    if str == null || size == 0 {
      return -3;
    }
    var b := new SprintBuf(str, size);
    VPrintFmt(b, fmt, args);
    ghost var full := b.out;
    assert full == Format(fmt, 0, args);
    str[b.pos] := '\0';
    return b.cnt;
  }
}

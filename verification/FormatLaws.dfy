/** What an escape of the format language means, said without the interpreter: the numbers that it prints are read
    back by strtol, and texts are given character by character. The laws hold at every position of a format, for all
    flags, widths and arguments. */
module FormatLaws {
  import opened Common
  import opened Printf
  import opened Strtol

  // ---------- escapes ----------

  /** A width or a precision: none, a number in the format, or an argument. */
  datatype Field = Unset | Given(n: nat) | Star

  /** '#', a padding flag, a width, a precision, some 'l', and the conversion. */
  datatype Escape = Escape(alt: bool, pad: char, width: Field, precision: Field, long: nat, conv: char)

  function FieldText(x: Field): string {
    match x
    case Unset => ""
    case Given(n) => Digits(n, 10)
    case Star => "*"
  }

  function Written(e: Escape): string { "%" + FlagsOf(e) }

  function FlagsOf(e: Escape): string { (if e.alt then "#" else "") + PadOf(e) }

  function PadOf(e: Escape): string { (if e.pad == ' ' then "" else [e.pad]) + WidthOf(e) }

  function WidthOf(e: Escape): string { FieldText(e.width) + PrecisionOf(e) }

  function PrecisionOf(e: Escape): string {
    (if e.precision == Unset then "" else "." + FieldText(e.precision)) + LongOf(e)
  }

  function LongOf(e: Escape): string { Fill('l', e.long) + [e.conv] }

  /** Numbers in a format do not begin with '0', which is a flag. */
  predicate Legal(e: Escape) {
    e.pad in {' ', '0', '-'} && e.width != Given(0) && e.precision != Given(0) && IsConversion(e.conv)
  }

  /** d is v as a signed number of 32 bits. */
  predicate Is32(v: int, d: int) {
    -0x8000_0000 <= d < 0x8000_0000 && (v - d) % 0x1_0000_0000 == 0
  }

  predicate Is64(v: int, d: int) {
    -0x8000_0000_0000_0000 <= d < 0x8000_0000_0000_0000 && (v - d) % 0x1_0000_0000_0000_0000 == 0
  }

  /** The number that a field stands for: its own, or the next argument as a signed number of 32 bits. */
  predicate FieldIs(x: Field, ap: seq<Arg>, n: int) {
    (x.Given? ==> n == x.n) && (x.Star? ==> ap != [] && ap[0].Num? && Is32(ap[0].v, n))
  }

  function RestOf(x: Field, ap: seq<Arg>): seq<Arg> {
    if x.Star? then Rest(ap) else ap
  }

  /** The arguments behind those of the stars. */
  function ArgsOf(e: Escape, ap: seq<Arg>): seq<Arg> { RestOf(e.precision, RestOf(e.width, ap)) }

  /** The escape stands at position f of the format, with the numbers w and p as width and precision. */
  predicate EscapeHas(fmt: string, f: nat, e: Escape, w: int, p: int, ap: seq<Arg>) {
    && Legal(e) && StandsAt(fmt, f, Written(e)) && FieldIs(e.width, ap, w)
    && FieldIs(e.precision, RestOf(e.width, ap), p)
  }

  /** The width that counts: -1 when there is none, and 0 when there is none but a precision. */
  function WidthIn(e: Escape, w: int): int {
    if e.width == Unset then (if e.precision == Unset then -1 else 0)
    else if w < 0 && e.precision != Unset then 0 else w
  }

  /** The escape stands at position f of the format. */
  predicate StandsAt(fmt: string, f: nat, text: string) {
    f + |text| <= |fmt| && fmt[f..f + |text|] == text
  }

  // ---------- scanning an escape ----------

  lemma SignedIs(v: int, d: int)
    requires Is32(v, d)
    ensures Signed(v, TWO32) == d
  {
  }

  lemma LongIs(v: int, d: int)
    requires Is64(v, d)
    ensures Signed(v, TWO64) == d
  {
  }

  lemma {:induction false} DigitsEndAt(fmt: string, f: nat, j: nat)
    requires f <= j <= |fmt| && (forall i :: f <= i < j ==> IsDigit(fmt[i])) && !IsDigit(At(fmt, j))
    ensures DigitsEnd(fmt, f) == j
    decreases j - f
  {
    if f < j {
      DigitsEndAt(fmt, f + 1, j);
    }
  }

  /** A decimal number in a format: its digits, of which the first is no '0', and its value. */
  predicate NumberAt(fmt: string, f: nat, n: nat, j: nat) {
    && f < j <= |fmt| && (forall i :: f <= i < j ==> IsDigit(fmt[i])) && Decimal(fmt, f, j) == n
    && (n > 0 ==> fmt[f] != '0')
  }

  lemma DecimalReads(fmt: string, f: nat, n: nat, j: nat)
    requires StandsAt(fmt, f, Digits(n, 10)) && j == f + |Digits(n, 10)|
    ensures NumberAt(fmt, f, n, j)
  {
    var t := DecimalText(n);
    DecimalIsNumeral(fmt, f, t);
    FirstOf(fmt, f, t);
  }

  lemma DecimalText(n: nat) returns (t: string)
    ensures t == Digits(n, 10) && t != "" && Numeral(t, 10) == n && (n > 0 ==> t[0] != '0')
    ensures forall i :: 0 <= i < |t| ==> IsDigit(t[i])
  {
    t := Digits(n, 10);
    DigitsAreNumeral(n, 10);
    NoZeroInFront(n, 10);
  }

  lemma {:induction false} DecimalIsNumeral(fmt: string, f: nat, t: string)
    requires StandsAt(fmt, f, t) && forall i :: 0 <= i < |t| ==> IsDigit(t[i])
    ensures forall i :: f <= i < f + |t| ==> IsDigit(fmt[i])
    ensures Decimal(fmt, f, f + |t|) == Numeral(t, 10)
    decreases |t|
  {
    if t != "" {
      var high, c := t[..|t| - 1], t[|t| - 1];
      LastOf(fmt, f, high, c);
      DecimalIsNumeral(fmt, f, high);
    }
  }

  lemma LastOf(fmt: string, f: nat, high: string, c: char)
    requires StandsAt(fmt, f, high + [c])
    ensures f + |high| < |fmt| && fmt[f + |high|] == c && StandsAt(fmt, f, high)
  {
    StandsBoth(fmt, f, high, [c]);
    FirstOf(fmt, f + |high|, [c]);
  }

  lemma StandsBoth(fmt: string, f: nat, a: string, b: string)
    requires StandsAt(fmt, f, a + b)
    ensures StandsAt(fmt, f, a) && StandsAt(fmt, f + |a|, b)
  {
    var t := fmt[f..f + |a + b|];
    assert fmt[f..f + |a|] == t[..|a|] == a;
    assert fmt[f + |a|..f + |a| + |b|] == t[|a|..] == b;
  }

  lemma FirstOf(fmt: string, f: nat, text: string)
    requires StandsAt(fmt, f, text) && text != ""
    ensures fmt[f] == text[0]
  {
    assert fmt[f] == fmt[f..f + |text|][0];
  }

  /** A number among the flags. */
  lemma ScanNumber(fmt: string, f: nat, n: nat, s: Spec, ap: seq<Arg>, j: nat)
    requires n > 0 && NumberAt(fmt, f, n, j) && !IsDigit(At(fmt, j))
    ensures ScanFlags(fmt, f, s, ap) == ScanFlags(fmt, j, WithNumber(s, n), ap)
  {
    DigitsEndAt(fmt, f + 1, j);
  }

  lemma {:induction false} ScanLong(fmt: string, f: nat, n: nat, s: Spec, ap: seq<Arg>)
    requires f + n <= |fmt| && forall i :: f <= i < f + n ==> fmt[i] == 'l'
    ensures ScanFlags(fmt, f, s, ap) == ScanFlags(fmt, f + n, s.(lflag := s.lflag + n), ap)
    decreases n
  {
    if n > 0 {
      OneLong(fmt, f, s, ap);
      ScanLong(fmt, f + 1, n - 1, s.(lflag := s.lflag + 1), ap);
    }
  }

  lemma FilledAt(fmt: string, f: nat, c: char, n: nat)
    requires StandsAt(fmt, f, Fill(c, n))
    ensures |Fill(c, n)| == n && f + n <= |fmt| && forall i :: f <= i < f + n ==> fmt[i] == c
  {
    var t := fmt[f..f + n];
    forall i | f <= i < f + n ensures fmt[i] == c {
      assert t[i - f] == c;
    }
  }

  lemma OneLong(fmt: string, f: nat, s: Spec, ap: seq<Arg>)
    requires f < |fmt| && fmt[f] == 'l'
    ensures ScanFlags(fmt, f, s, ap) == ScanFlags(fmt, f + 1, s.(lflag := s.lflag + 1), ap)
  {
  }

  lemma OneDot(fmt: string, f: nat, s: Spec, ap: seq<Arg>)
    requires f < |fmt| && fmt[f] == '.'
    ensures ScanFlags(fmt, f, s, ap) == ScanFlags(fmt, f + 1, Dotted(s), ap)
  {
  }

  // ---------- the specification that the flags add up to ----------

  /** The flags of an escape whose width and precision are the numbers w and p. */
  function SpecOf(e: Escape, w: int, p: int): Spec {
    AfterLong(e, AfterPrecision(e, AfterWidth(e, PLAIN.(alt := e.alt, padc := e.pad), w), p))
  }

  function AfterWidth(e: Escape, s: Spec, w: int): Spec {
    if e.width == Unset then s else WithNumber(s, w)
  }

  function Dotted(s: Spec): Spec {
    if s.width < 0 then s.(width := 0) else s
  }

  function AfterPrecision(e: Escape, s: Spec, p: int): Spec {
    if e.precision == Unset then s else WithNumber(Dotted(s), p)
  }

  function AfterLong(e: Escape, s: Spec): Spec {
    s.(lflag := s.lflag + e.long)
  }

  /** The number that a field stands for: its own, or the next argument as a 32-bit integer. */
  ghost predicate NumberOf(x: Field, ap: seq<Arg>, n: int) {
    (x.Given? ==> n == x.n) && (x.Star? ==> n == Signed(Raw(ap), TWO32))
  }

  ghost predicate Sound(e: Escape) {
    e.width != Given(0) && e.precision != Given(0) && !IsFlag(e.conv)
  }

  lemma LegalIsSound(e: Escape)
    requires Legal(e)
    ensures Sound(e) && (e.pad == ' ' || e.pad == '0' || e.pad == '-')
  {
  }

  lemma LongAt(fmt: string, f: nat, e: Escape, s: Spec, ap: seq<Arg>)
    requires Sound(e) && StandsAt(fmt, f, LongOf(e))
    ensures !IsDigit(fmt[f]) && ScanFlags(fmt, f, s, ap) == Scan(AfterLong(e, s), e.conv, f + |LongOf(e)|, ap)
  {
    LongStands(fmt, f, e);
    ScanLong(fmt, f, e.long, s, ap);
    ScanEnds(fmt, f + e.long, AfterLong(e, s), ap);
  }

  lemma LongStands(fmt: string, f: nat, e: Escape)
    requires StandsAt(fmt, f, LongOf(e))
    ensures |LongOf(e)| == e.long + 1 && f + e.long < |fmt| && fmt[f + e.long] == e.conv
    ensures forall i :: f <= i < f + e.long ==> fmt[i] == 'l'
  {
    LastOf(fmt, f, Fill('l', e.long), e.conv);
    FilledAt(fmt, f, 'l', e.long);
  }

  lemma ScanEnds(fmt: string, f: nat, s: Spec, ap: seq<Arg>)
    requires f < |fmt| && !IsFlag(fmt[f])
    ensures ScanFlags(fmt, f, s, ap) == Scan(s, fmt[f], f + 1, ap)
  {
  }

  /** A width or precision; what follows it is no digit. */
  lemma FieldAt(fmt: string, f: nat, x: Field, n: int, s: Spec, ap: seq<Arg>)
    requires x != Unset && x != Given(0) && NumberOf(x, ap, n)
    requires StandsAt(fmt, f, FieldText(x)) && !IsDigit(At(fmt, f + |FieldText(x)|))
    ensures ScanFlags(fmt, f, s, ap) == ScanFlags(fmt, f + |FieldText(x)|, WithNumber(s, n), RestOf(x, ap))
  {
    if x.Given? {
      DecimalReads(fmt, f, x.n, f + |FieldText(x)|);
      ScanNumber(fmt, f, x.n, s, ap, f + |FieldText(x)|);
    } else {
      FirstOf(fmt, f, "*");
    }
  }

  lemma PrecisionAt(fmt: string, f: nat, e: Escape, p: int, s: Spec, ap: seq<Arg>)
    requires Sound(e) && NumberOf(e.precision, ap, p) && StandsAt(fmt, f, PrecisionOf(e))
    ensures !IsDigit(fmt[f])
    ensures ScanFlags(fmt, f, s, ap) ==
            Scan(AfterLong(e, AfterPrecision(e, s, p)), e.conv, f + |PrecisionOf(e)|, RestOf(e.precision, ap))
  {
    if e.precision == Unset {
      assert "" + LongOf(e) == LongOf(e);
      LongAt(fmt, f, e, s, ap);
    } else {
      var front := "." + FieldText(e.precision);
      StandsBoth(fmt, f, front, LongOf(e));
      DotAndLong(fmt, f, f + |front|, e, p, s, ap);
    }
  }

  lemma DotAndLong(fmt: string, f: nat, g: nat, e: Escape, p: int, s: Spec, ap: seq<Arg>)
    requires Sound(e) && e.precision != Unset && NumberOf(e.precision, ap, p)
    requires g == f + |"." + FieldText(e.precision)| && StandsAt(fmt, f, "." + FieldText(e.precision))
    requires StandsAt(fmt, g, LongOf(e))
    ensures fmt[f] == '.'
    ensures ScanFlags(fmt, f, s, ap) ==
            Scan(AfterLong(e, WithNumber(Dotted(s), p)), e.conv, g + |LongOf(e)|, RestOf(e.precision, ap))
  {
    LongAt(fmt, g, e, WithNumber(Dotted(s), p), RestOf(e.precision, ap));
    DotAt(fmt, f, e.precision, p, s, ap, FieldText(e.precision));
  }

  lemma DotAt(fmt: string, f: nat, x: Field, p: int, s: Spec, ap: seq<Arg>, field: string)
    requires x != Unset && x != Given(0) && NumberOf(x, ap, p) && field == FieldText(x)
    requires StandsAt(fmt, f, "." + field) && !IsDigit(At(fmt, f + |"." + field|))
    ensures fmt[f] == '.'
    ensures ScanFlags(fmt, f, s, ap) == ScanFlags(fmt, f + |"." + field|, WithNumber(Dotted(s), p), RestOf(x, ap))
  {
    StandsBoth(fmt, f, ".", field);
    FirstOf(fmt, f, ".");
    OneDot(fmt, f, s, ap);
    FieldAt(fmt, f + 1, x, p, Dotted(s), ap);
  }

  lemma WidthAt(fmt: string, f: nat, e: Escape, w: int, p: int, s: Spec, ap: seq<Arg>)
    requires Sound(e) && NumberOf(e.width, ap, w) && NumberOf(e.precision, RestOf(e.width, ap), p)
    requires StandsAt(fmt, f, WidthOf(e))
    ensures ScanFlags(fmt, f, s, ap) ==
            Scan(AfterLong(e, AfterPrecision(e, AfterWidth(e, s, w), p)), e.conv, f + |WidthOf(e)|, ArgsOf(e, ap))
  {
    StandsBoth(fmt, f, FieldText(e.width), PrecisionOf(e));
    if e.width == Unset {
      PrecisionAt(fmt, f, e, p, s, ap);
    } else {
      FieldAndMore(fmt, f, f + |FieldText(e.width)|, e, w, p, s, ap);
    }
  }

  lemma FieldAndMore(fmt: string, f: nat, g: nat, e: Escape, w: int, p: int, s: Spec, ap: seq<Arg>)
    requires Sound(e) && e.width != Unset && NumberOf(e.width, ap, w) && NumberOf(e.precision, RestOf(e.width, ap), p)
    requires g == f + |FieldText(e.width)| && StandsAt(fmt, f, FieldText(e.width)) && StandsAt(fmt, g, PrecisionOf(e))
    ensures ScanFlags(fmt, f, s, ap) ==
            Scan(AfterLong(e, AfterPrecision(e, WithNumber(s, w), p)), e.conv, g + |PrecisionOf(e)|, ArgsOf(e, ap))
  {
    PrecisionAt(fmt, g, e, p, WithNumber(s, w), RestOf(e.width, ap));
    FieldAt(fmt, f, e.width, w, s, ap);
  }

  lemma PadAt(fmt: string, f: nat, e: Escape, w: int, p: int, s: Spec, ap: seq<Arg>)
    requires Sound(e) && NumberOf(e.width, ap, w) && NumberOf(e.precision, RestOf(e.width, ap), p)
    requires (e.pad == ' ' || e.pad == '0' || e.pad == '-') && s.padc == ' ' && StandsAt(fmt, f, PadOf(e))
    ensures ScanFlags(fmt, f, s, ap) ==
            Scan(AfterLong(e, AfterPrecision(e, AfterWidth(e, s.(padc := e.pad), w), p)), e.conv, f + |PadOf(e)|,
                 ArgsOf(e, ap))
  {
    if e.pad == ' ' {
      assert "" + WidthOf(e) == WidthOf(e);
      WidthAt(fmt, f, e, w, p, s, ap);
    } else {
      StandsBoth(fmt, f, [e.pad], WidthOf(e));
      FirstOf(fmt, f, [e.pad]);
      OnePad(fmt, f, s, ap);
      WidthAt(fmt, f + 1, e, w, p, s.(padc := e.pad), ap);
    }
  }

  lemma OnePad(fmt: string, f: nat, s: Spec, ap: seq<Arg>)
    requires f < |fmt| && (fmt[f] == '0' || fmt[f] == '-')
    ensures ScanFlags(fmt, f, s, ap) == ScanFlags(fmt, f + 1, s.(padc := fmt[f]), ap)
  {
  }

  lemma OneHash(fmt: string, f: nat, s: Spec, ap: seq<Arg>)
    requires f < |fmt| && fmt[f] == '#'
    ensures ScanFlags(fmt, f, s, ap) == ScanFlags(fmt, f + 1, s.(alt := true), ap)
  {
  }

  /** The interpreter reads exactly the escape that stands there. */
  lemma EscapeAt(fmt: string, f: nat, e: Escape, w: int, p: int, ap: seq<Arg>)
    requires Legal(e) && NumberOf(e.width, ap, w) && NumberOf(e.precision, RestOf(e.width, ap), p)
    requires StandsAt(fmt, f, Written(e))
    ensures fmt[f] == '%'
    ensures ScanFlags(fmt, f + 1, PLAIN, ap) == Scan(SpecOf(e, w, p), e.conv, f + |Written(e)|, ArgsOf(e, ap))
  {
    LegalIsSound(e);
    StandsBoth(fmt, f, "%", FlagsOf(e));
    FirstOf(fmt, f, "%");
    FlagsAt(fmt, f + 1, e, w, p, ap);
  }

  lemma FlagsAt(fmt: string, f: nat, e: Escape, w: int, p: int, ap: seq<Arg>)
    requires Sound(e) && NumberOf(e.width, ap, w) && NumberOf(e.precision, RestOf(e.width, ap), p)
    requires (e.pad == ' ' || e.pad == '0' || e.pad == '-') && StandsAt(fmt, f, FlagsOf(e))
    ensures ScanFlags(fmt, f, PLAIN, ap) == Scan(SpecOf(e, w, p), e.conv, f + |FlagsOf(e)|, ArgsOf(e, ap))
  {
    if e.alt {
      StandsBoth(fmt, f, "#", PadOf(e));
      FirstOf(fmt, f, "#");
      OneHash(fmt, f, PLAIN, ap);
      PadAt(fmt, f + 1, e, w, p, PLAIN.(alt := true), ap);
    } else {
      assert "" + PadOf(e) == PadOf(e);
      PadAt(fmt, f, e, w, p, PLAIN, ap);
    }
  }

  /** It prints what the conversion prints, and goes on behind the escape with the arguments that are left. */
  lemma EscapePrints(fmt: string, f: nat, e: Escape, w: int, p: int, ap: seq<Arg>)
    requires Legal(e) && NumberOf(e.width, ap, w) && NumberOf(e.precision, RestOf(e.width, ap), p)
    requires StandsAt(fmt, f, Written(e))
    ensures Format(fmt, f, ap) == Convert(e.conv, SpecOf(e, w, p), ArgsOf(e, ap))
                                  + Format(fmt, f + |Written(e)|, After(e.conv, ArgsOf(e, ap)))
  {
    EscapeAt(fmt, f, e, w, p, ap);
    FormatEscape(fmt, f, ap, Scan(SpecOf(e, w, p), e.conv, f + |Written(e)|, ArgsOf(e, ap)));
  }

  lemma FormatEscape(fmt: string, f: nat, ap: seq<Arg>, r: Scan)
    requires f < |fmt| && fmt[f] == '%' && r == ScanFlags(fmt, f + 1, PLAIN, ap) && IsConversion(r.ch)
    ensures Format(fmt, f, ap) == Convert(r.ch, r.spec, r.ap) + Format(fmt, r.next, After(r.ch, r.ap))
  {
  }

  // ---------- the laws ----------

  lemma FieldNumber(x: Field, ap: seq<Arg>, n: int)
    requires FieldIs(x, ap, n)
    ensures NumberOf(x, ap, n)
  {
    if x.Star? {
      SignedIs(ap[0].v, n);
    }
  }

  lemma SpecIs(e: Escape, w: int, p: int)
    ensures SpecOf(e, w, p) == Spec(e.pad, WidthIn(e, w), if e.precision == Unset then -1 else p, e.long, e.alt)
  {
  }

  /** What every escape does. */
  lemma EscapeDoes(fmt: string, f: nat, e: Escape, w: int, p: int, ap: seq<Arg>)
    requires EscapeHas(fmt, f, e, w, p, ap)
    ensures var s := Spec(e.pad, WidthIn(e, w), if e.precision == Unset then -1 else p, e.long, e.alt);
            Format(fmt, f, ap) ==
            Convert(e.conv, s, ArgsOf(e, ap)) + Format(fmt, f + |Written(e)|, After(e.conv, ArgsOf(e, ap)))
  {
    FieldNumber(e.width, ap, w);
    FieldNumber(e.precision, RestOf(e.width, ap), p);
    SpecIs(e, w, p);
    EscapePrints(fmt, f, e, w, p, ap);
  }

  /** At position f the format prints `out`, goes on behind the escape, and has the arguments `rest` left. */
  predicate Prints(fmt: string, f: nat, e: Escape, ap: seq<Arg>, out: string, rest: seq<Arg>) {
    f + |Written(e)| <= |fmt| && Format(fmt, f, ap) == out + Format(fmt, f + |Written(e)|, rest)
  }

  lemma EscapeGives(fmt: string, f: nat, e: Escape, w: int, p: int, ap: seq<Arg>, out: string, rest: seq<Arg>)
    requires EscapeHas(fmt, f, e, w, p, ap)
    requires Gives(e, w, p, ArgsOf(e, ap), out, rest)
    ensures Prints(fmt, f, e, ap, out, rest)
  {
    EscapeDoes(fmt, f, e, w, p, ap);
  }

  predicate Gives(e: Escape, w: int, p: int, ap: seq<Arg>, out: string, rest: seq<Arg>)
    requires Legal(e)
  {
    && Convert(e.conv, Spec(e.pad, WidthIn(e, w), if e.precision == Unset then -1 else p, e.long, e.alt), ap) == out
    && After(e.conv, ap) == rest
  }

  // ---------- numbers ----------

  /** Digits of the base, written 0 to 9 and a to f, without a needless zero in front, whose value is u. */
  ghost predicate IsNumeral(t: string, u: nat, base: nat) {
    && t != "" && (|t| > 1 ==> t[0] != '0') && Numeral(t, base) == u
    && forall i :: 0 <= i < |t| ==> ('0' <= t[i] <= '9' || 'a' <= t[i] <= 'f') && DigitValue(t[i]) < base
  }

  /** The numeral of u behind as many padding characters as the width asks for. */
  ghost predicate IsPadded(out: string, u: nat, base: nat, width: int, pad: char) {
    exists k: nat :: k <= |out| && PaddedFrom(out, k, u, base, width, pad)
  }

  ghost predicate PaddedFrom(out: string, k: nat, u: nat, base: nat, width: int, pad: char)
    requires k <= |out|
  {
    && IsNumeral(out[k..], u, base) && |out| == (if width > |out| - k then width else |out| - k)
    && forall i :: 0 <= i < k ==> out[i] == pad
  }

  /** Digits count from '0', letters of either case from 10 on. */
  lemma DigitValues(d: nat)
    requires d < 36
    ensures d < 10 ==> DigitValue(('0' as int + d) as char) == d
    ensures d >= 10 ==> DigitValue(('a' as int + d - 10) as char) == d && DigitValue(('A' as int + d - 10) as char) == d
  {
  }

  lemma {:induction false} DigitsAreNumeral(u: nat, base: nat)
    requires 2 <= base <= 16
    ensures IsNumeral(Digits(u, base), u, base)
  {
    var d := DigitsSpell(u, base);
    DigitsAreLower(u, base);
    NoZeroInFront(u, base);
  }

  lemma LowerDigit(d: nat)
    requires d < 16
    ensures ('0' <= Digit(d) <= '9' || 'a' <= Digit(d) <= 'f') && DigitValue(Digit(d)) == d
            && (d > 0 ==> Digit(d) != '0')
  {
  }

  lemma {:induction false} DigitsAreLower(u: nat, base: nat)
    requires 2 <= base <= 16
    ensures forall i :: 0 <= i < |Digits(u, base)| ==>
              ('0' <= Digits(u, base)[i] <= '9' || 'a' <= Digits(u, base)[i] <= 'f')
              && DigitValue(Digits(u, base)[i]) < base
  {
    LowerDigit(u % base);
    QuotientShrinks(u, base);
    if u >= base {
      DigitsAreLower(u / base, base);
    }
  }

  lemma {:induction false} NoZeroInFront(u: nat, base: nat)
    requires 2 <= base <= 16
    ensures u > 0 ==> Digits(u, base)[0] != '0'
    ensures u == 0 ==> |Digits(u, base)| == 1
  {
    LowerDigit(u % base);
    QuotientShrinks(u, base);
    if u >= base {
      QuotientPositive(u, base);
      NoZeroInFront(u / base, base);
    } else {
      SmallRemainder(u, base);
    }
  }

  lemma QuotientPositive(u: nat, base: nat)
    requires u >= base > 0
    ensures u / base > 0
  {
  }

  lemma SmallRemainder(u: nat, base: nat)
    requires u < base
    ensures u % base == u
  {
  }

  lemma NumberIsPadded(u: nat, base: nat, width: int, pad: char)
    requires 2 <= base <= 16
    ensures IsPadded(Number(u, base, width, pad), u, base, width, pad)
  {
    var digits := Digits(u, base);
    DigitsAreNumeral(u, base);
    PaddedIs(digits, u, base, width, pad);
  }

  lemma PaddedIs(digits: string, u: nat, base: nat, width: int, pad: char)
    requires IsNumeral(digits, u, base)
    ensures IsPadded(Fill(pad, width - |digits|) + digits, u, base, width, pad)
  {
    var fill := Fill(pad, width - |digits|);
    var out := fill + digits;
    assert out[|fill|..] == digits;
    assert PaddedFrom(out, |fill|, u, base, width, pad);
  }

  // ---------- what the conversions print ----------

  /** u is v as an unsigned number of 32 bits, or of 64 bits behind an 'l'. */
  predicate IsUnsigned(long: nat, v: int, u: nat) {
    if long == 0 then u < 0x1_0000_0000 && (v - u) % 0x1_0000_0000 == 0
    else u < 0x1_0000_0000_0000_0000 && (v - u) % 0x1_0000_0000_0000_0000 == 0
  }

  predicate IsSigned(long: nat, v: int, d: int) {
    if long == 0 then Is32(v, d) else Is64(v, d)
  }

  lemma Unsigned32(v: int, u: nat)
    requires u < 0x1_0000_0000 && (v - u) % 0x1_0000_0000 == 0
    ensures v % 0x1_0000_0000 == u
  {
  }

  lemma Unsigned64(v: int, u: nat)
    requires u < 0x1_0000_0000_0000_0000 && (v - u) % 0x1_0000_0000_0000_0000 == 0
    ensures v % 0x1_0000_0000_0000_0000 == u
  {
  }

  lemma UnsignedArgument(ap: seq<Arg>, long: nat, v: int, u: nat)
    requires ap != [] && ap[0] == Num(v) && IsUnsigned(long, v, u)
    ensures GetUint(ap, long) == u
  {
    if long == 0 {
      Unsigned32(v, u);
    } else {
      Unsigned64(v, u);
    }
  }

  lemma SignedArgument(ap: seq<Arg>, long: nat, v: int, d: int)
    requires ap != [] && ap[0] == Num(v) && IsSigned(long, v, d)
    ensures GetInt(ap, long) == d
  {
    if long == 0 {
      SignedIs(v, d);
    } else {
      LongIs(v, d);
    }
  }

  /** %u, %o and %x print the unsigned value in base 10, 8 and 16, which strtol reads back unless it is padded with
      '-'. */
  lemma UnsignedPrints(fmt: string, f: nat, e: Escape, w: int, p: int, ap: seq<Arg>, v: int, u: nat)
    returns (out: string)
    requires EscapeHas(fmt, f, e, w, p, ap) && (e.conv == 'u' || e.conv == 'o' || e.conv == 'x')
    requires ArgsOf(e, ap) != [] && ArgsOf(e, ap)[0] == Num(v) && IsUnsigned(e.long, v, u)
    ensures Prints(fmt, f, e, ap, out, ArgsOf(e, ap)[1..])
    ensures var base := if e.conv == 'u' then 10 else if e.conv == 'o' then 8 else 16;
            && IsPadded(out, u, base, WidthIn(e, w), e.pad)
            && (e.pad != '-' ==> ParsesIff(out, base, u, true))
  {
    var base := if e.conv == 'u' then 10 else if e.conv == 'o' then 8 else 16;
    out := Number(u, base, WidthIn(e, w), e.pad);
    PrintsUnsigned(fmt, f, e, w, p, ap, v, u, base);
    PadsAre(e);
    UnsignedText(u, base, WidthIn(e, w), e.pad);
  }

  lemma PrintsUnsigned(fmt: string, f: nat, e: Escape, w: int, p: int, ap: seq<Arg>, v: int, u: nat, base: nat)
    requires EscapeHas(fmt, f, e, w, p, ap) && (e.conv == 'u' || e.conv == 'o' || e.conv == 'x')
    requires base == if e.conv == 'u' then 10 else if e.conv == 'o' then 8 else 16
    requires ArgsOf(e, ap) != [] && ArgsOf(e, ap)[0] == Num(v) && IsUnsigned(e.long, v, u)
    ensures Prints(fmt, f, e, ap, Number(u, base, WidthIn(e, w), e.pad), ArgsOf(e, ap)[1..])
  {
    UnsignedArgument(ArgsOf(e, ap), e.long, v, u);
    PrintsGiven(fmt, f, e, w, p, ap, u, base);
  }

  lemma PrintsGiven(fmt: string, f: nat, e: Escape, w: int, p: int, ap: seq<Arg>, u: nat, base: nat)
    requires EscapeHas(fmt, f, e, w, p, ap) && (e.conv == 'u' || e.conv == 'o' || e.conv == 'x')
    requires base == if e.conv == 'u' then 10 else if e.conv == 'o' then 8 else 16
    requires ArgsOf(e, ap) != [] && GetUint(ArgsOf(e, ap), e.long) == u
    ensures Prints(fmt, f, e, ap, Number(u, base, WidthIn(e, w), e.pad), ArgsOf(e, ap)[1..])
  {
    GivesUnsigned(e, w, p, ArgsOf(e, ap), u, base);
    EscapeGives(fmt, f, e, w, p, ap, Number(u, base, WidthIn(e, w), e.pad), ArgsOf(e, ap)[1..]);
  }

  lemma GivesUnsigned(e: Escape, w: int, p: int, ap: seq<Arg>, u: nat, base: nat)
    requires Legal(e) && (e.conv == 'u' || e.conv == 'o' || e.conv == 'x')
    requires base == if e.conv == 'u' then 10 else if e.conv == 'o' then 8 else 16
    requires ap != [] && GetUint(ap, e.long) == u
    ensures Gives(e, w, p, ap, Number(u, base, WidthIn(e, w), e.pad), ap[1..])
  {
  }

  lemma PrintsPointer(fmt: string, f: nat, e: Escape, w: int, p: int, ap: seq<Arg>, v: int, u: nat)
    requires EscapeHas(fmt, f, e, w, p, ap) && e.conv == 'p'
    requires ArgsOf(e, ap) != [] && ArgsOf(e, ap)[0] == Num(v) && IsUnsigned(1, v, u)
    ensures Prints(fmt, f, e, ap, "0x" + Number(u, 16, WidthIn(e, w), e.pad), ArgsOf(e, ap)[1..])
  {
    Unsigned64(v, u);
    GivesPointer(e, w, p, ArgsOf(e, ap), u);
    EscapeGives(fmt, f, e, w, p, ap, "0x" + Number(u, 16, WidthIn(e, w), e.pad), ArgsOf(e, ap)[1..]);
  }

  lemma GivesPointer(e: Escape, w: int, p: int, ap: seq<Arg>, u: nat)
    requires Legal(e) && e.conv == 'p' && ap != [] && Unsigned(Raw(ap), TWO64) == u
    ensures Gives(e, w, p, ap, "0x" + Number(u, 16, WidthIn(e, w), e.pad), ap[1..])
  {
  }

  lemma UnsignedText(u: nat, base: nat, width: int, pad: char)
    requires 2 <= base <= 16
    ensures var out := Number(u, base, width, pad);
            && IsPadded(out, u, base, width, pad)
            && (pad in {' ', '0'} ==> ParsesIff(out, base, u, true))
  {
    NumberIsPadded(u, base, width, pad);
    if pad in {' ', '0'} {
      NumberParses(u, base, width, pad);
    }
  }

  lemma PadsAre(e: Escape)
    requires Legal(e)
    ensures e.pad == '-' || e.pad in {' ', '0'}
  {
  }

  /** %d prints the signed value in base 10, with its sign before the padding; strtol reads it back, unless it is padded
      with '-', exactly when it is not negative or has no blanks behind its sign. */
  lemma SignedPrints(fmt: string, f: nat, e: Escape, w: int, p: int, ap: seq<Arg>, v: int, d: int) returns (out: string)
    requires EscapeHas(fmt, f, e, w, p, ap) && e.conv == 'd'
    requires ArgsOf(e, ap) != [] && ArgsOf(e, ap)[0] == Num(v) && IsSigned(e.long, v, d)
    ensures Prints(fmt, f, e, ap, out, ArgsOf(e, ap)[1..])
    ensures d >= 0 ==> IsPadded(out, d, 10, WidthIn(e, w), e.pad)
    ensures d < 0 ==> out != "" && out[0] == '-' && IsPadded(out[1..], -d, 10, WidthIn(e, w), e.pad)
    ensures e.pad != '-' ==>
              (IsReadAs(out, 10, d) <==> d >= 0 || e.pad == '0' || WidthIn(e, w) <= |Digits(Magnitude(d), 10)|)
  {
    out := SignedNumber(d, WidthIn(e, w), e.pad);
    SignedArgument(ArgsOf(e, ap), e.long, v, d);
    GivesSigned(e, w, p, ArgsOf(e, ap), d);
    EscapeGives(fmt, f, e, w, p, ap, out, ArgsOf(e, ap)[1..]);
    SignedText(d, WidthIn(e, w), e.pad);
    if e.pad != '-' {
      PadsAre(e);
      SignedReads(d, WidthIn(e, w), e.pad);
    }
  }

  lemma GivesSigned(e: Escape, w: int, p: int, ap: seq<Arg>, d: int)
    requires Legal(e) && e.conv == 'd' && ap != [] && GetInt(ap, e.long) == d
    ensures Gives(e, w, p, ap, SignedNumber(d, WidthIn(e, w), e.pad), ap[1..])
  {
  }

  lemma SignedText(d: int, width: int, pad: char)
    ensures var out := SignedNumber(d, width, pad);
            && (d >= 0 ==> IsPadded(out, d, 10, width, pad))
            && (d < 0 ==> out != "" && out[0] == '-' && IsPadded(out[1..], -d, 10, width, pad))
  {
    NumberIsPadded(Magnitude(d), 10, width, pad);
    if d < 0 {
      var t := Number(Magnitude(d), 10, width, pad);
      assert ("-" + t)[0] == '-' && ("-" + t)[1..] == t;
    }
  }

  lemma SignedReads(d: int, width: int, pad: char)
    requires pad in {' ', '0'} && -HALF64 <= d < HALF64
    ensures IsReadAs(SignedNumber(d, width, pad), 10, d) <==>
            d >= 0 || pad == '0' || width <= |Digits(Magnitude(d), 10)|
  {
    if d < 0 {
      NegativeIsRead(d, width, pad);
    } else {
      PrintedIsRead(d, 10, width, pad);
    }
  }

  /** %p prints 0x and the value of 64 bits in base 16. */
  lemma PointerPrints(fmt: string, f: nat, e: Escape, w: int, p: int, ap: seq<Arg>, v: int, u: nat)
    returns (out: string)
    requires EscapeHas(fmt, f, e, w, p, ap) && e.conv == 'p'
    requires ArgsOf(e, ap) != [] && ArgsOf(e, ap)[0] == Num(v) && IsUnsigned(1, v, u)
    ensures Prints(fmt, f, e, ap, out, ArgsOf(e, ap)[1..])
    ensures |out| >= 2 && out[0] == '0' && out[1] == 'x' && IsPadded(out[2..], u, 16, WidthIn(e, w), e.pad)
    ensures e.pad != '-' && u < 0x8000_0000_0000_0000 ==>
              (IsReadAs(out, 16, u) <==> e.pad == '0' || WidthIn(e, w) <= |Digits(u, 16)|)
  {
    out := "0x" + Number(u, 16, WidthIn(e, w), e.pad);
    PrintsPointer(fmt, f, e, w, p, ap, v, u);
    PadsAre(e);
    PointerText(u, WidthIn(e, w), e.pad);
  }

  lemma PointerText(u: nat, width: int, pad: char)
    ensures var out := "0x" + Number(u, 16, width, pad);
            && |out| >= 2 && out[0] == '0' && out[1] == 'x' && IsPadded(out[2..], u, 16, width, pad)
            && (pad in {' ', '0'} && u < HALF64 ==>
                  (IsReadAs(out, 16, u) <==> pad == '0' || width <= |Digits(u, 16)|))
  {
    var t := Number(u, 16, width, pad);
    NumberIsPadded(u, 16, width, pad);
    assert ("0x" + t)[2..] == t;
    if pad in {' ', '0'} && u < HALF64 {
      PointerIsRead(u, width, pad, 16);
    }
  }

  /** %c prints the character of the last byte. */
  lemma CharacterPrints(fmt: string, f: nat, e: Escape, w: int, p: int, ap: seq<Arg>, v: int) returns (c: char)
    requires EscapeHas(fmt, f, e, w, p, ap) && e.conv == 'c'
    requires ArgsOf(e, ap) != [] && ArgsOf(e, ap)[0] == Num(v)
    ensures Prints(fmt, f, e, ap, [c], ArgsOf(e, ap)[1..])
    ensures 0 <= c as int < 256 && (v - c as int) % 256 == 0
  {
    c := GivesCharacter(e, w, p, ArgsOf(e, ap), v);
    EscapeGives(fmt, f, e, w, p, ap, [c], ArgsOf(e, ap)[1..]);
  }

  lemma GivesCharacter(e: Escape, w: int, p: int, ap: seq<Arg>, v: int) returns (c: char)
    requires Legal(e) && e.conv == 'c' && ap != [] && ap[0] == Num(v)
    ensures Gives(e, w, p, ap, [c], ap[1..])
    ensures 0 <= c as int < 256 && (v - c as int) % 256 == 0
  {
    c := LastByte(v);
  }

  lemma LastByte(v: int) returns (c: char)
    ensures c == (v % 256) as char && 0 <= c as int < 256 && (v - c as int) % 256 == 0
  {
    c := (v % 256) as char;
  }

  /** %% prints a percent sign and takes no argument. */
  lemma PercentPrints(fmt: string, f: nat, e: Escape, w: int, p: int, ap: seq<Arg>)
    requires EscapeHas(fmt, f, e, w, p, ap) && e.conv == '%'
    ensures Prints(fmt, f, e, ap, "%", ArgsOf(e, ap))
  {
    EscapeGives(fmt, f, e, w, p, ap, "%", ArgsOf(e, ap));
  }

  // ---------- texts ----------

  /** t is the C string that the argument points to, or "(null)". */
  predicate IsText(x: Option<string>, t: string) {
    match x
    case None => t == "(null)"
    case Some(s) =>
      |t| <= |s| && t == s[..|t|] && (forall i :: 0 <= i < |t| ==> t[i] != '\0') && (|t| < |s| ==> s[|t|] == '\0')
  }

  /** The first n characters of t; with '#', what is not printable becomes '?'. They are padded on the left, or with
      '-' on the right by blanks. */
  predicate IsPaddedText(out: string, t: string, n: nat, width: int, pad: char, alt: bool) {
    && n <= |t| && |out| == (if width > n then width else n)
    && var start := if pad == '-' then 0 else |out| - n;
       && (forall i :: 0 <= i < n ==>
             out[start + i] == if alt && (t[i] < ' ' || t[i] > '~') then '?' else t[i])
       && (forall i :: 0 <= i < |out| && !(start <= i < start + n) ==> out[i] == if pad == '-' then ' ' else pad)
  }

  /** %s prints the text, or as much of it as the precision allows. */
  lemma TextPrints(fmt: string, f: nat, e: Escape, w: int, p: int, ap: seq<Arg>, x: Option<string>, t: string)
    returns (out: string)
    requires EscapeHas(fmt, f, e, w, p, ap) && e.conv == 's'
    requires ArgsOf(e, ap) != [] && ArgsOf(e, ap)[0] == Str(x) && IsText(x, t)
    ensures Prints(fmt, f, e, ap, out, ArgsOf(e, ap)[1..])
    ensures IsPaddedText(out, t, if e.precision != Unset && 0 <= p < |t| then p else |t|, WidthIn(e, w), e.pad, e.alt)
  {
    var precision := if e.precision == Unset then -1 else p;
    out := Text(t, WidthIn(e, w), precision, e.pad, e.alt);
    TextIsString(x, t);
    GivesText(e, w, p, ArgsOf(e, ap), t);
    EscapeGives(fmt, f, e, w, p, ap, out, ArgsOf(e, ap)[1..]);
    TextIsPadded(t, WidthIn(e, w), precision, e.pad, e.alt);
  }

  lemma GivesText(e: Escape, w: int, p: int, ap: seq<Arg>, t: string)
    requires Legal(e) && e.conv == 's' && ap != [] && GetStr(ap) == t
    ensures Gives(e, w, p, ap, Text(t, WidthIn(e, w), if e.precision == Unset then -1 else p, e.pad, e.alt), ap[1..])
  {
  }

  lemma TextIsString(x: Option<string>, t: string)
    requires IsText(x, t)
    ensures x.Some? ==> CString(x.value) == t
  {
    if x.Some? {
      var c := CString(x.value);
      assert |c| == |t|;
      assert c == x.value[..|c|];
    }
  }

  lemma TextIsPadded(t: string, width: int, precision: int, pad: char, alt: bool)
    ensures IsPaddedText(Text(t, width, precision, pad, alt), t, if 0 <= precision < |t| then precision else |t|,
                         width, pad, alt)
  {
    var clip := Clip(t, precision);
    VisibleIs(clip, alt);
    PaddedText(t, clip, VisibleAll(clip, alt), width, pad, alt);
  }

  lemma VisibleIs(clip: string, alt: bool)
    ensures |VisibleAll(clip, alt)| == |clip|
    ensures forall i :: 0 <= i < |clip| ==>
              VisibleAll(clip, alt)[i] == if alt && (clip[i] < ' ' || clip[i] > '~') then '?' else clip[i]
  {
  }

  lemma PaddedText(t: string, clip: string, body: string, width: int, pad: char, alt: bool)
    requires |clip| <= |t| && clip == t[..|clip|] && |body| == |clip|
    requires forall i :: 0 <= i < |clip| ==> body[i] == if alt && (clip[i] < ' ' || clip[i] > '~') then '?' else clip[i]
    ensures IsPaddedText(if pad == '-' then body + Fill(' ', width - |body|) else Fill(pad, width - |body|) + body, t,
                         |clip|, width, pad, alt)
  {
  }

  // ---------- errors ----------

  /** %e prints the message of a code of either sign, or "error" and the code when there is none. */
  lemma ErrorPrints(fmt: string, f: nat, e: Escape, w: int, p: int, ap: seq<Arg>, v: int, d: int) returns (out: string)
    requires EscapeHas(fmt, f, e, w, p, ap) && e.conv == 'e'
    requires ArgsOf(e, ap) != [] && ArgsOf(e, ap)[0] == Num(v) && Is32(v, d)
    ensures Prints(fmt, f, e, ap, out, ArgsOf(e, ap)[1..])
    ensures var err: nat := if d < 0 then -d else d;
            if HasMessage(err) then IsMessage(err, out)
            else |out| >= 6 && out[..6] == "error " && IsNumeral(out[6..], err, 10)
  {
    out := ErrorText(d);
    SignedIs(v, d);
    GivesError(e, w, p, ArgsOf(e, ap), d);
    EscapeGives(fmt, f, e, w, p, ap, out, ArgsOf(e, ap)[1..]);
    ErrorIs(d);
  }

  lemma GivesError(e: Escape, w: int, p: int, ap: seq<Arg>, d: int)
    requires Legal(e) && e.conv == 'e' && ap != [] && Signed(Raw(ap), TWO32) == d
    ensures Gives(e, w, p, ap, ErrorText(d), ap[1..])
  {
  }

  predicate HasMessage(err: nat) {
    1 <= err <= 6 || 8 <= err <= 10 || 13 <= err <= 24
  }

  /** The messages of the codes in lab8/libs/error.h. */
  predicate IsMessage(err: nat, m: string) {
    && (err == 1 ==> m == "unspecified error") && (err == 2 ==> m == "bad process")
    && (err == 3 ==> m == "invalid parameter") && (err == 4 ==> m == "out of memory")
    && (err == 5 ==> m == "out of processes") && (err == 6 ==> m == "segmentation fault")
    && (err == 8 ==> m == "invalid elf file") && (err == 9 ==> m == "process is killed")
    && (err == 10 ==> m == "panic failure") && (err == 13 ==> m == "no such device")
    && (err == 14 ==> m == "device not available") && (err == 15 ==> m == "device/file is busy")
    && (err == 16 ==> m == "no such file or directory") && (err == 17 ==> m == "is a directory")
    && (err == 18 ==> m == "not a directory") && (err == 19 ==> m == "cross device link")
    && (err == 20 ==> m == "unimplemented feature") && (err == 21 ==> m == "illegal seek")
    && (err == 22 ==> m == "too many files are open") && (err == 23 ==> m == "file or directory already exists")
    && (err == 24 ==> m == "directory is not empty")
  }

  lemma ErrorIs(d: int)
    ensures var err: nat, out := if d < 0 then -d else d, ErrorText(d);
            if HasMessage(err) then IsMessage(err, out)
            else |out| >= 6 && out[..6] == "error " && IsNumeral(out[6..], err, 10)
  {
    var err: nat := if d < 0 then -d else d;
    if HasMessage(err) {
      MessageIs(err);
    } else {
      NoMessage(err);
      assert SignedNumber(err, -1, ' ') == Number(err, 10, -1, ' ');
      CodeText(err);
    }
  }

  lemma MessageIs(err: nat)
    requires HasMessage(err)
    ensures err <= 24 && ERRORS[err] != "" && IsMessage(err, ERRORS[err])
  {
  }

  lemma NoMessage(err: nat)
    requires !HasMessage(err)
    ensures err > 24 || ERRORS[err] == ""
  {
  }

  lemma CodeText(err: nat)
    ensures var out := "error " + Number(err, 10, -1, ' ');
            |out| >= 6 && out[..6] == "error " && IsNumeral(out[6..], err, 10)
  {
    var t := Number(err, 10, -1, ' ');
    DigitsAreNumeral(err, 10);
    assert t == Digits(err, 10);
    assert ("error " + t)[..6] == "error " && ("error " + t)[6..] == t;
  }
}

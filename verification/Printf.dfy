/** lab8/libs/printfmt.c: the format interpreter, the number printer and the bounded sink of vsnprintf. */
module Printf {
  import opened Common

  /** A variadic argument: an integer (or character, pointer) or a string, which may be NULL. */
  datatype Arg = Num(v: int) | Str(s: Option<string>)

  const TWO32: nat := 0x1_0000_0000
  const TWO64: nat := 0x1_0000_0000_0000_0000

  // ---------- arguments ----------

  function Rest(ap: seq<Arg>): seq<Arg> {
    if ap == [] then [] else ap[1..]
  }

  /** The next argument as an integer; what is not there reads as 0. */
  function Raw(ap: seq<Arg>): int {
    if ap != [] && ap[0].Num? then ap[0].v else 0
  }

  function Unsigned(v: int, modulus: nat): (r: nat)
    requires modulus > 0
    ensures r < modulus
  {
    v % modulus
  }

  function Signed(v: int, modulus: nat): int
    requires modulus > 0
  {
    var u := v % modulus;
    if u < modulus / 2 then u else u - modulus
  }

  /** getuint and getint: int without an l flag, else 64 bits. */
  function GetUint(ap: seq<Arg>, lflag: nat): (r: nat) {
    Unsigned(Raw(ap), if lflag > 0 then TWO64 else TWO32)
  }

  function GetInt(ap: seq<Arg>, lflag: nat): int {
    Signed(Raw(ap), if lflag > 0 then TWO64 else TWO32)
  }

  function GetStr(ap: seq<Arg>): string {
    if ap != [] && ap[0].Str? && ap[0].s.Some? then CString(ap[0].s.value) else "(null)"
  }

  /** Up to the first NUL. */
  function CString(s: string): (r: string)
    ensures |r| <= |s| && (forall i :: 0 <= i < |r| ==> r[i] == s[i] && r[i] != '\0')
    ensures |r| < |s| ==> s[|r|] == '\0'
  {
    if s == "" || s[0] == '\0' then "" else [s[0]] + CString(s[1..])
  }

  // ---------- what the conversions print ----------

  function Digit(d: nat): (c: char)
    requires d < 16
  {
    "0123456789abcdef"[d]
  }

  /** The digits of a number, most significant first, without padding. */
  function Digits(num: nat, base: nat): (s: string)
    requires 2 <= base <= 16
    ensures |s| >= 1
  {
    (if num >= base then Digits(num / base, base) else "") + [Digit(num % base)]
  }

  lemma QuotientShrinks(num: nat, base: nat)
    requires base >= 2
    ensures num > 0 ==> num / base < num
  {
    var q := num / base;
    assert num == q * base + num % base;
    Doubles(q, base);
  }

  lemma Doubles(q: nat, base: nat)
    requires base >= 2
    ensures q * base >= 2 * q
  {
    if q > 0 {
      Doubles(q - 1, base);
      assert q * base == (q - 1) * base + base;
    }
  }

  function Fill(c: char, n: int): (s: string)
    ensures |s| == if n > 0 then n else 0
    ensures forall i :: 0 <= i < |s| ==> s[i] == c
  {
    if n <= 0 then "" else Fill(c, n - 1) + [c]
  }

  /** Padding on the left up to the width, then the digits. */
  function Number(num: nat, base: nat, width: int, padc: char): string
    requires 2 <= base <= 16
  {
    Fill(padc, width - |Digits(num, base)|) + Digits(num, base)
  }

  /** The length is the width or the number of digits, whichever is more. */
  lemma NumberLength(num: nat, base: nat, width: int, padc: char)
    requires 2 <= base <= 16
    ensures |Number(num, base, width, padc)| == if width > |Digits(num, base)| then width else |Digits(num, base)|
  {
  }

  function Magnitude(v: int): nat { if v < 0 then -v else v }

  /** A sign goes before the padding. */
  function SignedNumber(v: int, width: int, padc: char): string {
    if v < 0 then "-" + Number(Magnitude(v), 10, width, padc) else Number(v, 10, width, padc)
  }

  function Clip(s: string, precision: int): string {
    if 0 <= precision < |s| then s[..precision] else s
  }

  function Visible(c: char, alt: bool): char {
    if alt && (c < ' ' || c > '~') then '?' else c
  }

  function VisibleAll(s: string, alt: bool): (r: string)
    ensures |r| == |s| && forall i :: 0 <= i < |s| ==> r[i] == Visible(s[i], alt)
  {
    if s == "" then "" else VisibleAll(s[..|s| - 1], alt) + [Visible(s[|s| - 1], alt)]
  }

  /** A string: padded on the left with padc, or on the right with spaces when padc is '-'. */
  function Text(s: string, width: int, precision: int, padc: char, alt: bool): string {
    var body := VisibleAll(Clip(s, precision), alt);
    if padc == '-' then body + Fill(' ', width - |body|) else Fill(padc, width - |body|) + body
  }

  const ERRORS: seq<string> := [
    "", "unspecified error", "bad process", "invalid parameter", "out of memory", "out of processes",
    "segmentation fault",
    "", "invalid elf file", "process is killed", "panic failure", "", "", "no such device", "device not available",
    "device/file is busy", "no such file or directory", "is a directory", "not a directory", "cross device link",
    "unimplemented feature", "illegal seek", "too many files are open", "file or directory already exists",
    "directory is not empty"]

  function Abs(v: int): nat { if v < 0 then -v else v }

  /** The message of an error code of either sign; codes without a message print as numbers. */
  function ErrorText(v: int): string {
    var err := Abs(v);
    if err > 24 || ERRORS[err] == "" then "error " + SignedNumber(err, -1, ' ') else ERRORS[err]
  }

  // ---------- the format language ----------

  /** The flags collected between '%' and the conversion character. */
  datatype Spec = Spec(padc: char, width: int, precision: int, lflag: nat, alt: bool)

  const PLAIN := Spec(' ', -1, -1, 0, false)

  function At(fmt: string, f: nat): char {
    if f < |fmt| then fmt[f] else '\0'
  }

  predicate IsDigit(c: char) { '0' <= c <= '9' }

  predicate IsFlag(c: char) {
    c == '-' || c == '0' || ('1' <= c <= '9') || c == '*' || c == '.' || c == '#' || c == 'l'
  }

  predicate IsConversion(c: char) {
    c in {'c', 'e', 's', 'd', 'u', 'o', 'p', 'x', '%'}
  }

  /** The first position from f on without a digit. */
  function DigitsEnd(fmt: string, f: nat): (j: nat)
    requires f <= |fmt|
    ensures f <= j <= |fmt| && !IsDigit(At(fmt, j)) && forall i :: f <= i < j ==> IsDigit(fmt[i])
    decreases |fmt| - f
  {
    if f < |fmt| && IsDigit(fmt[f]) then DigitsEnd(fmt, f + 1) else f
  }

  function Value(c: char): nat
    requires IsDigit(c)
  {
    c as int - '0' as int
  }

  /** The decimal number between two positions. */
  function Decimal(fmt: string, f: nat, j: nat): nat
    requires f <= j <= |fmt| && forall i :: f <= i < j ==> IsDigit(fmt[i])
  {
    if f == j then 0 else Decimal(fmt, f, j - 1) * 10 + Value(fmt[j - 1])
  }

  /** process_precision: the first number is the width, later ones the precision. */
  function WithNumber(s: Spec, n: int): Spec {
    if s.width < 0 then s.(width := n, precision := -1) else s.(precision := n)
  }

  datatype Scan = Scan(spec: Spec, ch: char, next: nat, ap: seq<Arg>)

  /** The escape from position f on: its flags, its last character and what follows. */
  function ScanFlags(fmt: string, f: nat, s: Spec, ap: seq<Arg>): (r: Scan)
    requires f <= |fmt|
    ensures f < r.next <= |fmt| + 1 && !IsFlag(r.ch) && r.ch == At(fmt, r.next - 1)
    ensures forall i :: f <= i < r.next - 1 ==> fmt[i] != '%'
    decreases |fmt| - f
  {
    var c := At(fmt, f);
    if !IsFlag(c) then Scan(s, c, f + 1, ap)
    else if c == '-' || c == '0' then ScanFlags(fmt, f + 1, s.(padc := c), ap)
    else if IsDigit(c) then
      var j := DigitsEnd(fmt, f + 1);
      ScanFlags(fmt, j, WithNumber(s, Decimal(fmt, f, j)), ap)
    else if c == '*' then ScanFlags(fmt, f + 1, WithNumber(s, Signed(Raw(ap), TWO32)), Rest(ap))
    else if c == '.' then ScanFlags(fmt, f + 1, if s.width < 0 then s.(width := 0) else s, ap)
    else if c == '#' then ScanFlags(fmt, f + 1, s.(alt := true), ap)
    else ScanFlags(fmt, f + 1, s.(lflag := s.lflag + 1), ap)
  }

  /** What a conversion prints. */
  function Convert(ch: char, s: Spec, ap: seq<Arg>): string
    requires IsConversion(ch)
  {
    match ch
    case 'c' => [(Raw(ap) % 256) as char]
    case 'e' => ErrorText(Signed(Raw(ap), TWO32))
    case 's' => Text(GetStr(ap), s.width, s.precision, s.padc, s.alt)
    case 'd' => SignedNumber(GetInt(ap, s.lflag), s.width, s.padc)
    case 'u' => Number(GetUint(ap, s.lflag), 10, s.width, s.padc)
    case 'o' => Number(GetUint(ap, s.lflag), 8, s.width, s.padc)
    case 'p' => "0x" + Number(Unsigned(Raw(ap), TWO64), 16, s.width, s.padc)
    case 'x' => Number(GetUint(ap, s.lflag), 16, s.width, s.padc)
    case '%' => "%"
  }

  function After(ch: char, ap: seq<Arg>): seq<Arg> {
    if ch == '%' then ap else Rest(ap)
  }

  /** Everything that a format prints from position f on. */
  function Format(fmt: string, f: nat, ap: seq<Arg>): string
    requires f <= |fmt| + 1
    decreases |fmt| + 1 - f
  {
    if At(fmt, f) == '\0' then ""
    else if fmt[f] != '%' then [fmt[f]] + Format(fmt, f + 1, ap)
    else
      var e := ScanFlags(fmt, f + 1, PLAIN, ap);
      if IsConversion(e.ch) then Convert(e.ch, e.spec, e.ap) + Format(fmt, e.next, After(e.ch, e.ap))
      else "%" + Format(fmt, f + 1, e.ap)
  }

  /** An unrecognised escape comes out verbatim: the '%' itself, then its flags and last character as plain text. */
  lemma UnrecognisedIsVerbatim(fmt: string, f: nat, ap: seq<Arg>)
    requires f < |fmt| && fmt[f] == '%'
    requires !IsConversion(ScanFlags(fmt, f + 1, PLAIN, ap).ch) && forall i :: 0 <= i < |fmt| ==> fmt[i] != '\0'
    ensures var e := ScanFlags(fmt, f + 1, PLAIN, ap);
            var stop := if e.next > |fmt| then |fmt| else e.next;
            Format(fmt, f, ap) == fmt[f..stop] + Format(fmt, stop, e.ap)
  {
    var e := ScanFlags(fmt, f + 1, PLAIN, ap);
    var stop := if e.next > |fmt| then |fmt| else e.next;
    assert Format(fmt, f, ap) == "%" + Format(fmt, f + 1, e.ap);
    PlainText(fmt, f + 1, stop, e.ap);
    Glue(fmt, f, stop, Format(fmt, stop, e.ap));
  }

  lemma Glue(fmt: string, f: nat, stop: nat, tail: string)
    requires f < stop <= |fmt| && fmt[f] == '%'
    ensures "%" + (fmt[f + 1..stop] + tail) == fmt[f..stop] + tail
  {
    assert fmt[f..stop] == "%" + fmt[f + 1..stop];
  }

  /** Text without '%' is printed as it is. */
  lemma {:induction false} PlainText(fmt: string, f: nat, stop: nat, ap: seq<Arg>)
    requires f <= stop <= |fmt| && forall i :: f <= i < stop ==> fmt[i] != '%' && fmt[i] != '\0'
    ensures Format(fmt, f, ap) == fmt[f..stop] + Format(fmt, stop, ap)
    decreases stop - f
  {
    if f < stop {
      PlainText(fmt, f + 1, stop, ap);
      PlainCharacter(fmt, f, ap);
      GlueOne(fmt, f, stop, Format(fmt, stop, ap));
    }
  }

  lemma PlainCharacter(fmt: string, f: nat, ap: seq<Arg>)
    requires f < |fmt| && fmt[f] != '%' && fmt[f] != '\0'
    ensures Format(fmt, f, ap) == [fmt[f]] + Format(fmt, f + 1, ap)
  {
  }

  lemma GlueOne(fmt: string, f: nat, stop: nat, tail: string)
    requires f < stop <= |fmt|
    ensures [fmt[f]] + (fmt[f + 1..stop] + tail) == fmt[f..stop] + tail
  {
    assert fmt[f..stop] == [fmt[f]] + fmt[f + 1..stop];
  }
}

/** strtol of lab8/libs/string.c, and that it undoes the number printer of lab8/libs/printfmt.c. */
module Strtol {
  import opened Common
  import opened Printf

  // ---------- the accepted syntax ----------

  predicate IsBlank(c: char) { c == ' ' || c == '\t' }

  /** The value of a digit or letter; 36 for anything else. */
  function DigitValue(c: char): (d: nat)
    ensures d <= 36
  {
    if '0' <= c <= '9' then c as int - '0' as int
    else if 'a' <= c <= 'z' then c as int - 'a' as int + 10
    else if 'A' <= c <= 'Z' then c as int - 'A' as int + 10
    else 36
  }

  predicate Accepts(c: char, base: int) {
    DigitValue(c) < 36 && DigitValue(c) < base
  }

  /** The first position from i on that holds no blank. */
  function AfterBlanks(s: string, i: nat): (j: nat)
    requires i <= |s|
    ensures i <= j <= |s|
    decreases |s| - i
  {
    if i < |s| && IsBlank(s[i]) then AfterBlanks(s, i + 1) else i
  }

  predicate HexPrefix(s: string, i: nat) {
    At(s, i) == '0' && At(s, i + 1) == 'x'
  }

  /** Where the digits start and the base they are in. */
  function AfterPrefix(s: string, i: nat, base: int): (r: (nat, int))
    requires i <= |s|
    ensures i <= r.0 <= |s|
  {
    if (base == 0 || base == 16) && HexPrefix(s, i) then (i + 2, 16)
    else if base == 0 && At(s, i) == '0' then (i + 1, 8)
    else if base == 0 then (i, 10)
    else (i, base)
  }

  /** The first position from i on that holds no digit of the base. */
  function AfterDigits(s: string, i: nat, base: int): (j: nat)
    requires i <= |s|
    ensures i <= j <= |s| && (j < |s| ==> !Accepts(s[j], base)) && forall k :: i <= k < j ==> Accepts(s[k], base)
    decreases |s| - i
  {
    if i < |s| && Accepts(s[i], base) then AfterDigits(s, i + 1, base) else i
  }

  /** The number that a string of digits stands for. */
  function Numeral(t: string, base: int): int {
    if t == "" then 0 else Numeral(t[..|t| - 1], base) * base + DigitValue(t[|t| - 1])
  }

  /** The value, before it is cut to 64 bits, and the end of the number. */
  function Parse(s: string, base0: int): (int, nat) {
    var i := AfterBlanks(s, 0);
    var sign := At(s, i);
    var k := if sign == '+' || sign == '-' then i + 1 else i;
    var p := AfterPrefix(s, k, base0);
    var end := AfterDigits(s, p.0, p.1);
    var v := Numeral(s[p.0..end], p.1);
    (if sign == '-' then -v else v, end)
  }

  // ---------- the grammar, said by positions ----------

  /** c is the digit d: '0' to '9', or a letter of either case from 10 on. */
  predicate IsDigitOf(c: char, d: int) {
    || (0 <= d < 10 && c as int == '0' as int + d)
    || (10 <= d < 36 && (c as int == 'a' as int + d - 10 || c as int == 'A' as int + d - 10))
  }

  predicate IsDigitBelow(c: char, base: int) {
    exists d :: 0 <= d < 36 && d < base && IsDigitOf(c, d)
  }

  lemma DigitOnly(c: char, base: int)
    ensures DigitValue(c) < 36 ==> IsDigitOf(c, DigitValue(c))
    ensures Accepts(c, base) <==> IsDigitBelow(c, base)
  {
    if IsDigitBelow(c, base) {
      var d :| 0 <= d < 36 && d < base && IsDigitOf(c, d);
      assert DigitValue(c) == d;
    }
    if DigitValue(c) < 36 {
      assert IsDigitOf(c, DigitValue(c));
    }
  }

  /** b blanks, a sign before position k, "0x" or "0" before position p where the base is fixed, and digits up to the
      end; each part is as long as it can be. */
  ghost predicate Grammar(s: string, base0: int, b: nat, k: nat, p: nat, base: int, end: nat) {
    && b <= k <= p <= end <= |s|
    && (forall i :: 0 <= i < b ==> s[i] == ' ' || s[i] == '\t') && (b < |s| ==> s[b] != ' ' && s[b] != '\t')
    && k == (if b < |s| && (s[b] == '+' || s[b] == '-') then b + 1 else b)
    && PrefixIs(s, base0, k, p, base)
    && (forall i {:trigger s[i]} :: p <= i < end ==> IsDigitBelow(s[i], base))
    && (end < |s| ==> !IsDigitBelow(s[end], base))
  }

  predicate PrefixIs(s: string, base0: int, k: nat, p: nat, base: int) {
    var zero := k < |s| && s[k] == '0';
    var hex := zero && k + 1 < |s| && s[k + 1] == 'x';
    && ((base0 == 0 || base0 == 16) && hex ==> p == k + 2 && base == 16)
    && (base0 == 0 && zero && !hex ==> p == k + 1 && base == 8)
    && (base0 == 0 && !zero ==> p == k && base == 10)
    && ((base0 == 16 && !hex) || (base0 != 0 && base0 != 16) ==> p == k && base == base0)
  }

  function Power(base: int, n: nat): int { if n == 0 then 1 else base * Power(base, n - 1) }

  /** The digits from position p on, each times the power of the base that its place stands for. */
  function Sum(s: string, p: nat, end: nat, base: int): int
    requires p <= end <= |s|
    decreases end - p
  {
    if p == end then 0 else DigitValue(s[p]) * Power(base, end - p - 1) + Sum(s, p + 1, end, base)
  }

  /** Every string has exactly one such reading, and it is the one whose value and end are found. */
  lemma ParseIs(s: string, base0: int) returns (b: nat, k: nat, p: nat, base: int, end: nat)
    ensures Grammar(s, base0, b, k, p, base, end) && Parse(s, base0).1 == end
    ensures Parse(s, base0).0 ==
            if b < |s| && s[b] == '-' then -Sum(s, p, end, base) else Sum(s, p, end, base)
  {
    b := AfterBlanks(s, 0);
    k := if At(s, b) == '+' || At(s, b) == '-' then b + 1 else b;
    var prefix := AfterPrefix(s, k, base0);
    p, base := prefix.0, prefix.1;
    end := AfterDigits(s, p, base);
    BlanksAre(s, 0);
    PrefixOf(s, base0, k);
    DigitsAre(s, p, base, end);
    SumIsNumeral(s, p, end, base);
    ParsedAs(s, base0, k, At(s, b) == '-', p, base, end, Sum(s, p, end, base));
  }

  lemma PrefixOf(s: string, base0: int, k: nat)
    requires k <= |s|
    ensures PrefixIs(s, base0, k, AfterPrefix(s, k, base0).0, AfterPrefix(s, k, base0).1)
  {
  }

  lemma {:induction false} BlanksAre(s: string, i: nat)
    requires i <= |s|
    ensures forall j :: i <= j < AfterBlanks(s, i) ==> s[j] == ' ' || s[j] == '\t'
    ensures AfterBlanks(s, i) < |s| ==> s[AfterBlanks(s, i)] != ' ' && s[AfterBlanks(s, i)] != '\t'
    decreases |s| - i
  {
    if i < |s| && IsBlank(s[i]) {
      BlanksAre(s, i + 1);
    }
  }

  lemma DigitsAre(s: string, p: nat, base: int, end: nat)
    requires p <= |s| && end == AfterDigits(s, p, base)
    ensures forall i {:trigger s[i]} :: p <= i < end ==> IsDigitBelow(s[i], base)
    ensures end < |s| ==> !IsDigitBelow(s[end], base)
  {
    forall i | p <= i < end ensures IsDigitBelow(s[i], base) {
      DigitOnly(s[i], base);
    }
    if end < |s| {
      DigitOnly(s[end], base);
    }
  }

  lemma {:induction false} SumIsNumeral(s: string, p: nat, end: nat, base: int)
    requires p <= end <= |s|
    ensures Sum(s, p, end, base) == Numeral(s[p..end], base)
    decreases end - p
  {
    if p < end {
      SumIsNumeral(s, p, end - 1, base);
      SumSnoc(s, p, end, base);
      assert s[p..end] == s[p..end - 1] + [s[end - 1]];
      NumeralSnoc(s[p..end - 1], s[end - 1], base);
    }
  }

  lemma {:induction false} SumSnoc(s: string, p: nat, end: nat, base: int)
    requires p < end <= |s|
    ensures Sum(s, p, end, base) == Sum(s, p, end - 1, base) * base + DigitValue(s[end - 1])
    decreases end - p
  {
    if p + 1 < end {
      SumSnoc(s, p + 1, end, base);
      PowerStep(DigitValue(s[p]), Power(base, end - p - 2), Sum(s, p + 1, end - 1, base), base);
    } else {
      assert Power(base, 0) == 1;
    }
  }

  lemma PowerStep(d: int, power: int, rest: int, base: int)
    ensures (d * power + rest) * base == d * (base * power) + rest * base
  {
  }

  /** The parts are determined by the string. */
  lemma GrammarUnique(s: string, base0: int, b: nat, k: nat, p: nat, base: int, end: nat,
                      b': nat, k': nat, p': nat, base': int, end': nat)
    requires Grammar(s, base0, b, k, p, base, end) && Grammar(s, base0, b', k', p', base', end')
    ensures b == b' && k == k' && p == p' && base == base' && end == end'
  {
    assert b == b';
    assert end == end';
  }

  // ---------- 64-bit arithmetic ----------

  const HALF64: int := 0x8000_0000_0000_0000

  /** A value cut to a signed 64-bit integer: brought into range in steps of 2^64. */
  function Wrap(v: int): (r: int)
    ensures -HALF64 <= r < HALF64
    decreases if v < 0 then -2 * v else 2 * v + 1
  {
    if v < -HALF64 then Wrap(v + 2 * HALF64) else if v >= HALF64 then Wrap(v - 2 * HALF64) else v
  }

  /** It differs by a multiple of 2^64. */
  lemma WrapIs(v: int)
    ensures -0x8000_0000_0000_0000 <= Wrap(v) < 0x8000_0000_0000_0000 && (v - Wrap(v)) % 0x1_0000_0000_0000_0000 == 0
  {
    var k := WrapBy(v);
    MultipleOf64(-k);
  }

  lemma MultipleOf64(k: int)
    ensures k * 0x1_0000_0000_0000_0000 % 0x1_0000_0000_0000_0000 == 0
  {
  }

  /** Values that differ by a multiple of 2^64 are cut to the same. */
  lemma {:induction false} WrapShift(v: int, k: int)
    ensures Wrap(v + k * (2 * HALF64)) == Wrap(v)
    decreases if k < 0 then -k else k
  {
    if k > 0 {
      WrapShift(v, k - 1);
      WrapOnce(v + (k - 1) * (2 * HALF64));
    } else if k < 0 {
      WrapShift(v, k + 1);
      WrapOnce(v + k * (2 * HALF64));
    }
  }

  lemma WrapOnce(v: int)
    ensures Wrap(v + 2 * HALF64) == Wrap(v)
  {
  }

  /** How far Wrap moves a value. */
  lemma {:induction false} WrapBy(v: int) returns (k: int)
    ensures Wrap(v) == v + k * (2 * HALF64)
    decreases if v < 0 then -2 * v else 2 * v + 1
  {
    if v < -HALF64 {
      k := WrapBy(v + 2 * HALF64);
      k := k + 1;
    } else if v >= HALF64 {
      k := WrapBy(v - 2 * HALF64);
      k := k - 1;
    } else {
      k := 0;
    }
  }

  /** Cutting at every digit is cutting at the end. */
  lemma WrapStep(v: int, base: int, d: int)
    ensures Wrap(Wrap(v) * base + d) == Wrap(v * base + d)
  {
    var k := WrapBy(v);
    ShiftStep(v, k, 2 * HALF64, base, d);
    WrapShift(v * base + d, k * base);
  }

  lemma ShiftStep(v: int, k: int, m: int, base: int, d: int)
    ensures (v + k * m) * base + d == (v * base + d) + (k * base) * m
  {
  }

  lemma WrapNegates(v: int)
    ensures Wrap(-Wrap(v)) == Wrap(-v)
  {
    var k := WrapBy(v);
    WrapShift(-v, -k);
  }

  // ---------- strtol ----------

  method SkipBlanks(str: string) returns (s: nat)
    ensures s == AfterBlanks(str, 0)
  {
    s := 0;
    while IsBlank(At(str, s))
      invariant s <= |str| && AfterBlanks(str, 0) == AfterBlanks(str, s)
      decreases |str| - s
    {
      s := s + 1;
    }
  }

  method ReadPrefix(str: string, s0: nat, base0: int) returns (s: nat, base: int)
    requires s0 <= |str|
    ensures (s, base) == AfterPrefix(str, s0, base0)
  {
    s, base := s0, base0;
    if (base == 0 || base == 16) && HexPrefix(str, s) {
      s, base := s + 2, 16;
    } else if base == 0 && At(str, s) == '0' {
      s, base := s + 1, 8;
    } else if base == 0 {
      base := 10;
    }
  }

  method StrToL(str: string, base0: int) returns (r: int, end: nat)
    ensures r == Wrap(Parse(str, base0).0) && end == Parse(str, base0).1
  {
    var s := SkipBlanks(str);
    var neg := false;
    if At(str, s) == '+' {
      s := s + 1;
    } else if At(str, s) == '-' {
      s, neg := s + 1, true;
    }
    ghost var k := s;
    var base;
    s, base := ReadPrefix(str, s, base0);
    var val;
    val, end := ReadDigits(str, s, base);
    ghost var v := Numeral(str[s..end], base);
    ParsedAs(str, base0, k, neg, s, base, end, v);
    WrapNegates(v);
    r := if neg then Wrap(-val) else val;
  }

  /** The parts of a number, put together. */
  lemma ParsedAs(str: string, base0: int, k: nat, neg: bool, s: nat, base: int, end: nat, v: int)
    requires var sign := At(str, AfterBlanks(str, 0));
             neg == (sign == '-') && k == AfterBlanks(str, 0) + if neg || sign == '+' then 1 else 0
    requires k <= |str| && (s, base) == AfterPrefix(str, k, base0)
    requires end == AfterDigits(str, s, base) && v == Numeral(str[s..end], base)
    ensures Parse(str, base0) == (if neg then -v else v, end)
  {
  }

  lemma NumeralSnoc(t: string, c: char, base: int)
    ensures Numeral(t + [c], base) == Numeral(t, base) * base + DigitValue(c)
  {
    assert (t + [c])[..|t|] == t;
  }

  /** The digit loop. */
  method ReadDigits(str: string, start: nat, base: int) returns (val: int, s: nat)
    requires start <= |str|
    ensures s == AfterDigits(str, start, base) && val == Wrap(Numeral(str[start..s], base))
  {
    s, val := start, 0;
    while true
      invariant start <= s <= |str| && val == Wrap(Numeral(str[start..s], base))
      invariant AfterDigits(str, start, base) == AfterDigits(str, s, base)
      decreases |str| - s
    {
      var c := At(str, s);
      var dig := DigitOf(c);
      if dig == 36 || dig >= base {
        break;
      }
      DigitStep(str, start, s, base);
      s, val := s + 1, Wrap(val * base + dig);
    }
  }

  /** The arms for digits, small and capital letters; 36 for the break. */
  method DigitOf(c: char) returns (dig: nat)
    ensures dig == DigitValue(c)
  {
    if '0' <= c <= '9' {
      dig := c as int - '0' as int;
    } else if 'a' <= c <= 'z' {
      dig := c as int - 'a' as int + 10;
    } else if 'A' <= c <= 'Z' {
      dig := c as int - 'A' as int + 10;
    } else {
      dig := 36;
    }
  }

  lemma DigitStep(str: string, start: nat, s: nat, base: int)
    requires start <= s < |str|
    ensures Wrap(Wrap(Numeral(str[start..s], base)) * base + DigitValue(str[s]))
            == Wrap(Numeral(str[start..s + 1], base))
  {
    assert str[start..s + 1] == str[start..s] + [str[s]];
    NumeralSnoc(str[start..s], str[s], base);
    WrapStep(Numeral(str[start..s], base), base, DigitValue(str[s]));
  }

  // ---------- strtol undoes printnum ----------

  /** Every printed digit is accepted and counts what it should. */
  lemma DigitRoundTrip(d: nat)
    requires d < 16
    ensures DigitValue(Digit(d)) == d && !IsBlank(Digit(d)) && Digit(d) !in {'+', '-', 'x'}
  {
  }

  lemma {:induction false} DigitsAreDigits(num: nat, base: nat)
    requires 2 <= base <= 16
    ensures forall i :: 0 <= i < |Digits(num, base)| ==>
              Accepts(Digits(num, base)[i], base) && !IsBlank(Digits(num, base)[i])
              && Digits(num, base)[i] !in {'+', '-', 'x'}
  {
    DigitRoundTrip(num % base);
    QuotientShrinks(num, base);
    if num >= base {
      DigitsAreDigits(num / base, base);
    }
  }

  lemma {:induction false} NumeralOfDigits(num: nat, base: nat)
    requires 2 <= base <= 16
    ensures Numeral(Digits(num, base), base) == num
  {
    DivMod(num, base);
    QuotientShrinks(num, base);
    if num >= base {
      NumeralOfDigits(num / base, base);
      NumeralStep(Digits(num / base, base), num / base, num % base, base);
    } else {
      NumeralStep("", 0, num, base);
      assert "" + [Digit(num)] == [Digit(num)];
    }
  }

  lemma NumeralStep(high: string, q: nat, m: nat, base: nat)
    requires Numeral(high, base) == q && m < 16
    ensures Numeral(high + [Digit(m)], base) == q * base + m
  {
    DigitRoundTrip(m);
    NumeralSnoc(high, Digit(m), base);
  }

  lemma DivMod(num: nat, base: nat)
    requires base > 0
    ensures num == num / base * base + num % base
    ensures num < base ==> num % base == num
  {
  }

  /** The same digit behind two numerals of the same value. */
  lemma SnocSame(a: string, b: string, c: char, base: int)
    requires Numeral(a, base) == Numeral(b, base)
    ensures Numeral(a + [c], base) == Numeral(b + [c], base)
  {
    NumeralSnoc(a, c, base);
    NumeralSnoc(b, c, base);
  }

  lemma {:induction false} AllZeros(k: int, base: int)
    ensures Numeral(Fill('0', k), base) == 0
    decreases k
  {
    if k > 0 {
      AllZeros(k - 1, base);
      NumeralSnoc(Fill('0', k - 1), '0', base);
    }
  }

  lemma {:induction false} LeadingZeros(k: int, t: string, base: int)
    ensures Numeral(Fill('0', k) + t, base) == Numeral(t, base)
    decreases |t|
  {
    var zeros := Fill('0', k);
    if t == "" {
      AllZeros(k, base);
      assert zeros + t == zeros;
    } else {
      var front, c := t[..|t| - 1], t[|t| - 1];
      LeadingZeros(k, front, base);
      SnocSame(zeros + front, front, c, base);
      assert t == front + [c] && zeros + t == (zeros + front) + [c];
    }
  }

  lemma {:induction false} SkipsBlanks(k: int, t: string)
    requires t != "" && !IsBlank(t[0])
    ensures AfterBlanks(Fill(' ', k) + t, 0) == |Fill(' ', k)|
  {
    var s, n := Fill(' ', k) + t, |Fill(' ', k)|;
    BlanksUpTo(s, 0, n);
  }

  lemma {:induction false} BlanksUpTo(s: string, i: nat, n: nat)
    requires i <= n < |s| && !IsBlank(s[n]) && forall j :: i <= j < n ==> IsBlank(s[j])
    ensures AfterBlanks(s, i) == n
    decreases n - i
  {
    if i < n {
      BlanksUpTo(s, i + 1, n);
    }
  }

  lemma {:induction false} AllDigits(s: string, i: nat, base: int)
    requires i <= |s| && forall k :: i <= k < |s| ==> Accepts(s[k], base)
    ensures AfterDigits(s, i, base) == |s|
  {
  }

  /** What a number string of only digits of the base is read as. */
  predicate Plainly(t: string, base: nat) {
    t != "" && forall i :: 0 <= i < |t| ==> Accepts(t[i], base) && !IsBlank(t[i]) && t[i] !in {'+', '-', 'x'}
  }

  lemma ReadAfterBlanks(k: int, t: string, base: nat)
    requires 2 <= base <= 16 && Plainly(t, base)
    ensures Parse(Fill(' ', k) + t, base) == (Numeral(t, base), |Fill(' ', k) + t|)
  {
    SkipsBlanks(k, t);
    DigitTail(Fill(' ', k), t, base);
  }

  lemma ReadAfterSign(t: string, base: nat)
    requires 2 <= base <= 16 && Plainly(t, base)
    ensures Parse("-" + t, base) == (-Numeral(t, base), |t| + 1)
  {
    assert ("-" + t)[0] == '-';
    BlanksUpTo("-" + t, 0, 0);
    DigitTail("-", t, base);
  }

  lemma ZeroPaddedIsPlain(k: int, t: string, base: nat)
    requires 2 <= base && Plainly(t, base)
    ensures Plainly(Fill('0', k) + t, base)
  {
  }

  /** strtol gives v and consumes all of s. */
  predicate IsReadAs(s: string, base: int, v: int) {
    match Parse(s, base)
    case (n, end) => Wrap(n) == v && end == |s|
  }

  /** A string of digits stands for n. */
  predicate Spells(digits: string, base: nat, n: int) {
    Plainly(digits, base) && Numeral(digits, base) == n
  }

  lemma DigitsSpell(num: nat, base: nat) returns (digits: string)
    requires 2 <= base <= 16
    ensures digits == Digits(num, base) && Spells(digits, base, num)
  {
    digits := Digits(num, base);
    DigitsAreDigits(num, base);
    NumeralOfDigits(num, base);
  }

  lemma ZerosSpell(digits: string, base: nat, n: int, k: int) returns (t: string)
    requires 2 <= base <= 16 && Spells(digits, base, n)
    ensures t == Fill('0', k) + digits && Spells(t, base, n)
  {
    t := Fill('0', k) + digits;
    LeadingZeros(k, digits, base);
    ZeroPaddedIsPlain(k, digits, base);
  }

  /** A printed number spells its value unless it begins with a blank. */
  lemma NumberPadded(num: nat, base: nat, width: int, padc: char) returns (t: string, good: bool)
    requires 2 <= base <= 16 && padc in {' ', '0'}
    ensures t == Number(num, base, width, padc) && (good <==> padc == '0' || width <= |Digits(num, base)|)
    ensures if good then Spells(t, base, num) else t != "" && t[0] == ' '
  {
    var digits := DigitsSpell(num, base);
    t, good := PaddedSpells(digits, base, num, width - |digits|, padc);
  }

  lemma PaddedSpells(digits: string, base: nat, n: int, k: int, padc: char) returns (t: string, good: bool)
    requires 2 <= base <= 16 && padc in {' ', '0'} && Spells(digits, base, n)
    ensures t == Fill(padc, k) + digits && (good <==> padc == '0' || k <= 0)
    ensures if good then Spells(t, base, n) else t != "" && t[0] == ' '
  {
    t, good := Fill(padc, k) + digits, padc == '0' || k <= 0;
    if good {
      var zeros := ZerosSpell(digits, base, n, k);
      assert Fill(padc, k) == Fill('0', k);
    }
  }

  /** Parsing gives v at the end of s when `good` holds, and stops before the end otherwise. */
  predicate ParsesIff(s: string, base: int, v: int, good: bool) {
    if good then Parse(s, base) == (v, |s|) else Parse(s, base).1 < |s|
  }

  /** For a value of 64 bits this is being read back or not. */
  lemma ReadIff(s: string, base: int, v: int, good: bool)
    requires -HALF64 <= v < HALF64 && ParsesIff(s, base, v, good)
    ensures IsReadAs(s, base, v) <==> good
  {
  }

  /** For every value, base, width and padding with spaces or zeros, the printed number is read back, to its end. */
  lemma PrintedIsRead(num: nat, base: nat, width: int, padc: char)
    requires base in {8, 10, 16} && padc in {' ', '0'} && num < HALF64
    ensures IsReadAs(Number(num, base, width, padc), base, num)
  {
    NumberParses(num, base, width, padc);
    ReadIff(Number(num, base, width, padc), base, num, true);
  }

  lemma NumberParses(num: nat, base: nat, width: int, padc: char)
    requires 2 <= base <= 16 && padc in {' ', '0'}
    ensures ParsesIff(Number(num, base, width, padc), base, num, true)
  {
    var digits := DigitsSpell(num, base);
    PaddedDigits(digits, base, num, width - |digits|, padc);
  }

  lemma PaddedDigits(digits: string, base: nat, n: nat, k: int, padc: char)
    requires 2 <= base <= 16 && padc in {' ', '0'} && Spells(digits, base, n)
    ensures ParsesIff(Fill(padc, k) + digits, base, n, true)
  {
    if padc == ' ' {
      ReadAfterBlanks(k, digits, base);
    } else {
      var t := ZerosSpell(digits, base, n, k);
      ReadAfterBlanks(0, t, base);
      assert Fill(' ', 0) + t == t;
    }
  }

  /** A printed negative number is read back exactly when its padding, if any, is zeros: behind the sign no blanks are
      skipped. */
  lemma NegativeIsRead(v: int, width: int, padc: char)
    requires padc in {' ', '0'} && -HALF64 <= v < 0
    ensures IsReadAs(SignedNumber(v, width, padc), 10, v) <==> padc == '0' || width <= |Digits(Magnitude(v), 10)|
  {
    MinusParses(v, Magnitude(v), width, padc);
    ReadIff(SignedNumber(v, width, padc), 10, v, padc == '0' || width <= |Digits(Magnitude(v), 10)|);
  }

  lemma MinusParses(v: int, n: nat, width: int, padc: char)
    requires padc in {' ', '0'} && v + n == 0
    ensures ParsesIff("-" + Number(n, 10, width, padc), 10, v, padc == '0' || width <= |Digits(n, 10)|)
  {
    var digits := DigitsSpell(n, 10);
    MinusDigits(digits, v, n, width - |digits|, padc);
  }

  lemma MinusDigits(digits: string, v: int, n: nat, k: int, padc: char)
    requires padc in {' ', '0'} && v + n == 0 && Spells(digits, 10, n)
    ensures ParsesIff("-" + (Fill(padc, k) + digits), 10, v, padc == '0' || k <= 0)
  {
    var t, good := PaddedSpells(digits, 10, n, k, padc);
    if good {
      ReadAfterSign(t, 10);
    } else {
      BlankBehindSign(t);
    }
  }

  lemma BlankBehindSign(t: string)
    requires t != "" && t[0] == ' '
    ensures Parse("-" + t, 10) == (0, 1)
  {
    var s := "-" + t;
    BlanksUpTo(s, 0, 0);
    assert At(s, 1) == ' ' && AfterDigits(s, 1, 10) == 1;
    assert s[1..1] == "";
  }

  /** A printed pointer is read back, with its prefix, exactly when its padding, if any, is zeros: no blanks are skipped
      behind the prefix. */
  lemma PointerIsRead(num: nat, width: int, padc: char, base: nat)
    requires padc in {' ', '0'} && (base == 0 || base == 16) && num < HALF64
    ensures IsReadAs("0x" + Number(num, 16, width, padc), base, num) <==> padc == '0' || width <= |Digits(num, 16)|
  {
    PointerParses(num, width, padc, base);
    ReadIff("0x" + Number(num, 16, width, padc), base, num, padc == '0' || width <= |Digits(num, 16)|);
  }

  lemma PointerParses(num: nat, width: int, padc: char, base: nat)
    requires padc in {' ', '0'} && (base == 0 || base == 16)
    ensures ParsesIff("0x" + Number(num, 16, width, padc), base, num, padc == '0' || width <= |Digits(num, 16)|)
  {
    var t, good := NumberPadded(num, 16, width, padc);
    if good {
      ReadAfterPrefix(t, base);
    } else {
      BlankBehindPrefix(t, base);
    }
  }

  lemma PrefixIsFound(t: string, base: nat)
    requires (base == 0 || base == 16)
    ensures AfterBlanks("0x" + t, 0) == 0 && At("0x" + t, 0) == '0' && AfterPrefix("0x" + t, 0, base) == (2, 16)
  {
    var s := "0x" + t;
    assert s[0] == '0' && s[1] == 'x';
    BlanksUpTo(s, 0, 0);
  }

  lemma ReadAfterPrefix(t: string, base: nat)
    requires (base == 0 || base == 16) && Plainly(t, 16)
    ensures Parse("0x" + t, base) == (Numeral(t, 16), |"0x" + t|)
  {
    PrefixIsFound(t, base);
    DigitTail("0x", t, 16);
  }

  lemma BlankBehindPrefix(t: string, base: nat)
    requires (base == 0 || base == 16) && t != "" && t[0] == ' '
    ensures Parse("0x" + t, base) == (0, 2)
  {
    var s := "0x" + t;
    PrefixIsFound(t, base);
    assert s[2] == ' ' && AfterDigits(s, 2, 16) == 2;
    assert s[2..2] == "";
  }

  /** A string of digits behind something that is not part of the number. */
  lemma DigitTail(front: string, digits: string, base: nat)
    requires 2 <= base <= 16 && digits != ""
    requires forall i :: 0 <= i < |digits| ==> Accepts(digits[i], base) && digits[i] != 'x'
    ensures var s, k := front + digits, |front|;
            && AfterPrefix(s, k, base) == (k, base) && AfterDigits(s, k, base) == |s| && s[k..|s|] == digits
            && At(s, k) == digits[0]
  {
    var s, k := front + digits, |front|;
    AllDigits(s, k, base);
    assert s[k..] == digits;
  }
}

/** gettoken of lab8/user/sh.c: a tokenizer that works in place on the command buffer. */
module Shell {
  import opened Common

  const WHITESPACE := " \t\r\n"
  const SYMBOLS := "<|>&;"

  // ---------- strchr ----------

  /** strchr of lab8/libs/string.c on a string constant: unlike the C library's, it never finds the NUL. */
  method StrChr(s: string, c: char) returns (at: Option<nat>)
    requires forall i :: 0 <= i < |s| ==> s[i] != '\0'
    ensures at.Some? <==> c in s
    ensures at.Some? ==> at.value < |s| && s[at.value] == c && c !in s[..at.value]
    ensures c == '\0' ==> at == None
  {
    var i: nat := 0;
    while i < |s|
      invariant i <= |s| && c !in s[..i]
    {
      if s[i] == c {
        return Some(i);
      }
      i := i + 1;
    }
    assert s[..i] == s;
    return None;
  }

  predicate IsSpace(c: char) { c in WHITESPACE }

  predicate IsSymbol(c: char) { c in SYMBOLS }

  lemma ClassesDiffer(c: char)
    ensures IsSpace(c) ==> !IsSymbol(c) && c != '"' && c != '\0'
    ensures IsSymbol(c) ==> c != '"' && c != '\0'
  {
    assert WHITESPACE[0] == ' ' && WHITESPACE[1] == '\t' && WHITESPACE[2] == '\r' && WHITESPACE[3] == '\n';
  }

  // ---------- the pure tokenizer ----------

  ghost predicate NoNul(t: string) {
    forall i :: 0 <= i < |t| ==> t[i] != '\0'
  }

  function AfterSpace(t: string, i: nat): (j: nat)
    requires i <= |t|
    ensures i <= j <= |t| && (j < |t| ==> !IsSpace(t[j])) && forall k :: i <= k < j ==> IsSpace(t[k])
    decreases |t| - i
  {
    if i < |t| && IsSpace(t[i]) then AfterSpace(t, i + 1) else i
  }

  /** Does the character end a word, outside or inside of quotes? */
  predicate Ends(c: char, quoted: bool) {
    !quoted && (IsSpace(c) || IsSymbol(c))
  }

  function AfterWord(t: string, i: nat, quoted: bool): (j: nat)
    requires i <= |t|
    ensures i <= j <= |t|
    decreases |t| - i
  {
    if i == |t| || Ends(t[i], quoted) then i else AfterWord(t, i + 1, quoted != (t[i] == '"'))
  }

  /** A token: 'w' for a word or the symbol itself, and the place of its text. */
  datatype Token = Token(kind: char, start: nat, end: nat)

  /** The token at a position that holds no white space. */
  function TokenAt(t: string, j: nat): (k: Token)
    requires j < |t| && !IsSpace(t[j])
    ensures k.start == j < k.end <= |t|
  {
    if IsSymbol(t[j]) then Token(t[j], j, j + 1) else Token('w', j, AfterWord(t, j, false))
  }

  function Tokens(t: string, i: nat): seq<Token>
    requires i <= |t|
    decreases |t| - i
  {
    var j := AfterSpace(t, i);
    if j == |t| then [] else [TokenAt(t, j)] + Tokens(t, TokenAt(t, j).end)
  }

  function Unquoted(c: char): char {
    if c == '"' then ' ' else c
  }

  // ---------- the buffer that is left ----------

  /** Where a call that starts at i stops. */
  function Next(t: string, i: nat): (e: nat)
    requires i <= |t|
    ensures i <= e <= |t| && (i < |t| ==> i < e)
  {
    var j := AfterSpace(t, i);
    if j == |t| then j else TokenAt(t, j).end
  }

  /** What that call leaves at position k: NULs for white space and symbols, the word with its quotes turned into
      spaces. */
  function Cell(t: string, i: nat, k: nat): char
    requires i <= k < |t|
  {
    var j := AfterSpace(t, i);
    if k < j || IsSymbol(t[j]) then '\0' else Unquoted(t[k])
  }

  /** What is at position k when all tokens from i on have been taken. */
  function Left(t: string, i: nat, k: nat): char
    requires i <= k < |t|
    decreases |t| - i
  {
    if k < Next(t, i) then Cell(t, i, k) else Left(t, Next(t, i), k)
  }

  /** Every word is then a C string: its text with quotes turned into spaces, and a NUL where it ends. */
  lemma {:induction false} WordsEndInNul(t: string, i: nat, n: nat)
    requires i <= |t| && n < |Tokens(t, i)| && Tokens(t, i)[n].kind == 'w'
    ensures var w := Tokens(t, i)[n];
            && i <= w.start < w.end <= |t|
            && (forall k :: w.start <= k < w.end ==> Left(t, i, k) == Unquoted(t[k]))
            && (w.end < |t| ==> Left(t, i, w.end) == '\0')
    decreases |t| - i
  {
    var j, e := AfterSpace(t, i), Next(t, i);
    var w := Tokens(t, i)[n];
    if n > 0 {
      WordsEndInNul(t, e, n - 1);
      assert w == Tokens(t, e)[n - 1];
    } else {
      SymbolIsNoWord(t[j]);
      assert forall k :: w.start <= k < w.end ==> Left(t, i, k) == Cell(t, i, k);
      if e < |t| {
        WordEnd(t, j, false);
        NulFirst(t, e);
      }
    }
  }

  lemma SymbolIsNoWord(c: char)
    ensures IsSymbol(c) ==> c != 'w'
  {
  }

  /** A word ends at the end of the line, or at white space or a symbol. */
  lemma {:induction false} WordEnd(t: string, i: nat, quoted: bool)
    requires i <= |t| && AfterWord(t, i, quoted) < |t|
    ensures IsSpace(t[AfterWord(t, i, quoted)]) || IsSymbol(t[AfterWord(t, i, quoted)])
    decreases |t| - i
  {
    if !Ends(t[i], quoted) {
      WordEnd(t, i + 1, quoted != (t[i] == '"'));
    }
  }

  lemma NulFirst(t: string, i: nat)
    requires i < |t| && (IsSpace(t[i]) || IsSymbol(t[i]))
    ensures Left(t, i, i) == '\0'
  {
    ClassesDiffer(t[i]);
  }

  /** Only white space, symbols and quotes are overwritten, with NULs and spaces. */
  lemma {:induction false} OnlyDelimiters(t: string, i: nat, k: nat)
    requires i <= k < |t|
    ensures Left(t, i, k) == t[k] || IsSpace(t[k]) || IsSymbol(t[k]) || t[k] == '"'
    ensures Left(t, i, k) in {t[k], '\0', ' '}
    decreases |t| - i
  {
    if k >= Next(t, i) {
      OnlyDelimiters(t, Next(t, i), k);
    }
  }

  // ---------- what tokens are, without the recursion ----------

  predicate Blank(c: char) { c == ' ' || c == '\t' || c == '\r' || c == '\n' }

  predicate Special(c: char) { c == '<' || c == '|' || c == '>' || c == '&' || c == ';' }

  lemma ClassesAre(c: char)
    ensures IsSpace(c) <==> Blank(c)
    ensures IsSymbol(c) <==> Special(c)
  {
    assert WHITESPACE[0] == ' ' && WHITESPACE[1] == '\t' && WHITESPACE[2] == '\r' && WHITESPACE[3] == '\n';
    assert SYMBOLS[0] == '<' && SYMBOLS[1] == '|' && SYMBOLS[2] == '>' && SYMBOLS[3] == '&' && SYMBOLS[4] == ';';
  }

  /** The number of quotes between two positions. */
  function Quotes(t: string, a: nat, b: nat): nat
    requires a <= b <= |t|
  {
    if a == b then 0 else Quotes(t, a, b - 1) + if t[b - 1] == '"' then 1 else 0
  }

  predicate Delimits(c: char) { Blank(c) || Special(c) }

  predicate OddQuotes(t: string, a: nat, b: nat)
    requires a <= b <= |t|
  {
    Quotes(t, a, b) % 2 == 1
  }

  /** Every blank and symbol in [a, e) stands behind an odd number of the quotes from a on. */
  ghost predicate Quoted(t: string, a: nat, e: nat)
    requires a <= e <= |t|
  {
    forall k :: a <= k < e && Delimits(t[k]) ==> OddQuotes(t, a, k)
  }

  /** The line ends at e, or a blank or symbol stands there behind an even number of quotes. */
  ghost predicate Unquoting(t: string, a: nat, e: nat)
    requires a <= e <= |t|
  {
    e < |t| ==> Delimits(t[e]) && !OddQuotes(t, a, e)
  }

  ghost predicate WordAt(t: string, a: nat, e: nat) {
    a < e <= |t| && Quoted(t, a, e) && Unquoting(t, a, e)
  }

  lemma EndsFirst(t: string, a: nat, e: nat, f: nat)
    requires WordAt(t, a, e) && WordAt(t, a, f)
    ensures e >= f
  {
  }

  /** These two facts determine where a word ends. */
  lemma WordEndUnique(t: string, a: nat, e: nat, f: nat)
    requires WordAt(t, a, e) && WordAt(t, a, f)
    ensures e == f
  {
    EndsFirst(t, a, e, f);
    EndsFirst(t, a, f, e);
  }

  /** The word loop, from position i of a word that began at a. */
  lemma {:induction false} WordLoop(t: string, a: nat, i: nat, quoted: bool)
    requires a <= i <= |t| && quoted == OddQuotes(t, a, i) && Quoted(t, a, i)
    ensures var e := AfterWord(t, i, quoted); Quoted(t, a, e) && Unquoting(t, a, e)
    decreases |t| - i
  {
    if i < |t| {
      ClassesAre(t[i]);
      if !Ends(t[i], quoted) {
        QuoteStep(t, a, i);
        QuotedStep(t, a, i);
        WordLoop(t, a, i + 1, quoted != (t[i] == '"'));
      }
    }
  }

  lemma QuotedStep(t: string, a: nat, i: nat)
    requires a <= i < |t| && Quoted(t, a, i) && (Delimits(t[i]) ==> OddQuotes(t, a, i))
    ensures Quoted(t, a, i + 1)
  {
  }

  lemma QuoteStep(t: string, a: nat, i: nat)
    requires a <= i < |t|
    ensures OddQuotes(t, a, i + 1) == (OddQuotes(t, a, i) != (t[i] == '"'))
  {
    Parity(Quotes(t, a, i));
  }

  lemma Parity(n: nat)
    ensures (n + 1) % 2 == 1 <==> n % 2 == 0
  {
  }

  /** A token: a symbol by itself, or a word. */
  ghost predicate TokenOk(t: string, k: Token) {
    && k.start < k.end <= |t| && !Blank(t[k.start])
    && if Special(t[k.start]) then k.kind == t[k.start] && k.end == k.start + 1
       else k.kind == 'w' && WordAt(t, k.start, k.end)
  }

  lemma TokenAtIsOk(t: string, j: nat)
    requires j < |t| && !IsSpace(t[j])
    ensures TokenOk(t, TokenAt(t, j))
  {
    ClassesAre(t[j]);
    if !IsSymbol(t[j]) {
      WordLoop(t, j, j, false);
    }
  }

  ghost predicate Blanks(t: string, x: nat, y: nat)
    requires y <= |t|
  {
    forall k :: x <= k < y ==> Blank(t[k])
  }

  /** The next token from position `from` on, with nothing but blanks before it. */
  ghost predicate NextToken(t: string, from: nat, k: Token) {
    TokenOk(t, k) && from <= k.start && Blanks(t, from, k.start)
  }

  lemma NextTokenUnique(t: string, from: nat, x: Token, y: Token)
    requires NextToken(t, from, x) && NextToken(t, from, y)
    ensures x == y
  {
    assert !Blank(t[x.start]) && !Blank(t[y.start]) && x.start == y.start;
    if !Special(t[x.start]) {
      WordEndUnique(t, x.start, x.end, y.end);
    }
  }

  /** Where token n may start. */
  function Behind(all: seq<Token>, from: nat, n: nat): nat
    requires n <= |all|
  {
    if n == 0 then from else all[n - 1].end
  }

  ghost predicate Placed(t: string, from: nat, all: seq<Token>, n: nat)
    requires n < |all|
  {
    NextToken(t, Behind(all, from, n), all[n])
  }

  /** The tokens of the line from a position on: one next token after the other, and nothing but blanks behind them. */
  ghost predicate Tokenization(t: string, from: nat, all: seq<Token>) {
    && (forall n {:trigger Placed(t, from, all, n)} :: 0 <= n < |all| ==> Placed(t, from, all, n))
    && Blanks(t, Behind(all, from, |all|), |t|)
  }

  lemma {:induction false} TokensAre(t: string, i: nat)
    requires i <= |t|
    ensures Tokenization(t, i, Tokens(t, i))
    decreases |t| - i
  {
    var j := AfterSpace(t, i);
    forall k | i <= k < j ensures Blank(t[k]) {
      ClassesAre(t[k]);
    }
    if j < |t| {
      var first := TokenAt(t, j);
      TokenAtIsOk(t, j);
      TokensAre(t, first.end);
      OneMoreToken(t, i, first, Tokens(t, first.end));
    }
  }

  lemma OneMoreToken(t: string, i: nat, first: Token, rest: seq<Token>)
    requires NextToken(t, i, first) && Tokenization(t, first.end, rest)
    ensures Tokenization(t, i, [first] + rest)
  {
    var all := [first] + rest;
    forall n | 0 <= n < |all| ensures Placed(t, i, all, n) {
      BehindShift(i, first, rest, n);
      assert n > 0 ==> Placed(t, first.end, rest, n - 1);
    }
    BehindShift(i, first, rest, |all|);
  }

  lemma BehindShift(i: nat, first: Token, rest: seq<Token>, n: nat)
    requires n <= |rest| + 1
    ensures var all := [first] + rest;
            Behind(all, i, n) == if n == 0 then i else Behind(rest, first.end, n - 1)
  {
  }

  /** A line has only one tokenization. */
  lemma TokenizationUnique(t: string, from: nat, a: seq<Token>, b: seq<Token>)
    requires Tokenization(t, from, a) && Tokenization(t, from, b)
    ensures a == b
  {
    if |a| <= |b| {
      SamePrefix(t, from, a, b, |a|);
      NothingMore(t, from, a, b);
    } else {
      SamePrefix(t, from, b, a, |b|);
      NothingMore(t, from, b, a);
    }
  }

  lemma {:induction false} SamePrefix(t: string, from: nat, a: seq<Token>, b: seq<Token>, n: nat)
    requires Tokenization(t, from, a) && Tokenization(t, from, b) && n <= |a| <= |b|
    ensures a[..n] == b[..n]
  {
    if n > 0 {
      SamePrefix(t, from, a, b, n - 1);
      SameNext(t, from, a, b, n - 1);
      assert a[..n] == a[..n - 1] + [a[n - 1]] && b[..n] == b[..n - 1] + [b[n - 1]];
    }
  }

  lemma SameNext(t: string, from: nat, a: seq<Token>, b: seq<Token>, n: nat)
    requires Tokenization(t, from, a) && Tokenization(t, from, b) && n < |a| <= |b| && a[..n] == b[..n]
    ensures a[n] == b[n]
  {
    BehindPrefix(a, b, from, n);
    assert Placed(t, from, a, n) && Placed(t, from, b, n);
    NextTokenUnique(t, Behind(a, from, n), a[n], b[n]);
  }

  lemma BehindPrefix(a: seq<Token>, b: seq<Token>, from: nat, n: nat)
    requires n <= |a| && n <= |b| && a[..n] == b[..n]
    ensures Behind(a, from, n) == Behind(b, from, n)
  {
    if n > 0 {
      assert a[n - 1] == a[..n][n - 1] && b[n - 1] == b[..n][n - 1];
    }
  }

  lemma NothingMore(t: string, from: nat, a: seq<Token>, b: seq<Token>)
    requires Tokenization(t, from, a) && Tokenization(t, from, b) && |a| <= |b| && a[..|a|] == b[..|a|]
    ensures a == b
  {
    BehindPrefix(a, b, from, |a|);
    if |a| < |b| {
      assert Placed(t, from, b, |a|);
      NotBlank(t, Behind(b, from, |a|), b[|a|]);
    }
    assert a[..|a|] == a;
  }

  lemma NotBlank(t: string, from: nat, k: Token)
    requires NextToken(t, from, k)
    ensures !Blanks(t, from, |t|)
  {
    assert !Blank(t[k.start]);
  }

  // ---------- the buffer that is left, by position ----------

  /** Position k belongs to a word. */
  ghost predicate InWord(all: seq<Token>, k: nat) {
    exists n :: 0 <= n < |all| && all[n].kind == 'w' && all[n].start <= k < all[n].end
  }

  /** Words keep their text with quotes turned into spaces, and everything else in the line becomes NUL. */
  ghost function Remains(t: string, all: seq<Token>, k: nat): char
    requires k < |t|
  {
    if !InWord(all, k) then '\0' else if t[k] == '"' then ' ' else t[k]
  }

  lemma {:induction false} LeftRemains(t: string, i: nat, k: nat)
    requires i <= k < |t|
    ensures Left(t, i, k) == Remains(t, Tokens(t, i), k)
    decreases |t| - i
  {
    var j := AfterSpace(t, i);
    if j < |t| {
      var first := TokenAt(t, j);
      var rest := Tokens(t, first.end);
      SymbolIsNoWord(t[j]);
      if k < first.end {
        StartsBehind(t, first.end);
        InFirst(first, rest, k);
      } else {
        LeftRemains(t, first.end, k);
        InRest(first, rest, k);
      }
    }
  }

  lemma {:induction false} StartsBehind(t: string, i: nat)
    requires i <= |t|
    ensures forall n :: 0 <= n < |Tokens(t, i)| ==> Tokens(t, i)[n].start >= i
    decreases |t| - i
  {
    var j := AfterSpace(t, i);
    if j < |t| {
      StartsBehind(t, TokenAt(t, j).end);
    }
  }

  lemma InFirst(first: Token, rest: seq<Token>, k: nat)
    requires k < first.end && forall n :: 0 <= n < |rest| ==> rest[n].start >= first.end
    ensures InWord([first] + rest, k) <==> first.kind == 'w' && first.start <= k
  {
    var all := [first] + rest;
    assert all[0] == first;
  }

  lemma InRest(first: Token, rest: seq<Token>, k: nat)
    requires k >= first.end
    ensures InWord([first] + rest, k) <==> InWord(rest, k)
  {
    var all := [first] + rest;
    if InWord(rest, k) {
      var n :| 0 <= n < |rest| && rest[n].kind == 'w' && rest[n].start <= k < rest[n].end;
      assert all[n + 1] == rest[n];
    }
  }

  /** What a call that starts at i returns: 0 when only blanks are left, otherwise the next token. */
  ghost predicate Returns(t: string, i: nat, token: char, p2: nat, next: Option<nat>) {
    if token == '\0' then i <= |t| && Blanks(t, i, |t|) && next == Some(i)
    else
      var end := if next.Some? then next.value else |t|;
      NextToken(t, i, Token(token, p2, end)) && (next.Some? ==> end < |t|)
  }

  /** One call leaves NULs up to the token, its text without quotes if it is a word, and a NUL if it is a symbol. */
  ghost predicate OneLeft(t: string, i: nat, p2: nat, end: nat, word: bool, buf: seq<char>)
    requires end <= |t| && end <= |buf|
  {
    && (forall k :: i <= k < p2 && k < end ==> buf[k] == '\0')
    && (forall k :: i <= k < end && p2 <= k ==> buf[k] == if !word then '\0' else if t[k] == '"' then ' ' else t[k])
  }

  lemma CallIs(t: string, i: nat)
    requires i <= |t|
    ensures AfterSpace(t, i) == |t| ==> Blanks(t, i, |t|)
    ensures AfterSpace(t, i) < |t| ==> NextToken(t, i, TokenAt(t, AfterSpace(t, i)))
  {
    var j := AfterSpace(t, i);
    forall k | i <= k < j ensures Blank(t[k]) {
      ClassesAre(t[k]);
    }
    if j < |t| {
      TokenAtIsOk(t, j);
    }
  }

  // ---------- gettoken ----------

  /** The buffer holds a NUL-terminated line t from position s on. */
  ghost predicate Holds(buf: array<char>, t: string, s: nat)
    reads buf
  {
    && s <= |t| < buf.Length && NoNul(t) && buf[|t|] == '\0'
    && forall k :: s <= k < |t| ==> buf[k] == t[k]
  }

  /** One call: the token ('\0' for none), where its text starts, and the new *p1. */
  method GetToken(buf: array<char>, p1: Option<nat>, ghost t: string) returns (token: char, p2: nat, next: Option<nat>)
    requires p1.Some? ==> Holds(buf, t, p1.value)
    modifies buf
    ensures p1.None? ==> token == '\0' && next == None && buf[..] == old(buf[..])
    ensures p1.Some? ==> Returns(t, p1.value, token, p2, next)
    ensures p1.Some? ==>
              var end := if token != '\0' && next.Some? then next.value else |t|;
              && end < buf.Length && OneLeft(t, p1.value, if token == '\0' then |t| else p2, end, token == 'w', buf[..])
              && (forall k :: 0 <= k < buf.Length && !(p1.value <= k < end) ==> buf[k] == old(buf[k]))
  {
    if p1.Some? {
      CallIs(t, p1.value);
      LastCall(t, p1.value);
      CellsAre(t, p1.value);
    }
    token, p2, next := PureToken(buf, p1, t);
  }

  lemma CellsAre(t: string, i: nat)
    requires i <= |t|
    ensures var j := AfterSpace(t, i);
            && (forall k :: i <= k < Next(t, i) && k < j ==> Cell(t, i, k) == '\0')
            && (j < |t| ==> (TokenAt(t, j).kind == 'w' <==> !IsSymbol(t[j])))
            && (forall k :: j <= k < Next(t, i) ==>
                  Cell(t, i, k) == if IsSymbol(t[j]) then '\0' else if t[k] == '"' then ' ' else t[k])
  {
    if AfterSpace(t, i) < |t| {
      SymbolIsNoWord(t[AfterSpace(t, i)]);
    }
  }

  /** The same in terms of the pure tokenizer. */
  method PureToken(buf: array<char>, p1: Option<nat>, ghost t: string) returns (token: char, p2: nat, next: Option<nat>)
    requires p1.Some? ==> Holds(buf, t, p1.value)
    modifies buf
    ensures p1.None? ==> token == '\0' && next == None && forall k :: 0 <= k < buf.Length ==> buf[k] == old(buf[k])
    ensures p1.Some? ==>
              var i := p1.value;
              && (forall k :: i <= k < Next(t, i) ==> buf[k] == Cell(t, i, k))
              && (forall k :: 0 <= k < buf.Length && !(i <= k < Next(t, i)) ==> buf[k] == old(buf[k]))
              && if AfterSpace(t, i) == |t| then token == '\0' && next == p1
                 else
                   && Token(token, p2, Next(t, i)) == TokenAt(t, AfterSpace(t, i))
                   && next == if Next(t, i) < |t| then Some(Next(t, i)) else None
  {
    p2 := 0;
    if p1.None? {
      return '\0', p2, None;
    }
    var s := ClearSpace(buf, p1.value, t);
    if buf[s] == '\0' {
      return '\0', p2, p1;
    }
    p2 := s;
    token := 'w';
    var symbol := StrChr(SYMBOLS, buf[s]);
    if symbol.Some? {
      token := buf[s];
      buf[s] := '\0';
      s := s + 1;
    } else {
      s := ClearQuotes(buf, s, t);
    }
    next := if buf[s] != '\0' then Some(s) else None;
  }

  /** The white space in front of a token becomes NULs. */
  method ClearSpace(buf: array<char>, i: nat, ghost t: string) returns (s: nat)
    requires Holds(buf, t, i)
    modifies buf
    ensures s == AfterSpace(t, i)
    ensures forall k :: 0 <= k < buf.Length ==> buf[k] == if i <= k < s then '\0' else old(buf[k])
  {
    s := i;
    while true
      invariant i <= s <= |t| < buf.Length && AfterSpace(t, i) == AfterSpace(t, s)
      invariant forall k :: 0 <= k < buf.Length ==> buf[k] == if i <= k < s then '\0' else old(buf[k])
      decreases |t| - s
    {
      var at := StrChr(WHITESPACE, buf[s]);
      if at.None? {
        break;
      }
      buf[s] := '\0';
      s := s + 1;
    }
  }

  /** The word loop: quotes become spaces. */
  method ClearQuotes(buf: array<char>, i: nat, ghost t: string) returns (s: nat)
    requires Holds(buf, t, i)
    modifies buf
    ensures s == AfterWord(t, i, false)
    ensures forall k :: 0 <= k < buf.Length ==> buf[k] == if i <= k < s then Unquoted(old(buf[k])) else old(buf[k])
  {
    s := i;
    var flag := false;
    while buf[s] != '\0'
      invariant i <= s <= |t| < buf.Length && AfterWord(t, i, false) == AfterWord(t, s, flag)
      invariant forall k :: 0 <= k < buf.Length ==> buf[k] == if i <= k < s then Unquoted(old(buf[k])) else old(buf[k])
      decreases |t| - s
    {
      var at := StrChr(WHITESPACE + SYMBOLS, buf[s]);
      if !flag && at.Some? {
        break;
      }
      if buf[s] == '"' {
        buf[s] := ' ';
        flag := !flag;
      }
      s := s + 1;
    }
  }

  // ---------- taking all tokens ----------

  /** The same kinds at the same places. */
  ghost predicate SameTokens(tokens: seq<(char, nat)>, all: seq<Token>) {
    |tokens| == |all| && forall n :: 0 <= n < |tokens| ==> tokens[n] == (all[n].kind, all[n].start)
  }

  /** Calling until it returns 0 gives all tokens of the line, and leaves their words and nothing else in it. */
  method TakeAll(buf: array<char>, ghost t: string) returns (tokens: seq<(char, nat)>, ghost all: seq<Token>)
    requires Holds(buf, t, 0)
    modifies buf
    ensures SameTokens(tokens, all) && Tokenization(t, 0, all)
    ensures forall k :: 0 <= k < buf.Length ==> buf[k] == if k < |t| then Remains(t, all, k) else old(buf[k])
  {
    all := Tokens(t, 0);
    tokens := TakeTokens(buf, t);
    TokensAre(t, 0);
    forall k | 0 <= k < |t| ensures Left(t, 0, k) == Remains(t, all, k) {
      LeftRemains(t, 0, k);
    }
  }

  /** The same in terms of the pure tokenizer. */
  method TakeTokens(buf: array<char>, ghost t: string) returns (tokens: seq<(char, nat)>)
    requires Holds(buf, t, 0)
    modifies buf
    ensures SameTokens(tokens, Tokens(t, 0))
    ensures forall k :: 0 <= k < buf.Length ==> buf[k] == if k < |t| then Left(t, 0, k) else old(buf[k])
  {
    tokens := [];
    var p1: Option<nat>, more := Some(0), true;
    ghost var i: nat, taken: seq<Token>, was := 0, [], buf[..];
    while more
      invariant more ==> Taking(buf, t, p1, tokens, i, taken, was)
      invariant !more ==> SameTokens(tokens, Tokens(t, 0)) && AllTaken(buf, t, was)
      decreases more, |t| - i, if p1.Some? then 1 else 0
    {
      more, p1, tokens, i, taken := TakeNext(buf, t, p1, tokens, i, taken, was);
    }
  }

  /** The state between two calls: the tokens so far, and the text from i on untouched. */
  ghost predicate Taking(buf: array<char>, t: string, p1: Option<nat>, tokens: seq<(char, nat)>, i: nat,
                         taken: seq<Token>, was: seq<char>)
    reads buf
  {
    && |was| == buf.Length && i <= |t| < buf.Length && NoNul(t) && was[|t|] == '\0'
    && (forall k :: 0 <= k < |t| ==> was[k] == t[k])
    && (p1 == Some(i) || (p1 == None && i == |t|))
    && SameTokens(tokens, taken) && Tokens(t, 0) == taken + Tokens(t, i)
    && (forall k :: i <= k < |t| ==> Left(t, 0, k) == Left(t, i, k))
    && (forall k :: 0 <= k < buf.Length ==> buf[k] == if k < i then Left(t, 0, k) else was[k])
  }

  /** Everything of the text is overwritten as described, and nothing else. */
  ghost predicate AllTaken(buf: array<char>, t: string, was: seq<char>)
    reads buf
  {
    |was| == buf.Length && forall k :: 0 <= k < buf.Length ==> buf[k] == if k < |t| then Left(t, 0, k) else was[k]
  }

  /** One more call. */
  method TakeNext(buf: array<char>, ghost t: string, p1: Option<nat>, tokens: seq<(char, nat)>, ghost i: nat,
                  ghost taken: seq<Token>, ghost was: seq<char>)
    returns (more: bool, next: Option<nat>, tokens': seq<(char, nat)>, ghost i': nat, ghost taken': seq<Token>)
    requires Taking(buf, t, p1, tokens, i, taken, was)
    modifies buf
    ensures more ==> Taking(buf, t, next, tokens', i', taken', was)
    ensures more ==> i < i' || (i == i' && p1.Some? && next.None?)
    ensures !more ==> SameTokens(tokens', Tokens(t, 0)) && AllTaken(buf, t, was)
  {
    LastCall(t, i);
    TokenStep(t, i);
    var token, p2;
    token, p2, next := PureToken(buf, p1, t);
    if token == '\0' {
      assert taken + [] == taken;
      return false, next, tokens, i, taken;
    }
    tokens' := tokens + [(token, p2)];
    ghost var one := TokenAt(t, AfterSpace(t, i));
    Assoc(taken, [one], Tokens(t, Next(t, i)));
    return true, next, tokens', Next(t, i), taken + [one];
  }

  /** One token is taken, and the rest is as from its end. */
  lemma TokenStep(t: string, i: nat)
    requires i <= |t| && NoNul(t)
    ensures AfterSpace(t, i) < |t| ==>
              && Tokens(t, i) == [TokenAt(t, AfterSpace(t, i))] + Tokens(t, Next(t, i))
              && TokenAt(t, AfterSpace(t, i)).kind != '\0'
              && (forall k :: i <= k < Next(t, i) ==> Left(t, i, k) == Cell(t, i, k))
              && (forall k :: Next(t, i) <= k < |t| ==> Left(t, i, k) == Left(t, Next(t, i), k))
  {
  }

  /** No token is left. */
  lemma LastCall(t: string, i: nat)
    requires i <= |t|
    ensures AfterSpace(t, i) == |t| ==> Tokens(t, i) == []
    ensures AfterSpace(t, i) == |t| ==> forall k :: i <= k < |t| ==> Left(t, i, k) == Cell(t, i, k)
  {
  }
}

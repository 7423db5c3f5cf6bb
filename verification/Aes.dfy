/** The T-table AES of lab8/tools/kflash.py: key expansion in a rolling buffer, rounds by table
    look-up, and the proof that they compute the cipher and the equivalent inverse cipher of
    FIPS 197.  A 32-bit integer of the program is a Column; `(w >> 24) & 0xFF` is its b0. */
module Aes {
  import opened Common
  import opened AesSpec

  // ---------- the look-up tables, by their defining equations ----------

  function T1<G>(t: Tables<G>, v: G): Column<G> { var s := t.s(v); Column(t.x(s), s, s, Mul3(t, s)) }
  function T2<G>(t: Tables<G>, v: G): Column<G> { var s := t.s(v); Column(Mul3(t, s), t.x(s), s, s) }
  function T3<G>(t: Tables<G>, v: G): Column<G> { var s := t.s(v); Column(s, Mul3(t, s), t.x(s), s) }
  function T4<G>(t: Tables<G>, v: G): Column<G> { var s := t.s(v); Column(s, s, Mul3(t, s), t.x(s)) }

  function U1<G>(t: Tables<G>, v: G): Column<G> { Column(Mul14(t, v), Mul9(t, v), Mul13(t, v), Mul11(t, v)) }
  function U2<G>(t: Tables<G>, v: G): Column<G> { Column(Mul11(t, v), Mul14(t, v), Mul9(t, v), Mul13(t, v)) }
  function U3<G>(t: Tables<G>, v: G): Column<G> { Column(Mul13(t, v), Mul11(t, v), Mul14(t, v), Mul9(t, v)) }
  function U4<G>(t: Tables<G>, v: G): Column<G> { Column(Mul9(t, v), Mul13(t, v), Mul11(t, v), Mul14(t, v)) }

  function T5<G>(t: Tables<G>, v: G): Column<G> { U1(t, t.si(v)) }
  function T6<G>(t: Tables<G>, v: G): Column<G> { U2(t, t.si(v)) }
  function T7<G>(t: Tables<G>, v: G): Column<G> { U3(t, t.si(v)) }
  function T8<G>(t: Tables<G>, v: G): Column<G> { U4(t, t.si(v)) }

  function Xor4<G>(t: Tables<G>, a: Column<G>, b: Column<G>, c: Column<G>, d: Column<G>): Column<G> {
    XorColumn(t, XorColumn(t, XorColumn(t, a, b), c), d)
  }

  /** Four look-ups are a substitution followed by a column mix. */
  lemma EncryptionTables<G>(t: Tables<G>, p: G, q: G, r: G, u: G)
    ensures Xor4(t, T1(t, p), T2(t, q), T3(t, r), T4(t, u)) == MixColumn(t, SubColumn(t, Column(p, q, r, u)))
  {
  }

  lemma DecryptionTables<G>(t: Tables<G>, p: G, q: G, r: G, u: G)
    ensures Xor4(t, T5(t, p), T6(t, q), T7(t, r), T8(t, u)) == InvMixColumn(t, InvSubColumn(t, Column(p, q, r, u)))
  {
  }

  lemma KeyTables<G>(t: Tables<G>, w: Column<G>)
    ensures Xor4(t, U1(t, w.b0), U2(t, w.b1), U3(t, w.b2), U4(t, w.b3)) == InvMixColumn(t, w)
  {
  }

  // ---------- words, rows and blocks ----------

  /** i modulo 4, for i below 8. */
  function Wrap(i: nat): (r: nat)
    requires i < 8
    ensures r == i % 4
  {
    if i < 4 then i else i - 4
  }

  type Rows<G> = seq<seq<Column<G>>>

  function AsState<G>(row: seq<Column<G>>): State<G>
    requires |row| == 4
  {
    State(row[0], row[1], row[2], row[3])
  }

  function WordAt<G>(bytes: seq<G>, i: nat): Column<G>
    requires 4 * i + 4 <= |bytes|
  {
    Column(bytes[4 * i], bytes[4 * i + 1], bytes[4 * i + 2], bytes[4 * i + 3])
  }

  function FromBytes<G>(bytes: seq<G>): State<G>
    requires |bytes| == 16
  {
    State(WordAt(bytes, 0), WordAt(bytes, 1), WordAt(bytes, 2), WordAt(bytes, 3))
  }

  function ColumnBytes<G>(c: Column<G>): seq<G> { [c.b0, c.b1, c.b2, c.b3] }

  function ToBytes<G>(s: State<G>): (bytes: seq<G>)
    ensures |bytes| == 16
  {
    ColumnBytes(s.c0) + ColumnBytes(s.c1) + ColumnBytes(s.c2) + ColumnBytes(s.c3)
  }

  lemma BytesOfState<G>(s: State<G>)
    ensures FromBytes(ToBytes(s)) == s
  {
  }

  lemma StateOfBytes<G>(bytes: seq<G>)
    requires |bytes| == 16
    ensures ToBytes(FromBytes(bytes)) == bytes
  {
  }

  // ---------- key expansion ----------

  predicate Shape<G>(k: Rows<G>, rounds: nat) {
    |k| == rounds + 1 && forall r :: 0 <= r < |k| ==> |k[r]| == 4
  }

  function Put<G>(k: Rows<G>, r: nat, c: nat, w: Column<G>): Rows<G>
    requires r < |k| && c < |k[r]|
  {
    k[r := k[r][c := w]]
  }

  /** The words `ws` are in place, in reading order in `ke` and with the rows reversed in `kd`. */
  ghost predicate Filled<G>(ws: seq<Column<G>>, ke: Rows<G>, kd: Rows<G>, rounds: nat) {
    && Shape(ke, rounds) && Shape(kd, rounds) && |ws| <= 4 * (rounds + 1)
    && (forall r, c :: 0 <= r <= rounds && 0 <= c < 4 && 4 * r + c < |ws| ==> ke[r][c] == ws[4 * r + c])
    && (forall r, c ::
          0 <= r <= rounds && 0 <= c < 4 && 4 * (rounds - r) + c < |ws| ==> kd[r][c] == ws[4 * (rounds - r) + c])
  }

  /** Stores one word in both schedules. */
  method Store<G>(ghost ws: seq<Column<G>>, ke0: Rows<G>, kd0: Rows<G>, i: nat, w: Column<G>, rounds: nat)
    returns (ke: Rows<G>, kd: Rows<G>)
    requires Filled(ws, ke0, kd0, rounds) && i == |ws| < 4 * (rounds + 1)
    ensures Filled(ws + [w], ke, kd, rounds)
  {
    var r, c := i / 4, i % 4;
    ke := Put(ke0, r, c, w);
    kd := Put(kd0, rounds - r, c, w);
  }

  ghost predicate RconTable<G>(t: Tables<G>, rcon: seq<G>) {
    |rcon| >= 10 && forall i :: 0 <= i < |rcon| ==> rcon[i] == Rcon(t, i)
  }

  lemma DivMod(d: nat, q: nat, j: nat)
    requires j < d && (d == 4 || d == 6 || d == 8)
    ensures (d * q + j) / d == q && (d * q + j) % d == j
  {
    if d == 4 {
      assert (4 * q + j) / 4 == q;
    } else if d == 6 {
      assert (6 * q + j) / 6 == q;
    } else {
      assert (8 * q + j) / 8 == q;
    }
  }

  lemma BlockIndex(nk: nat, base: nat, j: nat)
    requires (nk == 4 || nk == 6 || nk == 8) && Phase(nk, base) == 0 && j < nk
    ensures Phase(nk, base + nk + j) == j && Block(nk, base + nk + j) == Block(nk, base) + 1
  {
    var q := Block(nk, base);
    assert base == nk * q;
    DivMod(nk, q + 1, j);
    assert base + nk + j == nk * (q + 1) + j;
  }

  /** What goes into word j of the block after the one at `base`. */
  lemma FeedAt<G>(t: Tables<G>, nk: nat, base: nat, j: nat, temp: Column<G>)
    requires (nk == 4 || nk == 6 || nk == 8) && Phase(nk, base) == 0 && j < nk
    ensures Feed(t, nk, base + nk + j, temp)
         == if j == 0 then XorColumn(t, SubColumn(t, RotWord(temp)),
                                     Column(Rcon(t, Block(nk, base)), t.zero, t.zero, t.zero))
            else if nk == 8 && j == 4 then SubColumn(t, temp)
            else temp
  {
    BlockIndex(nk, base, j);
  }

  /** Part way through a turn of the expansion loop: the first i words of the buffer are new. */
  ghost predicate Rolling<G>(ws: seq<Column<G>>, tk: seq<Column<G>>, base: nat, i: nat) {
    && i <= |tk| && |ws| == base + |tk| + i
    && (forall j :: 0 <= j < i ==> tk[j] == ws[base + |tk| + j])
    && (forall j :: i <= j < |tk| ==> tk[j] == ws[base + j])
  }

  lemma RollingTail<G>(ws: seq<Column<G>>, tk: seq<Column<G>>, base: nat)
    requires Rolling(ws, tk, base, 0)
    ensures tk == ws[base..]
  {
  }

  /** A fully rolled buffer is the unrolled buffer of the next block. */
  lemma RolledOver<G>(ws: seq<Column<G>>, tk: seq<Column<G>>, base: nat)
    requires Rolling(ws, tk, base, |tk|)
    ensures Rolling(ws, tk, base + |tk|, 0)
  {
  }

  lemma Roll<G>(ws: seq<Column<G>>, tk: seq<Column<G>>, base: nat, i: nat, w: Column<G>)
    requires Rolling(ws, tk, base, i) && i < |tk|
    ensures Rolling(ws + [w], tk[i := w], base, i + 1)
  {
  }

  /** The two words that the next one is made from, in the buffer. */
  lemma RolledWords<G>(ws: seq<Column<G>>, tk: seq<Column<G>>, base: nat, i: nat)
    requires i < |tk| && Rolling(ws, tk, base, i)
    ensures |ws| == base + |tk| + i && ws[|ws| - |tk|] == tk[i]
    ensures ws[|ws| - 1] == if i == 0 then tk[|tk| - 1] else tk[i - 1]
  {
  }

  lemma MadeFrom<G>(t: Tables<G>, nk: nat, ws: seq<Column<G>>, back: Column<G>, fed: Column<G>)
    requires 0 < nk <= |ws| && ws[|ws| - nk] == back && Feed(t, nk, |ws|, ws[|ws| - 1]) == fed
    ensures NextKeyWord(t, nk, ws) == XorColumn(t, back, fed)
  {
  }

  lemma FirstRolled<G>(t: Tables<G>, ws: seq<Column<G>>, tk: seq<Column<G>>, rc: G, base: nat)
    requires |tk| == 4 || |tk| == 6 || |tk| == 8
    requires Rolling(ws, tk, base, 0) && Phase(|tk|, base) == 0 && rc == Rcon(t, Block(|tk|, base))
    ensures NextKeyWord(t, |tk|, ws)
            == XorColumn(t, tk[0], XorColumn(t, SubColumn(t, RotWord(tk[|tk| - 1])),
                                             Column(rc, t.zero, t.zero, t.zero)))
  {
    RolledWords(ws, tk, base, 0);
    FeedAt(t, |tk|, base, 0, tk[|tk| - 1]);
    MadeFrom(t, |tk|, ws, tk[0], XorColumn(t, SubColumn(t, RotWord(tk[|tk| - 1])), Column(rc, t.zero, t.zero, t.zero)));
  }

  lemma LaterRolled<G>(t: Tables<G>, ws: seq<Column<G>>, tk: seq<Column<G>>, base: nat, i: nat)
    requires |tk| == 4 || |tk| == 6 || |tk| == 8
    requires 0 < i < |tk| && Rolling(ws, tk, base, i) && Phase(|tk|, base) == 0
    ensures NextKeyWord(t, |tk|, ws)
            == XorColumn(t, tk[i], if |tk| == 8 && i == 4 then SubColumn(t, tk[i - 1]) else tk[i - 1])
  {
    RolledWords(ws, tk, base, i);
    FeedAt(t, |tk|, base, i, tk[i - 1]);
    MadeFrom(t, |tk|, ws, tk[i], if |tk| == 8 && i == 4 then SubColumn(t, tk[i - 1]) else tk[i - 1]);
  }

  /** The new value of buffer word i, from the old one and the word before it. */
  method RollWord<G>(t: Tables<G>, ghost ws: seq<Column<G>>, tk: seq<Column<G>>, rc: G, ghost base: nat, i: nat)
    returns (w: Column<G>)
    requires |tk| == 4 || |tk| == 6 || |tk| == 8
    requires i < |tk| && Rolling(ws, tk, base, i) && Phase(|tk|, base) == 0 && rc == Rcon(t, Block(|tk|, base))
    ensures w == NextKeyWord(t, |tk|, ws)
  {
    if i == 0 {
      var tt := tk[|tk| - 1];
      FirstRolled(t, ws, tk, rc, base);
      w := XorColumn(t, tk[0], XorColumn(t, Column(t.s(tt.b1), t.s(tt.b2), t.s(tt.b3), t.s(tt.b0)),
                                         Column(rc, t.zero, t.zero, t.zero)));
    } else {
      var tt := tk[i - 1];
      LaterRolled(t, ws, tk, base, i);
      w := if |tk| == 8 && i == 4 then XorColumn(t, tk[i], SubColumn(t, tt)) else XorColumn(t, tk[i], tt);
    }
  }

  method RollNext<G(!new)>(t: Tables<G>, ghost next: seq<Column<G>> -> Column<G>, ghost ws: seq<Column<G>>,
                           tk: seq<Column<G>>, rc: G, ghost base: nat, i: nat)
    returns (w: Column<G>)
    requires |tk| == 4 || |tk| == 6 || |tk| == 8
    requires KeyLike(t, |tk|, next)
    requires i < |tk| && Rolling(ws, tk, base, i) && Phase(|tk|, base) == 0 && rc == Rcon(t, Block(|tk|, base))
    ensures w == next(ws)
  {
    w := RollWord(t, ws, tk, rc, base, i);
    assert StepsAt(t, |tk|, next, ws);
  }

  /** Replaces buffer word i, which extends the known words by one. */
  method RollStep<G(!new)>(t: Tables<G>, ghost next: seq<Column<G>> -> Column<G>, ghost ws: seq<Column<G>>,
                           tk0: seq<Column<G>>, rc: G, ghost base: nat, i: nat)
    returns (tk: seq<Column<G>>)
    requires |tk0| == 4 || |tk0| == 6 || |tk0| == 8
    requires KeyLike(t, |tk0|, next)
    requires i < |tk0| && Rolling(ws, tk0, base, i) && Phase(|tk0|, base) == 0 && rc == Rcon(t, Block(|tk0|, base))
    ensures |tk| == |tk0| && Rolling(ws + [next(ws)], tk, base, i + 1)
  {
    var w := RollNext(t, next, ws, tk0, rc, base, i);
    Roll(ws, tk0, base, i, w);
    tk := tk0[i := w];
  }

  lemma ExtendStep<W>(start: seq<W>, next: seq<W> -> W, n: nat, ws: seq<W>)
    requires |start| <= n && ws == Extend(start, next, n)
    ensures Extend(start, next, n + 1) == ws + [next(ws)]
  {
  }

  /** One turn of the expansion loop: the buffer moves on by one block. */
  method NextBlock<G(!new)>(t: Tables<G>, ghost key: seq<Column<G>>, ghost next: seq<Column<G>> -> Column<G>,
                            tk0: seq<Column<G>>, rc: G, ghost base: nat)
    returns (tk: seq<Column<G>>, ghost ws: seq<Column<G>>)
    requires KeyWords(key) && |tk0| == |key| && Phase(|key|, base) == 0 && rc == Rcon(t, Block(|key|, base))
    requires KeyLike(t, |key|, next)
    requires Rolling(Extend(key, next, base + |key|), tk0, base, 0)
    ensures |ws| == base + |key| + |key| && ws == Extend(key, next, |ws|)
    ensures |tk| == |key| && Rolling(ws, tk, base + |key|, 0)
  {
    tk := tk0;
    var i := 0;
    ws := Extend(key, next, base + |key|);
    while i < |tk|
      invariant 0 <= i <= |tk| == |key| && |ws| == base + |key| + i
      invariant ws == Extend(key, next, |ws|)
      invariant Rolling(ws, tk, base, i)
    {
      tk := RollStep(t, next, ws, tk, rc, base, i);
      ExtendStep(key, next, |ws|, ws);
      i, ws := i + 1, ws + [next(ws)];
    }
    RolledOver(ws, tk, base);
  }

  function WordsOf<G>(bytes: seq<G>): (ws: seq<Column<G>>)
    requires |bytes| % 4 == 0
    ensures |ws| == |bytes| / 4
  {
    seq(|bytes| / 4, i requires 0 <= i < |bytes| / 4 => WordAt(bytes, i))
  }

  /** Copies words from the buffer into both schedules until either runs out. */
  method StoreBlock<G>(ghost ws: seq<Column<G>>, ke0: Rows<G>, kd0: Rows<G>, from: nat, tk: seq<Column<G>>, rounds: nat)
    returns (ke: Rows<G>, kd: Rows<G>, to: nat)
    requires from <= 4 * (rounds + 1) && from + |tk| == |ws| && tk == ws[from..]
    requires Filled(ws[..from], ke0, kd0, rounds)
    ensures to == (if from + |tk| <= 4 * (rounds + 1) then from + |tk| else 4 * (rounds + 1))
    ensures Filled(ws[..to], ke, kd, rounds)
  {
    ke, kd, to := ke0, kd0, from;
    var j := 0;
    while j < |tk| && to < 4 * (rounds + 1)
      invariant 0 <= j <= |tk| && to == from + j <= 4 * (rounds + 1)
      invariant Filled(ws[..to], ke, kd, rounds)
    {
      ke, kd := Store(ws[..to], ke, kd, to, tk[j], rounds);
      assert ws[..to] + [tk[j]] == ws[..to + 1];
      j, to := j + 1, to + 1;
    }
  }

  /** Where block n of nk words starts. */
  function BlockStart(nk: nat, n: nat): nat {
    if n == 0 then 0 else BlockStart(nk, n - 1) + nk
  }

  lemma {:induction false} AtBlock(nk: nat, n: nat)
    requires nk == 4 || nk == 6 || nk == 8
    ensures Phase(nk, BlockStart(nk, n)) == 0 && Block(nk, BlockStart(nk, n)) == n
  {
    if n > 0 {
      AtBlock(nk, n - 1);
      BlockIndex(nk, BlockStart(nk, n - 1), 0);
    }
  }

  lemma BlockBound(nk: nat, base: nat)
    requires (nk == 4 || nk == 6 || nk == 8) && base + nk < 4 * (NumRounds(nk) + 1)
    ensures Block(nk, base) < 10
  {
  }

  /** The state at the head of the expansion loop: `base + Nk` words are known, `at` are stored. */
  ghost predicate Expanding<G>(key: seq<Column<G>>, next: seq<Column<G>> -> Column<G>, ke: Rows<G>, kd: Rows<G>,
                               tk: seq<Column<G>>, n: nat, base: nat, at: nat)
  {
    var rounds := NumRounds(|key|);
    && KeyWords(key) && |tk| == |key| && base == BlockStart(|key|, n)
    && at == (if base + |key| <= 4 * (rounds + 1) then base + |key| else 4 * (rounds + 1))
    && Rolling(Extend(key, next, base + |key|), tk, base, 0)
    && Filled(Extend(key, next, base + |key|)[..at], ke, kd, rounds)
  }

  /** The next block of the expanded key, with the round constant that `n` points to. */
  method NextBuffer<G(!new)>(t: Tables<G>, rcon: seq<G>, ghost key: seq<Column<G>>,
                             ghost next: seq<Column<G>> -> Column<G>, tk0: seq<Column<G>>, n: nat, ghost base: nat)
    returns (tk: seq<Column<G>>)
    requires RconTable(t, rcon) && KeyWords(key) && KeyLike(t, |key|, next) && |tk0| == |key|
    requires base == BlockStart(|key|, n) && base + |key| < 4 * (NumRounds(|key|) + 1)
    requires Rolling(Extend(key, next, base + |key|), tk0, base, 0)
    ensures |tk| == |key| && Rolling(Extend(key, next, base + |key| + |key|), tk, base + |key|, 0)
  {
    AtBlock(|key|, n);
    BlockBound(|key|, base);
    ghost var ws;
    tk, ws := NextBlock(t, key, next, tk0, rcon[n], base);
  }

  method ExpandTurn<G(!new)>(t: Tables<G>, rcon: seq<G>, ghost key: seq<Column<G>>,
                             ghost next: seq<Column<G>> -> Column<G>, ke0: Rows<G>, kd0: Rows<G>, tk0: seq<Column<G>>,
                             n: nat, ghost base: nat, at0: nat, rounds: nat)
    returns (ke: Rows<G>, kd: Rows<G>, tk: seq<Column<G>>, at: nat)
    requires RconTable(t, rcon) && KeyWords(key) && rounds == NumRounds(|key|)
    requires KeyLike(t, |key|, next)
    requires Expanding(key, next, ke0, kd0, tk0, n, base, at0) && at0 < 4 * (rounds + 1)
    ensures at > at0 && Expanding(key, next, ke, kd, tk, n + 1, base + |key|, at)
  {
    ghost var ws := Extend(key, next, base + |key| + |key|);
    tk := NextWords(t, rcon, key, next, ke0, kd0, tk0, n, base, at0);
    ke, kd, at := StoreBlock(ws, ke0, kd0, at0, tk, rounds);
    AfterStore(key, next, ke, kd, tk, n + 1, base + |key|, at);
  }

  /** The next words of the schedule, which are the ones to be stored. */
  method NextWords<G(!new)>(t: Tables<G>, rcon: seq<G>, ghost key: seq<Column<G>>,
                            ghost next: seq<Column<G>> -> Column<G>, ghost ke: Rows<G>, ghost kd: Rows<G>,
                            tk0: seq<Column<G>>, n: nat, ghost base: nat, ghost at: nat)
    returns (tk: seq<Column<G>>)
    requires RconTable(t, rcon) && KeyWords(key) && KeyLike(t, |key|, next)
    requires Expanding(key, next, ke, kd, tk0, n, base, at) && at < 4 * (NumRounds(|key|) + 1)
    ensures |tk| == |key| && Rolling(Extend(key, next, base + |key| + |key|), tk, base + |key|, 0)
    ensures at == base + |key| && tk == Extend(key, next, base + |key| + |key|)[at..]
    ensures Filled(Extend(key, next, base + |key| + |key|)[..at], ke, kd, NumRounds(|key|))
  {
    tk := NextBuffer(t, rcon, key, next, tk0, n, base);
    BeforeStore(key, next, ke, kd, tk, base, at);
  }

  lemma AfterStore<G>(key: seq<Column<G>>, next: seq<Column<G>> -> Column<G>, ke: Rows<G>, kd: Rows<G>,
                      tk: seq<Column<G>>, n: nat, base: nat, at: nat)
    requires KeyWords(key) && |tk| == |key| && base == BlockStart(|key|, n)
    requires var end := 4 * (NumRounds(|key|) + 1); at == if base + |key| <= end then base + |key| else end
    requires var ws := Extend(key, next, base + |key|);
             Rolling(ws, tk, base, 0) && Filled(ws[..at], ke, kd, NumRounds(|key|))
    ensures Expanding(key, next, ke, kd, tk, n, base, at)
  {
  }

  lemma BeforeStore<G>(key: seq<Column<G>>, next: seq<Column<G>> -> Column<G>, ke: Rows<G>, kd: Rows<G>,
                       tk: seq<Column<G>>, base: nat, at: nat)
    requires |tk| == |key| && at == base + |key|
    requires Rolling(Extend(key, next, base + |key| + |key|), tk, base + |key|, 0)
    requires Filled(Extend(key, next, base + |key|)[..at], ke, kd, NumRounds(|key|))
    ensures tk == Extend(key, next, base + |key| + |key|)[at..]
    ensures Filled(Extend(key, next, base + |key| + |key|)[..at], ke, kd, NumRounds(|key|))
  {
    RollingTail(Extend(key, next, base + |key| + |key|), tk, base + |key|);
    ExtendPrefix(key, next, base + |key|, base + |key| + |key|);
    assert Extend(key, next, base + |key|)[..at] == Extend(key, next, base + |key|);
  }

  /** All the words of the expanded key, in both schedules. */
  method FillSchedules<G(!new)>(t: Tables<G>, rcon: seq<G>, key: seq<Column<G>>,
                                ghost next: seq<Column<G>> -> Column<G>)
    returns (ke: Rows<G>, kd: Rows<G>)
    requires KeyWords(key) && RconTable(t, rcon)
    requires KeyLike(t, |key|, next)
    ensures Filled(Extend(key, next, 4 * (NumRounds(|key|) + 1)), ke, kd, NumRounds(|key|))
  {
    var rounds := NumRounds(|key|);
    var zero := Column(t.zero, t.zero, t.zero, t.zero);
    ke := seq(rounds + 1, _ => [zero, zero, zero, zero]);
    kd := ke;
    var at;
    ke, kd, at := StoreBlock(key, ke, kd, 0, key, rounds);
    ke, kd := ExpandAll(t, rcon, key, next, ke, kd, at);
  }

  /** The expansion loop, from the words of the key on. */
  method ExpandAll<G(!new)>(t: Tables<G>, rcon: seq<G>, key: seq<Column<G>>, ghost next: seq<Column<G>> -> Column<G>,
                            ke0: Rows<G>, kd0: Rows<G>, at0: nat)
    returns (ke: Rows<G>, kd: Rows<G>)
    requires KeyWords(key) && RconTable(t, rcon) && KeyLike(t, |key|, next)
             && Expanding(key, next, ke0, kd0, key, 0, 0, at0)
    ensures Filled(Extend(key, next, 4 * (NumRounds(|key|) + 1)), ke, kd, NumRounds(|key|))
  {
    var rounds := NumRounds(|key|);
    var at;
    ke, kd, at := ke0, kd0, at0;
    var tk, n: nat := key, 0;
    ghost var base: nat := 0;
    while at < 4 * (rounds + 1)
      invariant Expanding(key, next, ke, kd, tk, n, base, at)
      decreases 4 * (rounds + 1) - at
    {
      ke, kd, tk, at := ExpandTurn(t, rcon, key, next, ke, kd, tk, n, base, at, rounds);
      n, base := n + 1, base + |key|;
    }
    AllExpanded(key, next, ke, kd, tk, n, base, at);
  }

  lemma AllExpanded<G>(key: seq<Column<G>>, next: seq<Column<G>> -> Column<G>, ke: Rows<G>, kd: Rows<G>,
                       tk: seq<Column<G>>, n: nat, base: nat, at: nat)
    requires Expanding(key, next, ke, kd, tk, n, base, at) && at >= 4 * (NumRounds(|key|) + 1)
    ensures Filled(Extend(key, next, 4 * (NumRounds(|key|) + 1)), ke, kd, NumRounds(|key|))
  {
    ExtendPrefix(key, next, 4 * (NumRounds(|key|) + 1), base + |key|);
  }

  /** Row r of the decryption schedule before and after mixing back. */
  ghost predicate UnmixedRow<G>(l: Layers<State<G>>, row0: seq<Column<G>>, row: seq<Column<G>>, inner: bool) {
    |row0| == |row| == 4 && AsState(row) == if inner then l.unmix(AsState(row0)) else AsState(row0)
  }

  /** One row of the decryption schedule is mixed back through the U tables. */
  method UnmixRow<G(!new)>(t: Tables<G>, ghost l: Layers<State<G>>, row0: seq<Column<G>>) returns (row: seq<Column<G>>)
    requires AesLike(t, l) && |row0| == 4
    ensures UnmixedRow(l, row0, row, true)
  {
    row := row0;
    var j := 0;
    while j < 4
      invariant 0 <= j <= 4 && |row| == 4
      invariant forall c :: 0 <= c < 4 ==> row[c] == if c < j then InvMixColumn(t, row0[c]) else row0[c]
    {
      var tt := row[j];
      KeyTables(t, tt);
      row := row[j := Xor4(t, U1(t, tt.b0), U2(t, tt.b1), U3(t, tt.b2), U4(t, tt.b3))];
      j := j + 1;
    }
    assert UnmixesAt(t, l, AsState(row0));
  }

  /** The inner decryption round keys are mixed back. */
  method Unmix<G(!new)>(t: Tables<G>, ghost l: Layers<State<G>>, kd0: Rows<G>, rounds: nat) returns (kd: Rows<G>)
    requires AesLike(t, l) && Shape(kd0, rounds) && rounds >= 1
    ensures Shape(kd, rounds)
    ensures forall r :: 0 <= r <= rounds ==> UnmixedRow(l, kd0[r], kd[r], 1 <= r < rounds)
  {
    kd := kd0;
    var r := 1;
    while r < rounds
      invariant 1 <= r <= rounds && Shape(kd, rounds)
      invariant forall q :: 0 <= q <= rounds ==> UnmixedRow(l, kd0[q], kd[q], 1 <= q < r)
      invariant forall q :: r <= q <= rounds ==> kd[q] == kd0[q]
    {
      var row := UnmixRow(t, l, kd[r]);
      kd := kd[r := row];
      r := r + 1;
    }
  }

  datatype Schedules<G> = Schedules(ke: Rows<G>, kd: Rows<G>)

  /** The rows hold the round keys `rk`. */
  ghost predicate RowsAre<G>(k: Rows<G>, rk: seq<State<G>>) {
    |k| == |rk| && (forall r :: 0 <= r < |k| ==> |k[r]| == 4) && (forall r :: 0 <= r < |k| ==> AsState(k[r]) == rk[r])
  }

  lemma FilledRow<G>(ws: seq<Column<G>>, ke: Rows<G>, kd: Rows<G>, rounds: nat, r: nat)
    requires Filled(ws, ke, kd, rounds) && |ws| == 4 * (rounds + 1) && r <= rounds
    ensures AsState(ke[r]) == RoundKeys(ws)[r] && AsState(kd[r]) == RoundKeys(ws)[rounds - r]
  {
    assert ke[r][0] == ws[4 * r + 0] && ke[r][1] == ws[4 * r + 1] && ke[r][2] == ws[4 * r + 2]
           && ke[r][3] == ws[4 * r + 3];
    var q := rounds - r;
    assert kd[r][0] == ws[4 * q + 0] && kd[r][1] == ws[4 * q + 1] && kd[r][2] == ws[4 * q + 2]
           && kd[r][3] == ws[4 * q + 3];
  }

  lemma RowsScheduled<G>(l: Layers<State<G>>, ws: seq<Column<G>>, ke: Rows<G>, kd0: Rows<G>, kd: Rows<G>, rounds: nat,
                         r: nat)
    requires Filled(ws, ke, kd0, rounds) && |ws| == 4 * (rounds + 1) && r <= rounds && rounds >= 1 && Shape(kd, rounds)
    requires UnmixedRow(l, kd0[r], kd[r], 1 <= r < rounds)
    ensures AsState(ke[r]) == RoundKeys(ws)[r] && AsState(kd[r]) == InverseKeys(l, RoundKeys(ws))[r]
  {
    FilledRow(ws, ke, kd0, rounds, r);
  }

  lemma FilledIsScheduled<G>(l: Layers<State<G>>, ws: seq<Column<G>>, ke: Rows<G>, kd0: Rows<G>, kd: Rows<G>,
                             rounds: nat)
    requires Filled(ws, ke, kd0, rounds) && |ws| == 4 * (rounds + 1) && rounds >= 1 && Shape(kd, rounds)
    requires forall r :: 0 <= r <= rounds ==> UnmixedRow(l, kd0[r], kd[r], 1 <= r < rounds)
    ensures RowsAre(ke, RoundKeys(ws)) && RowsAre(kd, InverseKeys(l, RoundKeys(ws)))
  {
    forall r | 0 <= r <= rounds
      ensures AsState(ke[r]) == RoundKeys(ws)[r] && AsState(kd[r]) == InverseKeys(l, RoundKeys(ws))[r]
    {
      RowsScheduled(l, ws, ke, kd0, kd, rounds, r);
    }
  }

  /** The constructor of AES: an invalid key size is refused, and otherwise the two schedules are
      those of section 5.2 and section 5.3.5 of FIPS 197. */
  method ExpandKey<G(!new)>(t: Tables<G>, rcon: seq<G>, key: seq<G>,
                            ghost l: Layers<State<G>>, ghost next: seq<Column<G>> -> Column<G>)
    returns (res: Option<Schedules<G>>)
    requires RconTable(t, rcon) && AesLike(t, l) && (|key| >= 4 ==> KeyLike(t, |key| / 4, next))
    ensures res.None? <==> |key| != 16 && |key| != 24 && |key| != 32
    ensures res.Some? ==>
              && RowsAre(res.value.ke, EncryptionKeys(next, WordsOf(key)))
              && RowsAre(res.value.kd, InverseKeys(l, EncryptionKeys(next, WordsOf(key))))
  {
    if |key| != 16 && |key| != 24 && |key| != 32 {
      return None;
    }
    var words := WordsOf(key);
    var rounds := NumRounds(|words|);
    var ke, kd0 := FillSchedules(t, rcon, words, next);
    var kd := Unmix(t, l, kd0, rounds);
    FilledIsScheduled(l, Extend(words, next, 4 * (rounds + 1)), ke, kd0, kd, rounds);
    return Some(Schedules(ke, kd));
  }

  // ---------- encrypt and decrypt ----------

  /** Adds a round key to four words. */
  function AddRow<G>(t: Tables<G>, s: State<G>, row: seq<Column<G>>): State<G>
    requires |row| == 4
  {
    AddRoundKey(t, s, AsState(row))
  }

  /** The four bytes that encrypt looks up for word i. */
  function Gather<G>(w: seq<Column<G>>, i: nat): Column<G>
    requires |w| == 4 && i < 4
  {
    Column(w[i].b0, w[Wrap(i + 1)].b1, w[Wrap(i + 2)].b2, w[Wrap(i + 3)].b3)
  }

  lemma GatherShifts<G>(w: seq<Column<G>>)
    requires |w| == 4
    ensures State(Gather(w, 0), Gather(w, 1), Gather(w, 2), Gather(w, 3)) == ShiftRows(AsState(w))
  {
  }

  function Looked<G>(t: Tables<G>, c: Column<G>, k: Column<G>): Column<G> {
    XorColumn(t, MixColumn(t, SubColumn(t, c)), k)
  }

  /** One table round on the words, as the loop of encrypt computes it. */
  method EncryptRound<G>(t: Tables<G>, w: seq<Column<G>>, key: seq<Column<G>>) returns (a: seq<Column<G>>)
    requires |w| == 4 && |key| == 4
    ensures |a| == 4 && AsState(a) == AddRow(t, MixColumns(t, ShiftRows(SubBytes(t, AsState(w)))), key)
  {
    a := w;
    var i := 0;
    while i < 4
      invariant 0 <= i <= 4 && |a| == 4
      invariant forall j :: 0 <= j < i ==> a[j] == Looked(t, Gather(w, j), key[j])
    {
      var c := Gather(w, i);
      EncryptionTables(t, c.b0, c.b1, c.b2, c.b3);
      a := a[i := XorColumn(t, Xor4(t, T1(t, c.b0), T2(t, c.b1), T3(t, c.b2), T4(t, c.b3)), key[i])];
      i := i + 1;
    }
    EncryptRoundEnd(t, w, key, a);
  }

  lemma EncryptRoundEnd<G>(t: Tables<G>, w: seq<Column<G>>, key: seq<Column<G>>, a: seq<Column<G>>)
    requires |w| == 4 && |key| == 4 && |a| == 4
    requires forall j :: 0 <= j < 4 ==> a[j] == Looked(t, Gather(w, j), key[j])
    ensures AsState(a) == AddRow(t, MixColumns(t, ShiftRows(SubBytes(t, AsState(w)))), key)
  {
    GatherShifts(w);
  }

  /** The four bytes that decrypt looks up for word i. */
  function InvGather<G>(w: seq<Column<G>>, i: nat): Column<G>
    requires |w| == 4 && i < 4
  {
    Column(w[i].b0, w[Wrap(i + 3)].b1, w[Wrap(i + 2)].b2, w[Wrap(i + 1)].b3)
  }

  lemma InvGatherShifts<G>(w: seq<Column<G>>)
    requires |w| == 4
    ensures State(InvGather(w, 0), InvGather(w, 1), InvGather(w, 2), InvGather(w, 3)) == InvShiftRows(AsState(w))
  {
  }

  function InvLooked<G>(t: Tables<G>, c: Column<G>, k: Column<G>): Column<G> {
    XorColumn(t, InvMixColumn(t, InvSubColumn(t, c)), k)
  }

  /** One table round on the words, as the loop of decrypt computes it. */
  method DecryptRound<G>(t: Tables<G>, w: seq<Column<G>>, key: seq<Column<G>>) returns (a: seq<Column<G>>)
    requires |w| == 4 && |key| == 4
    ensures |a| == 4 && AsState(a) == AddRow(t, InvMixColumns(t, InvShiftRows(InvSubBytes(t, AsState(w)))), key)
  {
    a := w;
    var i := 0;
    while i < 4
      invariant 0 <= i <= 4 && |a| == 4
      invariant forall j :: 0 <= j < i ==> a[j] == InvLooked(t, InvGather(w, j), key[j])
    {
      var c := InvGather(w, i);
      DecryptionTables(t, c.b0, c.b1, c.b2, c.b3);
      a := a[i := XorColumn(t, Xor4(t, T5(t, c.b0), T6(t, c.b1), T7(t, c.b2), T8(t, c.b3)), key[i])];
      i := i + 1;
    }
    DecryptRoundEnd(t, w, key, a);
  }

  lemma DecryptRoundEnd<G>(t: Tables<G>, w: seq<Column<G>>, key: seq<Column<G>>, a: seq<Column<G>>)
    requires |w| == 4 && |key| == 4 && |a| == 4
    requires forall j :: 0 <= j < 4 ==> a[j] == InvLooked(t, InvGather(w, j), key[j])
    ensures AsState(a) == AddRow(t, InvMixColumns(t, InvShiftRows(InvSubBytes(t, AsState(w)))), key)
  {
    InvGatherShifts(w);
  }

  function Bytes<G>(cols: seq<Column<G>>): seq<G> {
    if cols == [] then [] else Bytes(cols[..|cols| - 1]) + ColumnBytes(cols[|cols| - 1])
  }

  lemma AppendColumn<G>(cols: seq<Column<G>>, c: Column<G>)
    ensures Bytes(cols + [c]) == Bytes(cols) + ColumnBytes(c)
  {
    assert (cols + [c])[..|cols|] == cols;
  }

  lemma BytesOfFour<G>(cols: seq<Column<G>>)
    requires |cols| == 4
    ensures Bytes(cols) == ToBytes(AsState(cols))
  {
    assert cols[..3][..2] == cols[..2] && cols[..2][..1] == cols[..1] && cols[..1][..0] == [];
    assert Bytes(cols[..1]) == ColumnBytes(cols[0]);
    assert Bytes(cols[..2]) == ColumnBytes(cols[0]) + ColumnBytes(cols[1]);
    assert Bytes(cols[..3]) == ColumnBytes(cols[0]) + ColumnBytes(cols[1]) + ColumnBytes(cols[2]);
  }

  function LastColumn<G>(t: Tables<G>, c: Column<G>, k: Column<G>): Column<G> {
    XorColumn(t, SubColumn(t, c), k)
  }

  /** The four bytes of one word. */
  method LastWord<G>(t: Tables<G>, c: Column<G>, tt: Column<G>, result: seq<G>, ghost cols: seq<Column<G>>)
    returns (result': seq<G>)
    requires result == Bytes(cols)
    ensures result' == Bytes(cols + [LastColumn(t, c, tt)])
  {
    result' := result + [t.xor(t.s(c.b0), tt.b0), t.xor(t.s(c.b1), tt.b1), t.xor(t.s(c.b2), tt.b2),
                         t.xor(t.s(c.b3), tt.b3)];
    AppendColumn(cols, LastColumn(t, c, tt));
  }

  /** The columns that are finished. */
  ghost predicate LastDone<G>(t: Tables<G>, w: seq<Column<G>>, row: seq<Column<G>>, cols: seq<Column<G>>)
    requires |w| == 4 && |row| == 4
  {
    |cols| <= 4 && forall j :: 0 <= j < |cols| ==> cols[j] == LastColumn(t, Gather(w, j), row[j])
  }

  lemma LastColumns<G>(t: Tables<G>, w: seq<Column<G>>, row: seq<Column<G>>, cols: seq<Column<G>>)
    requires |w| == 4 && |row| == 4 && |cols| == 4 && LastDone(t, w, row, cols)
    ensures AsState(cols) == AddRow(t, ShiftRows(SubBytes(t, AsState(w))), row)
  {
    GatherShifts(w);
  }

  lemma LastEnd<G>(t: Tables<G>, w: seq<Column<G>>, row: seq<Column<G>>, cols: seq<Column<G>>)
    requires |w| == 4 && |row| == 4 && |cols| == 4 && LastDone(t, w, row, cols)
    ensures Bytes(cols) == ToBytes(AddRow(t, ShiftRows(SubBytes(t, AsState(w))), row))
  {
    BytesOfFour(cols);
    LastColumns(t, w, row, cols);
  }

  /** The last round of encrypt: substitution, row shift and key addition, byte by byte. */
  method LastRound<G>(t: Tables<G>, w: seq<Column<G>>, row: seq<Column<G>>) returns (result: seq<G>)
    requires |w| == 4 && |row| == 4
    ensures result == ToBytes(AddRow(t, ShiftRows(SubBytes(t, AsState(w))), row))
  {
    result := [];
    var i := 0;
    ghost var cols := [];
    while i < 4
      invariant 0 <= i <= 4 && |cols| == i && result == Bytes(cols) && LastDone(t, w, row, cols)
    {
      result := LastWord(t, Gather(w, i), row[i], result, cols);
      cols := cols + [LastColumn(t, Gather(w, i), row[i])];
      i := i + 1;
    }
    LastEnd(t, w, row, cols);
  }

  function LastInvColumn<G>(t: Tables<G>, c: Column<G>, k: Column<G>): Column<G> {
    XorColumn(t, InvSubColumn(t, c), k)
  }

  /** The four bytes of one word. */
  method LastInvWord<G>(t: Tables<G>, c: Column<G>, tt: Column<G>, result: seq<G>, ghost cols: seq<Column<G>>)
    returns (result': seq<G>)
    requires result == Bytes(cols)
    ensures result' == Bytes(cols + [LastInvColumn(t, c, tt)])
  {
    result' := result + [t.xor(t.si(c.b0), tt.b0), t.xor(t.si(c.b1), tt.b1), t.xor(t.si(c.b2), tt.b2),
                         t.xor(t.si(c.b3), tt.b3)];
    AppendColumn(cols, LastInvColumn(t, c, tt));
  }

  /** The columns that are finished. */
  ghost predicate LastInvDone<G>(t: Tables<G>, w: seq<Column<G>>, row: seq<Column<G>>, cols: seq<Column<G>>)
    requires |w| == 4 && |row| == 4
  {
    |cols| <= 4 && forall j :: 0 <= j < |cols| ==> cols[j] == LastInvColumn(t, InvGather(w, j), row[j])
  }

  lemma LastInvColumns<G>(t: Tables<G>, w: seq<Column<G>>, row: seq<Column<G>>, cols: seq<Column<G>>)
    requires |w| == 4 && |row| == 4 && |cols| == 4 && LastInvDone(t, w, row, cols)
    ensures AsState(cols) == AddRow(t, InvShiftRows(InvSubBytes(t, AsState(w))), row)
  {
    InvGatherShifts(w);
  }

  lemma LastInvEnd<G>(t: Tables<G>, w: seq<Column<G>>, row: seq<Column<G>>, cols: seq<Column<G>>)
    requires |w| == 4 && |row| == 4 && |cols| == 4 && LastInvDone(t, w, row, cols)
    ensures Bytes(cols) == ToBytes(AddRow(t, InvShiftRows(InvSubBytes(t, AsState(w))), row))
  {
    BytesOfFour(cols);
    LastInvColumns(t, w, row, cols);
  }

  /** The last round of decrypt: substitution, row shift and key addition, byte by byte. */
  method LastInvRound<G>(t: Tables<G>, w: seq<Column<G>>, row: seq<Column<G>>) returns (result: seq<G>)
    requires |w| == 4 && |row| == 4
    ensures result == ToBytes(AddRow(t, InvShiftRows(InvSubBytes(t, AsState(w))), row))
  {
    result := [];
    var i := 0;
    ghost var cols := [];
    while i < 4
      invariant 0 <= i <= 4 && |cols| == i && result == Bytes(cols) && LastInvDone(t, w, row, cols)
    {
      result := LastInvWord(t, InvGather(w, i), row[i], result, cols);
      cols := cols + [LastInvColumn(t, InvGather(w, i), row[i])];
      i := i + 1;
    }
    LastInvEnd(t, w, row, cols);
  }

  lemma EncryptLayers<G(!new)>(t: Tables<G>, l: Layers<State<G>>, s: State<G>, k: State<G>)
    requires AesLike(t, l)
    ensures l.add(s, k) == AddRoundKey(t, s, k)
    ensures l.add(l.confuse(s), k) == AddRoundKey(t, ShiftRows(SubBytes(t, s)), k)
    ensures l.add(l.mix(l.confuse(s)), k) == AddRoundKey(t, MixColumns(t, ShiftRows(SubBytes(t, s))), k)
  {
    var c := ShiftRows(SubBytes(t, s));
    assert ConfusesAt(t, l, s) && MixesAt(t, l, c);
    assert AddsAt(t, l, s, k) && AddsAt(t, l, c, k) && AddsAt(t, l, MixColumns(t, c), k);
  }

  lemma DecryptLayers<G(!new)>(t: Tables<G>, l: Layers<State<G>>, s: State<G>, k: State<G>)
    requires AesLike(t, l)
    ensures l.add(s, k) == AddRoundKey(t, s, k)
    ensures l.add(l.unconfuse(s), k) == AddRoundKey(t, InvShiftRows(InvSubBytes(t, s)), k)
    ensures l.add(l.unmix(l.unconfuse(s)), k) == AddRoundKey(t, InvMixColumns(t, InvShiftRows(InvSubBytes(t, s))), k)
  {
    var c := InvShiftRows(InvSubBytes(t, s));
    assert UnconfusesAt(t, l, s) && UnmixesAt(t, l, c);
    assert AddsAt(t, l, s, k) && AddsAt(t, l, c, k) && AddsAt(t, l, InvMixColumns(t, c), k);
  }

  /** The first key addition: the words of the block with the words of row 0. */
  method FirstWords<G(!new)>(t: Tables<G>, block: seq<G>, row: seq<Column<G>>, ghost l: Layers<State<G>>,
                             ghost k: State<G>)
    returns (w: seq<Column<G>>)
    requires AesLike(t, l) && |block| == 16 && |row| == 4 && AsState(row) == k
    ensures |w| == 4 && AsState(w) == l.add(FromBytes(block), k)
  {
    w := [XorColumn(t, WordAt(block, 0), row[0]), XorColumn(t, WordAt(block, 1), row[1]),
          XorColumn(t, WordAt(block, 2), row[2]), XorColumn(t, WordAt(block, 3), row[3])];
    assert AddsAt(t, l, FromBytes(block), k);
  }

  method EncryptMiddle<G(!new)>(t: Tables<G>, w: seq<Column<G>>, row: seq<Column<G>>, ghost l: Layers<State<G>>,
                                ghost k: State<G>)
    returns (a: seq<Column<G>>)
    requires AesLike(t, l) && |w| == 4 && |row| == 4 && AsState(row) == k
    ensures |a| == 4 && AsState(a) == l.add(l.mix(l.confuse(AsState(w))), k)
  {
    a := EncryptRound(t, w, row);
    EncryptLayers(t, l, AsState(w), k);
  }

  method EncryptLast<G(!new)>(t: Tables<G>, w: seq<Column<G>>, row: seq<Column<G>>, ghost l: Layers<State<G>>,
                              ghost k: State<G>)
    returns (result: seq<G>)
    requires AesLike(t, l) && |w| == 4 && |row| == 4 && AsState(row) == k
    ensures result == ToBytes(l.add(l.confuse(AsState(w)), k))
  {
    result := LastRound(t, w, row);
    EncryptLayers(t, l, AsState(w), k);
  }

  lemma CipherEnd<S>(l: Layers<S>, rk: seq<S>, p: S, s: S, r: nat)
    requires 1 <= r == |rk| - 1 && s == Rounds(l, rk, p, r - 1)
    ensures Cipher(l, rk, p) == l.add(l.confuse(s), rk[r])
  {
  }

  lemma InvCipherEnd<S>(l: Layers<S>, dk: seq<S>, c: S, s: S, r: nat)
    requires 1 <= r == |dk| - 1 && s == InvRounds(l, dk, c, r - 1)
    ensures EqInvCipher(l, dk, c) == l.add(l.unconfuse(s), dk[r])
  {
  }

  /** A block of the wrong length is refused; otherwise the result is the cipher of section 5.1. */
  method Encrypt<G(!new)>(t: Tables<G>, ke: Rows<G>, plaintext: seq<G>, ghost l: Layers<State<G>>,
                          ghost rk: seq<State<G>>)
    returns (res: Option<seq<G>>)
    requires AesLike(t, l) && RowsAre(ke, rk) && |rk| >= 2
    ensures res.None? <==> |plaintext| != 16
    ensures res.Some? ==> res.value == ToBytes(Cipher(l, rk, FromBytes(plaintext)))
  {
    if |plaintext| != 16 {
      return None;
    }
    ghost var s := FromBytes(plaintext);
    var rounds := |ke| - 1;
    var w := EncryptRounds(t, ke, plaintext, l, rk);
    CipherEnd(l, rk, s, AsState(w), rounds);
    var result := EncryptLast(t, w, ke[rounds], l, rk[rounds]);
    return Some(result);
  }

  /** All rounds but the last. */
  method EncryptTurn<G(!new)>(t: Tables<G>, w: seq<Column<G>>, row: seq<Column<G>>, ghost l: Layers<State<G>>,
                              ghost rk: seq<State<G>>, ghost p: State<G>, ghost r: nat)
    returns (a: seq<Column<G>>)
    requires AesLike(t, l) && |w| == 4 && |row| == 4 && 1 <= r < |rk| && AsState(row) == rk[r]
    requires AsState(w) == Rounds(l, rk, p, r - 1)
    ensures |a| == 4 && AsState(a) == Rounds(l, rk, p, r)
  {
    a := EncryptMiddle(t, w, row, l, rk[r]);
  }

  method EncryptRounds<G(!new)>(t: Tables<G>, ke: Rows<G>, plaintext: seq<G>, ghost l: Layers<State<G>>,
                                ghost rk: seq<State<G>>)
    returns (w: seq<Column<G>>)
    requires AesLike(t, l) && RowsAre(ke, rk) && |rk| >= 2 && |plaintext| == 16
    ensures |w| == 4 && AsState(w) == Rounds(l, rk, FromBytes(plaintext), |ke| - 2)
  {
    w := FirstWords(t, plaintext, ke[0], l, rk[0]);
    var r := 1;
    while r < |ke| - 1
      invariant 1 <= r <= |ke| - 1 && |w| == 4
      invariant AsState(w) == Rounds(l, rk, FromBytes(plaintext), r - 1)
    {
      w := EncryptTurn(t, w, ke[r], l, rk, FromBytes(plaintext), r);
      r := r + 1;
    }
  }

  method DecryptMiddle<G(!new)>(t: Tables<G>, w: seq<Column<G>>, row: seq<Column<G>>, ghost l: Layers<State<G>>,
                                ghost k: State<G>)
    returns (a: seq<Column<G>>)
    requires AesLike(t, l) && |w| == 4 && |row| == 4 && AsState(row) == k
    ensures |a| == 4 && AsState(a) == l.add(l.unmix(l.unconfuse(AsState(w))), k)
  {
    a := DecryptRound(t, w, row);
    DecryptLayers(t, l, AsState(w), k);
  }

  method DecryptLast<G(!new)>(t: Tables<G>, w: seq<Column<G>>, row: seq<Column<G>>, ghost l: Layers<State<G>>,
                              ghost k: State<G>)
    returns (result: seq<G>)
    requires AesLike(t, l) && |w| == 4 && |row| == 4 && AsState(row) == k
    ensures result == ToBytes(l.add(l.unconfuse(AsState(w)), k))
  {
    result := LastInvRound(t, w, row);
    DecryptLayers(t, l, AsState(w), k);
  }

  /** A block of the wrong length is refused; otherwise the result is the equivalent inverse cipher
      of section 5.3.5. */
  method Decrypt<G(!new)>(t: Tables<G>, kd: Rows<G>, ciphertext: seq<G>, ghost l: Layers<State<G>>,
                          ghost dk: seq<State<G>>)
    returns (res: Option<seq<G>>)
    requires AesLike(t, l) && RowsAre(kd, dk) && |dk| >= 2
    ensures res.None? <==> |ciphertext| != 16
    ensures res.Some? ==> res.value == ToBytes(EqInvCipher(l, dk, FromBytes(ciphertext)))
  {
    if |ciphertext| != 16 {
      return None;
    }
    ghost var s := FromBytes(ciphertext);
    var rounds := |kd| - 1;
    var w := DecryptRounds(t, kd, ciphertext, l, dk);
    InvCipherEnd(l, dk, s, AsState(w), rounds);
    var result := DecryptLast(t, w, kd[rounds], l, dk[rounds]);
    return Some(result);
  }

  /** All rounds but the last. */
  method DecryptTurn<G(!new)>(t: Tables<G>, w: seq<Column<G>>, row: seq<Column<G>>, ghost l: Layers<State<G>>,
                              ghost dk: seq<State<G>>, ghost p: State<G>, ghost r: nat)
    returns (a: seq<Column<G>>)
    requires AesLike(t, l) && |w| == 4 && |row| == 4 && 1 <= r < |dk| && AsState(row) == dk[r]
    requires AsState(w) == InvRounds(l, dk, p, r - 1)
    ensures |a| == 4 && AsState(a) == InvRounds(l, dk, p, r)
  {
    a := DecryptMiddle(t, w, row, l, dk[r]);
  }

  method DecryptRounds<G(!new)>(t: Tables<G>, kd: Rows<G>, ciphertext: seq<G>, ghost l: Layers<State<G>>,
                                ghost dk: seq<State<G>>)
    returns (w: seq<Column<G>>)
    requires AesLike(t, l) && RowsAre(kd, dk) && |dk| >= 2 && |ciphertext| == 16
    ensures |w| == 4 && AsState(w) == InvRounds(l, dk, FromBytes(ciphertext), |kd| - 2)
  {
    w := FirstWords(t, ciphertext, kd[0], l, dk[0]);
    var r := 1;
    while r < |kd| - 1
      invariant 1 <= r <= |kd| - 1 && |w| == 4
      invariant AsState(w) == InvRounds(l, dk, FromBytes(ciphertext), r - 1)
    {
      w := DecryptTurn(t, w, kd[r], l, dk, FromBytes(ciphertext), r);
      r := r + 1;
    }
  }

  // ---------- the block cipher on bytes ----------

  ghost function EncryptBlock<G>(l: Layers<State<G>>, rk: seq<State<G>>, p: seq<G>): (c: seq<G>)
    requires |rk| >= 2 && |p| == 16
    ensures |c| == 16
  {
    ToBytes(Cipher(l, rk, FromBytes(p)))
  }

  ghost function DecryptBlock<G>(l: Layers<State<G>>, dk: seq<State<G>>, c: seq<G>): (p: seq<G>)
    requires |dk| >= 2 && |c| == 16
    ensures |p| == 16
  {
    ToBytes(EqInvCipher(l, dk, FromBytes(c)))
  }

  /** For every key and every block, decrypting what was encrypted gives the block. */
  lemma BlockRoundTrip<G(!new)>(l: Layers<State<G>>, rk: seq<State<G>>, p: seq<G>)
    requires Invertible(l) && |rk| >= 2 && |p| == 16
    ensures DecryptBlock(l, InverseKeys(l, rk), EncryptBlock(l, rk, p)) == p
  {
    BytesOfState(Cipher(l, rk, FromBytes(p)));
    CipherRoundTrip(l, rk, InverseKeys(l, rk), FromBytes(p));
    StateOfBytes(p);
  }

  /** The constructor, encrypt and decrypt, one after the other: the plaintext comes back exactly
      when the key and the block have valid lengths. */
  method EncryptThenDecrypt<G(!new)>(t: Tables<G>, rcon: seq<G>, key: seq<G>, p: seq<G>,
                                     ghost l: Layers<State<G>>, ghost next: seq<Column<G>> -> Column<G>)
    returns (q: Option<seq<G>>)
    requires Invertible(l)
    requires RconTable(t, rcon) && AesLike(t, l) && (|key| >= 4 ==> KeyLike(t, |key| / 4, next))
    ensures q.Some? <==> (|key| == 16 || |key| == 24 || |key| == 32) && |p| == 16
    ensures q.Some? ==> q.value == p
  {
    var keys := ExpandKey(t, rcon, key, l, next);
    if keys.None? || |p| != 16 {
      return None;
    }
    ghost var rk := EncryptionKeys(next, WordsOf(key));
    var c := Encrypt(t, keys.value.ke, p, l, rk);
    q := Decrypt(t, keys.value.kd, c.value, l, InverseKeys(l, rk));
    BlockRoundTrip(l, rk, p);
  }
}

/** The block cipher of FIPS 197 as a reference, over any byte type whose tables satisfy `Good`:
    the round transformations (sections 5.1 and 5.3), the cipher, the key expansion (section 5.2)
    and the equivalent inverse cipher (section 5.3.5), which is proved to undo the cipher.
    A 32-bit word is a `Column` of four bytes, most significant first. */
module AesSpec {

  /** Addition, zero, one, substitution, inverse substitution and multiplication by x on bytes. */
  datatype Tables<!G> = Tables(xor: (G, G) -> G, zero: G, one: G, s: G -> G, si: G -> G, x: G -> G)

  datatype Column<G> = Column(b0: G, b1: G, b2: G, b3: G)

  datatype State<G> = State(c0: Column<G>, c1: Column<G>, c2: Column<G>, c3: Column<G>)

  // ---------- what the tables must satisfy ----------

  predicate Additive<G(==)>(t: Tables<G>, a: G, b: G) {
    t.x(t.xor(a, b)) == t.xor(t.x(a), t.x(b))
  }

  predicate Associative<G(==)>(t: Tables<G>, a: G, b: G, c: G) {
    t.xor(t.xor(a, b), c) == t.xor(a, t.xor(b, c))
  }

  predicate Commutative<G(==)>(t: Tables<G>, a: G, b: G) {
    t.xor(a, b) == t.xor(b, a)
  }

  predicate Cancels<G(==)>(t: Tables<G>, a: G, k: G) {
    && t.xor(t.xor(a, k), k) == a
    && t.xor(a, t.zero) == a && t.xor(t.zero, a) == a
  }

  predicate Unmixes<G(==)>(t: Tables<G>, c: Column<G>) {
    InvMixColumn(t, MixColumn(t, c)) == c
  }

  ghost predicate Good<G(!new)>(t: Tables<G>) {
    && (forall v :: t.si(t.s(v)) == v)
    && (forall a, k :: Cancels(t, a, k))
    && (forall a, b, c :: Associative(t, a, b, c))
    && (forall a, b :: Commutative(t, a, b))
    && (forall a, b :: Additive(t, a, b))
  }

  // ---------- round transformations ----------

  function XorColumn<G>(t: Tables<G>, a: Column<G>, b: Column<G>): Column<G> {
    Column(t.xor(a.b0, b.b0), t.xor(a.b1, b.b1), t.xor(a.b2, b.b2), t.xor(a.b3, b.b3))
  }

  function AddRoundKey<G>(t: Tables<G>, s: State<G>, k: State<G>): State<G> {
    State(XorColumn(t, s.c0, k.c0), XorColumn(t, s.c1, k.c1), XorColumn(t, s.c2, k.c2), XorColumn(t, s.c3, k.c3))
  }

  function SubColumn<G>(t: Tables<G>, c: Column<G>): Column<G> {
    Column(t.s(c.b0), t.s(c.b1), t.s(c.b2), t.s(c.b3))
  }

  function InvSubColumn<G>(t: Tables<G>, c: Column<G>): Column<G> {
    Column(t.si(c.b0), t.si(c.b1), t.si(c.b2), t.si(c.b3))
  }

  function SubBytes<G>(t: Tables<G>, s: State<G>): State<G> {
    State(SubColumn(t, s.c0), SubColumn(t, s.c1), SubColumn(t, s.c2), SubColumn(t, s.c3))
  }

  function InvSubBytes<G>(t: Tables<G>, s: State<G>): State<G> {
    State(InvSubColumn(t, s.c0), InvSubColumn(t, s.c1), InvSubColumn(t, s.c2), InvSubColumn(t, s.c3))
  }

  /** Row r moves left by r columns. */
  function ShiftRows<G>(s: State<G>): State<G> {
    State(Column(s.c0.b0, s.c1.b1, s.c2.b2, s.c3.b3), Column(s.c1.b0, s.c2.b1, s.c3.b2, s.c0.b3),
          Column(s.c2.b0, s.c3.b1, s.c0.b2, s.c1.b3), Column(s.c3.b0, s.c0.b1, s.c1.b2, s.c2.b3))
  }

  /** Row r moves right by r columns. */
  function InvShiftRows<G>(s: State<G>): State<G> {
    State(Column(s.c0.b0, s.c3.b1, s.c2.b2, s.c1.b3), Column(s.c1.b0, s.c0.b1, s.c3.b2, s.c2.b3),
          Column(s.c2.b0, s.c1.b1, s.c0.b2, s.c3.b3), Column(s.c3.b0, s.c2.b1, s.c1.b2, s.c0.b3))
  }

  function Sum4<G>(t: Tables<G>, a: G, b: G, c: G, d: G): G {
    t.xor(t.xor(t.xor(a, b), c), d)
  }

  function Mul3<G>(t: Tables<G>, a: G): G { t.xor(t.x(a), a) }
  function Mul9<G>(t: Tables<G>, a: G): G { t.xor(t.x(t.x(t.x(a))), a) }
  function Mul11<G>(t: Tables<G>, a: G): G { t.xor(t.xor(t.x(t.x(t.x(a))), t.x(a)), a) }
  function Mul13<G>(t: Tables<G>, a: G): G { t.xor(t.xor(t.x(t.x(t.x(a))), t.x(t.x(a))), a) }
  function Mul14<G>(t: Tables<G>, a: G): G { t.xor(t.xor(t.x(t.x(t.x(a))), t.x(t.x(a))), t.x(a)) }

  /** Section 5.1.3. */
  function MixColumn<G>(t: Tables<G>, c: Column<G>): Column<G> {
    Column(Sum4(t, t.x(c.b0), Mul3(t, c.b1), c.b2, c.b3), Sum4(t, c.b0, t.x(c.b1), Mul3(t, c.b2), c.b3),
           Sum4(t, c.b0, c.b1, t.x(c.b2), Mul3(t, c.b3)), Sum4(t, Mul3(t, c.b0), c.b1, c.b2, t.x(c.b3)))
  }

  /** Section 5.3.3. */
  function InvMixColumn<G>(t: Tables<G>, c: Column<G>): Column<G> {
    Column(Sum4(t, Mul14(t, c.b0), Mul11(t, c.b1), Mul13(t, c.b2), Mul9(t, c.b3)),
           Sum4(t, Mul9(t, c.b0), Mul14(t, c.b1), Mul11(t, c.b2), Mul13(t, c.b3)),
           Sum4(t, Mul13(t, c.b0), Mul9(t, c.b1), Mul14(t, c.b2), Mul11(t, c.b3)),
           Sum4(t, Mul11(t, c.b0), Mul13(t, c.b1), Mul9(t, c.b2), Mul14(t, c.b3)))
  }

  function MixColumns<G>(t: Tables<G>, s: State<G>): State<G> {
    State(MixColumn(t, s.c0), MixColumn(t, s.c1), MixColumn(t, s.c2), MixColumn(t, s.c3))
  }

  function InvMixColumns<G>(t: Tables<G>, s: State<G>): State<G> {
    State(InvMixColumn(t, s.c0), InvMixColumn(t, s.c1), InvMixColumn(t, s.c2), InvMixColumn(t, s.c3))
  }

  // ---------- column mixing is linear and invertible ----------

  /** Sums of four can be regrouped. */
  lemma Medial<G(!new)>(t: Tables<G>, a: G, b: G, c: G, d: G)
    requires Good(t)
    ensures t.xor(t.xor(a, b), t.xor(c, d)) == t.xor(t.xor(a, c), t.xor(b, d))
  {
    assert Associative(t, a, b, t.xor(c, d)) && Associative(t, b, c, d);
    assert Commutative(t, b, c);
    assert Associative(t, c, b, d) && Associative(t, a, c, t.xor(b, d));
  }

  lemma Sum4Additive<G(!new)>(t: Tables<G>, a: G, b: G, c: G, d: G, a': G, b': G, c': G, d': G)
    requires Good(t)
    ensures Sum4(t, t.xor(a, a'), t.xor(b, b'), t.xor(c, c'), t.xor(d, d'))
         == t.xor(Sum4(t, a, b, c, d), Sum4(t, a', b', c', d'))
  {
    Medial(t, a, a', b, b');
    Medial(t, t.xor(a, b), t.xor(a', b'), c, c');
    Medial(t, t.xor(t.xor(a, b), c), t.xor(t.xor(a', b'), c'), d, d');
  }

  lemma Powers<G(!new)>(t: Tables<G>, a: G, b: G)
    requires Good(t)
    ensures t.x(t.xor(a, b)) == t.xor(t.x(a), t.x(b))
    ensures t.x(t.x(t.xor(a, b))) == t.xor(t.x(t.x(a)), t.x(t.x(b)))
    ensures t.x(t.x(t.x(t.xor(a, b)))) == t.xor(t.x(t.x(t.x(a))), t.x(t.x(t.x(b))))
  {
    assert Additive(t, a, b);
    assert Additive(t, t.x(a), t.x(b));
    assert Additive(t, t.x(t.x(a)), t.x(t.x(b)));
  }

  lemma MulsAdditive<G(!new)>(t: Tables<G>, a: G, b: G)
    requires Good(t)
    ensures Mul3(t, t.xor(a, b)) == t.xor(Mul3(t, a), Mul3(t, b))
    ensures Mul9(t, t.xor(a, b)) == t.xor(Mul9(t, a), Mul9(t, b))
    ensures Mul11(t, t.xor(a, b)) == t.xor(Mul11(t, a), Mul11(t, b))
    ensures Mul13(t, t.xor(a, b)) == t.xor(Mul13(t, a), Mul13(t, b))
    ensures Mul14(t, t.xor(a, b)) == t.xor(Mul14(t, a), Mul14(t, b))
  {
    Powers(t, a, b);
    var a1, a2, a3 := t.x(a), t.x(t.x(a)), t.x(t.x(t.x(a)));
    var b1, b2, b3 := t.x(b), t.x(t.x(b)), t.x(t.x(t.x(b)));
    Medial(t, a1, b1, a, b);
    Medial(t, a3, b3, a, b);
    Medial(t, a3, b3, a1, b1); Medial(t, t.xor(a3, a1), t.xor(b3, b1), a, b);
    Medial(t, a3, b3, a2, b2); Medial(t, t.xor(a3, a2), t.xor(b3, b2), a, b);
    Medial(t, t.xor(a3, a2), t.xor(b3, b2), a1, b1);
  }

  lemma MixColumnLinear<G(!new)>(t: Tables<G>, c: Column<G>, d: Column<G>)
    requires Good(t)
    ensures MixColumn(t, XorColumn(t, c, d)) == XorColumn(t, MixColumn(t, c), MixColumn(t, d))
  {
    Powers(t, c.b0, d.b0); Powers(t, c.b1, d.b1); Powers(t, c.b2, d.b2); Powers(t, c.b3, d.b3);
    MulsAdditive(t, c.b0, d.b0); MulsAdditive(t, c.b1, d.b1); MulsAdditive(t, c.b2, d.b2); MulsAdditive(t, c.b3, d.b3);
    Sum4Additive(t, t.x(c.b0), Mul3(t, c.b1), c.b2, c.b3, t.x(d.b0), Mul3(t, d.b1), d.b2, d.b3);
    Sum4Additive(t, c.b0, t.x(c.b1), Mul3(t, c.b2), c.b3, d.b0, t.x(d.b1), Mul3(t, d.b2), d.b3);
    Sum4Additive(t, c.b0, c.b1, t.x(c.b2), Mul3(t, c.b3), d.b0, d.b1, t.x(d.b2), Mul3(t, d.b3));
    Sum4Additive(t, Mul3(t, c.b0), c.b1, c.b2, t.x(c.b3), Mul3(t, d.b0), d.b1, d.b2, t.x(d.b3));
  }

  lemma InvMixColumnLinear<G(!new)>(t: Tables<G>, c: Column<G>, d: Column<G>)
    requires Good(t)
    ensures InvMixColumn(t, XorColumn(t, c, d)) == XorColumn(t, InvMixColumn(t, c), InvMixColumn(t, d))
  {
    MulsAdditive(t, c.b0, d.b0); MulsAdditive(t, c.b1, d.b1); MulsAdditive(t, c.b2, d.b2); MulsAdditive(t, c.b3, d.b3);
    Sum4Additive(t, Mul14(t, c.b0), Mul11(t, c.b1), Mul13(t, c.b2), Mul9(t, c.b3),
                 Mul14(t, d.b0), Mul11(t, d.b1), Mul13(t, d.b2), Mul9(t, d.b3));
    Sum4Additive(t, Mul9(t, c.b0), Mul14(t, c.b1), Mul11(t, c.b2), Mul13(t, c.b3),
                 Mul9(t, d.b0), Mul14(t, d.b1), Mul11(t, d.b2), Mul13(t, d.b3));
    Sum4Additive(t, Mul13(t, c.b0), Mul9(t, c.b1), Mul14(t, c.b2), Mul11(t, c.b3),
                 Mul13(t, d.b0), Mul9(t, d.b1), Mul14(t, d.b2), Mul11(t, d.b3));
    Sum4Additive(t, Mul11(t, c.b0), Mul13(t, c.b1), Mul9(t, c.b2), Mul14(t, c.b3),
                 Mul11(t, d.b0), Mul13(t, d.b1), Mul9(t, d.b2), Mul14(t, d.b3));
  }

  lemma UnmixSum<G(!new)>(t: Tables<G>, c: Column<G>, d: Column<G>)
    requires Good(t) && Unmixes(t, c) && Unmixes(t, d)
    ensures Unmixes(t, XorColumn(t, c, d))
  {
    MixColumnLinear(t, c, d);
    InvMixColumnLinear(t, MixColumn(t, c), MixColumn(t, d));
  }

  lemma XOfZero<G(!new)>(t: Tables<G>)
    requires Good(t)
    ensures t.x(t.zero) == t.zero && Mul3(t, t.zero) == t.zero && t.xor(t.zero, t.zero) == t.zero
  {
    var z := t.zero;
    assert Cancels(t, z, z) && Cancels(t, z, t.x(z)) && Cancels(t, t.x(z), z);
    assert Additive(t, z, z);
  }

  // The product of the two mixing matrices is the identity.  Its entries are combinations of a
  // byte and its first four multiples by x, which are added coefficient by coefficient.

  datatype Coefficients = Coefficients(e0: bool, e1: bool, e2: bool, e3: bool, e4: bool)

  function AddCoefficients(m: Coefficients, n: Coefficients): Coefficients {
    Coefficients(m.e0 != n.e0, m.e1 != n.e1, m.e2 != n.e2, m.e3 != n.e3, m.e4 != n.e4)
  }

  function Term<G>(t: Tables<G>, m: bool, a: G): G { if m then a else t.zero }

  function Combine<G>(t: Tables<G>, m: Coefficients, b: G): G {
    t.xor(Sum4(t, Term(t, m.e0, b), Term(t, m.e1, t.x(b)), Term(t, m.e2, t.x(t.x(b))), Term(t, m.e3, t.x(t.x(t.x(b))))),
          Term(t, m.e4, t.x(t.x(t.x(t.x(b))))))
  }

  lemma TermAdds<G(!new)>(t: Tables<G>, m: bool, n: bool, a: G)
    requires Good(t)
    ensures t.xor(Term(t, m, a), Term(t, n, a)) == Term(t, m != n, a)
  {
    assert Cancels(t, a, a) && Cancels(t, t.zero, a) && Cancels(t, t.zero, t.zero);
  }

  lemma CombineAdds<G(!new)>(t: Tables<G>, m: Coefficients, n: Coefficients, b: G)
    requires Good(t)
    ensures t.xor(Combine(t, m, b), Combine(t, n, b)) == Combine(t, AddCoefficients(m, n), b)
  {
    var y1, y2, y3, y4 := t.x(b), t.x(t.x(b)), t.x(t.x(t.x(b))), t.x(t.x(t.x(t.x(b))));
    TermAdds(t, m.e0, n.e0, b); TermAdds(t, m.e1, n.e1, y1); TermAdds(t, m.e2, n.e2, y2);
    TermAdds(t, m.e3, n.e3, y3); TermAdds(t, m.e4, n.e4, y4);
    Sum4Additive(t, Term(t, m.e0, b), Term(t, m.e1, y1), Term(t, m.e2, y2), Term(t, m.e3, y3),
                 Term(t, n.e0, b), Term(t, n.e1, y1), Term(t, n.e2, y2), Term(t, n.e3, y3));
    Medial(t, Sum4(t, Term(t, m.e0, b), Term(t, m.e1, y1), Term(t, m.e2, y2), Term(t, m.e3, y3)), Term(t, m.e4, y4),
           Sum4(t, Term(t, n.e0, b), Term(t, n.e1, y1), Term(t, n.e2, y2), Term(t, n.e3, y3)), Term(t, n.e4, y4));
  }

  const E0 := Coefficients(true, false, false, false, false)
  const E1 := Coefficients(false, true, false, false, false)
  const E2 := Coefficients(false, false, true, false, false)
  const E3 := Coefficients(false, false, false, true, false)
  const E4 := Coefficients(false, false, false, false, true)
  const NONE := Coefficients(false, false, false, false, false)

  // Coefficients of 9, 11, 13 and 14 times a byte (S), its double (D) and its triple (T).
  const S9 := Coefficients(true, false, false, true, false)
  const S11 := Coefficients(true, true, false, true, false)
  const S13 := Coefficients(true, false, true, true, false)
  const S14 := Coefficients(false, true, true, true, false)
  const D9 := Coefficients(false, true, false, false, true)
  const D11 := Coefficients(false, true, true, false, true)
  const D13 := Coefficients(false, true, false, true, true)
  const D14 := Coefficients(false, false, true, true, true)
  const T9 := Coefficients(true, true, false, true, true)
  const T11 := Coefficients(true, false, true, true, true)
  const T13 := Coefficients(true, true, true, false, true)
  const T14 := Coefficients(false, true, false, false, true)

  lemma CombineUnits<G(!new)>(t: Tables<G>, b: G)
    requires Good(t)
    ensures Combine(t, E0, b) == b && Combine(t, E1, b) == t.x(b) && Combine(t, E2, b) == t.x(t.x(b))
    ensures Combine(t, E3, b) == t.x(t.x(t.x(b))) && Combine(t, E4, b) == t.x(t.x(t.x(t.x(b))))
    ensures Combine(t, NONE, b) == t.zero
  {
    var z := t.zero;
    assert Cancels(t, b, z) && Cancels(t, t.x(b), z) && Cancels(t, t.x(t.x(b)), z) && Cancels(t, z, z);
    assert Cancels(t, t.x(t.x(t.x(b))), z) && Cancels(t, t.x(t.x(t.x(t.x(b)))), z);
  }

  lemma CombineThree<G(!new)>(t: Tables<G>, b: G, p: G, q: G, r: G, m: Coefficients, n: Coefficients, o: Coefficients)
    requires Good(t) && p == Combine(t, m, b) && q == Combine(t, n, b) && r == Combine(t, o, b)
    ensures t.xor(p, q) == Combine(t, AddCoefficients(m, n), b)
    ensures t.xor(t.xor(p, q), r) == Combine(t, AddCoefficients(AddCoefficients(m, n), o), b)
  {
    CombineAdds(t, m, n, b);
    CombineAdds(t, AddCoefficients(m, n), o, b);
  }

  /** The coefficients of 9, 11, 13 and 14 times a byte, its double and its triple. */
  lemma MulCombines<G(!new)>(t: Tables<G>, b: G)
    requires Good(t)
    ensures Mul9(t, b) == Combine(t, S9, b)
    ensures Mul11(t, b) == Combine(t, S11, b)
    ensures Mul13(t, b) == Combine(t, S13, b)
    ensures Mul14(t, b) == Combine(t, S14, b)
  {
    CombineUnits(t, b);
    var y1, y2, y3 := t.x(b), t.x(t.x(b)), t.x(t.x(t.x(b)));
    CombineThree(t, b, y3, b, b, E3, E0, E0);
    CombineThree(t, b, y3, y1, b, E3, E1, E0);
    CombineThree(t, b, y3, y2, b, E3, E2, E0);
    CombineThree(t, b, y3, y2, y1, E3, E2, E1);
  }

  lemma MulDoubleCombines<G(!new)>(t: Tables<G>, b: G)
    requires Good(t)
    ensures Mul9(t, t.x(b)) == Combine(t, D9, b)
    ensures Mul11(t, t.x(b)) == Combine(t, D11, b)
    ensures Mul13(t, t.x(b)) == Combine(t, D13, b)
    ensures Mul14(t, t.x(b)) == Combine(t, D14, b)
  {
    CombineUnits(t, b);
    var y1, y2, y3, y4 := t.x(b), t.x(t.x(b)), t.x(t.x(t.x(b))), t.x(t.x(t.x(t.x(b))));
    CombineThree(t, b, y4, y1, y1, E4, E1, E1);
    CombineThree(t, b, y4, y2, y1, E4, E2, E1);
    CombineThree(t, b, y4, y3, y1, E4, E3, E1);
    CombineThree(t, b, y4, y3, y2, E4, E3, E2);
  }

  lemma MulTripleCombines<G(!new)>(t: Tables<G>, b: G)
    requires Good(t)
    ensures Mul9(t, Mul3(t, b)) == Combine(t, T9, b)
    ensures Mul11(t, Mul3(t, b)) == Combine(t, T11, b)
    ensures Mul13(t, Mul3(t, b)) == Combine(t, T13, b)
    ensures Mul14(t, Mul3(t, b)) == Combine(t, T14, b)
  {
    MulsAdditive(t, t.x(b), b);
    MulCombines(t, b);
    MulDoubleCombines(t, b);
    CombineAdds(t, T14, S9, b);
    CombineAdds(t, D11, S11, b);
    CombineAdds(t, D13, S13, b);
    CombineAdds(t, D14, S14, b);
  }

  lemma RowCombines<G(!new)>(t: Tables<G>, b: G, p: G, q: G, r: G, s: G, m: Coefficients, n: Coefficients,
                             o: Coefficients, u: Coefficients)
    requires Good(t) && p == Combine(t, m, b) && q == Combine(t, n, b) && r == Combine(t, o, b) && s == Combine(t, u, b)
    ensures Sum4(t, p, q, r, s) == Combine(t, AddCoefficients(AddCoefficients(AddCoefficients(m, n), o), u), b)
  {
    CombineThree(t, b, p, q, r, m, n, o);
    CombineAdds(t, AddCoefficients(AddCoefficients(m, n), o), u, b);
  }

  lemma MatrixFirst<G(!new)>(t: Tables<G>, b: G)
    requires Good(t)
    ensures InvMixColumn(t, Column(t.x(b), b, b, Mul3(t, b))) == Column(b, t.zero, t.zero, t.zero)
  {
    var b2, b3 := t.x(b), Mul3(t, b);
    MulCombines(t, b); MulDoubleCombines(t, b); MulTripleCombines(t, b);
    CombineUnits(t, b);
    RowCombines(t, b, Mul14(t, b2), Mul11(t, b), Mul13(t, b), Mul9(t, b3), D14, S11, S13, T9);
    RowCombines(t, b, Mul9(t, b2), Mul14(t, b), Mul11(t, b), Mul13(t, b3), D9, S14, S11, T13);
    RowCombines(t, b, Mul13(t, b2), Mul9(t, b), Mul14(t, b), Mul11(t, b3), D13, S9, S14, T11);
    RowCombines(t, b, Mul11(t, b2), Mul13(t, b), Mul9(t, b), Mul14(t, b3), D11, S13, S9, T14);
  }

  lemma MatrixSecond<G(!new)>(t: Tables<G>, b: G)
    requires Good(t)
    ensures InvMixColumn(t, Column(Mul3(t, b), t.x(b), b, b)) == Column(t.zero, b, t.zero, t.zero)
  {
    var b2, b3 := t.x(b), Mul3(t, b);
    MulCombines(t, b); MulDoubleCombines(t, b); MulTripleCombines(t, b);
    CombineUnits(t, b);
    RowCombines(t, b, Mul14(t, b3), Mul11(t, b2), Mul13(t, b), Mul9(t, b), T14, D11, S13, S9);
    RowCombines(t, b, Mul9(t, b3), Mul14(t, b2), Mul11(t, b), Mul13(t, b), T9, D14, S11, S13);
    RowCombines(t, b, Mul13(t, b3), Mul9(t, b2), Mul14(t, b), Mul11(t, b), T13, D9, S14, S11);
    RowCombines(t, b, Mul11(t, b3), Mul13(t, b2), Mul9(t, b), Mul14(t, b), T11, D13, S9, S14);
  }

  lemma MatrixThird<G(!new)>(t: Tables<G>, b: G)
    requires Good(t)
    ensures InvMixColumn(t, Column(b, Mul3(t, b), t.x(b), b)) == Column(t.zero, t.zero, b, t.zero)
  {
    var b2, b3 := t.x(b), Mul3(t, b);
    MulCombines(t, b); MulDoubleCombines(t, b); MulTripleCombines(t, b);
    CombineUnits(t, b);
    RowCombines(t, b, Mul14(t, b), Mul11(t, b3), Mul13(t, b2), Mul9(t, b), S14, T11, D13, S9);
    RowCombines(t, b, Mul9(t, b), Mul14(t, b3), Mul11(t, b2), Mul13(t, b), S9, T14, D11, S13);
    RowCombines(t, b, Mul13(t, b), Mul9(t, b3), Mul14(t, b2), Mul11(t, b), S13, T9, D14, S11);
    RowCombines(t, b, Mul11(t, b), Mul13(t, b3), Mul9(t, b2), Mul14(t, b), S11, T13, D9, S14);
  }

  lemma MatrixFourth<G(!new)>(t: Tables<G>, b: G)
    requires Good(t)
    ensures InvMixColumn(t, Column(b, b, Mul3(t, b), t.x(b))) == Column(t.zero, t.zero, t.zero, b)
  {
    var b2, b3 := t.x(b), Mul3(t, b);
    MulCombines(t, b); MulDoubleCombines(t, b); MulTripleCombines(t, b);
    CombineUnits(t, b);
    RowCombines(t, b, Mul14(t, b), Mul11(t, b), Mul13(t, b3), Mul9(t, b2), S14, S11, T13, D9);
    RowCombines(t, b, Mul9(t, b), Mul14(t, b), Mul11(t, b3), Mul13(t, b2), S9, S14, T11, D13);
    RowCombines(t, b, Mul13(t, b), Mul9(t, b), Mul14(t, b3), Mul11(t, b2), S13, S9, T14, D11);
    RowCombines(t, b, Mul11(t, b), Mul13(t, b), Mul9(t, b3), Mul14(t, b2), S11, S13, T9, D14);
  }

  lemma UnmixSingle<G(!new)>(t: Tables<G>, b: G)
    requires Good(t)
    ensures Unmixes(t, Column(b, t.zero, t.zero, t.zero)) && Unmixes(t, Column(t.zero, b, t.zero, t.zero))
    ensures Unmixes(t, Column(t.zero, t.zero, b, t.zero)) && Unmixes(t, Column(t.zero, t.zero, t.zero, b))
  {
    var z, b2, b3 := t.zero, t.x(b), Mul3(t, b);
    XOfZero(t);
    assert Cancels(t, b, z) && Cancels(t, b2, z) && Cancels(t, b3, z);
    assert MixColumn(t, Column(b, z, z, z)) == Column(b2, b, b, b3);
    assert MixColumn(t, Column(z, b, z, z)) == Column(b3, b2, b, b);
    assert MixColumn(t, Column(z, z, b, z)) == Column(b, b3, b2, b);
    assert MixColumn(t, Column(z, z, z, b)) == Column(b, b, b3, b2);
    MatrixFirst(t, b); MatrixSecond(t, b); MatrixThird(t, b); MatrixFourth(t, b);
  }

  /** Every column is the sum of four columns with one non-zero byte each. */
  lemma InvMixColumnUndoes<G(!new)>(t: Tables<G>, c: Column<G>)
    requires Good(t)
    ensures InvMixColumn(t, MixColumn(t, c)) == c
  {
    var z := t.zero;
    var e0, e1, e2, e3 := Column(c.b0, z, z, z), Column(z, c.b1, z, z), Column(z, z, c.b2, z), Column(z, z, z, c.b3);
    UnmixSingle(t, c.b0); UnmixSingle(t, c.b1); UnmixSingle(t, c.b2); UnmixSingle(t, c.b3);
    UnmixSum(t, e0, e1);
    UnmixSum(t, XorColumn(t, e0, e1), e2);
    UnmixSum(t, XorColumn(t, XorColumn(t, e0, e1), e2), e3);
    assert Cancels(t, c.b0, z) && Cancels(t, c.b1, z) && Cancels(t, c.b2, z) && Cancels(t, c.b3, z) && Cancels(t, z, z);
    assert c == XorColumn(t, XorColumn(t, XorColumn(t, e0, e1), e2), e3);
  }

  // ---------- states ----------

  lemma AddRoundKeyCancels<G(!new)>(t: Tables<G>, s: State<G>, k: State<G>)
    requires Good(t)
    ensures AddRoundKey(t, AddRoundKey(t, s, k), k) == s
  {
    XorColumnCancels(t, s.c0, k.c0);
    XorColumnCancels(t, s.c1, k.c1);
    XorColumnCancels(t, s.c2, k.c2);
    XorColumnCancels(t, s.c3, k.c3);
  }

  lemma XorColumnCancels<G(!new)>(t: Tables<G>, c: Column<G>, k: Column<G>)
    requires Good(t)
    ensures XorColumn(t, XorColumn(t, c, k), k) == c
  {
    assert Cancels(t, c.b0, k.b0) && Cancels(t, c.b1, k.b1) && Cancels(t, c.b2, k.b2) && Cancels(t, c.b3, k.b3);
  }

  /** Undoing the substitution and the row shift, in the order of the equivalent inverse cipher. */
  lemma UnshiftUnsub<G(!new)>(t: Tables<G>, s: State<G>)
    requires Good(t)
    ensures InvShiftRows(InvSubBytes(t, ShiftRows(SubBytes(t, s)))) == s
  {
  }

  lemma InvMixColumnsUndoes<G(!new)>(t: Tables<G>, s: State<G>, k: State<G>)
    requires Good(t)
    ensures AddRoundKey(t, InvMixColumns(t, AddRoundKey(t, MixColumns(t, s), k)), InvMixColumns(t, k)) == s
  {
    var m := MixColumns(t, s);
    InvMixColumnLinear(t, m.c0, k.c0); InvMixColumnLinear(t, m.c1, k.c1);
    InvMixColumnLinear(t, m.c2, k.c2); InvMixColumnLinear(t, m.c3, k.c3);
    InvMixColumnUndoes(t, s.c0); InvMixColumnUndoes(t, s.c1); InvMixColumnUndoes(t, s.c2); InvMixColumnUndoes(t, s.c3);
    AddRoundKeyCancels(t, s, InvMixColumns(t, k));
  }

  // ---------- the cipher and the equivalent inverse cipher ----------

  /** The layers of a round: substitution with row shift, column mixing, their inverses, and the
      addition of a round key. */
  datatype Layers<!S> = Layers(confuse: S -> S, unconfuse: S -> S, mix: S -> S, unmix: S -> S, add: (S, S) -> S)

  function AesLayers<G>(t: Tables<G>): Layers<State<G>> {
    Layers((s: State<G>) => ShiftRows(SubBytes(t, s)), (s: State<G>) => InvShiftRows(InvSubBytes(t, s)),
           (s: State<G>) => MixColumns(t, s), (s: State<G>) => InvMixColumns(t, s),
           (s: State<G>, k: State<G>) => AddRoundKey(t, s, k))
  }

  // Each layer of `l` is the AES layer, at one state.

  predicate ConfusesAt<G(==)>(t: Tables<G>, l: Layers<State<G>>, s: State<G>) {
    l.confuse(s) == ShiftRows(SubBytes(t, s))
  }

  predicate UnconfusesAt<G(==)>(t: Tables<G>, l: Layers<State<G>>, s: State<G>) {
    l.unconfuse(s) == InvShiftRows(InvSubBytes(t, s))
  }

  predicate MixesAt<G(==)>(t: Tables<G>, l: Layers<State<G>>, s: State<G>) { l.mix(s) == MixColumns(t, s) }
  predicate UnmixesAt<G(==)>(t: Tables<G>, l: Layers<State<G>>, s: State<G>) { l.unmix(s) == InvMixColumns(t, s) }

  predicate AddsAt<G(==)>(t: Tables<G>, l: Layers<State<G>>, s: State<G>, k: State<G>) {
    l.add(s, k) == AddRoundKey(t, s, k)
  }


  ghost predicate AesLike<G(!new)>(t: Tables<G>, l: Layers<State<G>>) {
    && (forall s :: ConfusesAt(t, l, s))
    && (forall s :: UnconfusesAt(t, l, s))
    && (forall s :: MixesAt(t, l, s))
    && (forall s :: UnmixesAt(t, l, s))
    && (forall s, k :: AddsAt(t, l, s, k))
  }

  lemma ConfuseLayer<G>(t: Tables<G>, s: State<G>)
    ensures ConfusesAt(t, AesLayers(t), s)
  {
  }

  lemma UnconfuseLayer<G>(t: Tables<G>, s: State<G>)
    ensures UnconfusesAt(t, AesLayers(t), s)
  {
  }

  lemma MixLayer<G>(t: Tables<G>, s: State<G>)
    ensures MixesAt(t, AesLayers(t), s)
  {
  }

  lemma UnmixLayer<G>(t: Tables<G>, s: State<G>)
    ensures UnmixesAt(t, AesLayers(t), s)
  {
  }

  lemma AddLayer<G>(t: Tables<G>, s: State<G>, k: State<G>)
    ensures AddsAt(t, AesLayers(t), s, k)
  {
  }

  lemma AesLayersAreAesLike<G(!new)>(t: Tables<G>)
    ensures AesLike(t, AesLayers(t))
  {
    forall s ensures ConfusesAt(t, AesLayers(t), s) { ConfuseLayer(t, s); }
    forall s ensures UnconfusesAt(t, AesLayers(t), s) { UnconfuseLayer(t, s); }
    forall s ensures MixesAt(t, AesLayers(t), s) { MixLayer(t, s); }
    forall s ensures UnmixesAt(t, AesLayers(t), s) { UnmixLayer(t, s); }
    forall s, k ensures AddsAt(t, AesLayers(t), s, k) { AddLayer(t, s, k); }
  }

  /** The state after the first `r` rounds of section 5.1. */
  function Rounds<S>(l: Layers<S>, rk: seq<S>, p: S, r: nat): S
    requires r < |rk|
  {
    if r == 0 then l.add(p, rk[0]) else l.add(l.mix(l.confuse(Rounds(l, rk, p, r - 1))), rk[r])
  }

  function Cipher<S>(l: Layers<S>, rk: seq<S>, p: S): S
    requires |rk| >= 2
  {
    l.add(l.confuse(Rounds(l, rk, p, |rk| - 2)), rk[|rk| - 1])
  }

  /** The state after the first `r` rounds of section 5.3.5. */
  function InvRounds<S>(l: Layers<S>, dk: seq<S>, c: S, r: nat): S
    requires r < |dk|
  {
    if r == 0 then l.add(c, dk[0]) else l.add(l.unmix(l.unconfuse(InvRounds(l, dk, c, r - 1))), dk[r])
  }

  function EqInvCipher<S>(l: Layers<S>, dk: seq<S>, c: S): S
    requires |dk| >= 2
  {
    l.add(l.unconfuse(InvRounds(l, dk, c, |dk| - 2)), dk[|dk| - 1])
  }

  predicate Unconfuses<S(==)>(l: Layers<S>, s: S) {
    l.unconfuse(l.confuse(s)) == s
  }

  predicate AddCancels<S(==)>(l: Layers<S>, s: S, k: S) {
    l.add(l.add(s, k), k) == s
  }

  /** A mixed key addition is undone by adding the unmixed key. */
  predicate UnmixesKey<S(==)>(l: Layers<S>, s: S, k: S) {
    l.add(l.unmix(l.add(l.mix(s), k)), l.unmix(k)) == s
  }

  ghost predicate Invertible<S(!new)>(l: Layers<S>) {
    && (forall s :: Unconfuses(l, s))
    && (forall s, k :: AddCancels(l, s, k))
    && (forall s, k :: UnmixesKey(l, s, k))
  }

  lemma AesUnconfuses<G(!new)>(t: Tables<G>, l: Layers<State<G>>, s: State<G>)
    requires Good(t) && AesLike(t, l)
    ensures Unconfuses(l, s)
  {
    assert ConfusesAt(t, l, s) && UnconfusesAt(t, l, ShiftRows(SubBytes(t, s)));
    UnshiftUnsub(t, s);
  }

  lemma AesAddCancels<G(!new)>(t: Tables<G>, l: Layers<State<G>>, s: State<G>, k: State<G>)
    requires Good(t) && AesLike(t, l)
    ensures AddCancels(l, s, k)
  {
    assert AddsAt(t, l, s, k) && AddsAt(t, l, AddRoundKey(t, s, k), k);
    AddRoundKeyCancels(t, s, k);
  }

  lemma AesUnmixesKey<G(!new)>(t: Tables<G>, l: Layers<State<G>>, s: State<G>, k: State<G>)
    requires Good(t) && AesLike(t, l)
    ensures UnmixesKey(l, s, k)
  {
    var m := AddRoundKey(t, MixColumns(t, s), k);
    assert MixesAt(t, l, s) && AddsAt(t, l, MixColumns(t, s), k) && UnmixesAt(t, l, m) && UnmixesAt(t, l, k);
    assert AddsAt(t, l, InvMixColumns(t, m), InvMixColumns(t, k));
    InvMixColumnsUndoes(t, s, k);
  }

  lemma AesLayersInvertible<G(!new)>(t: Tables<G>, l: Layers<State<G>>)
    requires Good(t) && AesLike(t, l)
    ensures Invertible(l)
  {
    forall s ensures Unconfuses(l, s) { AesUnconfuses(t, l, s); }
    forall s, k ensures AddCancels(l, s, k) { AesAddCancels(t, l, s, k); }
    forall s, k ensures UnmixesKey(l, s, k) { AesUnmixesKey(t, l, s, k); }
  }

  /** Round key r of decryption: from the other end, mixed back except at both ends. */
  function DecryptionKey<S>(l: Layers<S>, rk: seq<S>, r: nat): S
    requires r < |rk|
  {
    if r == 0 || r == |rk| - 1 then rk[|rk| - 1 - r] else l.unmix(rk[|rk| - 1 - r])
  }

  ghost predicate InverseSchedule<S>(l: Layers<S>, rk: seq<S>, dk: seq<S>) {
    |rk| == |dk| >= 2 && forall r :: 0 <= r < |rk| ==> dk[r] == DecryptionKey(l, rk, r)
  }

  lemma StepBack<S(!new)>(l: Layers<S>, before: S, k: S)
    requires Invertible(l)
    ensures l.add(l.unmix(l.unconfuse(l.confuse(l.add(l.mix(l.confuse(before)), k)))), l.unmix(k)) == l.confuse(before)
  {
    assert Unconfuses(l, l.add(l.mix(l.confuse(before)), k));
    assert UnmixesKey(l, l.confuse(before), k);
  }

  function InverseKeys<S>(l: Layers<S>, rk: seq<S>): (dk: seq<S>)
    requires |rk| >= 2
    ensures InverseSchedule(l, rk, dk)
  {
    seq(|rk|, r requires 0 <= r < |rk| => DecryptionKey(l, rk, r))
  }

  /** After r rounds of decryption the state is the one before the last half of encryption round q. */
  lemma {:induction false} InvRoundsMeetRounds<S(!new)>(l: Layers<S>, rk: seq<S>, dk: seq<S>, p: S, c: S, r: nat,
                                                        q: nat)
    requires Invertible(l) && InverseSchedule(l, rk, dk) && q + r == |rk| - 2
    requires c == Cipher(l, rk, p)
    ensures InvRounds(l, dk, c, r) == l.confuse(Rounds(l, rk, p, q))
  {
    if r == 0 {
      assert AddCancels(l, l.confuse(Rounds(l, rk, p, q)), rk[q + 1]);
      assert dk[0] == rk[q + 1];
    } else {
      InvRoundsMeetRounds(l, rk, dk, p, c, r - 1, q + 1);
      assert dk[r] == l.unmix(rk[q + 1]);
      StepBack(l, Rounds(l, rk, p, q), rk[q + 1]);
    }
  }

  /** Decrypting an encrypted block gives the block, for every key schedule. */
  lemma CipherRoundTrip<S(!new)>(l: Layers<S>, rk: seq<S>, dk: seq<S>, p: S)
    requires Invertible(l) && InverseSchedule(l, rk, dk)
    ensures EqInvCipher(l, dk, Cipher(l, rk, p)) == p
  {
    var n, c := |rk| - 1, Cipher(l, rk, p);
    InvRoundsMeetRounds(l, rk, dk, p, c, n - 1, 0);
    assert dk[n] == rk[0] && |dk| == n + 1;
    assert Unconfuses(l, l.add(p, rk[0])) && AddCancels(l, p, rk[0]);
  }

  // ---------- key expansion ----------

  /** A key of 16, 24 or 32 bytes, as words. */
  predicate KeyWords<G>(key: seq<Column<G>>) {
    |key| == 4 || |key| == 6 || |key| == 8
  }

  function NumRounds(keyWords: nat): nat { keyWords + 6 }

  function RotWord<G>(w: Column<G>): Column<G> { Column(w.b1, w.b2, w.b3, w.b0) }

  /** x to the power i. */
  function Rcon<G>(t: Tables<G>, i: nat): G {
    if i == 0 then t.one else t.x(Rcon(t, i - 1))
  }

  /** i modulo Nk and i divided by Nk, for Nk = 4, 6 or 8. */
  function Phase(nk: nat, i: nat): nat { if nk == 4 then i % 4 else if nk == 6 then i % 6 else i % 8 }
  function Block(nk: nat, i: nat): nat { if nk == 4 then i / 4 else if nk == 6 then i / 6 else i / 8 }

  /** What is added to word i - Nk to get word i, from word i - 1. */
  function Feed<G>(t: Tables<G>, nk: nat, i: nat, temp: Column<G>): Column<G> {
    if Phase(nk, i) == 0 then
      XorColumn(t, SubColumn(t, RotWord(temp)),
                Column(if Block(nk, i) == 0 then t.zero else Rcon(t, Block(nk, i) - 1), t.zero, t.zero, t.zero))
    else if nk > 6 && Phase(nk, i) == 4 then SubColumn(t, temp)
    else temp
  }

  /** The word that follows `ws` in the expanded key (section 5.2). */
  function NextKeyWord<G>(t: Tables<G>, nk: nat, ws: seq<Column<G>>): Column<G>
    requires 0 < nk
  {
    if |ws| < nk then Column(t.zero, t.zero, t.zero, t.zero)
    else XorColumn(t, ws[|ws| - nk], Feed(t, nk, |ws|, ws[|ws| - 1]))
  }

  function KeyStep<G>(t: Tables<G>, nk: nat): seq<Column<G>> -> Column<G>
    requires 0 < nk
  {
    (ws: seq<Column<G>>) => NextKeyWord(t, nk, ws)
  }

  /** `start`, extended to n elements, each computed from all those before it. */
  function Extend<W>(start: seq<W>, next: seq<W> -> W, n: nat): (ws: seq<W>)
    requires n >= |start|
    ensures |ws| == n
  {
    if n == |start| then start
    else var ws := Extend(start, next, n - 1); ws + [next(ws)]
  }

  lemma {:induction false} ExtendPrefix<W>(start: seq<W>, next: seq<W> -> W, m: nat, n: nat)
    requires |start| <= m <= n
    ensures Extend(start, next, m) == Extend(start, next, n)[..m]
  {
    if m < n {
      ExtendPrefix(start, next, m, n - 1);
    }
  }

  predicate StepsAt<G(==)>(t: Tables<G>, nk: nat, next: seq<Column<G>> -> Column<G>, ws: seq<Column<G>>)
    requires 0 < nk
  {
    next(ws) == NextKeyWord(t, nk, ws)
  }

  /** `next` is the recurrence of the key expansion. */
  ghost predicate KeyLike<G(!new)>(t: Tables<G>, nk: nat, next: seq<Column<G>> -> Column<G>) {
    0 < nk && forall ws :: StepsAt(t, nk, next, ws)
  }

  lemma KeyStepIsKeyLike<G(!new)>(t: Tables<G>, nk: nat)
    requires 0 < nk
    ensures KeyLike(t, nk, KeyStep(t, nk))
  {
  }

  /** Round key r: words 4 r to 4 r + 3. */
  function RoundKeys<G>(ws: seq<Column<G>>): (rk: seq<State<G>>)
    requires |ws| % 4 == 0
    ensures |rk| == |ws| / 4
  {
    seq(|ws| / 4, r requires 0 <= r < |ws| / 4 => State(ws[4 * r], ws[4 * r + 1], ws[4 * r + 2], ws[4 * r + 3]))
  }

  /** The encryption schedule of a key: the key extended by the recurrence, cut into rounds. */
  function EncryptionKeys<G>(next: seq<Column<G>> -> Column<G>, key: seq<Column<G>>): (rk: seq<State<G>>)
    requires KeyWords(key)
    ensures |rk| == NumRounds(|key|) + 1
  {
    RoundKeys(Extend(key, next, 4 * (NumRounds(|key|) + 1)))
  }
}

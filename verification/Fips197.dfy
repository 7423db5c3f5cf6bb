/** FIPS 197 in its own terms, at the tables of lab8/tools/kflash.py: the S-box by inversion in the field, the layers
    byte by byte, the T-tables, the key expansion by index and the rounds as a sequence of states. */
module Fips197 {
  import opened AesSpec
  import opened AesTables
  import opened Aes

  // ---------- the field ----------

  /** The product of two polynomials modulo x^8 + x^4 + x^3 + x + 1 (section 4.2): the multiples of a by the powers of
      x, added where b has a bit. */
  function Product(a: octet, b: octet): octet {
    var a1 := Xtime(a);
    var a2 := Xtime(a1);
    var a3 := Xtime(a2);
    var a4 := Xtime(a3);
    var a5 := Xtime(a4);
    var a6 := Xtime(a5);
    Chosen(b, a, a1, a2, a3, a4, a5, a6, Xtime(a6))
  }

  /** The sum of those terms for which b has a bit. */
  function Chosen(b: octet, a0: octet, a1: octet, a2: octet, a3: octet, a4: octet, a5: octet, a6: octet,
                  a7: octet): octet
  {
    (if b & 1 == 0 then 0 else a0) ^ (if b & 2 == 0 then 0 else a1) ^ (if b & 4 == 0 then 0 else a2)
    ^ (if b & 8 == 0 then 0 else a3) ^ (if b & 16 == 0 then 0 else a4) ^ (if b & 32 == 0 then 0 else a5)
    ^ (if b & 64 == 0 then 0 else a6) ^ (if b & 128 == 0 then 0 else a7)
  }

  function RotL(w: octet, n: octet): octet
    requires 0 < n < 8
  {
    (w << n) | (w >> (8 - n))
  }

  /** The affine transformation of section 5.1.1. */
  function Affine(w: octet): octet { w ^ RotL(w, 1) ^ RotL(w, 2) ^ RotL(w, 3) ^ RotL(w, 4) ^ 0x63 }

  /** Its inverse. */
  function Unaffine(v: octet): octet { RotL(v, 1) ^ RotL(v, 3) ^ RotL(v, 6) ^ 0x05 }

  lemma AffineUndone(v: octet)
    ensures Affine(Unaffine(v)) == v
  {
  }

  lemma Inverse0(v: octet, w: octet)
    requires 0x00 < v < 0x10 && w == Unaffine(S(v))
    ensures Product(v, w) == 1
  {
    if v == 0x01 { } else if v == 0x02 { } else if v == 0x03 { } else if v == 0x04 { }
    else if v == 0x05 { } else if v == 0x06 { } else if v == 0x07 { } else if v == 0x08 { }
    else if v == 0x09 { } else if v == 0x0a { } else if v == 0x0b { } else if v == 0x0c { }
    else if v == 0x0d { } else if v == 0x0e { } else if v == 0x0f { }
  }

  lemma Inverse1(v: octet, w: octet)
    requires 0x10 <= v < 0x20 && w == Unaffine(S(v))
    ensures Product(v, w) == 1
  {
    if v == 0x10 { } else if v == 0x11 { } else if v == 0x12 { } else if v == 0x13 { }
    else if v == 0x14 { } else if v == 0x15 { } else if v == 0x16 { } else if v == 0x17 { }
    else if v == 0x18 { } else if v == 0x19 { } else if v == 0x1a { } else if v == 0x1b { }
    else if v == 0x1c { } else if v == 0x1d { } else if v == 0x1e { } else if v == 0x1f { }
  }

  lemma Inverse2(v: octet, w: octet)
    requires 0x20 <= v < 0x30 && w == Unaffine(S(v))
    ensures Product(v, w) == 1
  {
    if v == 0x20 { } else if v == 0x21 { } else if v == 0x22 { } else if v == 0x23 { }
    else if v == 0x24 { } else if v == 0x25 { } else if v == 0x26 { } else if v == 0x27 { }
    else if v == 0x28 { } else if v == 0x29 { } else if v == 0x2a { } else if v == 0x2b { }
    else if v == 0x2c { } else if v == 0x2d { } else if v == 0x2e { } else if v == 0x2f { }
  }

  lemma Inverse3(v: octet, w: octet)
    requires 0x30 <= v < 0x40 && w == Unaffine(S(v))
    ensures Product(v, w) == 1
  {
    if v == 0x30 { } else if v == 0x31 { } else if v == 0x32 { } else if v == 0x33 { }
    else if v == 0x34 { } else if v == 0x35 { } else if v == 0x36 { } else if v == 0x37 { }
    else if v == 0x38 { } else if v == 0x39 { } else if v == 0x3a { } else if v == 0x3b { }
    else if v == 0x3c { } else if v == 0x3d { } else if v == 0x3e { } else if v == 0x3f { }
  }

  lemma Inverse4(v: octet, w: octet)
    requires 0x40 <= v < 0x50 && w == Unaffine(S(v))
    ensures Product(v, w) == 1
  {
    if v == 0x40 { } else if v == 0x41 { } else if v == 0x42 { } else if v == 0x43 { }
    else if v == 0x44 { } else if v == 0x45 { } else if v == 0x46 { } else if v == 0x47 { }
    else if v == 0x48 { } else if v == 0x49 { } else if v == 0x4a { } else if v == 0x4b { }
    else if v == 0x4c { } else if v == 0x4d { } else if v == 0x4e { } else if v == 0x4f { }
  }

  lemma Inverse5(v: octet, w: octet)
    requires 0x50 <= v < 0x60 && w == Unaffine(S(v))
    ensures Product(v, w) == 1
  {
    if v == 0x50 { } else if v == 0x51 { } else if v == 0x52 { } else if v == 0x53 { }
    else if v == 0x54 { } else if v == 0x55 { } else if v == 0x56 { } else if v == 0x57 { }
    else if v == 0x58 { } else if v == 0x59 { } else if v == 0x5a { } else if v == 0x5b { }
    else if v == 0x5c { } else if v == 0x5d { } else if v == 0x5e { } else if v == 0x5f { }
  }

  lemma Inverse6(v: octet, w: octet)
    requires 0x60 <= v < 0x70 && w == Unaffine(S(v))
    ensures Product(v, w) == 1
  {
    if v == 0x60 { } else if v == 0x61 { } else if v == 0x62 { } else if v == 0x63 { }
    else if v == 0x64 { } else if v == 0x65 { } else if v == 0x66 { } else if v == 0x67 { }
    else if v == 0x68 { } else if v == 0x69 { } else if v == 0x6a { } else if v == 0x6b { }
    else if v == 0x6c { } else if v == 0x6d { } else if v == 0x6e { } else if v == 0x6f { }
  }

  lemma Inverse7(v: octet, w: octet)
    requires 0x70 <= v < 0x80 && w == Unaffine(S(v))
    ensures Product(v, w) == 1
  {
    if v == 0x70 { } else if v == 0x71 { } else if v == 0x72 { } else if v == 0x73 { }
    else if v == 0x74 { } else if v == 0x75 { } else if v == 0x76 { } else if v == 0x77 { }
    else if v == 0x78 { } else if v == 0x79 { } else if v == 0x7a { } else if v == 0x7b { }
    else if v == 0x7c { } else if v == 0x7d { } else if v == 0x7e { } else if v == 0x7f { }
  }

  lemma Inverse8(v: octet, w: octet)
    requires 0x80 <= v < 0x90 && w == Unaffine(S(v))
    ensures Product(v, w) == 1
  {
    if v == 0x80 { } else if v == 0x81 { } else if v == 0x82 { } else if v == 0x83 { }
    else if v == 0x84 { } else if v == 0x85 { } else if v == 0x86 { } else if v == 0x87 { }
    else if v == 0x88 { } else if v == 0x89 { } else if v == 0x8a { } else if v == 0x8b { }
    else if v == 0x8c { } else if v == 0x8d { } else if v == 0x8e { } else if v == 0x8f { }
  }

  lemma Inverse9(v: octet, w: octet)
    requires 0x90 <= v < 0xa0 && w == Unaffine(S(v))
    ensures Product(v, w) == 1
  {
    if v == 0x90 { } else if v == 0x91 { } else if v == 0x92 { } else if v == 0x93 { }
    else if v == 0x94 { } else if v == 0x95 { } else if v == 0x96 { } else if v == 0x97 { }
    else if v == 0x98 { } else if v == 0x99 { } else if v == 0x9a { } else if v == 0x9b { }
    else if v == 0x9c { } else if v == 0x9d { } else if v == 0x9e { } else if v == 0x9f { }
  }

  lemma InverseA(v: octet, w: octet)
    requires 0xa0 <= v < 0xb0 && w == Unaffine(S(v))
    ensures Product(v, w) == 1
  {
    if v == 0xa0 { } else if v == 0xa1 { } else if v == 0xa2 { } else if v == 0xa3 { }
    else if v == 0xa4 { } else if v == 0xa5 { } else if v == 0xa6 { } else if v == 0xa7 { }
    else if v == 0xa8 { } else if v == 0xa9 { } else if v == 0xaa { } else if v == 0xab { }
    else if v == 0xac { } else if v == 0xad { } else if v == 0xae { } else if v == 0xaf { }
  }

  lemma InverseB(v: octet, w: octet)
    requires 0xb0 <= v < 0xc0 && w == Unaffine(S(v))
    ensures Product(v, w) == 1
  {
    if v == 0xb0 { } else if v == 0xb1 { } else if v == 0xb2 { } else if v == 0xb3 { }
    else if v == 0xb4 { } else if v == 0xb5 { } else if v == 0xb6 { } else if v == 0xb7 { }
    else if v == 0xb8 { } else if v == 0xb9 { } else if v == 0xba { } else if v == 0xbb { }
    else if v == 0xbc { } else if v == 0xbd { } else if v == 0xbe { } else if v == 0xbf { }
  }

  lemma InverseC(v: octet, w: octet)
    requires 0xc0 <= v < 0xd0 && w == Unaffine(S(v))
    ensures Product(v, w) == 1
  {
    if v == 0xc0 { } else if v == 0xc1 { } else if v == 0xc2 { } else if v == 0xc3 { }
    else if v == 0xc4 { } else if v == 0xc5 { } else if v == 0xc6 { } else if v == 0xc7 { }
    else if v == 0xc8 { } else if v == 0xc9 { } else if v == 0xca { } else if v == 0xcb { }
    else if v == 0xcc { } else if v == 0xcd { } else if v == 0xce { } else if v == 0xcf { }
  }

  lemma InverseD(v: octet, w: octet)
    requires 0xd0 <= v < 0xe0 && w == Unaffine(S(v))
    ensures Product(v, w) == 1
  {
    if v == 0xd0 { } else if v == 0xd1 { } else if v == 0xd2 { } else if v == 0xd3 { }
    else if v == 0xd4 { } else if v == 0xd5 { } else if v == 0xd6 { } else if v == 0xd7 { }
    else if v == 0xd8 { } else if v == 0xd9 { } else if v == 0xda { } else if v == 0xdb { }
    else if v == 0xdc { } else if v == 0xdd { } else if v == 0xde { } else if v == 0xdf { }
  }

  lemma InverseE(v: octet, w: octet)
    requires 0xe0 <= v < 0xf0 && w == Unaffine(S(v))
    ensures Product(v, w) == 1
  {
    if v == 0xe0 { } else if v == 0xe1 { } else if v == 0xe2 { } else if v == 0xe3 { }
    else if v == 0xe4 { } else if v == 0xe5 { } else if v == 0xe6 { } else if v == 0xe7 { }
    else if v == 0xe8 { } else if v == 0xe9 { } else if v == 0xea { } else if v == 0xeb { }
    else if v == 0xec { } else if v == 0xed { } else if v == 0xee { } else if v == 0xef { }
  }

  lemma InverseF(v: octet, w: octet)
    requires 0xf0 <= v && w == Unaffine(S(v))
    ensures Product(v, w) == 1
  {
    if v == 0xf0 { } else if v == 0xf1 { } else if v == 0xf2 { } else if v == 0xf3 { }
    else if v == 0xf4 { } else if v == 0xf5 { } else if v == 0xf6 { } else if v == 0xf7 { }
    else if v == 0xf8 { } else if v == 0xf9 { } else if v == 0xfa { } else if v == 0xfb { }
    else if v == 0xfc { } else if v == 0xfd { } else if v == 0xfe { } else if v == 0xff { }
  }

  /** The S-box of section 5.1.1: the inverse in the field, 0 for 0, and then the affine transformation. */
  lemma SBoxIs(v: octet) returns (w: octet)
    ensures v == 0 ==> w == 0
    ensures v != 0 ==> Product(v, w) == 1
    ensures S(v) == w ^ RotL(w, 1) ^ RotL(w, 2) ^ RotL(w, 3) ^ RotL(w, 4) ^ 0x63
  {
    w := Unaffine(S(v));
    AffineUndone(S(v));
    if v == 0 { }
    else if v < 0x10 { Inverse0(v, w); }
    else if v < 0x20 { Inverse1(v, w); }
    else if v < 0x30 { Inverse2(v, w); }
    else if v < 0x40 { Inverse3(v, w); }
    else if v < 0x50 { Inverse4(v, w); }
    else if v < 0x60 { Inverse5(v, w); }
    else if v < 0x70 { Inverse6(v, w); }
    else if v < 0x80 { Inverse7(v, w); }
    else if v < 0x90 { Inverse8(v, w); }
    else if v < 0xa0 { Inverse9(v, w); }
    else if v < 0xb0 { InverseA(v, w); }
    else if v < 0xc0 { InverseB(v, w); }
    else if v < 0xd0 { InverseC(v, w); }
    else if v < 0xe0 { InverseD(v, w); }
    else if v < 0xf0 { InverseE(v, w); }
    else { InverseF(v, w); }
  }

  // ---------- the layers, byte by byte ----------

  /** The byte in row r and column c of the state. */
  function At<G>(s: State<G>, r: nat, c: nat): G
    requires r < 4 && c < 4
  {
    ColumnBytes(if c == 0 then s.c0 else if c == 1 then s.c1 else if c == 2 then s.c2 else s.c3)[r]
  }

  /** Input and output take the state column by column (section 3.4). */
  lemma BytesByColumn<G>(bytes: seq<G>, s: State<G>, r: nat, c: nat)
    requires |bytes| == 16 && r < 4 && c < 4
    ensures At(FromBytes(bytes), r, c) == bytes[r + 4 * c]
    ensures |ToBytes(s)| == 16 && ToBytes(s)[r + 4 * c] == At(s, r, c)
  {
  }

  /** Row r moves r places to the left, and back for decryption (sections 5.1.2 and 5.3.1). */
  lemma RowsShift<G>(s: State<G>, r: nat, c: nat)
    requires r < 4 && c < 4
    ensures At(ShiftRows(s), r, c) == At(s, r, (c + r) % 4)
    ensures At(InvShiftRows(s), r, (c + r) % 4) == At(s, r, c)
  {
  }

  lemma BytesAreSubstituted<G>(t: Tables<G>, s: State<G>, r: nat, c: nat)
    requires r < 4 && c < 4
    ensures At(SubBytes(t, s), r, c) == t.s(At(s, r, c))
    ensures At(InvSubBytes(t, s), r, c) == t.si(At(s, r, c))
  {
  }

  lemma KeysAreAdded<G>(t: Tables<G>, s: State<G>, k: State<G>, r: nat, c: nat)
    requires r < 4 && c < 4
    ensures At(AddRoundKey(t, s, k), r, c) == t.xor(At(s, r, c), At(k, r, c))
  {
  }

  lemma SmallProducts(a: octet)
    ensures Product(a, 1) == a && Product(a, 2) == Xtime(a) && Product(a, 3) == Xtime(a) ^ a
  {
  }

  lemma Chosen9(a0: octet, a1: octet, a2: octet, a3: octet, a4: octet, a5: octet, a6: octet, a7: octet)
    ensures Chosen(9, a0, a1, a2, a3, a4, a5, a6, a7) == a3 ^ a0
  {
  }

  lemma Chosen11(a0: octet, a1: octet, a2: octet, a3: octet, a4: octet, a5: octet, a6: octet, a7: octet)
    ensures Chosen(11, a0, a1, a2, a3, a4, a5, a6, a7) == a3 ^ a1 ^ a0
  {
  }

  lemma Chosen13(a0: octet, a1: octet, a2: octet, a3: octet, a4: octet, a5: octet, a6: octet, a7: octet)
    ensures Chosen(13, a0, a1, a2, a3, a4, a5, a6, a7) == a3 ^ a2 ^ a0
  {
  }

  lemma Chosen14(a0: octet, a1: octet, a2: octet, a3: octet, a4: octet, a5: octet, a6: octet, a7: octet)
    ensures Chosen(14, a0, a1, a2, a3, a4, a5, a6, a7) == a3 ^ a2 ^ a1
  {
  }

  lemma LargeMuls(a: octet)
    ensures var a3 := Xtime(Xtime(Xtime(a)));
            && Mul9(STANDARD, a) == Xor(a3, a) && Mul11(STANDARD, a) == Xor(Xor(a3, Xtime(a)), a)
            && Mul13(STANDARD, a) == Xor(Xor(a3, Xtime(Xtime(a))), a)
            && Mul14(STANDARD, a) == Xor(Xor(a3, Xtime(Xtime(a))), Xtime(a))
  {
  }

  lemma Multiples(a: octet)
    ensures STANDARD.x(a) == Product(a, 2) && Mul3(STANDARD, a) == Product(a, 3)
  {
    SmallProducts(a);
  }

  lemma Sums(a: octet, b: octet, c: octet, d: octet)
    ensures Sum4(STANDARD, a, b, c, d) == a ^ b ^ c ^ d
  {
  }

  /** Column mixing multiplies by the matrix of section 5.1.3. */
  lemma ColumnsAreMixed(c: Column<octet>)
    ensures MixColumn(STANDARD, c) ==
            Column(Sum4(STANDARD, Product(c.b0, 2), Product(c.b1, 3), c.b2, c.b3),
                   Sum4(STANDARD, c.b0, Product(c.b1, 2), Product(c.b2, 3), c.b3),
                   Sum4(STANDARD, c.b0, c.b1, Product(c.b2, 2), Product(c.b3, 3)),
                   Sum4(STANDARD, Product(c.b0, 3), c.b1, c.b2, Product(c.b3, 2)))
  {
    Multiples(c.b0);
    Multiples(c.b1);
    Multiples(c.b2);
    Multiples(c.b3);
  }

  lemma LargeMultiples(a: octet)
    ensures Mul9(STANDARD, a) == Product(a, 9) && Mul11(STANDARD, a) == Product(a, 11)
    ensures Mul13(STANDARD, a) == Product(a, 13) && Mul14(STANDARD, a) == Product(a, 14)
  {
    var a1 := Xtime(a);
    var a2 := Xtime(a1);
    var a3 := Xtime(a2);
    var a4 := Xtime(a3);
    var a5 := Xtime(a4);
    var a6 := Xtime(a5);
    LargeMuls(a);
    Chosen9(a, a1, a2, a3, a4, a5, a6, Xtime(a6));
    Chosen11(a, a1, a2, a3, a4, a5, a6, Xtime(a6));
    Chosen13(a, a1, a2, a3, a4, a5, a6, Xtime(a6));
    Chosen14(a, a1, a2, a3, a4, a5, a6, Xtime(a6));
  }

  /** And by that of section 5.3.3 for decryption. */
  lemma ColumnsAreUnmixed(c: Column<octet>)
    ensures InvMixColumn(STANDARD, c) ==
            Column(Sum4(STANDARD, Product(c.b0, 14), Product(c.b1, 11), Product(c.b2, 13), Product(c.b3, 9)),
                   Sum4(STANDARD, Product(c.b0, 9), Product(c.b1, 14), Product(c.b2, 11), Product(c.b3, 13)),
                   Sum4(STANDARD, Product(c.b0, 13), Product(c.b1, 9), Product(c.b2, 14), Product(c.b3, 11)),
                   Sum4(STANDARD, Product(c.b0, 11), Product(c.b1, 13), Product(c.b2, 9), Product(c.b3, 14)))
  {
    LargeMultiples(c.b0);
    LargeMultiples(c.b1);
    LargeMultiples(c.b2);
    LargeMultiples(c.b3);
  }

  // ---------- the T-tables ----------

  /** T1 to T4: a substituted byte s times a column of the matrix. */
  lemma TTables(v: octet, s: octet)
    requires s == STANDARD.s(v)
    ensures T1(STANDARD, v) == Column(Product(s, 2), s, s, Product(s, 3))
    ensures T2(STANDARD, v) == Column(Product(s, 3), Product(s, 2), s, s)
    ensures T3(STANDARD, v) == Column(s, Product(s, 3), Product(s, 2), s)
    ensures T4(STANDARD, v) == Column(s, s, Product(s, 3), Product(s, 2))
  {
    Multiples(s);
  }

  /** U1 to U4: a byte times a column of the inverse matrix. */
  lemma UTables(v: octet)
    ensures U1(STANDARD, v) == Column(Product(v, 14), Product(v, 9), Product(v, 13), Product(v, 11))
    ensures U2(STANDARD, v) == Column(Product(v, 11), Product(v, 14), Product(v, 9), Product(v, 13))
    ensures U3(STANDARD, v) == Column(Product(v, 13), Product(v, 11), Product(v, 14), Product(v, 9))
    ensures U4(STANDARD, v) == Column(Product(v, 9), Product(v, 13), Product(v, 11), Product(v, 14))
  {
    LargeMultiples(v);
  }

  /** T5 to T8 are these after the inverse substitution. */
  lemma InverseTTables<G>(t: Tables<G>, v: G)
    ensures T5(t, v) == U1(t, t.si(v)) && T6(t, v) == U2(t, t.si(v))
    ensures T7(t, v) == U3(t, t.si(v)) && T8(t, v) == U4(t, t.si(v))
  {
  }

  // ---------- rounds ----------

  /** The states of an encryption: a key is added, every round but the last substitutes and shifts, mixes and adds a
      key, and the last one does not mix (section 5.1). There are as many keys as states. */
  lemma {:induction false} CipherStates<S>(l: Layers<S>, rk: seq<S>, p: S) returns (states: seq<S>)
    requires |rk| >= 2
    ensures |states| == |rk| && states[0] == l.add(p, rk[0])
    ensures forall r :: 0 < r < |rk| - 1 ==> states[r] == l.add(l.mix(l.confuse(states[r - 1])), rk[r])
    ensures Cipher(l, rk, p) == states[|rk| - 1] == l.add(l.confuse(states[|rk| - 2]), rk[|rk| - 1])
  {
    states := seq(|rk| - 1, r requires 0 <= r < |rk| - 1 => Rounds(l, rk, p, r)) + [Cipher(l, rk, p)];
  }

  // ---------- key expansion ----------

  /** Word i of the expanded key (section 5.2): the word Nk places before, plus the word before, which is rotated,
      substituted and combined with a power of x at multiples of Nk, and substituted in the middle for Nk = 8. */
  ghost predicate ExpandedAt<G>(t: Tables<G>, nk: nat, ws: seq<Column<G>>, i: nat)
    requires nk in {4, 6, 8} && nk <= i < |ws|
  {
    var w, p := ws[i - nk], ws[i - 1];
    ws[i] ==
    if i % nk == 0 then
      Column(t.xor(w.b0, t.xor(t.s(p.b1), Rcon(t, i / nk - 1))), t.xor(w.b1, t.xor(t.s(p.b2), t.zero)),
             t.xor(w.b2, t.xor(t.s(p.b3), t.zero)), t.xor(w.b3, t.xor(t.s(p.b0), t.zero)))
    else if nk == 8 && i % 8 == 4 then
      Column(t.xor(w.b0, t.s(p.b0)), t.xor(w.b1, t.s(p.b1)), t.xor(w.b2, t.s(p.b2)), t.xor(w.b3, t.s(p.b3)))
    else Column(t.xor(w.b0, p.b0), t.xor(w.b1, p.b1), t.xor(w.b2, p.b2), t.xor(w.b3, p.b3))
  }

  /** The schedule begins with the key and goes on by this rule. */
  lemma KeyIsExpanded<G(!new)>(t: Tables<G>, key: seq<Column<G>>, next: seq<Column<G>> -> Column<G>, n: nat, i: nat)
    requires |key| in {4, 6, 8} && KeyLike(t, |key|, next) && |key| <= i < n
    ensures Extend(key, next, n)[..|key|] == key && ExpandedAt(t, |key|, Extend(key, next, n), i)
  {
    var ws := Extend(key, next, n);
    ExtendPrefix(key, next, |key|, n);
    ExtendPrefix(key, next, i, n);
    ExtendPrefix(key, next, i + 1, n);
    assert Extend(key, next, i + 1) == ws[..i] + [next(ws[..i])];
    assert StepsAt(t, |key|, next, ws[..i]);
    NextWordIs(t, |key|, ws[..i]);
  }

  lemma NextWordIs<G>(t: Tables<G>, nk: nat, ws: seq<Column<G>>)
    requires nk in {4, 6, 8} && nk <= |ws|
    ensures ExpandedAt(t, nk, ws + [NextKeyWord(t, nk, ws)], |ws|)
  {
  }

  /** Round key r is words 4 r to 4 r + 3; there are 11, 13 or 15 round keys for keys of 4, 6 or 8 words. */
  lemma RoundKeysAre<G>(key: seq<Column<G>>, next: seq<Column<G>> -> Column<G>, r: nat)
    requires |key| in {4, 6, 8} && r < |key| + 7
    ensures |EncryptionKeys(next, key)| == |key| + 7
    ensures var ws := Extend(key, next, 4 * (|key| + 7));
            EncryptionKeys(next, key)[r] == State(ws[4 * r], ws[4 * r + 1], ws[4 * r + 2], ws[4 * r + 3])
  {
  }
}

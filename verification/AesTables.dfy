/** The concrete octet tables of the AES class in lab8/tools/kflash.py: `S`, `Si`, `rcon`, and the
    multiplication that the tables T1 to T8 and U1 to U4 are built from. */
module AesTables {
  import opened AesSpec

  type octet = bv8

  /** Entry `c` of sixteen. */
  function Pick(c: octet, v0: octet, v1: octet, v2: octet, v3: octet, v4: octet, v5: octet, v6: octet, v7: octet,
                v8: octet, v9: octet, v10: octet, v11: octet, v12: octet, v13: octet, v14: octet, v15: octet): octet
  {
    if c & 8 == 0 then
      (if c & 4 == 0 then (if c & 2 == 0 then (if c & 1 == 0 then v0 else v1) else if c & 1 == 0 then v2 else v3)
       else if c & 2 == 0 then (if c & 1 == 0 then v4 else v5) else if c & 1 == 0 then v6 else v7)
    else
      (if c & 4 == 0 then (if c & 2 == 0 then (if c & 1 == 0 then v8 else v9) else if c & 1 == 0 then v10 else v11)
       else if c & 2 == 0 then (if c & 1 == 0 then v12 else v13) else if c & 1 == 0 then v14 else v15)
  }

  /** The S-box of section 5.1.1 of FIPS 197. */
  function S(v: octet): octet {
    var c := v & 0xf;
    Pick(v >> 4,
      Pick(c, 0x63, 0x7c, 0x77, 0x7b, 0xf2, 0x6b, 0x6f, 0xc5, 0x30, 0x01, 0x67, 0x2b, 0xfe, 0xd7, 0xab, 0x76),
      Pick(c, 0xca, 0x82, 0xc9, 0x7d, 0xfa, 0x59, 0x47, 0xf0, 0xad, 0xd4, 0xa2, 0xaf, 0x9c, 0xa4, 0x72, 0xc0),
      Pick(c, 0xb7, 0xfd, 0x93, 0x26, 0x36, 0x3f, 0xf7, 0xcc, 0x34, 0xa5, 0xe5, 0xf1, 0x71, 0xd8, 0x31, 0x15),
      Pick(c, 0x04, 0xc7, 0x23, 0xc3, 0x18, 0x96, 0x05, 0x9a, 0x07, 0x12, 0x80, 0xe2, 0xeb, 0x27, 0xb2, 0x75),
      Pick(c, 0x09, 0x83, 0x2c, 0x1a, 0x1b, 0x6e, 0x5a, 0xa0, 0x52, 0x3b, 0xd6, 0xb3, 0x29, 0xe3, 0x2f, 0x84),
      Pick(c, 0x53, 0xd1, 0x00, 0xed, 0x20, 0xfc, 0xb1, 0x5b, 0x6a, 0xcb, 0xbe, 0x39, 0x4a, 0x4c, 0x58, 0xcf),
      Pick(c, 0xd0, 0xef, 0xaa, 0xfb, 0x43, 0x4d, 0x33, 0x85, 0x45, 0xf9, 0x02, 0x7f, 0x50, 0x3c, 0x9f, 0xa8),
      Pick(c, 0x51, 0xa3, 0x40, 0x8f, 0x92, 0x9d, 0x38, 0xf5, 0xbc, 0xb6, 0xda, 0x21, 0x10, 0xff, 0xf3, 0xd2),
      Pick(c, 0xcd, 0x0c, 0x13, 0xec, 0x5f, 0x97, 0x44, 0x17, 0xc4, 0xa7, 0x7e, 0x3d, 0x64, 0x5d, 0x19, 0x73),
      Pick(c, 0x60, 0x81, 0x4f, 0xdc, 0x22, 0x2a, 0x90, 0x88, 0x46, 0xee, 0xb8, 0x14, 0xde, 0x5e, 0x0b, 0xdb),
      Pick(c, 0xe0, 0x32, 0x3a, 0x0a, 0x49, 0x06, 0x24, 0x5c, 0xc2, 0xd3, 0xac, 0x62, 0x91, 0x95, 0xe4, 0x79),
      Pick(c, 0xe7, 0xc8, 0x37, 0x6d, 0x8d, 0xd5, 0x4e, 0xa9, 0x6c, 0x56, 0xf4, 0xea, 0x65, 0x7a, 0xae, 0x08),
      Pick(c, 0xba, 0x78, 0x25, 0x2e, 0x1c, 0xa6, 0xb4, 0xc6, 0xe8, 0xdd, 0x74, 0x1f, 0x4b, 0xbd, 0x8b, 0x8a),
      Pick(c, 0x70, 0x3e, 0xb5, 0x66, 0x48, 0x03, 0xf6, 0x0e, 0x61, 0x35, 0x57, 0xb9, 0x86, 0xc1, 0x1d, 0x9e),
      Pick(c, 0xe1, 0xf8, 0x98, 0x11, 0x69, 0xd9, 0x8e, 0x94, 0x9b, 0x1e, 0x87, 0xe9, 0xce, 0x55, 0x28, 0xdf),
      Pick(c, 0x8c, 0xa1, 0x89, 0x0d, 0xbf, 0xe6, 0x42, 0x68, 0x41, 0x99, 0x2d, 0x0f, 0xb0, 0x54, 0xbb, 0x16))
  }

  /** The inverse S-box of section 5.3.2 of FIPS 197. */
  function Si(v: octet): octet {
    var c := v & 0xf;
    Pick(v >> 4,
      Pick(c, 0x52, 0x09, 0x6a, 0xd5, 0x30, 0x36, 0xa5, 0x38, 0xbf, 0x40, 0xa3, 0x9e, 0x81, 0xf3, 0xd7, 0xfb),
      Pick(c, 0x7c, 0xe3, 0x39, 0x82, 0x9b, 0x2f, 0xff, 0x87, 0x34, 0x8e, 0x43, 0x44, 0xc4, 0xde, 0xe9, 0xcb),
      Pick(c, 0x54, 0x7b, 0x94, 0x32, 0xa6, 0xc2, 0x23, 0x3d, 0xee, 0x4c, 0x95, 0x0b, 0x42, 0xfa, 0xc3, 0x4e),
      Pick(c, 0x08, 0x2e, 0xa1, 0x66, 0x28, 0xd9, 0x24, 0xb2, 0x76, 0x5b, 0xa2, 0x49, 0x6d, 0x8b, 0xd1, 0x25),
      Pick(c, 0x72, 0xf8, 0xf6, 0x64, 0x86, 0x68, 0x98, 0x16, 0xd4, 0xa4, 0x5c, 0xcc, 0x5d, 0x65, 0xb6, 0x92),
      Pick(c, 0x6c, 0x70, 0x48, 0x50, 0xfd, 0xed, 0xb9, 0xda, 0x5e, 0x15, 0x46, 0x57, 0xa7, 0x8d, 0x9d, 0x84),
      Pick(c, 0x90, 0xd8, 0xab, 0x00, 0x8c, 0xbc, 0xd3, 0x0a, 0xf7, 0xe4, 0x58, 0x05, 0xb8, 0xb3, 0x45, 0x06),
      Pick(c, 0xd0, 0x2c, 0x1e, 0x8f, 0xca, 0x3f, 0x0f, 0x02, 0xc1, 0xaf, 0xbd, 0x03, 0x01, 0x13, 0x8a, 0x6b),
      Pick(c, 0x3a, 0x91, 0x11, 0x41, 0x4f, 0x67, 0xdc, 0xea, 0x97, 0xf2, 0xcf, 0xce, 0xf0, 0xb4, 0xe6, 0x73),
      Pick(c, 0x96, 0xac, 0x74, 0x22, 0xe7, 0xad, 0x35, 0x85, 0xe2, 0xf9, 0x37, 0xe8, 0x1c, 0x75, 0xdf, 0x6e),
      Pick(c, 0x47, 0xf1, 0x1a, 0x71, 0x1d, 0x29, 0xc5, 0x89, 0x6f, 0xb7, 0x62, 0x0e, 0xaa, 0x18, 0xbe, 0x1b),
      Pick(c, 0xfc, 0x56, 0x3e, 0x4b, 0xc6, 0xd2, 0x79, 0x20, 0x9a, 0xdb, 0xc0, 0xfe, 0x78, 0xcd, 0x5a, 0xf4),
      Pick(c, 0x1f, 0xdd, 0xa8, 0x33, 0x88, 0x07, 0xc7, 0x31, 0xb1, 0x12, 0x10, 0x59, 0x27, 0x80, 0xec, 0x5f),
      Pick(c, 0x60, 0x51, 0x7f, 0xa9, 0x19, 0xb5, 0x4a, 0x0d, 0x2d, 0xe5, 0x7a, 0x9f, 0x93, 0xc9, 0x9c, 0xef),
      Pick(c, 0xa0, 0xe0, 0x3b, 0x4d, 0xae, 0x2a, 0xf5, 0xb0, 0xc8, 0xeb, 0xbb, 0x3c, 0x83, 0x53, 0x99, 0x61),
      Pick(c, 0x17, 0x2b, 0x04, 0x7e, 0xba, 0x77, 0xd6, 0x26, 0xe1, 0x69, 0x14, 0x63, 0x55, 0x21, 0x0c, 0x7d))
  }

  lemma SiUndoesS0(v: octet)
    requires 0x00 <= v < 0x10
    ensures Si(S(v)) == v
  {
  }

  lemma SiUndoesS1(v: octet)
    requires 0x10 <= v < 0x20
    ensures Si(S(v)) == v
  {
  }

  lemma SiUndoesS2(v: octet)
    requires 0x20 <= v < 0x30
    ensures Si(S(v)) == v
  {
  }

  lemma SiUndoesS3(v: octet)
    requires 0x30 <= v < 0x40
    ensures Si(S(v)) == v
  {
  }

  lemma SiUndoesS4(v: octet)
    requires 0x40 <= v < 0x50
    ensures Si(S(v)) == v
  {
  }

  lemma SiUndoesS5(v: octet)
    requires 0x50 <= v < 0x60
    ensures Si(S(v)) == v
  {
  }

  lemma SiUndoesS6(v: octet)
    requires 0x60 <= v < 0x70
    ensures Si(S(v)) == v
  {
  }

  lemma SiUndoesS7(v: octet)
    requires 0x70 <= v < 0x80
    ensures Si(S(v)) == v
  {
  }

  lemma SiUndoesS8(v: octet)
    requires 0x80 <= v < 0x90
    ensures Si(S(v)) == v
  {
  }

  lemma SiUndoesS9(v: octet)
    requires 0x90 <= v < 0xa0
    ensures Si(S(v)) == v
  {
  }

  lemma SiUndoesSA(v: octet)
    requires 0xa0 <= v < 0xb0
    ensures Si(S(v)) == v
  {
  }

  lemma SiUndoesSB(v: octet)
    requires 0xb0 <= v < 0xc0
    ensures Si(S(v)) == v
  {
  }

  lemma SiUndoesSC(v: octet)
    requires 0xc0 <= v < 0xd0
    ensures Si(S(v)) == v
  {
  }

  lemma SiUndoesSD(v: octet)
    requires 0xd0 <= v < 0xe0
    ensures Si(S(v)) == v
  {
  }

  lemma SiUndoesSE(v: octet)
    requires 0xe0 <= v < 0xf0
    ensures Si(S(v)) == v
  {
  }

  lemma SiUndoesSF(v: octet)
    requires 0xf0 <= v
    ensures Si(S(v)) == v
  {
  }

  /** Each entry of the inverse S-box undoes its entry of the S-box. */
  lemma SiUndoesS(v: octet)
    ensures Si(S(v)) == v
  {
    if v < 0x10 { SiUndoesS0(v); }
    else if v < 0x20 { SiUndoesS1(v); }
    else if v < 0x30 { SiUndoesS2(v); }
    else if v < 0x40 { SiUndoesS3(v); }
    else if v < 0x50 { SiUndoesS4(v); }
    else if v < 0x60 { SiUndoesS5(v); }
    else if v < 0x70 { SiUndoesS6(v); }
    else if v < 0x80 { SiUndoesS7(v); }
    else if v < 0x90 { SiUndoesS8(v); }
    else if v < 0xa0 { SiUndoesS9(v); }
    else if v < 0xb0 { SiUndoesSA(v); }
    else if v < 0xc0 { SiUndoesSB(v); }
    else if v < 0xd0 { SiUndoesSC(v); }
    else if v < 0xe0 { SiUndoesSD(v); }
    else if v < 0xf0 { SiUndoesSE(v); }
    else { SiUndoesSF(v); }
  }

  function Xor(a: octet, b: octet): octet { a ^ b }

  /** Multiplication by x modulo x^8 + x^4 + x^3 + x + 1 (section 4.2.1 of FIPS 197). */
  function Xtime(v: octet): octet {
    (v << 1) ^ (0x1b * (v >> 7))
  }

  const STANDARD: Tables<octet> := Tables(Xor, 0, 1, S, Si, Xtime)

  lemma XtimeAdditive(a: octet, b: octet)
    ensures Xtime(a ^ b) == Xtime(a) ^ Xtime(b)
  {
  }

  lemma StandardAssociative(a: octet, b: octet, c: octet)
    ensures Associative(STANDARD, a, b, c)
  {
  }

  lemma StandardCommutative(a: octet, b: octet)
    ensures Commutative(STANDARD, a, b)
  {
  }

  lemma StandardCancels(a: octet, k: octet)
    ensures Cancels(STANDARD, a, k)
  {
  }

  lemma StandardAdditive(a: octet, b: octet)
    ensures Additive(STANDARD, a, b)
  {
    XtimeAdditive(a, b);
  }

  lemma StandardInverse(v: octet)
    ensures STANDARD.si(STANDARD.s(v)) == v
  {
    SiUndoesS(v);
  }

  /** The tables of the program satisfy what the round trip of the cipher needs. */
  lemma StandardTablesAreGood()
    ensures Good(STANDARD)
  {
    forall v ensures STANDARD.si(STANDARD.s(v)) == v { StandardInverse(v); }
    forall a, k ensures Cancels(STANDARD, a, k) { StandardCancels(a, k); }
    forall a, b, c ensures Associative(STANDARD, a, b, c) { StandardAssociative(a, b, c); }
    forall a, b ensures Commutative(STANDARD, a, b) { StandardCommutative(a, b); }
    forall a, b ensures Additive(STANDARD, a, b) { StandardAdditive(a, b); }
  }

  const RCON: seq<octet> := [
    0x01, 0x02, 0x04, 0x08, 0x10, 0x20, 0x40, 0x80, 0x1b, 0x36, 0x6c, 0xd8, 0xab, 0x4d, 0x9a,
    0x2f, 0x5e, 0xbc, 0x63, 0xc6, 0x97, 0x35, 0x6a, 0xd4, 0xb3, 0x7d, 0xfa, 0xef, 0xc5, 0x91]

  lemma RconStep0(i: nat)
    requires 0 < i <= 5
    ensures RCON[i] == Xtime(RCON[i - 1])
  {
  }

  lemma RconStep1(i: nat)
    requires 5 < i <= 10
    ensures RCON[i] == Xtime(RCON[i - 1])
  {
  }

  lemma RconStep2(i: nat)
    requires 10 < i <= 15
    ensures RCON[i] == Xtime(RCON[i - 1])
  {
  }

  lemma RconStep3(i: nat)
    requires 15 < i <= 20
    ensures RCON[i] == Xtime(RCON[i - 1])
  {
  }

  lemma RconStep4(i: nat)
    requires 20 < i <= 25
    ensures RCON[i] == Xtime(RCON[i - 1])
  {
  }

  lemma RconStep5(i: nat)
    requires 25 < i <= 29
    ensures RCON[i] == Xtime(RCON[i - 1])
  {
  }

  /** Each round constant is x times the one before. */
  lemma RconStep(i: nat)
    requires 0 < i < |RCON|
    ensures RCON[i] == Xtime(RCON[i - 1])
  {
    if i <= 5 { RconStep0(i); }
    else if i <= 10 { RconStep1(i); }
    else if i <= 15 { RconStep2(i); }
    else if i <= 20 { RconStep3(i); }
    else if i <= 25 { RconStep4(i); }
    else { RconStep5(i); }
  }

  /** The table of round constants holds the powers of x. */
  lemma {:induction false} RconIsPowersOfX(i: nat)
    requires i < |RCON|
    ensures RCON[i] == Rcon(STANDARD, i)
  {
    if i > 0 {
      RconIsPowersOfX(i - 1);
      RconStep(i);
    }
  }
}

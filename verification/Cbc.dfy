/** AES_128_CBC of lab8/tools/kflash.py (section 6.2 of NIST SP 800-38A) and the encryption of a
    firmware image with it. */
module Cbc {
  import opened Common
  import opened AesSpec
  import opened Aes

  // ---------- the mode on lists of blocks ----------

  /** Each plaintext block is added to the previous ciphertext block and encrypted. */
  function Chain<S>(l: Layers<S>, rk: seq<S>, iv: S, blocks: seq<S>): (c: seq<S>)
    requires |rk| >= 2
    ensures |c| == |blocks|
    decreases |blocks|
  {
    if blocks == [] then []
    else var first := Cipher(l, rk, l.add(blocks[0], iv)); [first] + Chain(l, rk, first, blocks[1..])
  }

  /** Each ciphertext block is decrypted and added to the previous ciphertext block. */
  function Unchain<S>(l: Layers<S>, dk: seq<S>, iv: S, blocks: seq<S>): (p: seq<S>)
    requires |dk| >= 2
    ensures |p| == |blocks|
    decreases |blocks|
  {
    if blocks == [] then []
    else [l.add(EqInvCipher(l, dk, blocks[0]), iv)] + Unchain(l, dk, blocks[0], blocks[1..])
  }

  /** Decrypting a chained message with the same key and initial vector gives the message. */
  lemma {:induction false} ChainRoundTrip<S(!new)>(l: Layers<S>, rk: seq<S>, iv: S, blocks: seq<S>)
    requires Invertible(l) && |rk| >= 2
    ensures Unchain(l, InverseKeys(l, rk), iv, Chain(l, rk, iv, blocks)) == blocks
    decreases |blocks|
  {
    if blocks != [] {
      var dk, mixed := InverseKeys(l, rk), l.add(blocks[0], iv);
      var first := Cipher(l, rk, mixed);
      var rest := Chain(l, rk, first, blocks[1..]);
      assert ([first] + rest)[1..] == rest;
      CipherRoundTrip(l, rk, dk, mixed);
      assert AddCancels(l, blocks[0], iv);
      ChainRoundTrip(l, rk, first, blocks[1..]);
    }
  }

  /** Block i of the ciphertext: the plaintext block plus the ciphertext block before it, encrypted. */
  lemma {:induction false} ChainAt<S>(l: Layers<S>, rk: seq<S>, iv: S, blocks: seq<S>, i: nat)
    requires |rk| >= 2 && i < |blocks|
    ensures var c := Chain(l, rk, iv, blocks);
            c[i] == Cipher(l, rk, l.add(blocks[i], if i == 0 then iv else c[i - 1]))
    decreases i
  {
    if i > 0 {
      ChainAt(l, rk, Cipher(l, rk, l.add(blocks[0], iv)), blocks[1..], i - 1);
    }
  }

  lemma {:induction false} ChainAppend<S>(l: Layers<S>, rk: seq<S>, iv: S, blocks: seq<S>, b: S)
    requires |rk| >= 2
    ensures var c := Chain(l, rk, iv, blocks);
            Chain(l, rk, iv, blocks + [b]) == c + [Cipher(l, rk, l.add(b, if c == [] then iv else c[|c| - 1]))]
    decreases |blocks|
  {
    if blocks != [] {
      var first := Cipher(l, rk, l.add(blocks[0], iv));
      assert (blocks + [b])[1..] == blocks[1..] + [b];
      ChainAppend(l, rk, first, blocks[1..], b);
    }
  }

  lemma {:induction false} UnchainAppend<S>(l: Layers<S>, dk: seq<S>, iv: S, blocks: seq<S>, b: S)
    requires |dk| >= 2
    ensures Unchain(l, dk, iv, blocks + [b]) ==
            Unchain(l, dk, iv, blocks) + [l.add(EqInvCipher(l, dk, b),
                                                if blocks == [] then iv else blocks[|blocks| - 1])]
    decreases |blocks|
  {
    if blocks != [] {
      assert (blocks + [b])[1..] == blocks[1..] + [b];
      UnchainAppend(l, dk, blocks[0], blocks[1..], b);
    }
  }

  // ---------- blocks of bytes ----------

  /** The whole blocks of a byte string. */
  function Blocks<G>(bytes: seq<G>): (blocks: seq<State<G>>)
    ensures |blocks| == |bytes| / 16
  {
    if |bytes| < 16 then [] else [FromBytes(bytes[..16])] + Blocks(bytes[16..])
  }

  function Join<G>(blocks: seq<State<G>>): (bytes: seq<G>)
    ensures |bytes| == 16 * |blocks|
  {
    if blocks == [] then [] else ToBytes(blocks[0]) + Join(blocks[1..])
  }

  lemma {:induction false} BlocksOfJoin<G>(blocks: seq<State<G>>)
    ensures Blocks(Join(blocks)) == blocks
  {
    if blocks != [] {
      var first, rest := ToBytes(blocks[0]), Join(blocks[1..]);
      BlocksOfJoin(blocks[1..]);
      BytesOfState(blocks[0]);
      assert (first + rest)[..16] == first && (first + rest)[16..] == rest;
    }
  }

  lemma {:induction false} JoinOfBlocks<G>(bytes: seq<G>)
    requires |bytes| % 16 == 0
    ensures Join(Blocks(bytes)) == bytes
  {
    if bytes != [] {
      var first, rest := bytes[..16], bytes[16..];
      JoinOfBlocks(rest);
      StateOfBytes(first);
      var blocks := [FromBytes(first)] + Blocks(rest);
      assert blocks[1..] == Blocks(rest);
      assert bytes == first + rest;
    }
  }

  lemma {:induction false} BlocksAt<G>(bytes: seq<G>, i: nat)
    requires i < |bytes| / 16
    ensures Blocks(bytes)[i] == FromBytes(bytes[16 * i..16 * i + 16])
  {
    if i > 0 {
      BlocksAt(bytes[16..], i - 1);
      SliceOfTail(bytes, 16 * (i - 1));
      assert Blocks(bytes)[i] == Blocks(bytes[16..])[i - 1];
    }
  }

  lemma SliceOfTail<G>(bytes: seq<G>, at: nat)
    requires at + 32 <= |bytes|
    ensures bytes[16..][at..at + 16] == bytes[at + 16..at + 32]
  {
  }

  /** The blocks up to the i-th and that one. */
  lemma BlocksUpTo<G>(bytes: seq<G>, i: nat)
    requires i < |bytes| / 16
    ensures Blocks(bytes)[..i + 1] == Blocks(bytes)[..i] + [FromBytes(bytes[16 * i..16 * i + 16])]
  {
    PrefixSnoc(Blocks(bytes), i);
    BlocksAt(bytes, i);
  }

  lemma {:induction false} JoinAppend<G>(blocks: seq<State<G>>, b: State<G>)
    ensures Join(blocks + [b]) == Join(blocks) + ToBytes(b)
  {
    if blocks != [] {
      JoinAppend(blocks[1..], b);
      assert (blocks + [b])[1..] == blocks[1..] + [b];
    }
  }

  // ---------- the class ----------

  function XorBlock<G>(t: Tables<G>, a: seq<G>, b: seq<G>): (c: seq<G>)
    requires |a| == |b|
    ensures |c| == |a|
  {
    seq(|a|, i requires 0 <= i < |a| => t.xor(a[i], b[i]))
  }

  lemma XorBlockIsAdd<G(!new)>(t: Tables<G>, l: Layers<State<G>>, a: seq<G>, b: seq<G>)
    requires AesLike(t, l) && |a| == 16 && |b| == 16
    ensures FromBytes(XorBlock(t, a, b)) == l.add(FromBytes(a), FromBytes(b))
  {
    assert AddsAt(t, l, FromBytes(a), FromBytes(b));
  }

  class AesCbc<G(!new)> {
    const t: Tables<G>
    const keys: Schedules<G>
    ghost const l: Layers<State<G>>
    ghost const rk: seq<State<G>>
    var last: seq<G>

    ghost predicate Valid()
      reads this
    {
      && AesLike(t, l) && |rk| >= 2 && |last| == 16
      && RowsAre(keys.ke, rk) && RowsAre(keys.kd, InverseKeys(l, rk))
    }

    constructor (t: Tables<G>, keys: Schedules<G>, iv: seq<G>, ghost l: Layers<State<G>>, ghost rk: seq<State<G>>)
      requires AesLike(t, l) && |rk| >= 2 && |iv| == 16
      requires RowsAre(keys.ke, rk) && RowsAre(keys.kd, InverseKeys(l, rk))
      ensures Valid() && last == iv && this.l == l && this.rk == rk && this.t == t
    {
      this.t, this.keys, this.last := t, keys, iv;
      this.l, this.rk := l, rk;
    }

    /** Encrypts one block and remembers it; a block of the wrong length is refused. */
    method Encrypt(plaintext: seq<G>) returns (res: Option<seq<G>>)
      requires Valid()
      modifies this`last
      ensures Valid()
      ensures res.None? <==> |plaintext| != 16
      ensures res.None? ==> last == old(last)
      ensures res.Some? ==> last == res.value
      ensures res.Some? ==> FromBytes(last) == Cipher(l, rk, l.add(FromBytes(plaintext), old(FromBytes(last))))
    {
      if |plaintext| != 16 {
        return None;
      }
      var mixed := XorBlock(t, plaintext, last);
      XorBlockIsAdd(t, l, plaintext, last);
      res := Aes.Encrypt(t, keys.ke, mixed, l, rk);
      BytesOfState(Cipher(l, rk, FromBytes(mixed)));
      last := res.value;
    }

    /** Decrypts one block and remembers the ciphertext; a block of the wrong length is refused. */
    method Decrypt(ciphertext: seq<G>) returns (res: Option<seq<G>>)
      requires Valid()
      modifies this`last
      ensures Valid()
      ensures res.None? <==> |ciphertext| != 16
      ensures res.None? ==> last == old(last)
      ensures res.Some? ==> last == ciphertext && |res.value| == 16
      ensures res.Some? ==>
                FromBytes(res.value) == l.add(EqInvCipher(l, InverseKeys(l, rk), FromBytes(ciphertext)),
                                              old(FromBytes(last)))
    {
      if |ciphertext| != 16 {
        return None;
      }
      var plain := Aes.Decrypt(t, keys.kd, ciphertext, l, InverseKeys(l, rk));
      XorBlockIsAdd(t, l, plain.value, last);
      BytesOfState(EqInvCipher(l, InverseKeys(l, rk), FromBytes(ciphertext)));
      res := Some(XorBlock(t, plain.value, last));
      last := ciphertext;
    }
  }

  // ---------- the firmware image ----------

  function Zeros<G>(t: Tables<G>, n: nat): (z: seq<G>)
    ensures |z| == n
  {
    seq(n, _ => t.zero)
  }

  /** The ciphertext so far: the chained blocks, and the last of them (or the initial vector). */
  ghost predicate Encrypted<G>(l: Layers<State<G>>, rk: seq<State<G>>, iv: seq<G>, blocks: seq<State<G>>, out: seq<G>,
                               last: seq<G>)
    requires |rk| >= 2 && |iv| == 16
  {
    var c := Chain(l, rk, FromBytes(iv), blocks);
    && out == Join(c) && |last| == 16
    && FromBytes(last) == if c == [] then FromBytes(iv) else c[|c| - 1]
  }

  lemma EncryptedAppend<G>(l: Layers<State<G>>, rk: seq<State<G>>, iv: seq<G>, blocks: seq<State<G>>, out: seq<G>,
                           last: seq<G>, b: State<G>, last': seq<G>)
    requires |rk| >= 2 && |iv| == 16 && Encrypted(l, rk, iv, blocks, out, last)
    requires |last'| == 16 && FromBytes(last') == Cipher(l, rk, l.add(b, FromBytes(last)))
    ensures Encrypted(l, rk, iv, blocks + [b], out + last', last')
  {
    var c := Chain(l, rk, FromBytes(iv), blocks);
    ChainAppend(l, rk, FromBytes(iv), blocks, b);
    JoinAppend(c, FromBytes(last'));
    StateOfBytes(last');
  }

  /** flash_firmware with a key: zero-padded to whole blocks and chained from a zero vector. */
  method EncryptFirmware<G(!new)>(t: Tables<G>, rcon: seq<G>, key: seq<G>, firmware: seq<G>,
                                  ghost l: Layers<State<G>>, ghost next: seq<Column<G>> -> Column<G>)
    returns (res: Option<seq<G>>)
    requires RconTable(t, rcon) && AesLike(t, l) && (|key| >= 4 ==> KeyLike(t, |key| / 4, next))
    ensures res.None? <==> |key| != 16 && |key| != 24 && |key| != 32
    ensures res.Some? ==>
              var rk := EncryptionKeys(next, WordsOf(key));
              res.value == Join(Chain(l, rk, FromBytes(Zeros(t, 16)), Blocks(firmware + Zeros(t, 15))))
  {
    var schedules := ExpandKey(t, rcon, key, l, next);
    if schedules.None? {
      return None;
    }
    ghost var rk := EncryptionKeys(next, WordsOf(key));
    var iv := Zeros(t, 16);
    var enc := new AesCbc(t, schedules.value, iv, l, rk);
    var out := EncryptAll(enc, firmware + Zeros(t, 15), iv);
    return Some(out);
  }

  /** One block more. */
  method EncryptNext<G(!new)>(enc: AesCbc<G>, p: seq<G>, out: seq<G>, ghost iv: seq<G>, ghost blocks: seq<State<G>>)
    returns (out': seq<G>)
    requires enc.Valid() && |iv| == 16 && |p| == 16
    requires Encrypted(enc.l, enc.rk, iv, blocks, out, enc.last)
    modifies enc`last
    ensures enc.Valid() && Encrypted(enc.l, enc.rk, iv, blocks + [FromBytes(p)], out', enc.last)
  {
    ghost var last := enc.last;
    var block := enc.Encrypt(p);
    EncryptedAppend(enc.l, enc.rk, iv, blocks, out, last, FromBytes(p), enc.last);
    out' := out + block.value;
  }

  /** One turn of the loop: slice i of the padded firmware. */
  method EncryptAt<G(!new)>(enc: AesCbc<G>, padded: seq<G>, i: nat, out: seq<G>, ghost iv: seq<G>,
                            ghost blocks: seq<State<G>>)
    returns (out': seq<G>)
    requires enc.Valid() && |iv| == 16 && i < |padded| / 16 && blocks == Blocks(padded)
    requires Encrypted(enc.l, enc.rk, iv, blocks[..i], out, enc.last)
    modifies enc`last
    ensures enc.Valid() && Encrypted(enc.l, enc.rk, iv, blocks[..i + 1], out', enc.last)
  {
    BlocksUpTo(padded, i);
    out' := EncryptNext(enc, padded[16 * i..16 * i + 16], out, iv, blocks[..i]);
  }

  /** The list comprehension over the whole blocks of the padded image. */
  method EncryptAll<G(!new)>(enc: AesCbc<G>, padded: seq<G>, ghost iv: seq<G>) returns (out: seq<G>)
    requires enc.Valid() && enc.last == iv && |iv| == 16
    modifies enc
    ensures |enc.rk| >= 2 && out == Join(Chain(enc.l, enc.rk, FromBytes(iv), Blocks(padded)))
  {
    out := [];
    var i: nat, count := 0, |padded| / 16;
    ghost var blocks := Blocks(padded);
    NothingEncrypted(enc.l, enc.rk, iv, blocks);
    while i < count
      invariant i <= count && enc.Valid()
      invariant Encrypted(enc.l, enc.rk, iv, blocks[..i], out, enc.last)
    {
      out := EncryptAt(enc, padded, i, out, iv, blocks);
      i := i + 1;
    }
    AllEncrypted(enc.l, enc.rk, iv, blocks, i, out, enc.last);
  }

  lemma NothingEncrypted<G>(l: Layers<State<G>>, rk: seq<State<G>>, iv: seq<G>, blocks: seq<State<G>>)
    requires |rk| >= 2 && |iv| == 16
    ensures Encrypted(l, rk, iv, blocks[..0], [], iv)
  {
  }

  lemma AllEncrypted<G>(l: Layers<State<G>>, rk: seq<State<G>>, iv: seq<G>, blocks: seq<State<G>>, i: nat, out: seq<G>,
                        last: seq<G>)
    requires |rk| >= 2 && |iv| == 16 && i == |blocks| && Encrypted(l, rk, iv, blocks[..i], out, last)
    ensures out == Join(Chain(l, rk, FromBytes(iv), blocks))
  {
    assert blocks[..i] == blocks;
  }

  lemma {:induction false} BlocksOfWhole<G>(bytes: seq<G>, n: nat)
    requires 16 * n <= |bytes| < 16 * n + 16
    ensures Blocks(bytes) == Blocks(bytes[..16 * n])
  {
    if n > 0 {
      BlocksOfWhole(bytes[16..], n - 1);
      assert bytes[16..][..16 * (n - 1)] == bytes[..16 * n][16..];
      assert bytes[..16 * n][..16] == bytes[..16];
    }
  }

  /** Decrypting `image` gives `plain`. */
  ghost predicate Recovers<G>(l: Layers<State<G>>, rk: seq<State<G>>, iv: State<G>, image: seq<G>, plain: seq<G>)
    requires |rk| >= 2
  {
    |image| == |plain| && Join(Unchain(l, InverseKeys(l, rk), iv, Blocks(image))) == plain
  }

  lemma JoinedRoundTrip<G(!new)>(l: Layers<State<G>>, rk: seq<State<G>>, iv: State<G>, whole: seq<G>)
    requires Invertible(l) && |rk| >= 2 && |whole| % 16 == 0
    ensures Recovers(l, rk, iv, Join(Chain(l, rk, iv, Blocks(whole))), whole)
  {
    BlocksOfJoin(Chain(l, rk, iv, Blocks(whole)));
    ChainRoundTrip(l, rk, iv, Blocks(whole));
    JoinOfBlocks(whole);
  }

  /** The whole blocks of the padded image hold the firmware and fewer than sixteen zeros. */
  lemma PaddedBlocks<G>(t: Tables<G>, firmware: seq<G>) returns (whole: seq<G>)
    ensures |whole| == 16 * ((|firmware| + 15) / 16) && whole == firmware + Zeros(t, |whole| - |firmware|)
    ensures Blocks(firmware + Zeros(t, 15)) == Blocks(whole)
  {
    var padded := firmware + Zeros(t, 15);
    var n := |padded| / 16;
    whole := padded[..16 * n];
    BlocksOfWhole(padded, n);
  }

  /** Decrypting the encrypted image with the same key and the same vector (flash_firmware passes
      zeros) gives the firmware followed by fewer than sixteen zeros; the image has
      16 * ceil(length / 16) bytes. */
  lemma FirmwareRoundTrip<G(!new)>(t: Tables<G>, l: Layers<State<G>>, rk: seq<State<G>>, iv: State<G>, firmware: seq<G>)
    requires Invertible(l) && |rk| >= 2
    ensures Recovers(l, rk, iv, Join(Chain(l, rk, iv, Blocks(firmware + Zeros(t, 15)))),
                     firmware + Zeros(t, 16 * ((|firmware| + 15) / 16) - |firmware|))
  {
    var whole := PaddedBlocks(t, firmware);
    JoinedRoundTrip(l, rk, iv, whole);
  }

  // ---------- decryption ----------

  /** The plaintext so far: the unchained blocks; the last ciphertext block (or the initial vector) is remembered. */
  ghost predicate Decrypted<G>(l: Layers<State<G>>, dk: seq<State<G>>, iv: seq<G>, blocks: seq<State<G>>, out: seq<G>,
                               last: seq<G>)
    requires |dk| >= 2 && |iv| == 16
  {
    && out == Join(Unchain(l, dk, FromBytes(iv), blocks)) && |last| == 16
    && FromBytes(last) == if blocks == [] then FromBytes(iv) else blocks[|blocks| - 1]
  }

  lemma DecryptedAppend<G>(l: Layers<State<G>>, dk: seq<State<G>>, iv: seq<G>, blocks: seq<State<G>>, out: seq<G>,
                           last: seq<G>, c: seq<G>, plain: seq<G>)
    requires |dk| >= 2 && |iv| == 16 && Decrypted(l, dk, iv, blocks, out, last) && |c| == 16 && |plain| == 16
    requires FromBytes(plain) == l.add(EqInvCipher(l, dk, FromBytes(c)), FromBytes(last))
    ensures Decrypted(l, dk, iv, blocks + [FromBytes(c)], out + plain, c)
  {
    UnchainAppend(l, dk, FromBytes(iv), blocks, FromBytes(c));
    JoinAppend(Unchain(l, dk, FromBytes(iv), blocks), FromBytes(plain));
    StateOfBytes(plain);
  }

  /** One block more. */
  method DecryptNext<G(!new)>(dec: AesCbc<G>, c: seq<G>, out: seq<G>, ghost iv: seq<G>, ghost blocks: seq<State<G>>)
    returns (out': seq<G>)
    requires dec.Valid() && |iv| == 16 && |c| == 16
    requires Decrypted(dec.l, InverseKeys(dec.l, dec.rk), iv, blocks, out, dec.last)
    modifies dec`last
    ensures dec.Valid() && Decrypted(dec.l, InverseKeys(dec.l, dec.rk), iv, blocks + [FromBytes(c)], out', dec.last)
  {
    ghost var last := dec.last;
    var plain := dec.Decrypt(c);
    DecryptedAppend(dec.l, InverseKeys(dec.l, dec.rk), iv, blocks, out, last, c, plain.value);
    out' := out + plain.value;
  }

  /** Decrypting all whole blocks of an image, one after the other. */
  method DecryptAll<G(!new)>(dec: AesCbc<G>, image: seq<G>, ghost iv: seq<G>) returns (out: seq<G>)
    requires dec.Valid() && dec.last == iv && |iv| == 16
    modifies dec
    ensures |dec.rk| >= 2 && out == Join(Unchain(dec.l, InverseKeys(dec.l, dec.rk), FromBytes(iv), Blocks(image)))
  {
    out := [];
    var i: nat := 0;
    ghost var blocks := Blocks(image);
    while i < |image| / 16
      invariant i <= |image| / 16 && dec.Valid()
      invariant Decrypted(dec.l, InverseKeys(dec.l, dec.rk), iv, blocks[..i], out, dec.last)
    {
      BlocksUpTo(image, i);
      out := DecryptNext(dec, image[16 * i..16 * i + 16], out, iv, blocks[..i]);
      i := i + 1;
    }
    assert blocks[..i] == blocks;
  }

  /** The inverse of EncryptFirmware: the same key, a zero vector, all blocks. */
  method DecryptFirmware<G(!new)>(t: Tables<G>, rcon: seq<G>, key: seq<G>, image: seq<G>,
                                  ghost l: Layers<State<G>>, ghost next: seq<Column<G>> -> Column<G>)
    returns (res: Option<seq<G>>)
    requires RconTable(t, rcon) && AesLike(t, l) && (|key| >= 4 ==> KeyLike(t, |key| / 4, next))
    ensures res.None? <==> |key| != 16 && |key| != 24 && |key| != 32
    ensures res.Some? ==>
              var rk := EncryptionKeys(next, WordsOf(key));
              res.value == Join(Unchain(l, InverseKeys(l, rk), FromBytes(Zeros(t, 16)), Blocks(image)))
  {
    var schedules := ExpandKey(t, rcon, key, l, next);
    if schedules.None? {
      return None;
    }
    ghost var rk := EncryptionKeys(next, WordsOf(key));
    var iv := Zeros(t, 16);
    var dec := new AesCbc(t, schedules.value, iv, l, rk);
    var out := DecryptAll(dec, image, iv);
    return Some(out);
  }

  /** Encrypting the firmware as flash_firmware does and decrypting the image with the same key: for every key of a
      valid length the firmware comes back, followed by zeros up to a multiple of sixteen. */
  method FirmwareDecrypts<G(!new)>(t: Tables<G>, rcon: seq<G>, key: seq<G>, firmware: seq<G>,
                                   ghost l: Layers<State<G>>, ghost next: seq<Column<G>> -> Column<G>)
    returns (image: Option<seq<G>>, plain: Option<seq<G>>)
    requires Invertible(l)
    requires RconTable(t, rcon) && AesLike(t, l) && (|key| >= 4 ==> KeyLike(t, |key| / 4, next))
    ensures image.Some? <==> |key| == 16 || |key| == 24 || |key| == 32
    ensures image.Some? ==> |image.value| == 16 * ((|firmware| + 15) / 16)
    ensures plain.Some? <==> image.Some?
    ensures plain.Some? ==> plain.value == firmware + Zeros(t, 16 * ((|firmware| + 15) / 16) - |firmware|)
  {
    plain := None;
    image := EncryptFirmware(t, rcon, key, firmware, l, next);
    if image.Some? {
      plain := DecryptFirmware(t, rcon, key, image.value, l, next);
      FirmwareRoundTrip(t, l, EncryptionKeys(next, WordsOf(key)), FromBytes(Zeros(t, 16)), firmware);
    }
  }
}

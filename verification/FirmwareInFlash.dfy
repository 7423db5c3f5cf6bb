/** The encrypting branch of flash_firmware in lab8/tools/kflash.py from end to end: what lies in flash, read as a
    loader reads it and decrypted with the same key, is the firmware. */
module FirmwareInFlash {
  import opened Common
  import opened AesSpec
  import opened AesTables
  import opened Aes
  import opened StandardAes
  import Cbc
  import Flash

  // ---------- the two views of a byte ----------

  function AsInts(s: seq<octet>): (r: seq<byte>)
    ensures |r| == |s|
  {
    seq(|s|, i requires 0 <= i < |s| => s[i] as int)
  }

  function AsOctets(s: seq<byte>): (r: seq<octet>)
    ensures |r| == |s|
  {
    seq(|s|, i requires 0 <= i < |s| => s[i] as octet)
  }

  lemma OctetComesBack(o: octet)
    ensures (o as int) as octet == o
  {
  }

  lemma OctetsComeBack(s: seq<octet>)
    ensures AsOctets(AsInts(s)) == s
  {
    forall i | 0 <= i < |s| ensures AsOctets(AsInts(s))[i] == s[i] {
      OctetComesBack(s[i]);
    }
  }

  // ---------- reading the header ----------

  /** The firmware that the length in the header delimits. */
  function Field(flash: seq<byte>): seq<byte> {
    if |flash| < 5 || |flash| < 5 + Flash.Unpack32(flash[1..5]) then []
    else flash[5..5 + Flash.Unpack32(flash[1..5])]
  }

  lemma FieldReads(encrypted: bool, image: seq<byte>, digest: seq<byte>)
    requires |image| < 0x1_0000_0000
    ensures var b := Flash.Padded(Flash.WithHeader(encrypted, image, digest));
            |b| >= 5 && b[0] == (if encrypted then 1 else 0) && Field(b) == image
  {
    Flash.HeaderReads(encrypted, image, digest);
    FieldOf(Flash.Padded(Flash.WithHeader(encrypted, image, digest)), encrypted, image, digest);
  }

  lemma FieldOf(b: seq<byte>, encrypted: bool, image: seq<byte>, digest: seq<byte>)
    requires Flash.HeaderIs(b, encrypted, |image|, image + digest)
    ensures Field(b) == image
  {
    var rest := image + digest;
    assert Flash.Unpack32(b[1..5]) == |image|;
    assert b[5..5 + |image|] == b[5..5 + |rest|][..|image|] == rest[..|image|] == image;
  }

  // ---------- encryption, flash, decryption ----------

  predicate KeyLength(n: nat) { n == 16 || n == 24 || n == 32 }

  /** What the methods ask of tables and key, and what the layers `l` and the recurrence `next` are. */
  ghost predicate Ready(t: Tables<octet>, rcon: seq<octet>, key: seq<octet>, l: Layers<State<octet>>,
                        next: seq<Column<octet>> -> Column<octet>) {
    Invertible(l) && AesLike(t, l) && RconTable(t, rcon) && (|key| >= 4 ==> KeyLike(t, |key| / 4, next))
  }

  /** The firmware, filled up with zeros to whole blocks. */
  function Filled(t: Tables<octet>, firmware: seq<octet>): seq<octet> {
    firmware + Cbc.Zeros(t, 16 * ((|firmware| + 15) / 16) - |firmware|)
  }

  /** The flash holds the flag of an encrypted firmware and a field that unchains to the plaintext. */
  ghost predicate Loadable(t: Tables<octet>, key: seq<octet>, l: Layers<State<octet>>,
                           next: seq<Column<octet>> -> Column<octet>, flash: seq<byte>, plain: seq<octet>)
    requires KeyLength(|key|)
  {
    && |flash| >= 5 && flash[0] == 1
    && Cbc.Recovers(l, EncryptionKeys(next, WordsOf(key)), FromBytes(Cbc.Zeros(t, 16)), AsOctets(Field(flash)), plain)
  }

  lemma WholeBlocks(n: nat)
    ensures 16 * ((n + 15) / 16) < 0x1_0000_0000 <==> n + 15 < 0x1_0000_0000
  {
  }

  /** flash_firmware with a key: encryption, header, digest and flash. It raises exactly when the key has no legal
      length or the length of the image does not fit into the header. Otherwise the writes are contiguous, the flag says
      that the firmware is encrypted, and the field that the length delimits decrypts to the firmware followed by
      zeros. */
  method FlashEncrypted(t: Tables<octet>, rcon: seq<octet>, key: seq<octet>, firmware: seq<octet>, digest: seq<byte>,
                        address: nat, ghost l: Layers<State<octet>>, ghost next: seq<Column<octet>> -> Column<octet>)
    returns (ws: Option<seq<Flash.Write>>)
    requires Ready(t, rcon, key, l, next)
    ensures ws.Some? <==> KeyLength(|key|) && |firmware| + 15 < 0x1_0000_0000
    ensures ws.Some? ==>
              && Flash.Contiguous(ws.value, address)
              && Loadable(t, key, l, next, Flash.Written(ws.value), Filled(t, firmware))
  {
    var image := Cbc.EncryptFirmware(t, rcon, key, firmware, l, next);
    if image.None? {
      return None;
    }
    Cbc.FirmwareRoundTrip(t, l, EncryptionKeys(next, WordsOf(key)), FromBytes(Cbc.Zeros(t, 16)), firmware);
    WholeBlocks(|firmware|);
    if |image.value| >= 0x1_0000_0000 {
      return None;
    }
    var bytes := AsInts(image.value);
    var written := Flash.FlashSigned(bytes, true, digest, address);
    FieldReads(true, bytes, digest);
    OctetsComeBack(image.value);
    return Some(written);
  }

  /** A loader that decrypts the field with the AES_128_CBC class gets the plaintext. */
  method LoadEncrypted(t: Tables<octet>, rcon: seq<octet>, key: seq<octet>, flash: seq<byte>, ghost plain0: seq<octet>,
                       ghost l: Layers<State<octet>>, ghost next: seq<Column<octet>> -> Column<octet>)
    returns (plain: seq<octet>)
    requires Ready(t, rcon, key, l, next) && KeyLength(|key|) && Loadable(t, key, l, next, flash, plain0)
    ensures plain == plain0
  {
    var res := Cbc.DecryptFirmware(t, rcon, key, AsOctets(Field(flash)), l, next);
    plain := res.value;
  }

  /** Both, one after the other. */
  method FlashAndLoad(t: Tables<octet>, rcon: seq<octet>, key: seq<octet>, firmware: seq<octet>, digest: seq<byte>,
                      address: nat, ghost l: Layers<State<octet>>, ghost next: seq<Column<octet>> -> Column<octet>)
    returns (ws: Option<seq<Flash.Write>>, plain: seq<octet>)
    requires Ready(t, rcon, key, l, next)
    ensures ws.Some? <==> KeyLength(|key|) && |firmware| + 15 < 0x1_0000_0000
    ensures ws.Some? ==> Flash.Contiguous(ws.value, address) && plain == Filled(t, firmware)
  {
    plain := [];
    ws := FlashEncrypted(t, rcon, key, firmware, digest, address, l, next);
    if ws.Some? {
      plain := LoadEncrypted(t, rcon, key, Flash.Written(ws.value), Filled(t, firmware), l, next);
    }
  }

  /** At the tables of the source: what is in flash after flash_firmware of an encrypted firmware decrypts to the
      firmware followed by zeros. */
  method FlashedComesBack(key: seq<octet>, firmware: seq<octet>, digest: seq<byte>, address: nat)
    returns (ws: Option<seq<Flash.Write>>, plain: seq<octet>)
    ensures ws.Some? <==> (|key| == 16 || |key| == 24 || |key| == 32) && |firmware| + 15 < 0x1_0000_0000
    ensures ws.Some? ==> Flash.Contiguous(ws.value, address)
    ensures ws.Some? ==> plain == firmware + seq(16 * ((|firmware| + 15) / 16) - |firmware|, _ => 0)
  {
    StandardLayersInvertible();
    StandardRconTable();
    KeyStepIsKeyLike(STANDARD, if |key| >= 4 then |key| / 4 else 1);
    ws, plain := FlashAndLoad(STANDARD, RCON, key, firmware, digest, address, AesLayers(STANDARD), Next(|key|));
    assert STANDARD.zero == 0;
  }
}

/** The theorems about AES and CBC at the tables that lab8/tools/kflash.py ships. */
module StandardAes {
  import opened Common
  import opened AesSpec
  import opened AesTables
  import opened Aes
  import Cbc

  lemma StandardLayersInvertible()
    ensures Invertible(AesLayers(STANDARD)) && AesLike(STANDARD, AesLayers(STANDARD))
  {
    StandardTablesAreGood();
    AesLayersAreAesLike(STANDARD);
    AesLayersInvertible(STANDARD, AesLayers(STANDARD));
  }

  lemma StandardRconTable()
    ensures RconTable(STANDARD, RCON)
  {
    forall i | 0 <= i < |RCON| ensures RCON[i] == Rcon(STANDARD, i) { RconIsPowersOfX(i); }
  }

  /** The recurrence for a key of the given number of bytes. */
  ghost function Next(bytes: nat): seq<Column<octet>> -> Column<octet> {
    KeyStep(STANDARD, if bytes >= 4 then bytes / 4 else 1)
  }

  /** For every key of 16, 24 or 32 bytes and every block, decrypt(encrypt(p)) gives p; anything else
      is refused. */
  method DecryptUndoesEncrypt(key: seq<octet>, p: seq<octet>) returns (q: Option<seq<octet>>)
    ensures q.Some? <==> (|key| == 16 || |key| == 24 || |key| == 32) && |p| == 16
    ensures q.Some? ==> q.value == p
  {
    StandardLayersInvertible();
    StandardRconTable();
    KeyStepIsKeyLike(STANDARD, if |key| >= 4 then |key| / 4 else 1);
    q := EncryptThenDecrypt(STANDARD, RCON, key, p, AesLayers(STANDARD), Next(|key|));
  }

  /** The encrypted firmware, decrypted with the same key, is the firmware followed by zeros. */
  method FirmwareComesBack(key: seq<octet>, firmware: seq<octet>)
    returns (image: Option<seq<octet>>, plain: Option<seq<octet>>)
    ensures image.Some? <==> |key| == 16 || |key| == 24 || |key| == 32
    ensures image.Some? ==> |image.value| == 16 * ((|firmware| + 15) / 16)
    ensures plain.Some? <==> image.Some?
    ensures plain.Some? ==> plain.value == firmware + seq(16 * ((|firmware| + 15) / 16) - |firmware|, _ => 0)
  {
    StandardLayersInvertible();
    StandardRconTable();
    KeyStepIsKeyLike(STANDARD, if |key| >= 4 then |key| / 4 else 1);
    image, plain := Cbc.FirmwareDecrypts(STANDARD, RCON, key, firmware, AesLayers(STANDARD), Next(|key|));
    assert STANDARD.zero == 0;
  }
}

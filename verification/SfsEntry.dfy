/** The bytes of a block: words, directory entries and pieces of a file, written and read back. */
module SfsEntry {
  import opened Common
  import opened SfsCore

  const DOT: byte := 46
  const NAME_SIZE: nat := 256        // sizeof(entry->name), the number of bytes written of an entry
  const KEPT_NAME: nat := 252        // how many of them belong to the name

  function Pad(bytes: seq<byte>): (r: seq<byte>)
    requires |bytes| <= BLKSIZE
    ensures |r| == BLKSIZE && r[..|bytes|] == bytes && forall i :: |bytes| <= i < BLKSIZE ==> r[i] == 0
  {
    bytes + Zeros(BLKSIZE - |bytes|)
  }

  function Byte(v: nat, unit: nat): (b: byte)
    requires unit > 0
  {
    v / unit % 256
  }

  /** A 32-bit word in little-endian order. */
  function LE32(v: nat): (r: seq<byte>)
    ensures |r| == 4
  {
    [Byte(v, 1), Byte(v, 0x100), Byte(v, 0x1_0000), Byte(v, 0x100_0000)]
  }

  /** The little-endian 32-bit word at a byte offset. */
  function Word(block: seq<byte>, at: nat): (w: nat)
    requires at + 4 <= |block|
  {
    (block[at] as int) + 0x100 * (block[at + 1] as int) + 0x1_0000 * (block[at + 2] as int)
      + 0x100_0000 * (block[at + 3] as int)
  }

  lemma WordReadsLE32(block: seq<byte>, at: nat, v: nat)
    requires at + 4 <= |block| && block[at..at + 4] == LE32(v) && v < 0x1_0000_0000
    ensures Word(block, at) == v
  {
    forall i | 0 <= i < 4 ensures block[at + i] == LE32(v)[i] {
      assert block[at..at + 4][i] == block[at + i];
    }
    assert block[at + 0] == Byte(v, 1) && block[at + 1] == Byte(v, 0x100);
    Digits(v);
  }

  lemma Digits(v: nat)
    requires v < 0x1_0000_0000
    ensures Byte(v, 1) + 0x100 * Byte(v, 0x100) + 0x1_0000 * Byte(v, 0x1_0000) + 0x100_0000 * Byte(v, 0x100_0000) == v
  {
    assert v / 0x1_0000 == v / 0x100 / 0x100 && v / 0x100_0000 == v / 0x100 / 0x100 / 0x100;
  }

  /** A C string: the bytes before the first NUL. */
  function CString(s: seq<byte>): seq<byte> {
    if s == [] || s[0] == 0 then [] else [s[0]] + CString(s[1..])
  }

  predicate NoNul(s: seq<byte>) {
    forall i :: 0 <= i < |s| ==> s[i] != 0
  }

  lemma {:induction false} CStringEnds(name: seq<byte>, tail: seq<byte>)
    requires NoNul(name) && (tail == [] || tail[0] == 0)
    ensures CString(name + tail) == name
  {
    if name == [] {
      assert name + tail == tail;
    } else {
      assert (name + tail)[1..] == name[1..] + tail;
      CStringEnds(name[1..], tail);
    }
  }

  // ---------- directory entries ----------

  /** strcpy into the name field: what lay behind the terminator stays. */
  function CopyName(buffer: seq<byte>, name: seq<byte>): (r: seq<byte>)
    requires |buffer| == NAME_SIZE && |name| < NAME_SIZE
    ensures |r| == NAME_SIZE
  {
    name + [0] + buffer[|name| + 1..]
  }

  /** struct sfs_entry: the inode number and a name field of 256 bytes. */
  function EntryIno(block: seq<byte>): nat
    requires |block| == BLKSIZE
  {
    Word(block, 0)
  }

  function EntryName(block: seq<byte>): seq<byte>
    requires |block| == BLKSIZE
  {
    CString(block[4..4 + NAME_SIZE])
  }

  /** What survives of a name: add_entry writes four bytes too few. */
  function Stored(name: seq<byte>): (r: seq<byte>)
    ensures r == name <==> |name| <= KEPT_NAME
  {
    if |name| <= KEPT_NAME then name else name[..KEPT_NAME]
  }

  /** The entry block reads back as the inode number and the first 252 bytes of the name,
      whatever names the static buffer held before. */
  lemma EntryReads(buffer: seq<byte>, file: nat, name: seq<byte>)
    requires |buffer| == NAME_SIZE && |name| <= MAX_FNAME_LEN && NoNul(name) && file < 0x1_0000_0000
    ensures var block := Pad(LE32(file) + CopyName(buffer, name)[..KEPT_NAME]);
            EntryIno(block) == file && EntryName(block) == Stored(name)
  {
    var copied := CopyName(buffer, name)[..KEPT_NAME];
    var block := Pad(LE32(file) + copied);
    assert block[0..4] == LE32(file);
    WordReadsLE32(block, 0, file);
    var field := block[4..4 + NAME_SIZE];
    var kept := Stored(name);
    var written := LE32(file) + copied;
    assert block[..|written|] == written;
    forall i | 0 <= i < KEPT_NAME ensures field[i] == copied[i] {
      assert written[4 + i] == copied[i];
      assert block[..|written|][4 + i] == block[4 + i];
    }
    assert field[KEPT_NAME] == block[4 + KEPT_NAME] == 0;
    assert field[..|kept|] == kept;
    assert field == kept + field[|kept|..];
    CStringEnds(kept, field[|kept|..]);
  }

  // ---------- file contents ----------

  function Flatten(data: seq<seq<byte>>): seq<byte> {
    if data == [] then [] else data[0] + Flatten(data[1..])
  }

  /** The bytes that the next read returns. */
  function Chunk(bytes: seq<byte>): (c: seq<byte>)
    ensures |c| <= BLKSIZE && (bytes != [] ==> c != [])
  {
    if |bytes| <= BLKSIZE then bytes else bytes[..BLKSIZE]
  }

  /** The blocks that open_file writes. */
  function Chunks(bytes: seq<byte>): (r: seq<seq<byte>>)
    decreases |bytes|
  {
    if bytes == [] then [] else [Pad(Chunk(bytes))] + Chunks(bytes[|Chunk(bytes)|..])
  }

  lemma ChunksStep(bytes: seq<byte>, done: seq<seq<byte>>, rest: seq<byte>)
    requires Chunks(bytes) == done + Chunks(rest) && rest != []
    ensures Chunks(bytes) == done + [Pad(Chunk(rest))] + Chunks(rest[|Chunk(rest)|..])
  {
  }

  /** Reading the blocks up to the size of the file gives the bytes of the file. */
  lemma {:induction false} ChunksReadBack(bytes: seq<byte>)
    ensures |Flatten(Chunks(bytes))| >= |bytes| && Flatten(Chunks(bytes))[..|bytes|] == bytes
    decreases |bytes|
  {
    if bytes != [] {
      var c := Chunk(bytes);
      var rest := bytes[|c|..];
      ChunksReadBack(rest);
      FlattenCons(Pad(c), Chunks(rest));
      FrontReadsBack(bytes, Flatten(Chunks(rest)));
    }
  }

  lemma FlattenCons(first: seq<byte>, rest: seq<seq<byte>>)
    ensures Flatten([first] + rest) == first + Flatten(rest)
  {
    assert ([first] + rest)[1..] == rest;
  }

  /** The first block and what the others hold. */
  lemma FrontReadsBack(bytes: seq<byte>, more: seq<byte>)
    requires bytes != []
    requires var rest := bytes[|Chunk(bytes)|..];
             |more| >= |rest| && more[..|rest|] == rest
    ensures |Pad(Chunk(bytes)) + more| >= |bytes| && (Pad(Chunk(bytes)) + more)[..|bytes|] == bytes
  {
    var c := Chunk(bytes);
    var first, rest := Pad(c), bytes[|c|..];
    if |bytes| <= BLKSIZE {
      assert (first + more)[..|bytes|] == first[..|bytes|];
    } else {
      assert first == c;
      assert (c + more)[..|bytes|] == c + more[..|rest|];
      assert bytes == c + rest;
    }
  }

  lemma {:induction false} ChunksAreBlocks(bytes: seq<byte>)
    ensures forall i :: 0 <= i < |Chunks(bytes)| ==> |Chunks(bytes)[i]| == BLKSIZE
    decreases |bytes|
  {
    if bytes != [] {
      ChunksAreBlocks(bytes[|Chunk(bytes)|..]);
    }
  }
}

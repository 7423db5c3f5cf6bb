/** The on-disk format: words in blocks, bits of the free map, inodes and the superblock, each with its reader. */
module SfsFormat {
  import opened Common
  import opened SfsCore
  import opened SfsEntry

  const MAGIC: nat := 0x2f8d_be2a

  // ---------- words ----------

  function WordsBytes(w: seq<nat>): (r: seq<byte>)
    ensures |r| == 4 * |w|
  {
    if w == [] then [] else LE32(w[0]) + WordsBytes(w[1..])
  }

  /** Word i of a block of words, whatever follows. */
  lemma {:induction false} WordsReadBack(w: seq<nat>, tail: seq<byte>, i: nat)
    requires i < |w| && w[i] < W32
    ensures Word(WordsBytes(w) + tail, 4 * i) == w[i]
  {
    var all := WordsBytes(w) + tail;
    var rest := WordsBytes(w[1..]) + tail;
    assert all == LE32(w[0]) + rest;
    if i == 0 {
      assert all[0..4] == LE32(w[0]);
      WordReadsLE32(all, 0, w[0]);
    } else {
      WordsReadBack(w[1..], tail, i - 1);
      WordShift(LE32(w[0]), rest, 4 * (i - 1));
    }
  }

  lemma WordShift(first: seq<byte>, rest: seq<byte>, at: nat)
    requires |first| == 4 && at + 4 <= |rest|
    ensures Word(first + rest, 4 + at) == Word(rest, at)
  {
    var all := first + rest;
    assert all[4 + at] == rest[at] && all[4 + at + 1] == rest[at + 1] && all[4 + at + 2] == rest[at + 2]
           && all[4 + at + 3] == rest[at + 3];
  }

  // ---------- bits ----------

  /** Bit k of a word. */
  predicate Bit(w: nat, k: nat) {
    if k == 0 then w % 2 == 1 else Bit(w / 2, k - 1)
  }

  /** w | (1 << k) */
  function SetBit(w: nat, k: nat): nat {
    if k == 0 then (if w % 2 == 1 then w else w + 1) else 2 * SetBit(w / 2, k - 1) + w % 2
  }

  lemma {:induction false} SetBitSets(w: nat, k: nat, j: nat)
    ensures Bit(SetBit(w, k), j) <==> j == k || Bit(w, j)
  {
    SetBitHalves(w, k);
    if k > 0 && j > 0 {
      SetBitSets(w / 2, k - 1, j - 1);
    }
  }

  /** What setting a bit does to the last bit and to the others. */
  lemma SetBitHalves(w: nat, k: nat)
    ensures SetBit(w, k) / 2 == if k > 0 then SetBit(w / 2, k - 1) else w / 2
    ensures SetBit(w, k) % 2 == if k > 0 then w % 2 else 1
  {
  }

  function Pow2(k: nat): (p: nat)
    ensures p > 0
  {
    if k == 0 then 1 else 2 * Pow2(k - 1)
  }

  lemma {:induction false} SetBitBound(w: nat, k: nat, n: nat)
    requires k < n && w < Pow2(n)
    ensures SetBit(w, k) < Pow2(n)
  {
    assert Pow2(n) == 2 * Pow2(n - 1);
    if k > 0 {
      SetBitBound(w / 2, k - 1, n - 1);
      DoubleBelow(SetBit(w / 2, k - 1), w % 2, Pow2(n - 1));
    } else {
      DoubleBelow(w / 2, 1, Pow2(n - 1));
    }
  }

  lemma DoubleBelow(half: nat, bit: nat, p: nat)
    requires half < p && bit < 2
    ensures 2 * half + bit < 2 * p
  {
  }

  lemma {:induction false} ZeroHasNoBits(k: nat)
    ensures !Bit(0, k)
  {
    if k > 0 {
      ZeroHasNoBits(k - 1);
    }
  }

  lemma Pow32()
    ensures Pow2(32) == W32
  {
    assert Pow2(8) == 256;
    assert Pow2(16) == 256 * Pow2(8);
    assert Pow2(24) == 256 * Pow2(16);
    assert Pow2(32) == 256 * Pow2(24);
  }

  // ---------- the free map ----------

  /** Bit j of a block of the free map. */
  ghost predicate MapBit(block: seq<byte>, j: nat)
    requires |block| == BLKSIZE && j < BLKBITS
  {
    Bit(Word(block, 4 * (j / 32)), j % 32)
  }

  /** The words of a free-map block whose bits are set exactly from `start` up to `end`. */
  ghost predicate BitsFrom(w: seq<nat>, start: nat, end: nat) {
    && |w| == NENTRY && (forall i :: 0 <= i < NENTRY ==> w[i] < W32)
    && forall j :: 0 <= j < BLKBITS ==> (Bit(w[j / 32], j % 32) <==> start <= j < end)
  }

  /** The inner loop of close_sfs over a zeroed buffer. */
  method FreeMapWords(start: nat, end: nat) returns (w: seq<nat>)
    requires end <= BLKBITS
    ensures BitsFrom(w, start, end)
  {
    var data := new nat[NENTRY](_ => 0);
    forall j | 0 <= j < BLKBITS ensures !Bit(0, j % 32) {
      ZeroHasNoBits(j % 32);
    }
    var j: nat := start;
    while j < end
      invariant start <= j && (j <= end || j == start)
      invariant forall i :: 0 <= i < NENTRY ==> data[i] < W32
      invariant forall b :: 0 <= b < BLKBITS ==> (Bit(data[b / 32], b % 32) <==> start <= b < j)
    {
      ghost var was := data[..];
      data[j / 32] := SetBit(data[j / 32], j % 32);
      BitSet(was, data[..], start, j);
      j := j + 1;
    }
    w := data[..];
  }

  lemma BitSet(was: seq<nat>, now: seq<nat>, start: nat, j: nat)
    requires start <= j < BLKBITS && |was| == NENTRY && forall i :: 0 <= i < NENTRY ==> was[i] < W32
    requires forall b :: 0 <= b < BLKBITS ==> (Bit(was[b / 32], b % 32) <==> start <= b < j)
    requires now == was[j / 32 := SetBit(was[j / 32], j % 32)]
    ensures forall i :: 0 <= i < NENTRY ==> now[i] < W32
    ensures forall b :: 0 <= b < BLKBITS ==> (Bit(now[b / 32], b % 32) <==> start <= b < j + 1)
  {
    Pow32();
    SetBitBound(was[j / 32], j % 32, 32);
    forall b | 0 <= b < BLKBITS ensures Bit(now[b / 32], b % 32) <==> start <= b < j + 1 {
      SetBitSets(was[j / 32], j % 32, b % 32);
    }
  }

  // ---------- inodes and the superblock ----------

  /** struct inode as 17 words; the 16-bit fields type and nlinks share the second. */
  function InodeWords(inode: Inode): seq<nat> {
    [inode.size, inode.kind + 0x1_0000 * inode.nlinks, inode.blocks] + inode.direct + [inode.indirect, inode.dbIndirect]
  }

  function InodeBytes(inode: Inode): (r: seq<byte>)
    requires |inode.direct| == L0
    ensures |r| == BLKSIZE
  {
    Pad(WordsBytes(InodeWords(inode)))
  }

  /** Reading an inode block. */
  function ReadInode(block: seq<byte>): Inode
    requires |block| == BLKSIZE
  {
    Inode(Word(block, 0), Word(block, 4) % 0x1_0000, Word(block, 4) / 0x1_0000, Word(block, 8),
          seq(L0, i requires 0 <= i < L0 => Word(block, 12 + 4 * i)), Word(block, 60), Word(block, 64))
  }

  ghost predicate Storable(inode: Inode) {
    && |inode.direct| == L0 && inode.size < W32 && inode.kind < 0x1_0000 && inode.nlinks < 0x1_0000
    && inode.blocks < W32
    && inode.indirect < W32 && inode.dbIndirect < W32 && forall i :: 0 <= i < L0 ==> inode.direct[i] < W32
  }

  lemma InodeWordReads(inode: Inode, i: nat)
    requires Storable(inode) && i < 17
    ensures Word(InodeBytes(inode), 4 * i) == InodeWords(inode)[i]
  {
    var w := InodeWords(inode);
    var tail := Zeros(BLKSIZE - 4 * |w|);
    assert InodeBytes(inode) == WordsBytes(w) + tail;
    InodeWordsFit(inode, i);
    WordsReadBack(w, tail, i);
  }

  lemma DirectReadsBack(inode: Inode)
    requires Storable(inode)
    ensures ReadInode(InodeBytes(inode)).direct == inode.direct
  {
    forall i | 0 <= i < L0 ensures Word(InodeBytes(inode), 12 + 4 * i) == inode.direct[i] {
      InodeWordReads(inode, 3 + i);
      assert InodeWords(inode)[3 + i] == inode.direct[i];
    }
  }

  /** The two 16-bit fields. */
  lemma KindReadsBack(inode: Inode)
    requires Storable(inode)
    ensures Word(InodeBytes(inode), 4) % 0x1_0000 == inode.kind && Word(InodeBytes(inode), 4) / 0x1_0000 == inode.nlinks
  {
    KindWord(inode);
    HalfWords(Word(InodeBytes(inode), 4), inode.kind, inode.nlinks);
  }

  lemma KindWord(inode: Inode)
    requires Storable(inode)
    ensures Word(InodeBytes(inode), 4) == inode.kind + 0x1_0000 * inode.nlinks
  {
    InodeWordReads(inode, 1);
    assert InodeWords(inode)[1] == inode.kind + 0x1_0000 * inode.nlinks;
  }

  lemma HalfWords(w: int, low: nat, high: nat)
    requires w == low + 0x1_0000 * high && low < 0x1_0000
    ensures w % 0x1_0000 == low && w / 0x1_0000 == high
  {
  }

  lemma PlainWordsReadBack(inode: Inode)
    requires Storable(inode)
    ensures Word(InodeBytes(inode), 0) == inode.size && Word(InodeBytes(inode), 8) == inode.blocks
    ensures Word(InodeBytes(inode), 60) == inode.indirect && Word(InodeBytes(inode), 64) == inode.dbIndirect
  {
    InodeWordReads(inode, 0);
    InodeWordReads(inode, 2);
    InodeWordReads(inode, 15);
    InodeWordReads(inode, 16);
  }

  lemma InodeReadsBack(inode: Inode)
    requires Storable(inode)
    ensures ReadInode(InodeBytes(inode)) == inode
  {
    KindReadsBack(inode);
    PlainWordsReadBack(inode);
    DirectReadsBack(inode);
  }

  lemma InodeWordsFit(inode: Inode, i: nat)
    requires Storable(inode) && i < 17
    ensures InodeWords(inode)[i] < W32
  {
    if 3 <= i < 15 {
      assert InodeWords(inode)[i] == inode.direct[i - 3];
    }
  }

  /** "simple file system" */
  const INFO: seq<byte> := [115, 105, 109, 112, 108, 101, 32, 102, 105, 108, 101, 32, 115, 121, 115, 116, 101, 109, 0]
  const INFO_SIZE: nat := 32

  /** The superblock; the end of the info field is whatever the allocated memory held. */
  function SuperBytes(ninos: nat, unused: nat, junk: seq<byte>): (r: seq<byte>)
    requires |INFO| + |junk| == INFO_SIZE
    ensures |r| == BLKSIZE
  {
    Pad(WordsBytes([MAGIC, ninos, unused]) + INFO + junk)
  }

  datatype Super = Super(magic: nat, blocks: nat, unused: nat, info: seq<byte>)

  function ReadSuper(block: seq<byte>): Super
    requires |block| == BLKSIZE
  {
    Super(Word(block, 0), Word(block, 4), Word(block, 8), CString(block[12..12 + INFO_SIZE]))
  }

  lemma SuperReadsBack(ninos: nat, unused: nat, junk: seq<byte>)
    requires |INFO| + |junk| == INFO_SIZE && ninos < W32 && unused < W32
    ensures ReadSuper(SuperBytes(ninos, unused, junk)) == Super(MAGIC, ninos, unused, INFO[..|INFO| - 1])
  {
    var w := [MAGIC, ninos, unused];
    var block := SuperBytes(ninos, unused, junk);
    var tail := INFO + junk + Zeros(BLKSIZE - 44);
    assert block == WordsBytes(w) + tail;
    WordsReadBack(w, tail, 0);
    WordsReadBack(w, tail, 1);
    WordsReadBack(w, tail, 2);
    var field := block[12..12 + INFO_SIZE];
    assert field == INFO + junk;
    assert field == INFO[..18] + ([0] + junk);
    CStringEnds(INFO[..18], [0] + junk);
  }
}

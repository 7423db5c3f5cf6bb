/** close_sfs: the free map, the superblock and the cached index blocks and inodes go to the disk. */
module SfsClose {
  import opened Common
  import opened SfsCore
  import opened SfsIndex
  import opened SfsInvariant
  import opened SfsEntry
  import opened SfsSteps
  import opened SfsFormat
  import opened SfsBuilder

  type Image = map<nat, seq<byte>>

  predicate Between(lo: nat, x: nat, hi: nat) {
    lo <= x < hi
  }

  /** Bit j of free-map block k is set exactly when block k * 32768 + j is free. */
  ghost predicate MapBlock(fs: Fs, k: nat, bytes: seq<byte>)
    requires |bytes| == BLKSIZE
  {
    forall j :: 0 <= j < BLKBITS ==> (MapBit(bytes, j) <==> Between(fs.nextIno, BLKBITS * k + j, fs.ninos))
  }

  /** The bytes that block b of a closed image must hold. */
  ghost predicate Right(fs: Fs, junk: seq<byte>, b: nat, bytes: seq<byte>)
    requires |INFO| + |junk| == INFO_SIZE
  {
    && |bytes| == BLKSIZE
    && (b == 0 ==> 0 <= fs.unused && bytes == SuperBytes(fs.ninos, fs.unused, junk))
    && (FREEMAP <= b < First(fs.ninos) ==> MapBlock(fs, b - FREEMAP, bytes))
    && (b in fs.inodes ==> |fs.inodes[b].inode.direct| == L0 && bytes == InodeBytes(fs.inodes[b].inode))
    && (b in fs.blocks ==> bytes == WordsBytes(fs.blocks[b]))
    && (b in fs.disk ==> bytes == fs.disk[b])
  }

  /** Whatever is on the disk is right, and what the builder wrote is still there. */
  ghost predicate PartOf(fs: Fs, junk: seq<byte>, disk: Image)
    requires |INFO| + |junk| == INFO_SIZE
  {
    && (forall b {:trigger Right(fs, junk, b, disk[b])} :: b in disk ==> Right(fs, junk, b, disk[b]))
    && (forall b :: b in fs.disk ==> b in disk)
  }

  ghost predicate Closed(fs: Fs, junk: seq<byte>, disk: Image)
    requires |INFO| + |junk| == INFO_SIZE
  {
    && PartOf(fs, junk, disk)
    && (forall b :: 0 <= b < First(fs.ninos) && b != ROOT ==> b in disk)
    && (forall b :: b in fs.inodes ==> b in disk)
    && (forall b :: b in fs.blocks ==> b in disk)
  }

  // ---------- no block is written for two purposes ----------

  lemma StartsRight(fs: Fs, owner: Owner, view: View, junk: seq<byte>)
    requires Inv(fs, owner, view) && |INFO| + |junk| == INFO_SIZE
    ensures PartOf(fs, junk, fs.disk)
  {
  }

  lemma WriteRight(fs: Fs, junk: seq<byte>, disk: Image, b: nat, bytes: seq<byte>)
    requires |INFO| + |junk| == INFO_SIZE && PartOf(fs, junk, disk) && Right(fs, junk, b, bytes)
    ensures PartOf(fs, junk, Written(disk, b, bytes))
  {
    forall x | x in Written(disk, b, bytes) ensures Right(fs, junk, x, Written(disk, b, bytes)[x]) {
      if x != b {
        assert Right(fs, junk, x, disk[x]);
      }
    }
  }

  lemma SuperRight(fs: Fs, owner: Owner, view: View, junk: seq<byte>)
    requires Inv(fs, owner, view) && |INFO| + |junk| == INFO_SIZE
    ensures fs.unused >= 0 && Right(fs, junk, 0, SuperBytes(fs.ninos, fs.unused, junk))
  {
    assert 0 !in owner;
  }

  lemma MapRight(fs: Fs, owner: Owner, view: View, junk: seq<byte>, b: nat, bytes: seq<byte>)
    requires Inv(fs, owner, view) && |INFO| + |junk| == INFO_SIZE && |bytes| == BLKSIZE
    requires FREEMAP <= b < First(fs.ninos) && MapBlock(fs, b - FREEMAP, bytes)
    ensures Right(fs, junk, b, bytes)
    ensures b !in owner && b !in fs.inodes && b !in fs.blocks && b !in fs.disk && b < fs.nextIno
  {
    assert b !in owner;
  }

  lemma IndexRight(fs: Fs, owner: Owner, view: View, junk: seq<byte>, b: nat)
    requires Inv(fs, owner, view) && |INFO| + |junk| == INFO_SIZE && b in fs.blocks
    ensures Right(fs, junk, b, WordsBytes(fs.blocks[b])) && b < fs.ninos && |WordsBytes(fs.blocks[b])| == BLKSIZE
  {
    assert b in owner && owner[b].Index?;
    assert |fs.blocks[b]| == NENTRY;
  }

  lemma InodeRight(fs: Fs, owner: Owner, view: View, junk: seq<byte>, b: nat)
    requires Inv(fs, owner, view) && |INFO| + |junk| == INFO_SIZE && b in fs.inodes
    ensures |fs.inodes[b].inode.direct| == L0 && b < fs.ninos && Right(fs, junk, b, InodeBytes(fs.inodes[b].inode))
  {
    assert b in owner && owner[b].AnInode?;
    assert InodeFits(fs.inodes[b]);
  }

  /** The words of map block k. */
  lemma MapWordsRight(fs: Fs, k: nat, w: seq<nat>, start: nat, end: nat)
    requires BitsFrom(w, start, end)
    requires forall j ::
               0 <= j < BLKBITS ==> (Between(start, j, end) <==> Between(fs.nextIno, BLKBITS * k + j, fs.ninos))
    ensures MapBlock(fs, k, WordsBytes(w))
  {
    forall j | 0 <= j < BLKBITS ensures MapBit(WordsBytes(w), j) <==> Between(fs.nextIno, BLKBITS * k + j, fs.ninos) {
      assert Between(start, j, end) <==> start <= j < end;
      assert Bit(w[j / 32], j % 32) <==> start <= j < end;
      WordsReadBack(w, [], j / 32);
      assert WordsBytes(w) + [] == WordsBytes(w);
    }
  }

  // ---------- close_sfs ----------

  method WriteFreeMap(sfs: Sfs, junk: seq<byte>)
    requires sfs.Good() && |INFO| + |junk| == INFO_SIZE && PartOf(sfs.Snap(), junk, sfs.disk)
    modifies sfs`disk
    ensures PartOf(old(sfs.Snap()), junk, sfs.disk)
    ensures forall b :: b in old(sfs.disk) ==> b in sfs.disk
    ensures forall b :: FREEMAP <= b < First(sfs.ninos) ==> b in sfs.disk
  {
    ghost var fs := sfs.Snap();
    var ninos, nextIno := sfs.ninos, sfs.nextIno;
    var ino: nat := FREEMAP;
    var i: nat := 0;
    while i < ninos
      invariant ino >= FREEMAP && i == BLKBITS * (ino - FREEMAP) && ino <= First(ninos)
      invariant PartOf(fs, junk, sfs.disk)
      invariant forall b :: b in old(sfs.disk) ==> b in sfs.disk
      invariant forall b :: FREEMAP <= b < ino ==> b in sfs.disk
      decreases ninos - i
    {
      var start: nat, end: nat := 0, 0;
      if i + BLKBITS > nextIno {
        end := BLKBITS;
        if i < nextIno {
          start := nextIno - i;
        }
        if i + BLKBITS > ninos {
          end := ninos - i;
        }
      }
      var w := FreeMapWords(start, end);
      MapWordsRight(fs, ino - FREEMAP, w, start, end);
      MapRight(fs, sfs.owner, sfs.view, junk, ino, WordsBytes(w));
      WriteRight(fs, junk, sfs.disk, ino, WordsBytes(w));
      assert Pad(WordsBytes(w)) == WordsBytes(w);
      sfs.WriteBlock(WordsBytes(w), ino);
      ino, i := ino + 1, i + BLKBITS;
    }
  }

  /** Flushing one chain of cached index blocks. */
  method FlushBlocks(sfs: Sfs, junk: seq<byte>, ghost fs: Fs, chain: seq<nat>)
    requires |INFO| + |junk| == INFO_SIZE && Inv(fs, sfs.owner, sfs.view) && PartOf(fs, junk, sfs.disk)
    requires sfs.blocks == fs.blocks && sfs.ninos == fs.ninos && forall b :: b in chain ==> b in sfs.blocks
    modifies sfs`disk
    ensures PartOf(fs, junk, sfs.disk)
    ensures forall b :: b in old(sfs.disk) || b in chain ==> b in sfs.disk
  {
    var i: nat := 0;
    while i < |chain|
      invariant i <= |chain| && PartOf(fs, junk, sfs.disk)
      invariant forall b :: b in old(sfs.disk) ==> b in sfs.disk
      invariant forall k :: 0 <= k < i ==> chain[k] in sfs.disk
    {
      var b := chain[i];
      IndexRight(fs, sfs.owner, sfs.view, junk, b);
      WriteRight(fs, junk, sfs.disk, b, WordsBytes(sfs.blocks[b]));
      assert Pad(WordsBytes(sfs.blocks[b])) == WordsBytes(sfs.blocks[b]);
      sfs.WriteBlock(WordsBytes(sfs.blocks[b]), b);
      i := i + 1;
    }
  }

  /** Flushing one chain of cached inodes. */
  method FlushInodes(sfs: Sfs, junk: seq<byte>, ghost fs: Fs, chain: seq<nat>)
    requires |INFO| + |junk| == INFO_SIZE && Inv(fs, sfs.owner, sfs.view) && PartOf(fs, junk, sfs.disk)
    requires sfs.inodes == fs.inodes && sfs.ninos == fs.ninos && forall b :: b in chain ==> b in sfs.inodes
    modifies sfs`disk
    ensures PartOf(fs, junk, sfs.disk)
    ensures forall b :: b in old(sfs.disk) || b in chain ==> b in sfs.disk
  {
    var i: nat := 0;
    while i < |chain|
      invariant i <= |chain| && PartOf(fs, junk, sfs.disk)
      invariant forall b :: b in old(sfs.disk) ==> b in sfs.disk
      invariant forall k :: 0 <= k < i ==> chain[k] in sfs.disk
    {
      var b := chain[i];
      InodeRight(fs, sfs.owner, sfs.view, junk, b);
      WriteRight(fs, junk, sfs.disk, b, InodeBytes(fs.inodes[b].inode));
      sfs.WriteBlock(WordsBytes(InodeWords(sfs.inodes[b].inode)), b);
      i := i + 1;
    }
  }

  /** All buckets, index blocks before inodes. */
  method FlushCaches(sfs: Sfs, junk: seq<byte>, ghost fs: Fs)
    requires |INFO| + |junk| == INFO_SIZE && Inv(fs, sfs.owner, sfs.view) && PartOf(fs, junk, sfs.disk)
    requires fs == sfs.Snap().(disk := fs.disk)
    modifies sfs`disk
    ensures PartOf(fs, junk, sfs.disk)
    ensures forall b :: b in old(sfs.disk) ==> b in sfs.disk
    ensures forall b :: b in fs.inodes ==> b in sfs.disk
    ensures forall b :: b in fs.blocks ==> b in sfs.disk
  {
    var i: nat := 0;
    while i < HASH_LIST_SIZE
      invariant i <= HASH_LIST_SIZE && PartOf(fs, junk, sfs.disk)
      invariant forall b :: b in old(sfs.disk) ==> b in sfs.disk
      invariant forall k, b {:trigger b in fs.blockChains[k]} :: 0 <= k < i && b in fs.blockChains[k] ==> b in sfs.disk
      invariant forall k, b {:trigger b in fs.inodeChains[k]} :: 0 <= k < i && b in fs.inodeChains[k] ==> b in sfs.disk
    {
      FlushBlocks(sfs, junk, fs, sfs.blockChains[i]);
      FlushInodes(sfs, junk, fs, sfs.inodeChains[i]);
      i := i + 1;
    }
    forall b | b in fs.inodes ensures b in sfs.disk {
      assert b in fs.inodeChains[Hash32(fs.inodes[b].realIno)];
    }
  }

  method CloseSfs(sfs: Sfs, junk: seq<byte>)
    requires sfs.Good() && |INFO| + |junk| == INFO_SIZE
    modifies sfs`disk
    ensures Closed(old(sfs.Snap()), junk, sfs.disk)
  {
    ghost var fs := sfs.Snap();
    StartsRight(fs, sfs.owner, sfs.view, junk);
    WriteFreeMap(sfs, junk);
    SuperRight(fs, sfs.owner, sfs.view, junk);
    WriteRight(fs, junk, sfs.disk, 0, SuperBytes(sfs.ninos, sfs.unused, junk));
    sfs.WriteBlock(WordsBytes([MAGIC, sfs.ninos, sfs.unused]) + INFO + junk, 0);
    FlushCaches(sfs, junk, fs);
  }
}

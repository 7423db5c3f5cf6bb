/** The block index of one file refines a sequence: appending a block number makes it the next
    element, keeps all earlier ones, and touches no index block of another file. */
module SfsIndex {
  import opened Common
  import opened SfsCore

  type Blocks = map<nat, seq<nat>>

  ghost predicate Extends(owner: Owner, owner': Owner) {
    forall b :: b in owner ==> b in owner' && owner'[b] == owner[b]
  }

  /** Index blocks of files other than h are as before, and none disappears. */
  ghost predicate Touches(blocks: Blocks, blocks': Blocks, owner': Owner, h: nat) {
    forall b :: b in blocks ==>
      (b in blocks' &&
       (blocks'[b] == blocks[b] || (|blocks'[b]| == |blocks[b]| && b in owner' && owner'[b].Index?
                                    && owner'[b].file == h)))
  }

  /** The first n block numbers are the same. */
  ghost predicate SameBlocks(blocks: Blocks, ci: CacheInode, blocks': Blocks, ci': CacheInode, n: nat) {
    forall i :: 0 <= i < n ==> BlockAt(blocks', ci', i) == BlockAt(blocks, ci, i)
  }

  lemma OtherIndexBlock(blocks: Blocks, blocks': Blocks, owner: Owner, owner': Owner, h: nat, g: nat, slot: int, b: nat)
    requires Extends(owner, owner') && Touches(blocks, blocks', owner', h) && g != h
    requires IndexBlock(blocks, owner, g, slot, b)
    ensures IndexBlock(blocks', owner', g, slot, b) && blocks'[b] == blocks[b]
  {
  }

  /** A step of file h keeps the index of every other file. */
  lemma OtherFile(blocks: Blocks, blocks': Blocks, owner: Owner, owner': Owner, h: nat, g: nat, ci: CacheInode)
    requires Extends(owner, owner') && Touches(blocks, blocks', owner', h) && g != h
    requires FileOk(blocks, owner, g, ci)
    ensures FileOk(blocks', owner', g, ci) && SameBlocks(blocks, ci, blocks', ci, ci.nblks)
  {
    if ci.nblks > L0 {
      OtherIndexBlock(blocks, blocks', owner, owner', h, g, -1, ci.inode.indirect);
    }
    if ci.nblks > L1 {
      var db, last := ci.inode.dbIndirect, (ci.nblks - L1 - 1) / NENTRY;
      OtherIndexBlock(blocks, blocks', owner, owner', h, g, -2, db);
      assert forall k :: Get(blocks', db, k) == Get(blocks, db, k);
      forall k | 0 <= k <= last
        ensures IndexBlock(blocks', owner', g, k, Get(blocks', db, k))
                && blocks'[Get(blocks, db, k)] == blocks[Get(blocks, db, k)]
      {
        OtherIndexBlock(blocks, blocks', owner, owner', h, g, k, Get(blocks, db, k));
      }
      forall i | L1 <= i < ci.nblks ensures BlockAt(blocks', ci, i) == BlockAt(blocks, ci, i) {
        var k := (i - L1) / NENTRY;
        assert 0 <= k <= last;
        assert IndexBlock(blocks, owner, g, k, Get(blocks, db, k));
      }
    }
  }

  /** Everything that one append does to the index. */
  ghost predicate IndexStep(blocks: Blocks, owner: Owner, ci: CacheInode, blocks': Blocks, owner': Owner,
                            ci': CacheInode, h: nat, ino: nat) {
    && ci'.nblks == ci.nblks + 1
    && FileOk(blocks', owner', h, ci') && SameBlocks(blocks, ci, blocks', ci', ci.nblks)
    && BlockAt(blocks', ci', ci.nblks) == ino
    && Extends(owner, owner') && Touches(blocks, blocks', owner', h)
  }

  lemma DirectStep(blocks: Blocks, owner: Owner, h: nat, ci: CacheInode, size: nat, ino: nat)
    requires FileOk(blocks, owner, h, ci) && ci.nblks < L0
    ensures IndexStep(blocks, owner, ci, blocks, owner,
                      Appended(ci.(inode := ci.inode.(direct := ci.inode.direct[ci.nblks := ino])), size), h, ino)
  {
  }

  /** The indirect block exists: word nblks - 12 is set. */
  lemma IndirectStep(blocks: Blocks, owner: Owner, h: nat, ci: CacheInode, size: nat, ino: nat)
    requires FileOk(blocks, owner, h, ci) && L0 < ci.nblks < L1
    ensures IndexStep(blocks, owner, ci, Set(blocks, ci.inode.indirect, ci.nblks - L0, ino), owner, Appended(ci, size),
                      h, ino)
  {
  }

  /** The first block behind the direct ones: a new indirect block b. */
  lemma NewIndirectStep(blocks: Blocks, owner: Owner, h: nat, ci: CacheInode, size: nat, ino: nat, b: nat)
    requires FileOk(blocks, owner, h, ci) && ci.nblks == L0
    requires b != 0 && b !in blocks && b !in owner
    ensures IndexStep(blocks, owner, ci, Set(Zeroed(blocks, b), b, 0, ino), Given(owner, b, Index(h, -1)),
                      Appended(ci.(l1 := Some(b), inode := ci.inode.(indirect := b)), size), h, ino)
  {
  }

  /** Word m of the blocks below the double-indirect block, in a file that has more than m of them. */
  ghost predicate BelowDouble(blocks: Blocks, owner: Owner, h: nat, db: nat, last: nat) {
    && IndexBlock(blocks, owner, h, -2, db) && last < NENTRY
    && (forall k :: 0 <= k <= last ==> IndexBlock(blocks, owner, h, k, Get(blocks, db, k)))
    && (forall k :: last < k < NENTRY ==> Get(blocks, db, k) == 0)
  }

  /** Setting word i of block number `last` below the double-indirect block. */
  lemma SetBelow(blocks: Blocks, owner: Owner, h: nat, db: nat, last: nat, i: nat, ino: nat)
    requires BelowDouble(blocks, owner, h, db, last) && i < NENTRY
    ensures var blocks' := Set(blocks, Get(blocks, db, last), i, ino);
            && BelowDouble(blocks', owner, h, db, last) && Touches(blocks, blocks', owner, h)
            && (forall k :: Get(blocks', db, k) == Get(blocks, db, k))
            && Get(blocks', Get(blocks, db, last), i) == ino
            && (forall b, j :: b != Get(blocks, db, last) || j != i ==> Get(blocks', b, j) == Get(blocks, b, j))
  {
    var b1 := Get(blocks, db, last);
    var blocks' := Set(blocks, b1, i, ino);
    assert IndexBlock(blocks, owner, h, last, b1);
    assert blocks'[db] == blocks[db];
    forall k | 0 <= k < NENTRY
      ensures Get(blocks', db, k) == Get(blocks, db, k)
      ensures k <= last ==> IndexBlock(blocks', owner, h, k, Get(blocks', db, k))
    {
      if k <= last {
        assert IndexBlock(blocks, owner, h, k, Get(blocks, db, k));
      }
    }
  }

  /** Hanging a new block b1 into slot last + 1. */
  lemma GrowBelow(blocks: Blocks, owner: Owner, h: nat, db: nat, last: nat, b1: nat)
    requires BelowDouble(blocks, owner, h, db, last) && last + 1 < NENTRY
    requires b1 != 0 && b1 !in blocks && b1 !in owner
    ensures var blocks', owner' := Set(Zeroed(blocks, b1), db, last + 1, b1), Given(owner, b1, Index(h, last + 1));
            && BelowDouble(blocks', owner', h, db, last + 1) && Touches(blocks, blocks', owner', h)
            && Get(blocks', db, last + 1) == b1
            && (forall b, j :: b in blocks && (b != db || j != last + 1) ==> Get(blocks', b, j) == Get(blocks, b, j))
  {
    var blocks', owner' := Set(Zeroed(blocks, b1), db, last + 1, b1), Given(owner, b1, Index(h, last + 1));
    forall k | 0 <= k < NENTRY
      ensures Get(blocks', db, k) == if k == last + 1 then b1 else Get(blocks, db, k)
      ensures k <= last + 1 ==> IndexBlock(blocks', owner', h, k, Get(blocks', db, k))
    {
      if k <= last {
        assert IndexBlock(blocks, owner, h, k, Get(blocks, db, k));
        assert Get(blocks, db, k) != db;
      }
    }
  }

  /** Words other than the one in the double-indirect block and the one below it stay. */
  ghost predicate OnlyWords(blocks: Blocks, blocks': Blocks, db: nat, last: nat, b1: nat, j1: nat) {
    forall b, j :: b in blocks && (b != db || j != last) && (b != b1 || j != j1)
      ==> Get(blocks', b, j) == Get(blocks, b, j)
  }

  /** What the inode of a file looks like after an append behind the indirect block. */
  ghost predicate DoubleInode(ci: CacheInode, ci': CacheInode, db: nat, b1: nat) {
    && ci'.nblks == ci.nblks + 1 == ci'.inode.blocks
    && ci'.inode.direct == ci.inode.direct && ci'.inode.indirect == ci.inode.indirect
    && ci'.inode.dbIndirect == db && ci'.l1 == Some(b1) && ci'.l2 == Some(db)
    && (ci.nblks > L1 ==> db == ci.inode.dbIndirect)
  }

  /** The block that takes word m below the double-indirect block: a new one exactly when m starts a block. */
  ghost predicate SlotKept(blocks: Blocks, db: nat, m: nat, b1: nat) {
    m % NENTRY != 0 ==> b1 == Get(blocks, db, m / NENTRY)
  }

  lemma DoubleSame(blocks: Blocks, owner: Owner, ci: CacheInode, blocks': Blocks, owner': Owner, ci': CacheInode,
                   h: nat, db: nat, last: nat, b1: nat, i: nat)
    requires FileOk(blocks, owner, h, ci) && L1 <= ci.nblks < LN
    requires Extends(owner, owner') && DoubleInode(ci, ci', db, b1) && SlotKept(blocks, db, ci.nblks - L1, b1)
    requires last == (ci.nblks - L1) / NENTRY && BelowDouble(blocks', owner', h, db, last)
             && b1 == Get(blocks', db, last)
    requires OnlyWords(blocks, blocks', db, last, b1, (ci.nblks - L1) % NENTRY)
    requires i < ci.nblks
    ensures BlockAt(blocks', ci', i) == BlockAt(blocks, ci, i)
  {
    assert IndexBlock(blocks', owner', h, last, b1);
    if L0 <= i < L1 {
      assert IndexBlock(blocks, owner, h, -1, ci.inode.indirect);
    } else if L1 <= i {
      var k := (i - L1) / NENTRY;
      var bk := Get(blocks, db, k);
      assert IndexBlock(blocks, owner, h, k, bk);
      assert IndexBlock(blocks, owner, h, -2, db);
      if k < last {
        assert Get(blocks', db, k) == bk;
      }
    }
  }

  /** An append behind the indirect block, from what it did to single words. */
  lemma DoubleStep(blocks: Blocks, owner: Owner, ci: CacheInode, blocks': Blocks, owner': Owner, ci': CacheInode,
                   h: nat, db: nat, last: nat, b1: nat, ino: nat)
    requires FileOk(blocks, owner, h, ci) && L1 <= ci.nblks < LN
    requires Extends(owner, owner') && Touches(blocks, blocks', owner', h)
    requires DoubleInode(ci, ci', db, b1) && SlotKept(blocks, db, ci.nblks - L1, b1)
    requires last == (ci.nblks - L1) / NENTRY && BelowDouble(blocks', owner', h, db, last)
             && b1 == Get(blocks', db, last)
    requires OnlyWords(blocks, blocks', db, last, b1, (ci.nblks - L1) % NENTRY)
    requires Get(blocks', b1, (ci.nblks - L1) % NENTRY) == ino
    ensures IndexStep(blocks, owner, ci, blocks', owner', ci', h, ino)
  {
    assert IndexBlock(blocks, owner, h, -1, ci.inode.indirect);
    assert FileOk(blocks', owner', h, ci');
    forall i | 0 <= i < ci.nblks ensures BlockAt(blocks', ci', i) == BlockAt(blocks, ci, i) {
      DoubleSame(blocks, owner, ci, blocks', owner', ci', h, db, last, b1, i);
    }
  }

  function DoubleAppended(ci: CacheInode, db: nat, b1: nat, size: nat): CacheInode {
    Appended(ci.(l1 := Some(b1), l2 := Some(db), inode := ci.inode.(dbIndirect := db)), size)
  }

  /** Both blocks exist. */
  lemma SameDoubleStep(blocks: Blocks, owner: Owner, h: nat, ci: CacheInode, size: nat, ino: nat)
    requires FileOk(blocks, owner, h, ci) && L1 < ci.nblks < LN && (ci.nblks - L1) % NENTRY != 0
    ensures var db, m := ci.inode.dbIndirect, ci.nblks - L1;
            var b1 := Get(blocks, db, m / NENTRY);
            && ci.l2 == Some(db) && db != 0 && ci.l1 == Some(b1) && b1 != 0
            && IndexStep(blocks, owner, ci, Set(Set(blocks, db, m / NENTRY, b1), b1, m % NENTRY, ino), owner,
                         DoubleAppended(ci, db, b1, size), h, ino)
  {
    var db, m := ci.inode.dbIndirect, ci.nblks - L1;
    var last := m / NENTRY;
    assert last == (m - 1) / NENTRY;
    var b1 := Get(blocks, db, last);
    assert IndexBlock(blocks, owner, h, last, b1);
    assert SetWord(blocks[db], last, b1) == blocks[db];
    assert Set(blocks, db, last, b1) == blocks;
    SetBelow(blocks, owner, h, db, last, m % NENTRY, ino);
    DoubleStep(blocks, owner, ci, Set(blocks, b1, m % NENTRY, ino), owner, DoubleAppended(ci, db, b1, size), h, db,
               last, b1, ino);
  }

  /** The block below is full: a new block b1. */
  lemma NextDoubleStep(blocks: Blocks, owner: Owner, h: nat, ci: CacheInode, size: nat, ino: nat, b1: nat)
    requires FileOk(blocks, owner, h, ci) && L1 < ci.nblks < LN && (ci.nblks - L1) % NENTRY == 0
    requires b1 != 0 && b1 !in blocks && b1 !in owner
    ensures var db, m := ci.inode.dbIndirect, ci.nblks - L1;
            && ci.l2 == Some(db) && db != 0 && Get(blocks, db, m / NENTRY) == 0
            && IndexStep(blocks, owner, ci, Set(Set(Zeroed(blocks, b1), db, m / NENTRY, b1), b1, m % NENTRY, ino),
                         Given(owner, b1, Index(h, m / NENTRY)), DoubleAppended(ci, db, b1, size), h, ino)
  {
    var db, m := ci.inode.dbIndirect, ci.nblks - L1;
    var last := m / NENTRY;
    assert last - 1 == (m - 1) / NENTRY && last < NENTRY;
    GrowBelow(blocks, owner, h, db, last - 1, b1);
    var blocks1, owner' := Set(Zeroed(blocks, b1), db, last, b1), Given(owner, b1, Index(h, last));
    SetBelow(blocks1, owner', h, db, last, m % NENTRY, ino);
    var blocks' := Set(blocks1, b1, m % NENTRY, ino);
    DoubleStep(blocks, owner, ci, blocks', owner', DoubleAppended(ci, db, b1, size), h, db, last, b1, ino);
  }

  /** The first block behind the indirect ones: new blocks db and b1. */
  lemma NewDoubleStep(blocks: Blocks, owner: Owner, h: nat, ci: CacheInode, size: nat, ino: nat, db: nat, b1: nat)
    requires FileOk(blocks, owner, h, ci) && ci.nblks == L1
    requires b1 != 0 && b1 !in blocks && b1 !in owner && db != 0 && db !in blocks && db !in owner && db != b1
    ensures IndexStep(blocks, owner, ci, Set(Set(Zeroed(Zeroed(blocks, db), b1), db, 0, b1), b1, 0, ino),
                      Given(Given(owner, db, Index(h, -2)), b1, Index(h, 0)), DoubleAppended(ci, db, b1, size), h, ino)
  {
    var blocks1 := Set(Zeroed(Zeroed(blocks, db), b1), db, 0, b1);
    var owner' := Given(Given(owner, db, Index(h, -2)), b1, Index(h, 0));
    assert Get(blocks1, db, 0) == b1;
    assert BelowDouble(blocks1, owner', h, db, 0);
    SetBelow(blocks1, owner', h, db, 0, 0, ino);
    DoubleStep(blocks, owner, ci, Set(blocks1, b1, 0, ino), owner', DoubleAppended(ci, db, b1, size), h, db, 0, b1,
               ino);
  }
}

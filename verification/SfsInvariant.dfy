/** What every step of the image builder keeps: the accounting of free blocks, one purpose per
    allocated block, a sound index for every file, complete hash chains, and a view of every inode
    as the sequence of the blocks appended to it. */
module SfsInvariant {
  import opened Common
  import opened SfsCore
  import opened SfsIndex

  /** A file as its user sees it: the contents of its blocks in order. */
  datatype FileView = FileView(kind: nat, realIno: nat, size: nat, data: seq<seq<byte>>)

  type View = map<nat, FileView>

  /** The first block behind the free map. */
  function First(ninos: nat): nat {
    FREEMAP + (ninos + BLKBITS - 1) / BLKBITS
  }

  ghost predicate SpaceOk(fs: Fs) {
    && First(fs.ninos) <= fs.nextIno <= fs.ninos <= MAX_NBLKS
    && fs.unused == fs.ninos - fs.nextIno
  }

  /** The allocated block numbers are the root inode and those between the free map and nextIno. */
  ghost predicate OwnerOk(ninos: nat, nextIno: nat, owner: Owner) {
    forall b :: b in owner <==> (b == ROOT || First(ninos) <= b < nextIno)
  }

  ghost predicate InodeKeys(inodes: map<nat, CacheInode>, owner: Owner) {
    forall b :: b in inodes <==> b in owner && owner[b].AnInode?
  }

  ghost predicate IndexKeys(blocks: Blocks, owner: Owner) {
    forall b :: b in blocks <==> b in owner && owner[b].Index?
  }

  ghost predicate DataKeys(disk: map<nat, seq<byte>>, owner: Owner) {
    forall b :: b in disk <==> b in owner && owner[b].Data?
  }

  ghost predicate FullBlocks(disk: map<nat, seq<byte>>) {
    forall b {:trigger disk[b]} :: b in disk ==> |disk[b]| == BLKSIZE
  }

  ghost predicate FilesOk(fs: Fs, owner: Owner) {
    forall h {:trigger FileOk(fs.blocks, owner, h, fs.inodes[h])} :: h in fs.inodes
      ==> FileOk(fs.blocks, owner, h, fs.inodes[h])
  }

  /** Block i of file h is b, b serves only this purpose, and it holds the given bytes. */
  ghost predicate DataBlock(disk: map<nat, seq<byte>>, owner: Owner, h: nat, i: nat, b: nat, bytes: seq<byte>) {
    b in owner && owner[b] == Data(h, i) && b in disk && disk[b] == bytes && |bytes| == BLKSIZE
  }

  ghost predicate ShowsFile(blocks: Blocks, disk: map<nat, seq<byte>>, owner: Owner, h: nat, ci: CacheInode,
                            v: FileView) {
    && v.kind == ci.inode.kind && v.realIno == ci.realIno && v.size == ci.inode.size && |v.data| == ci.nblks
    && forall i :: 0 <= i < |v.data| ==> DataBlock(disk, owner, h, i, BlockAt(blocks, ci, i), v.data[i])
  }

  ghost predicate Shows(fs: Fs, owner: Owner, view: View) {
    && (forall h :: h in view <==> h in fs.inodes)
    && (forall h {:trigger ShowsFile(fs.blocks, fs.disk, owner, h, fs.inodes[h], view[h])} ::
          h in view ==> ShowsFile(fs.blocks, fs.disk, owner, h, fs.inodes[h], view[h]))
  }

  /** Every field fits its width in the on-disk inode. */
  ghost predicate InodeFits(ci: CacheInode) {
    && |ci.inode.direct| == L0 && ci.nblks <= LN
    && ci.inode.size <= BLKSIZE * ci.nblks && ci.inode.nlinks < 0x1_0000
    && TYPE_FILE <= ci.inode.kind <= TYPE_LINK
    && ci.inode.indirect < W32 && ci.inode.dbIndirect < W32
    && forall i :: 0 <= i < L0 ==> ci.inode.direct[i] < W32
  }

  ghost predicate InodesFit(inodes: map<nat, CacheInode>) {
    forall h {:trigger InodeFits(inodes[h])} :: h in inodes ==> InodeFits(inodes[h])
  }

  function CountOf(inodes: map<nat, CacheInode>, g: nat): nat {
    if g in inodes then inodes[g].inode.nlinks else 0
  }

  ghost predicate SameCounts(a: map<nat, CacheInode>, b: map<nat, CacheInode>) {
    forall g {:trigger CountOf(b, g)} :: CountOf(b, g) == CountOf(a, g)
  }

  ghost predicate WordsFit(blocks: Blocks) {
    forall b :: b in blocks ==> |blocks[b]| == NENTRY && forall i :: 0 <= i < NENTRY ==> blocks[b][i] < W32
  }

  /** Every cached index block is in the bucket of number 0, and chains hold only cached blocks. */
  ghost predicate BlockChainsOk(blocks: Blocks, chains: seq<seq<nat>>) {
    && |chains| == HASH_LIST_SIZE
    && (forall b :: b in blocks ==> b in chains[Hash32(0)])
    && (forall k, b {:trigger b in chains[k]} ::
          0 <= k < HASH_LIST_SIZE && b in chains[k] ==> b in blocks && k == Hash32(0))
  }

  ghost predicate InodeChainsOk(inodes: map<nat, CacheInode>, chains: seq<seq<nat>>) {
    && |chains| == HASH_LIST_SIZE
    && (forall h {:trigger Hash32(inodes[h].realIno)} :: h in inodes ==> h in chains[Hash32(inodes[h].realIno)])
    && (forall k, h {:trigger h in chains[k]} :: 0 <= k < HASH_LIST_SIZE && h in chains[k] ==> h in inodes)
  }

  ghost predicate Inv(fs: Fs, owner: Owner, view: View) {
    match fs
    case Fs(ninos, nextIno, _, inodes, blocks, inodeChains, blockChains, disk, nameBuffer) =>
      && SpaceOk(fs) && |nameBuffer| == MAX_FNAME_LEN + 1 && OwnerOk(ninos, nextIno, owner)
      && InodeKeys(inodes, owner) && IndexKeys(blocks, owner) && DataKeys(disk, owner) && FullBlocks(disk)
      && FilesOk(fs, owner) && Shows(fs, owner, view)
      && InodesFit(inodes) && WordsFit(blocks)
      && BlockChainsOk(blocks, blockChains) && InodeChainsOk(inodes, inodeChains)
  }

  // ---------- index blocks ----------

  /** A new index block goes to the front of bucket Hash32(0). */
  lemma PushKeeps(blocks: Blocks, chains: seq<seq<nat>>, ino: nat)
    requires BlockChainsOk(blocks, chains) && WordsFit(blocks)
    ensures BlockChainsOk(Zeroed(blocks, ino), Push(chains, Hash32(0), ino)) && WordsFit(Zeroed(blocks, ino))
  {
    var z := Hash32(0);
    var chains' := Push(chains, z, ino);
    assert chains'[z] == [ino] + chains[z];
    forall k, b | 0 <= k < HASH_LIST_SIZE && b in chains'[k] ensures b in Zeroed(blocks, ino) && k == z {
      assert b == ino || b in chains[k];
    }
  }

  lemma SetKeepsBlockChains(blocks: Blocks, chains: seq<seq<nat>>, b: nat, i: nat, v: nat)
    requires BlockChainsOk(blocks, chains)
    ensures BlockChainsOk(Set(blocks, b, i, v), chains)
  {
    assert forall x :: x in Set(blocks, b, i, v) <==> x in blocks;
  }

  lemma SetKeepsWords(blocks: Blocks, b: nat, i: nat, v: nat)
    requires WordsFit(blocks) && v < W32
    ensures WordsFit(Set(blocks, b, i, v))
  {
  }

  /** Two words set one after the other. */
  lemma SetTwoKeeps(blocks: Blocks, chains: seq<seq<nat>>, b: nat, i: nat, v: nat, c: nat, j: nat, w: nat)
    requires WordsFit(blocks) && BlockChainsOk(blocks, chains) && v < W32 && w < W32
    ensures WordsFit(Set(Set(blocks, b, i, v), c, j, w)) && BlockChainsOk(Set(Set(blocks, b, i, v), c, j, w), chains)
  {
    SetKeepsBlockChains(blocks, chains, b, i, v);
    SetKeepsBlockChains(Set(blocks, b, i, v), chains, c, j, w);
    SetKeepsWords(blocks, b, i, v);
    SetKeepsWords(Set(blocks, b, i, v), c, j, w);
  }

  /** A cached index block is found again exactly when its number hashes like 0: the chains alone would not do. */
  lemma SearchFindsOnlyBucketZero(fs: Fs, owner: Owner, view: View, b: nat)
    requires Inv(fs, owner, view) && b in fs.blocks && Chained(fs)
    ensures SearchCacheBlock(fs, b) == Some(b) <==> Hash32(b) == Hash32(0)
    ensures SearchCacheBlock(fs, b) == None <==> Hash32(b) != Hash32(0)
  {
  }

  // ---------- append_block ----------

  /** No block number from nextIno on is in use. */
  ghost predicate FreshAbove(fs: Fs, owner: Owner) {
    0 < fs.nextIno && forall b :: b >= fs.nextIno ==> b !in owner && b !in fs.blocks
  }

  /** The new block numbers between nextIno and nextIno' are index blocks of h. */
  ghost predicate NewKeys(lo: nat, hi: nat, owner: Owner, owner': Owner, blocks: Blocks, blocks': Blocks) {
    && (forall b :: b in owner' <==> b in owner || lo <= b < hi)
    && (forall b :: b in blocks' <==> b in blocks || lo <= b < hi)
    && (forall b :: lo <= b < hi ==> b in owner' && owner'[b].Index?)
  }

  ghost predicate SameInode(ci: CacheInode, ci': CacheInode, size: nat) {
    && ci'.realIno == ci.realIno && ci'.inode.kind == ci.inode.kind && ci'.inode.nlinks == ci.inode.nlinks
    && ci'.inode.size == ci.inode.size + size
  }

  /** fs after an append to h that took k new blocks. */
  function Stepped(fs: Fs, k: nat, blocks': Blocks, chains': seq<seq<nat>>, h: nat, ci': CacheInode): Fs {
    fs.(nextIno := fs.nextIno + k, unused := fs.unused - k, blocks := blocks', blockChains := chains',
        inodes := fs.inodes[h := ci'])
  }

  /** Appending block ino to file h took fs and owner to fs' and owner'. */
  ghost predicate Appends(fs: Fs, owner: Owner, fs': Fs, owner': Owner, h: nat, size: nat, ino: nat) {
    && h in fs.inodes && h in fs'.inodes && fs.nextIno <= fs'.nextIno <= fs.ninos
    && fs' == Stepped(fs, fs'.nextIno - fs.nextIno, fs'.blocks, fs'.blockChains, h, fs'.inodes[h])
    && IndexStep(fs.blocks, owner, fs.inodes[h], fs'.blocks, owner', fs'.inodes[h], h, ino)
    && SameInode(fs.inodes[h], fs'.inodes[h], size) && InodeFits(fs'.inodes[h])
    && NewKeys(fs.nextIno, fs'.nextIno, owner, owner', fs.blocks, fs'.blocks)
    && WordsFit(fs'.blocks) && BlockChainsOk(fs'.blocks, fs'.blockChains)
  }

  ghost predicate CanAppend(fs: Fs, owner: Owner, h: nat, size: nat, ino: nat) {
    && Chained(fs) && h in fs.inodes && FreshAbove(fs, owner) && fs.nextIno <= fs.ninos <= MAX_NBLKS && ino < W32
    && size <= BLKSIZE
    && FileOk(fs.blocks, owner, h, fs.inodes[h]) && InodeFits(fs.inodes[h])
    && WordsFit(fs.blocks) && BlockChainsOk(fs.blocks, fs.blockChains)
  }

  lemma Assemble(fs: Fs, owner: Owner, k: nat, blocks': Blocks, chains': seq<seq<nat>>, ci': CacheInode, owner': Owner,
                 h: nat, size: nat, ino: nat)
    requires CanAppend(fs, owner, h, size, ino) && fs.nextIno + k <= fs.ninos
    requires IndexStep(fs.blocks, owner, fs.inodes[h], blocks', owner', ci', h, ino)
    requires SameInode(fs.inodes[h], ci', size) && InodeFits(ci')
    requires NewKeys(fs.nextIno, fs.nextIno + k, owner, owner', fs.blocks, blocks')
    requires WordsFit(blocks') && BlockChainsOk(blocks', chains')
    ensures Appends(fs, owner, Stepped(fs, k, blocks', chains', h, ci'), owner', h, size, ino)
  {
  }

  lemma SetKeys(blocks: Blocks, b: nat, i: nat, v: nat)
    ensures forall x :: x in Set(blocks, b, i, v) <==> x in blocks
  {
  }

  lemma SameDoubleKeys(lo: nat, owner: Owner, blocks: Blocks, db: nat, i: nat, b1: nat, j: nat, ino: nat)
    ensures NewKeys(lo, lo, owner, owner, blocks, Set(Set(blocks, db, i, b1), b1, j, ino))
  {
    SetKeys(blocks, db, i, b1);
    SetKeys(Set(blocks, db, i, b1), b1, j, ino);
  }

  lemma NextDoubleKeys(lo: nat, owner: Owner, h: nat, slot: int, blocks: Blocks, db: nat, i: nat, j: nat, ino: nat)
    ensures NewKeys(lo, lo + 1, owner, Given(owner, lo, Index(h, slot)), blocks,
                    Set(Set(Zeroed(blocks, lo), db, i, lo), lo, j, ino))
  {
    SetKeys(Zeroed(blocks, lo), db, i, lo);
    SetKeys(Set(Zeroed(blocks, lo), db, i, lo), lo, j, ino);
  }

  lemma NewDoubleKeys(lo: nat, owner: Owner, h: nat, blocks: Blocks, ino: nat)
    ensures NewKeys(lo, lo + 2, owner, Given(Given(owner, lo, Index(h, -2)), lo + 1, Index(h, 0)), blocks,
                    Set(Set(Zeroed(Zeroed(blocks, lo), lo + 1), lo, 0, lo + 1), lo + 1, 0, ino))
  {
    SetKeys(Zeroed(Zeroed(blocks, lo), lo + 1), lo, 0, lo + 1);
    SetKeys(Set(Zeroed(Zeroed(blocks, lo), lo + 1), lo, 0, lo + 1), lo + 1, 0, ino);
  }

  lemma DoubleFits(ci: CacheInode, db: nat, b1: nat, size: nat)
    requires InodeFits(ci) && ci.nblks < LN && db < W32 && size <= BLKSIZE
    ensures SameInode(ci, DoubleAppended(ci, db, b1, size), size) && InodeFits(DoubleAppended(ci, db, b1, size))
  {
  }

  lemma NextDoubleBook(blocks: Blocks, chains: seq<seq<nat>>, db: nat, i: nat, b1: nat, j: nat, ino: nat)
    requires BlockChainsOk(blocks, chains) && WordsFit(blocks) && b1 < W32 && ino < W32
    ensures WordsFit(Set(Set(Zeroed(blocks, b1), db, i, b1), b1, j, ino))
    ensures BlockChainsOk(Set(Set(Zeroed(blocks, b1), db, i, b1), b1, j, ino), Push(chains, Hash32(0), b1))
  {
    PushKeeps(blocks, chains, b1);
    SetTwoKeeps(Zeroed(blocks, b1), Push(chains, Hash32(0), b1), db, i, b1, b1, j, ino);
  }

  lemma NewDoubleBook(blocks: Blocks, chains: seq<seq<nat>>, db: nat, b1: nat, ino: nat)
    requires BlockChainsOk(blocks, chains) && WordsFit(blocks) && b1 < W32 && ino < W32
    ensures WordsFit(Set(Set(Zeroed(Zeroed(blocks, db), b1), db, 0, b1), b1, 0, ino))
    ensures BlockChainsOk(Set(Set(Zeroed(Zeroed(blocks, db), b1), db, 0, b1), b1, 0, ino),
                          Push(Push(chains, Hash32(0), db), Hash32(0), b1))
  {
    PushKeeps(blocks, chains, db);
    PushKeeps(Zeroed(blocks, db), Push(chains, Hash32(0), db), b1);
    SetTwoKeeps(Zeroed(Zeroed(blocks, db), b1), Push(Push(chains, Hash32(0), db), Hash32(0), b1), db, 0, b1, b1, 0,
                ino);
  }

  lemma AppendDirectOk(fs: Fs, owner: Owner, h: nat, size: nat, ino: nat)
    requires CanAppend(fs, owner, h, size, ino) && fs.inodes[h].nblks < L0
    ensures AppendBlock(fs, h, size, ino).Ok? && AppendBlock(fs, h, size, ino).value.nextIno == fs.nextIno
    ensures Appends(fs, owner, AppendBlock(fs, h, size, ino).value, owner, h, size, ino)
  {
    var ci := fs.inodes[h];
    DirectStep(fs.blocks, owner, h, ci, size, ino);
    var fs' := AppendBlock(fs, h, size, ino).value;
    assert fs' == Stepped(fs, 0, fs.blocks, fs.blockChains, h, fs'.inodes[h]);
  }

  lemma AppendIndirectOk(fs: Fs, owner: Owner, h: nat, size: nat, ino: nat)
    requires CanAppend(fs, owner, h, size, ino) && L0 < fs.inodes[h].nblks < L1
    ensures AppendBlock(fs, h, size, ino).Ok? && AppendBlock(fs, h, size, ino).value.nextIno == fs.nextIno
    ensures Appends(fs, owner, AppendBlock(fs, h, size, ino).value, owner, h, size, ino)
  {
    var ci := fs.inodes[h];
    var blocks' := Set(fs.blocks, ci.inode.indirect, ci.nblks - L0, ino);
    IndirectStep(fs.blocks, owner, h, ci, size, ino);
    SetKeepsBlockChains(fs.blocks, fs.blockChains, ci.inode.indirect, ci.nblks - L0, ino);
    SetKeepsWords(fs.blocks, ci.inode.indirect, ci.nblks - L0, ino);
    IndirectShape(fs, owner, h, size, ino);
  }

  lemma IndirectShape(fs: Fs, owner: Owner, h: nat, size: nat, ino: nat)
    requires CanAppend(fs, owner, h, size, ino) && L0 < fs.inodes[h].nblks < L1
    ensures AppendBlock(fs, h, size, ino) ==
            Ok(Stepped(fs, 0, Set(fs.blocks, fs.inodes[h].inode.indirect, fs.inodes[h].nblks - L0, ino),
                       fs.blockChains, h, Appended(fs.inodes[h], size)))
  {
  }

  lemma AppendNewIndirectOk(fs: Fs, owner: Owner, h: nat, size: nat, ino: nat)
    requires CanAppend(fs, owner, h, size, ino) && fs.inodes[h].nblks == L0 && fs.nextIno < fs.ninos
    ensures AppendBlock(fs, h, size, ino).Ok? && AppendBlock(fs, h, size, ino).value.nextIno == fs.nextIno + 1
    ensures Appends(fs, owner, AppendBlock(fs, h, size, ino).value, Given(owner, fs.nextIno, Index(h, -1)), h, size,
                    ino)
  {
    var ci, b := fs.inodes[h], fs.nextIno;
    NewIndirectStep(fs.blocks, owner, h, ci, size, ino, b);
    PushKeeps(fs.blocks, fs.blockChains, b);
    SetKeepsBlockChains(Zeroed(fs.blocks, b), Push(fs.blockChains, Hash32(0), b), b, 0, ino);
    SetKeepsWords(Zeroed(fs.blocks, b), b, 0, ino);
    NewIndirectShape(fs, owner, h, size, ino);
  }

  lemma NewIndirectShape(fs: Fs, owner: Owner, h: nat, size: nat, ino: nat)
    requires CanAppend(fs, owner, h, size, ino) && fs.inodes[h].nblks == L0 && fs.nextIno < fs.ninos
    ensures var ci, b := fs.inodes[h], fs.nextIno;
            AppendBlock(fs, h, size, ino) ==
            Ok(Stepped(fs, 1, Set(Zeroed(fs.blocks, b), b, 0, ino), Push(fs.blockChains, Hash32(0), b), h,
                       Appended(ci.(l1 := Some(b), inode := ci.inode.(indirect := b)), size)))
  {
  }

  /** Both index blocks exist. */
  lemma AppendSameDoubleOk(fs: Fs, owner: Owner, h: nat, size: nat, ino: nat)
    requires CanAppend(fs, owner, h, size, ino) && L1 < fs.inodes[h].nblks < LN
             && (fs.inodes[h].nblks - L1) % NENTRY != 0
    ensures AppendBlock(fs, h, size, ino).Ok? && AppendBlock(fs, h, size, ino).value.nextIno == fs.nextIno
    ensures Appends(fs, owner, AppendBlock(fs, h, size, ino).value, owner, h, size, ino)
  {
    var db := fs.inodes[h].inode.dbIndirect;
    SameDoubleShape(fs, h, size, ino, db, Get(fs.blocks, db, (fs.inodes[h].nblks - L1) / NENTRY));
    SameDoubleDone(fs, owner, h, size, ino, AppendBlock(fs, h, size, ino).value);
  }

  lemma SameDoubleDone(fs: Fs, owner: Owner, h: nat, size: nat, ino: nat, r: Fs)
    requires CanAppend(fs, owner, h, size, ino) && L1 < fs.inodes[h].nblks < LN
             && (fs.inodes[h].nblks - L1) % NENTRY != 0
    requires var ci := fs.inodes[h];
             var db, m := ci.inode.dbIndirect, ci.nblks - L1;
             var b1 := Get(fs.blocks, db, m / NENTRY);
             r == Stepped(fs, 0, Set(Set(fs.blocks, db, m / NENTRY, b1), b1, m % NENTRY, ino), fs.blockChains, h,
                          DoubleAppended(ci, db, b1, size))
    ensures Appends(fs, owner, r, owner, h, size, ino)
  {
    var ci := fs.inodes[h];
    var db, m := ci.inode.dbIndirect, ci.nblks - L1;
    SameDoubleStep(fs.blocks, owner, h, ci, size, ino);
    SameDoubleAppends(fs, owner, h, size, ino, db, Get(fs.blocks, db, m / NENTRY), m / NENTRY, m % NENTRY, r);
  }

  lemma SameDoubleAppends(fs: Fs, owner: Owner, h: nat, size: nat, ino: nat, db: nat, b1: nat, i: nat, j: nat, r: Fs)
    requires CanAppend(fs, owner, h, size, ino) && fs.inodes[h].nblks < LN && db < W32 && b1 < W32
    requires IndexStep(fs.blocks, owner, fs.inodes[h], Set(Set(fs.blocks, db, i, b1), b1, j, ino), owner,
                       DoubleAppended(fs.inodes[h], db, b1, size), h, ino)
    requires r == Stepped(fs, 0, Set(Set(fs.blocks, db, i, b1), b1, j, ino), fs.blockChains, h,
                          DoubleAppended(fs.inodes[h], db, b1, size))
    ensures Appends(fs, owner, r, owner, h, size, ino)
  {
    SetTwoKeeps(fs.blocks, fs.blockChains, db, i, b1, b1, j, ino);
    SameDoubleKeys(fs.nextIno, owner, fs.blocks, db, i, b1, j, ino);
    DoubleFits(fs.inodes[h], db, b1, size);
    Assemble(fs, owner, 0, Set(Set(fs.blocks, db, i, b1), b1, j, ino), fs.blockChains,
             DoubleAppended(fs.inodes[h], db, b1, size), owner, h, size, ino);
  }

  lemma SameDoubleShape(fs: Fs, h: nat, size: nat, ino: nat, db: nat, b1: nat)
    requires Chained(fs) && h in fs.inodes && L1 < fs.inodes[h].nblks < LN && size <= BLKSIZE
    requires var ci := fs.inodes[h];
             && ci.l2 == Some(db) && db == ci.inode.dbIndirect != 0
             && b1 == Get(fs.blocks, db, (ci.nblks - L1) / NENTRY) != 0 && ci.l1 == Some(b1)
    ensures var ci := fs.inodes[h];
            var m := ci.nblks - L1;
            AppendBlock(fs, h, size, ino) ==
            Ok(Stepped(fs, 0, Set(Set(fs.blocks, db, m / NENTRY, b1), b1, m % NENTRY, ino), fs.blockChains, h,
                       DoubleAppended(ci, db, b1, size)))
  {
  }

  /** The block below the double-indirect one is full. */
  lemma AppendNextDoubleOk(fs: Fs, owner: Owner, h: nat, size: nat, ino: nat)
    requires CanAppend(fs, owner, h, size, ino) && L1 < fs.inodes[h].nblks < LN
             && (fs.inodes[h].nblks - L1) % NENTRY == 0
    requires fs.nextIno < fs.ninos
    ensures AppendBlock(fs, h, size, ino).Ok? && AppendBlock(fs, h, size, ino).value.nextIno == fs.nextIno + 1
    ensures Appends(fs, owner, AppendBlock(fs, h, size, ino).value,
                    Given(owner, fs.nextIno, Index(h, (fs.inodes[h].nblks - L1) / NENTRY)), h, size, ino)
  {
    NextDoubleShape(fs, h, size, ino, fs.inodes[h].inode.dbIndirect);
    NextDoubleDone(fs, owner, h, size, ino, AppendBlock(fs, h, size, ino).value);
  }

  lemma NextDoubleDone(fs: Fs, owner: Owner, h: nat, size: nat, ino: nat, r: Fs)
    requires CanAppend(fs, owner, h, size, ino) && L1 < fs.inodes[h].nblks < LN
             && (fs.inodes[h].nblks - L1) % NENTRY == 0
    requires fs.nextIno < fs.ninos
    requires var ci, b1 := fs.inodes[h], fs.nextIno;
             var db, m := ci.inode.dbIndirect, ci.nblks - L1;
             r == Stepped(fs, 1, Set(Set(Zeroed(fs.blocks, b1), db, m / NENTRY, b1), b1, m % NENTRY, ino),
                          Push(fs.blockChains, Hash32(0), b1), h, DoubleAppended(ci, db, b1, size))
    ensures Appends(fs, owner, r, Given(owner, fs.nextIno, Index(h, (fs.inodes[h].nblks - L1) / NENTRY)), h, size, ino)
  {
    var ci := fs.inodes[h];
    var db, m := ci.inode.dbIndirect, ci.nblks - L1;
    NextDoubleStep(fs.blocks, owner, h, ci, size, ino, fs.nextIno);
    NextDoubleAppends(fs, owner, h, size, ino, db, m / NENTRY, m % NENTRY, r);
  }

  lemma NextDoubleAppends(fs: Fs, owner: Owner, h: nat, size: nat, ino: nat, db: nat, i: nat, j: nat, r: Fs)
    requires CanAppend(fs, owner, h, size, ino) && fs.nextIno < fs.ninos && fs.inodes[h].nblks < LN && db < W32
    requires var b1 := fs.nextIno;
             IndexStep(fs.blocks, owner, fs.inodes[h], Set(Set(Zeroed(fs.blocks, b1), db, i, b1), b1, j, ino),
                       Given(owner, b1, Index(h, i)), DoubleAppended(fs.inodes[h], db, b1, size), h, ino)
    requires var b1 := fs.nextIno;
             r == Stepped(fs, 1, Set(Set(Zeroed(fs.blocks, b1), db, i, b1), b1, j, ino),
                          Push(fs.blockChains, Hash32(0), b1), h, DoubleAppended(fs.inodes[h], db, b1, size))
    ensures Appends(fs, owner, r, Given(owner, fs.nextIno, Index(h, i)), h, size, ino)
  {
    var ci, b1 := fs.inodes[h], fs.nextIno;
    NextDoubleBook(fs.blocks, fs.blockChains, db, i, b1, j, ino);
    NextDoubleKeys(b1, owner, h, i, fs.blocks, db, i, j, ino);
    DoubleFits(ci, db, b1, size);
    Assemble(fs, owner, 1, Set(Set(Zeroed(fs.blocks, b1), db, i, b1), b1, j, ino), Push(fs.blockChains, Hash32(0), b1),
             DoubleAppended(ci, db, b1, size), Given(owner, b1, Index(h, i)), h, size, ino);
  }

  lemma NextDoubleShape(fs: Fs, h: nat, size: nat, ino: nat, db: nat)
    requires Chained(fs) && h in fs.inodes && L1 < fs.inodes[h].nblks < LN && size <= BLKSIZE && fs.nextIno < fs.ninos
    requires var ci := fs.inodes[h];
             && ci.l2 == Some(db) && db == ci.inode.dbIndirect != 0 && 0 == Get(fs.blocks, db, (ci.nblks - L1) / NENTRY)
    ensures var ci, b1 := fs.inodes[h], fs.nextIno;
            var m := ci.nblks - L1;
            AppendBlock(fs, h, size, ino) ==
            Ok(Stepped(fs, 1, Set(Set(Zeroed(fs.blocks, b1), db, m / NENTRY, b1), b1, m % NENTRY, ino),
                       Push(fs.blockChains, Hash32(0), b1), h, DoubleAppended(ci, db, b1, size)))
  {
  }

  /** The first block behind the indirect ones. */
  lemma AppendNewDoubleOk(fs: Fs, owner: Owner, h: nat, size: nat, ino: nat)
    requires CanAppend(fs, owner, h, size, ino) && fs.inodes[h].nblks == L1 && fs.nextIno + 1 < fs.ninos
    ensures AppendBlock(fs, h, size, ino).Ok? && AppendBlock(fs, h, size, ino).value.nextIno == fs.nextIno + 2
    ensures Appends(fs, owner, AppendBlock(fs, h, size, ino).value,
                    Given(Given(owner, fs.nextIno, Index(h, -2)), fs.nextIno + 1, Index(h, 0)), h, size, ino)
  {
    var db, b1 := fs.nextIno, fs.nextIno + 1;
    NewDoubleStep(fs.blocks, owner, h, fs.inodes[h], size, ino, db, b1);
    NewDoubleBook(fs.blocks, fs.blockChains, db, b1, ino);
    NewDoubleKeys(db, owner, h, fs.blocks, ino);
    DoubleFits(fs.inodes[h], db, b1, size);
    NewDoubleShape(fs, h, size, ino);
    Assemble(fs, owner, 2, Set(Set(Zeroed(Zeroed(fs.blocks, db), b1), db, 0, b1), b1, 0, ino),
             Push(Push(fs.blockChains, Hash32(0), db), Hash32(0), b1), DoubleAppended(fs.inodes[h], db, b1, size),
             Given(Given(owner, db, Index(h, -2)), b1, Index(h, 0)), h, size, ino);
  }

  lemma NewDoubleShape(fs: Fs, h: nat, size: nat, ino: nat)
    requires Chained(fs) && h in fs.inodes && fs.inodes[h].nblks == L1 && size <= BLKSIZE
             && fs.inodes[h].inode.dbIndirect == 0
    ensures var ci, db, b1 := fs.inodes[h], fs.nextIno, fs.nextIno + 1;
            AppendBlock(fs, h, size, ino) ==
            if b1 < fs.ninos then
              Ok(Stepped(fs, 2, Set(Set(Zeroed(Zeroed(fs.blocks, db), b1), db, 0, b1), b1, 0, ino),
                         Push(Push(fs.blockChains, Hash32(0), db), Hash32(0), b1), h, DoubleAppended(ci, db, b1, size)))
            else Bug(OutOfSpace)
  {
  }

  /** How many index blocks the next append of a file needs. */
  function IndexNeed(n: nat): nat {
    if n < L0 then 0
    else if n < L1 then (if n == L0 then 1 else 0)
    else if n == L1 then 2
    else if (n - L1) % NENTRY == 0 then 1
    else 0
  }

  /** Append-only files: a slot that is not zero always holds the number of the cached block, so update_cache never
      takes its search arm. (A search would miss most blocks.) */
  lemma SearchArmUnreachable(fs: Fs, owner: Owner, h: nat, size: nat, ino: nat)
    requires CanAppend(fs, owner, h, size, ino)
    ensures AppendNeverSearches(fs, h)
  {
    var ci := fs.inodes[h];
    if L1 < ci.nblks < LN && (ci.nblks - L1) % NENTRY != 0 {
      SameDoubleStep(fs.blocks, owner, h, ci, size, ino);
    } else if L1 < ci.nblks < LN {
      NextDoubleStep(fs.blocks, owner, h, ci, size, ino, fs.nextIno);
    }
  }

  /** Every append: it fails exactly when the file is at its limit or the index blocks do not fit, so the search arm of
      update_cache is never taken; otherwise the lookup gains the new block at its end. */
  lemma AppendIndex(fs: Fs, owner: Owner, h: nat, size: nat, ino: nat) returns (owner': Owner)
    requires CanAppend(fs, owner, h, size, ino)
    ensures AppendNeverSearches(fs, h)
    ensures AppendBlock(fs, h, size, ino) == Bug(FileTooBig) <==> fs.inodes[h].nblks == LN
    ensures AppendBlock(fs, h, size, ino) == Bug(OutOfSpace) <==>
            fs.inodes[h].nblks < LN && fs.nextIno + IndexNeed(fs.inodes[h].nblks) > fs.ninos
    ensures AppendBlock(fs, h, size, ino).Bug? ==> AppendBlock(fs, h, size, ino).reason in {FileTooBig, OutOfSpace}
    ensures AppendBlock(fs, h, size, ino).Ok?
            ==> AppendBlock(fs, h, size, ino).value.nextIno == fs.nextIno + IndexNeed(fs.inodes[h].nblks)
    ensures AppendBlock(fs, h, size, ino).Ok?
            ==> Appends(fs, owner, AppendBlock(fs, h, size, ino).value, owner', h, size, ino)
  {
    owner' := owner;
    var n := fs.inodes[h].nblks;
    SearchArmUnreachable(fs, owner, h, size, ino);
    if n < L0 {
      AppendDirectOk(fs, owner, h, size, ino);
    } else if L0 < n < L1 {
      AppendIndirectOk(fs, owner, h, size, ino);
    } else if L1 < n < LN && (n - L1) % NENTRY != 0 {
      AppendSameDoubleOk(fs, owner, h, size, ino);
    } else if n < LN {
      owner' := AppendGrowing(fs, owner, h, size, ino);
    }
  }

  /** What an append that needs k new index blocks does. */
  ghost predicate Grown(fs: Fs, owner: Owner, r: Res<Fs>, owner': Owner, h: nat, size: nat, ino: nat, k: nat) {
    match r
    case Ok(fs') => fs'.nextIno == fs.nextIno + k <= fs.ninos && Appends(fs, owner, fs', owner', h, size, ino)
    case Bug(reason) => reason == OutOfSpace && fs.nextIno + k > fs.ninos
  }

  lemma GrowIndirect(fs: Fs, owner: Owner, h: nat, size: nat, ino: nat) returns (owner': Owner)
    requires CanAppend(fs, owner, h, size, ino) && fs.inodes[h].nblks == L0
    ensures Grown(fs, owner, AppendBlock(fs, h, size, ino), owner', h, size, ino, 1)
  {
    owner' := owner;
    if fs.nextIno < fs.ninos {
      owner' := Given(owner, fs.nextIno, Index(h, -1));
      AppendNewIndirectOk(fs, owner, h, size, ino);
    }
  }

  lemma GrowDouble(fs: Fs, owner: Owner, h: nat, size: nat, ino: nat) returns (owner': Owner)
    requires CanAppend(fs, owner, h, size, ino) && fs.inodes[h].nblks == L1
    ensures Grown(fs, owner, AppendBlock(fs, h, size, ino), owner', h, size, ino, 2)
  {
    owner' := owner;
    if fs.nextIno + 1 < fs.ninos {
      owner' := Given(Given(owner, fs.nextIno, Index(h, -2)), fs.nextIno + 1, Index(h, 0));
      AppendNewDoubleOk(fs, owner, h, size, ino);
    } else {
      NewDoubleShape(fs, h, size, ino);
    }
  }

  lemma GrowBelowDouble(fs: Fs, owner: Owner, h: nat, size: nat, ino: nat) returns (owner': Owner)
    requires CanAppend(fs, owner, h, size, ino) && L1 < fs.inodes[h].nblks < LN
             && (fs.inodes[h].nblks - L1) % NENTRY == 0
    ensures Grown(fs, owner, AppendBlock(fs, h, size, ino), owner', h, size, ino, 1)
  {
    owner' := owner;
    if fs.nextIno < fs.ninos {
      owner' := Given(owner, fs.nextIno, Index(h, (fs.inodes[h].nblks - L1) / NENTRY));
      AppendNextDoubleOk(fs, owner, h, size, ino);
    } else {
      NextDoubleStep(fs.blocks, owner, h, fs.inodes[h], size, ino, fs.nextIno);
    }
  }

  /** The appends that need new index blocks. */
  lemma AppendGrowing(fs: Fs, owner: Owner, h: nat, size: nat, ino: nat) returns (owner': Owner)
    requires CanAppend(fs, owner, h, size, ino) && fs.inodes[h].nblks < LN && IndexNeed(fs.inodes[h].nblks) > 0
    ensures Grown(fs, owner, AppendBlock(fs, h, size, ino), owner', h, size, ino, IndexNeed(fs.inodes[h].nblks))
  {
    var n := fs.inodes[h].nblks;
    if n == L0 {
      owner' := GrowIndirect(fs, owner, h, size, ino);
    } else if n == L1 {
      owner' := GrowDouble(fs, owner, h, size, ino);
    } else {
      owner' := GrowBelowDouble(fs, owner, h, size, ino);
    }
  }
}

/** The state of lab8/tools/mksfs.c and its operations on values: the block allocator, the two
    hash-chained caches, the block index of a file, directory entries and the directory walk.
    A pointer to a cached inode or a cached index block is the block number that it was given. */
module SfsCore {
  import opened Common

  /** Why the program stops. */
  datatype Reason = OutOfSpace | FileTooBig | NameTooLong | LinkTooLong | ImageTooSmall | AssertionFailed

  datatype Res<+T> = Ok(value: T) | Bug(reason: Reason) {
    predicate IsFailure() { Bug? }
    function PropagateFailure<U>(): Res<U> requires Bug? { Bug(reason) }
    function Extract(): T requires Ok? { value }
  }

  /** How a call that returns nothing ends. */
  datatype Outcome = Pass | Fail(reason: Reason) {
    predicate IsFailure() { Fail? }
    function PropagateFailure(): Outcome requires Fail? { this }
  }

  // ---------- constants ----------

  const W32: nat := 0x1_0000_0000
  const BLKSIZE: nat := 4096
  const BLKBITS: nat := 32768
  const MAX_NBLKS: nat := 524288
  const HASH_LIST_SIZE: nat := 1024
  const MAX_FNAME_LEN: nat := 255
  const NENTRY: nat := 1024
  const L0: nat := 12
  const L1: nat := 1036
  const LN: nat := 32768
  const TYPE_FILE: nat := 1
  const TYPE_DIR: nat := 2
  const TYPE_LINK: nat := 3
  const ROOT: nat := 1
  const FREEMAP: nat := 2

  // ---------- entities ----------

  datatype Inode = Inode(size: nat, kind: nat, nlinks: nat, blocks: nat, direct: seq<nat>, indirect: nat,
                         dbIndirect: nat)

  datatype CacheInode = CacheInode(inode: Inode, realIno: nat, nblks: nat, l1: Option<nat>, l2: Option<nat>)

  datatype Fs = Fs(
    ninos: nat, nextIno: nat, unused: int,
    inodes: map<nat, CacheInode>,       // cached inodes, by their number
    blocks: map<nat, seq<nat>>,         // cached index blocks, by their number
    inodeChains: seq<seq<nat>>, blockChains: seq<seq<nat>>,
    disk: map<nat, seq<byte>>,          // blocks written so far
    nameBuffer: seq<byte>)              // the name field of the static entry in add_entry

  // ---------- allocation ----------

  function AllocIno(fs: Fs): Res<(Fs, nat)> {
    if fs.nextIno < fs.ninos then
      Ok((fs.(unused := fs.unused - 1, nextIno := fs.nextIno + 1), fs.nextIno))
    else Bug(OutOfSpace)
  }

  function Hash32(v: nat): (h: nat)
    ensures h < HASH_LIST_SIZE
  {
    (v % 0x1_0000_0000 * 0x9e37_0001 % 0x1_0000_0000) / 0x40_0000
  }

  function Push(chains: seq<seq<nat>>, bucket: nat, ino: nat): (r: seq<seq<nat>>)
    requires bucket < |chains|
    ensures |r| == |chains|
  {
    chains[bucket := [ino] + chains[bucket]]
  }

  function ZeroWords(): (w: seq<nat>)
    ensures |w| == NENTRY && forall i :: 0 <= i < NENTRY ==> w[i] == 0
  {
    seq(NENTRY, _ => 0)
  }

  function Zeroed(blocks: map<nat, seq<nat>>, b: nat): map<nat, seq<nat>> {
    blocks[b := ZeroWords()]
  }

  predicate Chained(fs: Fs) {
    |fs.inodeChains| == HASH_LIST_SIZE && |fs.blockChains| == HASH_LIST_SIZE
  }

  /** alloc_cache_block: argument 0 asks for a fresh number, and the bucket is that of the argument, not of the
      number. */
  function AllocCacheBlock(fs: Fs, arg: nat): Res<(Fs, nat)>
    requires Chained(fs)
  {
    var (fs1, ino) :- if arg != 0 then Ok((fs, arg)) else AllocIno(fs);
    Ok((fs1.(blocks := Zeroed(fs1.blocks, ino), blockChains := Push(fs1.blockChains, Hash32(arg), ino)), ino))
  }

  function FirstMatch(chain: seq<nat>, ino: nat): Option<nat> {
    if ino in chain then Some(ino) else None
  }

  function SearchCacheBlock(fs: Fs, ino: nat): Option<nat>
    requires Chained(fs)
  {
    FirstMatch(fs.blockChains[Hash32(ino)], ino)
  }

  function NewInode(kind: nat): Inode {
    Inode(0, kind, 0, 0, seq(L0, _ => 0), 0, 0)
  }

  // ---------- the block index ----------

  /** Word i of a cached index block. */
  function Get(blocks: map<nat, seq<nat>>, b: nat, i: nat): nat {
    if b in blocks && i < |blocks[b]| then blocks[b][i] else 0
  }

  function SetWord(w: seq<nat>, i: nat, v: nat): seq<nat>
    requires i < |w|
  {
    w[i := v]
  }

  function Set(blocks: map<nat, seq<nat>>, b: nat, i: nat, v: nat): map<nat, seq<nat>> {
    if b in blocks && i < |blocks[b]| then blocks[b := SetWord(blocks[b], i, v)] else blocks
  }

  /** update_cache: the pointer `cb` and the slot `ino` afterwards both name the result. */
  function UpdateCache(fs: Fs, cb: Option<nat>, ino: nat): Res<(Fs, nat)>
    requires Chained(fs)
  {
    if ino == 0 then AllocCacheBlock(fs, 0)
    else if cb == Some(ino) then Ok((fs, ino))
    else if SearchCacheBlock(fs, ino) == Some(ino) then Ok((fs, ino))
    else Bug(AssertionFailed)
  }

  /** With this pointer and this slot, update_cache does not search. */
  predicate NoSearch(cb: Option<nat>, ino: nat) {
    ino == 0 || cb == Some(ino)
  }

  /** Neither of the two calls behind the indirect block does: the second one starts from what the first one leaves. */
  predicate NeitherSearches(fs: Fs, l2: Option<nat>, db: nat, l1: Option<nat>, k: nat)
    requires Chained(fs)
  {
    && NoSearch(l2, db)
    && (UpdateCache(fs, l2, db).Ok? ==>
          var (fs1, b2) := UpdateCache(fs, l2, db).value;
          NoSearch(l1, Get(fs1.blocks, b2, k)))
  }

  /** None of the calls of update_cache in the next append to h searches. */
  predicate AppendNeverSearches(fs: Fs, h: nat)
    requires h in fs.inodes && Chained(fs)
  {
    var ci := fs.inodes[h];
    if L0 <= ci.nblks < L1 then NoSearch(ci.l1, ci.inode.indirect)
    else if L1 <= ci.nblks < LN then NeitherSearches(fs, ci.l2, ci.inode.dbIndirect, ci.l1, (ci.nblks - L1) / NENTRY)
    else true
  }

  function Appended(ci: CacheInode, size: nat): CacheInode {
    ci.(nblks := ci.nblks + 1, inode := ci.inode.(size := ci.inode.size + size, blocks := ci.inode.blocks + 1))
  }

  function AppendDirect(fs: Fs, h: nat, size: nat, ino: nat): Res<Fs>
    requires h in fs.inodes
  {
    var ci := fs.inodes[h];
    if ci.nblks >= |ci.inode.direct| then Bug(AssertionFailed)
    else
      var ci1 := ci.(inode := ci.inode.(direct := ci.inode.direct[ci.nblks := ino]));
      Ok(fs.(inodes := fs.inodes[h := Appended(ci1, size)]))
  }

  function AppendIndirect(fs: Fs, h: nat, size: nat, ino: nat): Res<Fs>
    requires h in fs.inodes && Chained(fs) && fs.inodes[h].nblks >= L0
  {
    var ci := fs.inodes[h];
    var (fs1, b) :- UpdateCache(fs, ci.l1, ci.inode.indirect);
    var ci1 := ci.(l1 := Some(b), inode := ci.inode.(indirect := b));
    Ok(fs1.(blocks := Set(fs1.blocks, b, ci.nblks - L0, ino), inodes := fs1.inodes[h := Appended(ci1, size)]))
  }

  /** The double-indirect block, then the block in its slot k. */
  function UpdateBoth(fs: Fs, l2: Option<nat>, db: nat, l1: Option<nat>, k: nat): Res<(Fs, nat, nat)>
    requires Chained(fs)
  {
    var (fs1, b2) :- UpdateCache(fs, l2, db);
    var (fs2, b1) :- UpdateCache(fs1, l1, Get(fs1.blocks, b2, k));
    Ok((fs2, b2, b1))
  }

  function AppendDouble(fs: Fs, h: nat, size: nat, ino: nat): Res<Fs>
    requires h in fs.inodes && Chained(fs) && fs.inodes[h].nblks >= L1
  {
    var ci := fs.inodes[h];
    var m := ci.nblks - L1;
    var (fs2, b2, b1) :- UpdateBoth(fs, ci.l2, ci.inode.dbIndirect, ci.l1, m / NENTRY);
    var ci1 := ci.(l1 := Some(b1), l2 := Some(b2), inode := ci.inode.(dbIndirect := b2));
    Ok(fs2.(blocks := Set(Set(fs2.blocks, b2, m / NENTRY, b1), b1, m % NENTRY, ino),
            inodes := fs2.inodes[h := Appended(ci1, size)]))
  }

  function AppendBlock(fs: Fs, h: nat, size: nat, ino: nat): Res<Fs>
    requires h in fs.inodes && Chained(fs)
  {
    var n := fs.inodes[h].nblks;
    if size > BLKSIZE then Bug(AssertionFailed)
    else if n >= LN then Bug(FileTooBig)
    else if n < L0 then AppendDirect(fs, h, size, ino)
    else if n < L1 then AppendIndirect(fs, h, size, ino)
    else AppendDouble(fs, h, size, ino)
  }

  /** Looking up block i of a file through its index. */
  function BlockAt(blocks: map<nat, seq<nat>>, ci: CacheInode, i: nat): nat {
    if i < L0 then (if i < |ci.inode.direct| then ci.inode.direct[i] else 0)
    else if i < L1 then Get(blocks, ci.inode.indirect, i - L0)
    else Get(blocks, Get(blocks, ci.inode.dbIndirect, (i - L1) / NENTRY), (i - L1) % NENTRY)
  }

  // ---------- what every step keeps ----------

  /** The one purpose of an allocated block number: an inode, an index block of a file (slot -2 is the
      double-indirect block, -1 the indirect block, k the k-th block below the double-indirect
      block), or block i of a file. */
  datatype Purpose = AnInode | Index(file: nat, slot: int) | Data(file: nat, i: nat)

  type Owner = map<nat, Purpose>

  function Given(owner: Owner, b: nat, p: Purpose): Owner {
    owner[b := p]
  }

  /** Block b is the index block of file h in the given slot, with room for all its words. */
  ghost predicate IndexBlock(blocks: map<nat, seq<nat>>, owner: Owner, h: nat, slot: int, b: nat) {
    b != 0 && b in blocks && |blocks[b]| == NENTRY && b in owner && owner[b] == Index(h, slot)
  }

  /** The cached l1 and l2 blocks are the ones that the last append used; slots behind are zero. */
  ghost predicate IndirectOk(blocks: map<nat, seq<nat>>, owner: Owner, h: nat, ci: CacheInode) {
    if ci.nblks <= L0 then ci.inode.indirect == 0 && ci.l1 == None
    else
      && IndexBlock(blocks, owner, h, -1, ci.inode.indirect)
      && (ci.nblks <= L1 ==> ci.l1 == Some(ci.inode.indirect))
  }

  ghost predicate DoubleOk(blocks: map<nat, seq<nat>>, owner: Owner, h: nat, ci: CacheInode) {
    if ci.nblks <= L1 then ci.inode.dbIndirect == 0 && ci.l2 == None
    else
      var db, last := ci.inode.dbIndirect, (ci.nblks - L1 - 1) / NENTRY;
      && IndexBlock(blocks, owner, h, -2, db) && ci.l2 == Some(db)
      && ci.l1 == Some(Get(blocks, db, last))
      && (forall k :: 0 <= k <= last ==> IndexBlock(blocks, owner, h, k, Get(blocks, db, k)))
      && (forall k :: last < k < NENTRY ==> Get(blocks, db, k) == 0)
  }

  ghost predicate FileOk(blocks: map<nat, seq<nat>>, owner: Owner, h: nat, ci: CacheInode) {
    && ci.nblks == ci.inode.blocks <= LN && |ci.inode.direct| == L0
    && IndirectOk(blocks, owner, h, ci)
    && DoubleOk(blocks, owner, h, ci)
  }
}

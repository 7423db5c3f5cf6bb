/** Every operation of the image builder keeps the invariant, and does to the view what it is for. */
module SfsSteps {
  import opened Common
  import opened SfsCore
  import opened SfsIndex
  import opened SfsInvariant
  import opened SfsEntry

  /** Block numbers from nextIno on are unused. */
  lemma NothingAbove(fs: Fs, owner: Owner, view: View)
    requires Inv(fs, owner, view)
    ensures FreshAbove(fs, owner)
    ensures fs.nextIno !in fs.inodes && fs.nextIno !in fs.disk && fs.nextIno != ROOT
  {
  }

  lemma IndexBlockExtends(blocks: Blocks, owner: Owner, owner': Owner, h: nat, ci: CacheInode)
    requires Extends(owner, owner') && FileOk(blocks, owner, h, ci)
    ensures FileOk(blocks, owner', h, ci)
  {
  }

  lemma ShowsExtends(blocks: Blocks, disk: map<nat, seq<byte>>, disk': map<nat, seq<byte>>, owner: Owner,
                     owner': Owner, h: nat, ci: CacheInode, v: FileView)
    requires Extends(owner, owner') && ShowsFile(blocks, disk, owner, h, ci, v)
    requires forall b :: b in disk ==> b in disk' && disk'[b] == disk[b]
    ensures ShowsFile(blocks, disk', owner', h, ci, v)
  {
    forall i | 0 <= i < |v.data| ensures DataBlock(disk', owner', h, i, BlockAt(blocks, ci, i), v.data[i]) {
      assert DataBlock(disk, owner, h, i, BlockAt(blocks, ci, i), v.data[i]);
    }
  }

  /** The failures that a host directory can cause. A failing assertion is not among them. */
  ghost predicate Honest(r: Reason) {
    r == OutOfSpace || r == FileTooBig || r == NameTooLong || r == LinkTooLong
  }

  /** How many blocks adding one more block to a file with n blocks takes. */
  function Need(n: nat): nat {
    1 + IndexNeed(n)
  }

  /** How many blocks adding k more blocks to a file with n blocks takes, index blocks included. */
  function Span(n: nat, k: nat): nat
    decreases k
  {
    if k == 0 then 0 else Need(n) + Span(n + 1, k - 1)
  }

  /** The view after the blocks `more`, with `size` bytes, were appended to h. */
  ghost function Extended(view: View, h: nat, size: nat, more: seq<seq<byte>>): View
    requires h in view
  {
    view[h := view[h].(size := view[h].size + size, data := view[h].data + more)]
  }

  // ---------- a data block ----------

  function Written(disk: map<nat, seq<byte>>, ino: nat, bytes: seq<byte>): map<nat, seq<byte>> {
    disk[ino := bytes]
  }

  function WithData(fs: Fs, bytes: seq<byte>): Fs
    requires |bytes| <= BLKSIZE
  {
    fs.(unused := fs.unused - 1, nextIno := fs.nextIno + 1, disk := Written(fs.disk, fs.nextIno, Pad(bytes)))
  }

  lemma GivenKeys(lo: nat, ninos: nat, owner: Owner, p: Purpose, blocks: Blocks, inodes: map<nat, CacheInode>,
                  disk: map<nat, seq<byte>>, bytes: seq<byte>)
    requires OwnerOk(ninos, lo, owner) && lo >= First(ninos)
    requires InodeKeys(inodes, owner) && IndexKeys(blocks, owner) && DataKeys(disk, owner) && p.Data?
    ensures Extends(owner, Given(owner, lo, p)) && OwnerOk(ninos, lo + 1, Given(owner, lo, p)) && lo !in disk
    ensures InodeKeys(inodes, Given(owner, lo, p)) && IndexKeys(blocks, Given(owner, lo, p))
    ensures DataKeys(Written(disk, lo, bytes), Given(owner, lo, p))
  {
  }

  /** More owners and more written blocks change no index and no view. */
  lemma MoreOwners(fs: Fs, owner: Owner, view: View, owner': Owner, disk': map<nat, seq<byte>>)
    requires FilesOk(fs, owner) && Shows(fs, owner, view) && Extends(owner, owner')
    requires forall b :: b in fs.disk ==> b in disk' && disk'[b] == fs.disk[b]
    ensures FilesOk(fs.(disk := disk'), owner') && Shows(fs.(disk := disk'), owner', view)
  {
    forall g | g in fs.inodes
      ensures FileOk(fs.blocks, owner', g, fs.inodes[g])
              && ShowsFile(fs.blocks, disk', owner', g, fs.inodes[g], view[g])
    {
      IndexBlockExtends(fs.blocks, owner, owner', g, fs.inodes[g]);
      ShowsExtends(fs.blocks, fs.disk, disk', owner, owner', g, fs.inodes[g], view[g]);
    }
  }

  /** A block is allocated and written; it will be block number n of h. */
  lemma WriteKeeps(fs: Fs, owner: Owner, view: View, h: nat, n: nat, bytes: seq<byte>)
    requires Inv(fs, owner, view) && fs.nextIno < fs.ninos && |bytes| <= BLKSIZE
    ensures Inv(WithData(fs, bytes), Given(owner, fs.nextIno, Data(h, n)), view)
  {
    var owner' := Given(owner, fs.nextIno, Data(h, n));
    GivenKeys(fs.nextIno, fs.ninos, owner, Data(h, n), fs.blocks, fs.inodes, fs.disk, Pad(bytes));
    MoreOwners(fs, owner, view, owner', Written(fs.disk, fs.nextIno, Pad(bytes)));
  }

  lemma AppendedShows(fs: Fs, owner: Owner, v: FileView, fs': Fs, owner': Owner, h: nat, size: nat, ino: nat)
    requires Appends(fs, owner, fs', owner', h, size, ino) && ShowsFile(fs.blocks, fs.disk, owner, h, fs.inodes[h], v)
    requires ino in fs.disk && DataBlock(fs.disk, owner, h, fs.inodes[h].nblks, ino, fs.disk[ino])
    ensures ShowsFile(fs'.blocks, fs'.disk, owner', h, fs'.inodes[h],
                      v.(size := v.size + size, data := v.data + [fs.disk[ino]]))
  {
    forall i | 0 <= i < |v.data|
      ensures DataBlock(fs'.disk, owner', h, i, BlockAt(fs'.blocks, fs'.inodes[h], i), v.data[i])
    {
      assert DataBlock(fs.disk, owner, h, i, BlockAt(fs.blocks, fs.inodes[h], i), v.data[i]);
    }
  }

  lemma OtherShows(fs: Fs, owner: Owner, v: FileView, fs': Fs, owner': Owner, h: nat, size: nat, ino: nat, g: nat)
    requires Appends(fs, owner, fs', owner', h, size, ino) && g in fs.inodes && g != h
    requires FileOk(fs.blocks, owner, g, fs.inodes[g]) && ShowsFile(fs.blocks, fs.disk, owner, g, fs.inodes[g], v)
    ensures ShowsFile(fs'.blocks, fs'.disk, owner', g, fs'.inodes[g], v)
    ensures FileOk(fs'.blocks, owner', g, fs'.inodes[g])
  {
    OtherFile(fs.blocks, fs'.blocks, owner, owner', h, g, fs.inodes[g]);
    forall i | 0 <= i < |v.data|
      ensures DataBlock(fs'.disk, owner', g, i, BlockAt(fs'.blocks, fs'.inodes[g], i), v.data[i])
    {
      assert DataBlock(fs.disk, owner, g, i, BlockAt(fs.blocks, fs.inodes[g], i), v.data[i]);
    }
  }

  lemma AppendKeysKept(lo: nat, hi: nat, owner: Owner, owner': Owner, blocks: Blocks, blocks': Blocks,
                       inodes: map<nat, CacheInode>, disk: map<nat, seq<byte>>)
    requires Extends(owner, owner') && NewKeys(lo, hi, owner, owner', blocks, blocks')
    requires InodeKeys(inodes, owner) && IndexKeys(blocks, owner) && DataKeys(disk, owner)
    requires forall b :: b >= lo ==> b !in owner
    ensures InodeKeys(inodes, owner') && IndexKeys(blocks', owner') && DataKeys(disk, owner')
  {
  }

  lemma AppendSpace(fs: Fs, owner: Owner, fs': Fs, owner': Owner, h: nat, size: nat, ino: nat)
    requires SpaceOk(fs) && OwnerOk(fs.ninos, fs.nextIno, owner) && Appends(fs, owner, fs', owner', h, size, ino)
    ensures SpaceOk(fs') && OwnerOk(fs'.ninos, fs'.nextIno, owner')
  {
  }

  lemma AppendInodes(inodes: map<nat, CacheInode>, chains: seq<seq<nat>>, owner: Owner, h: nat, ci: CacheInode)
    requires InodesFit(inodes) && InodeChainsOk(inodes, chains) && InodeKeys(inodes, owner)
    requires h in inodes && InodeFits(ci) && ci.realIno == inodes[h].realIno
    ensures InodesFit(inodes[h := ci]) && InodeChainsOk(inodes[h := ci], chains) && InodeKeys(inodes[h := ci], owner)
  {
  }

  /** All indexes and views after an append to h. */
  lemma AppendFiles(fs: Fs, owner: Owner, view: View, fs': Fs, owner': Owner, h: nat, size: nat, ino: nat)
    requires FilesOk(fs, owner) && Shows(fs, owner, view) && Appends(fs, owner, fs', owner', h, size, ino)
    requires ino in fs.disk && DataBlock(fs.disk, owner, h, fs.inodes[h].nblks, ino, fs.disk[ino])
    ensures FilesOk(fs', owner') && Shows(fs', owner', Extended(view, h, size, [fs.disk[ino]]))
  {
    var view' := Extended(view, h, size, [fs.disk[ino]]);
    forall g | g in fs'.inodes
      ensures ShowsFile(fs'.blocks, fs'.disk, owner', g, fs'.inodes[g], view'[g])
              && FileOk(fs'.blocks, owner', g, fs'.inodes[g])
    {
      if g == h {
        AppendedShows(fs, owner, view[h], fs', owner', h, size, ino);
      } else {
        OtherShows(fs, owner, view[g], fs', owner', h, size, ino, g);
      }
    }
  }

  lemma AppendKeeps(fs: Fs, owner: Owner, view: View, fs': Fs, owner': Owner, h: nat, size: nat, ino: nat)
    requires Inv(fs, owner, view) && Appends(fs, owner, fs', owner', h, size, ino)
    requires ino in fs.disk && DataBlock(fs.disk, owner, h, fs.inodes[h].nblks, ino, fs.disk[ino])
    ensures Inv(fs', owner', Extended(view, h, size, [fs.disk[ino]]))
  {
    NothingAbove(fs, owner, view);
    AppendSpace(fs, owner, fs', owner', h, size, ino);
    AppendKeysKept(fs.nextIno, fs'.nextIno, owner, owner', fs.blocks, fs'.blocks, fs.inodes, fs.disk);
    AppendInodes(fs.inodes, fs.inodeChains, owner', h, fs'.inodes[h]);
    AppendFiles(fs, owner, view, fs', owner', h, size, ino);
  }

  lemma InvCanAppend(fs: Fs, owner: Owner, view: View, h: nat, size: nat, ino: nat)
    requires Inv(fs, owner, view) && h in view && size <= BLKSIZE && ino in owner
    ensures CanAppend(fs, owner, h, size, ino)
  {
    NothingAbove(fs, owner, view);
  }

  /** Appending a block that was just written for this purpose. */
  lemma AppendWritten(fs: Fs, owner: Owner, view: View, h: nat, size: nat, ino: nat) returns (owner': Owner)
    requires Inv(fs, owner, view) && h in view && size <= BLKSIZE && Chained(fs)
    requires ino in fs.disk && DataBlock(fs.disk, owner, h, fs.inodes[h].nblks, ino, fs.disk[ino])
    ensures var n := |view[h].data|;
            match AppendBlock(fs, h, size, ino)
            case Ok(fs') =>
              && n < LN && fs'.nextIno == fs.nextIno + IndexNeed(n) <= fs.ninos == fs'.ninos
              && Inv(fs', owner', Extended(view, h, size, [fs.disk[ino]])) && SameCounts(fs.inodes, fs'.inodes)
            case Bug(reason) => Honest(reason) && (n >= LN || fs.nextIno + IndexNeed(n) > fs.ninos)
  {
    InvCanAppend(fs, owner, view, h, size, ino);
    assert fs.inodes[h].nblks == |view[h].data| by {
      assert ShowsFile(fs.blocks, fs.disk, owner, h, fs.inodes[h], view[h]);
    }
    owner' := AppendIndex(fs, owner, h, size, ino);
    if AppendBlock(fs, h, size, ino).Ok? {
      AppendKeeps(fs, owner, view, AppendBlock(fs, h, size, ino).value, owner', h, size, ino);
      AppendCounts(fs, owner, AppendBlock(fs, h, size, ino).value, owner', h, size, ino);
    }
  }

  lemma AppendCounts(fs: Fs, owner: Owner, fs': Fs, owner': Owner, h: nat, size: nat, ino: nat)
    requires Appends(fs, owner, fs', owner', h, size, ino)
    ensures SameCounts(fs.inodes, fs'.inodes)
  {
  }

  function OneMoreLink(ci: CacheInode): CacheInode {
    ci.(inode := ci.inode.(nlinks := (ci.inode.nlinks + 1) % 0x1_0000))
  }

  /** A change of the link count alone. */
  lemma LinkCountKeeps(fs: Fs, owner: Owner, view: View, file: nat)
    requires Inv(fs, owner, view) && file in fs.inodes
    ensures Inv(fs.(inodes := fs.inodes[file := OneMoreLink(fs.inodes[file])]), owner, view)
  {
    var ci := OneMoreLink(fs.inodes[file]);
    assert InodeFits(fs.inodes[file]);
    AppendInodes(fs.inodes, fs.inodeChains, owner, file, ci);
    LinkCountShows(fs, owner, view, file);
  }

  lemma LinkCountShowsFile(blocks: Blocks, disk: map<nat, seq<byte>>, owner: Owner, h: nat, ci: CacheInode, v: FileView)
    requires FileOk(blocks, owner, h, ci) && ShowsFile(blocks, disk, owner, h, ci, v)
    ensures FileOk(blocks, owner, h, OneMoreLink(ci)) && ShowsFile(blocks, disk, owner, h, OneMoreLink(ci), v)
  {
    assert forall i :: BlockAt(blocks, OneMoreLink(ci), i) == BlockAt(blocks, ci, i);
  }

  lemma LinkCountShows(fs: Fs, owner: Owner, view: View, file: nat)
    requires FilesOk(fs, owner) && Shows(fs, owner, view) && file in fs.inodes
    ensures var fs' := fs.(inodes := fs.inodes[file := OneMoreLink(fs.inodes[file])]);
            FilesOk(fs', owner) && Shows(fs', owner, view)
  {
    LinkCountShowsFile(fs.blocks, fs.disk, owner, file, fs.inodes[file], view[file]);
  }

  function WithInode(fs: Fs, realIno: nat, kind: nat): Fs
    requires Chained(fs)
  {
    fs.(unused := fs.unused - 1, nextIno := fs.nextIno + 1,
        inodes := fs.inodes[fs.nextIno := CacheInode(NewInode(kind), realIno, 0, None, None)],
        inodeChains := Push(fs.inodeChains, Hash32(realIno), fs.nextIno))
  }

  /** A new inode. */
  lemma AllocInodeKeeps(fs: Fs, owner: Owner, view: View, realIno: nat, kind: nat)
    requires Inv(fs, owner, view) && fs.nextIno < fs.ninos && TYPE_FILE <= kind <= TYPE_LINK && Chained(fs)
    ensures Inv(WithInode(fs, realIno, kind), Given(owner, fs.nextIno, AnInode),
                view[fs.nextIno := FileView(kind, realIno, 0, [])])
  {
    var ino, ci := fs.nextIno, CacheInode(NewInode(kind), realIno, 0, None, None);
    var owner' := Given(owner, ino, AnInode);
    NothingAbove(fs, owner, view);
    MoreOwners(fs, owner, view, owner', fs.disk);
    PushInode(fs.inodes, fs.inodeChains, ino, ci);
    NewInodeKeys(ino, fs.ninos, owner, fs.blocks, fs.inodes, fs.disk, ci);
    NewInodeShows(fs, owner', view, ino, realIno, kind);
  }

  lemma NewInodeShows(fs: Fs, owner: Owner, view: View, ino: nat, realIno: nat, kind: nat)
    requires FilesOk(fs, owner) && Shows(fs, owner, view) && InodesFit(fs.inodes) && ino !in fs.inodes
             && TYPE_FILE <= kind <= TYPE_LINK
    ensures var inodes' := fs.inodes[ino := CacheInode(NewInode(kind), realIno, 0, None, None)];
            && FilesOk(fs.(inodes := inodes'), owner)
            && Shows(fs.(inodes := inodes'), owner, view[ino := FileView(kind, realIno, 0, [])])
            && InodesFit(inodes')
  {
  }

  lemma NewInodeKeys(lo: nat, ninos: nat, owner: Owner, blocks: Blocks, inodes: map<nat, CacheInode>,
                     disk: map<nat, seq<byte>>, ci: CacheInode)
    requires OwnerOk(ninos, lo, owner) && lo >= First(ninos)
    requires InodeKeys(inodes, owner) && IndexKeys(blocks, owner) && DataKeys(disk, owner)
    ensures OwnerOk(ninos, lo + 1, Given(owner, lo, AnInode))
    ensures InodeKeys(inodes[lo := ci], Given(owner, lo, AnInode))
    ensures IndexKeys(blocks, Given(owner, lo, AnInode)) && DataKeys(disk, Given(owner, lo, AnInode))
  {
  }

  lemma PushInode(inodes: map<nat, CacheInode>, chains: seq<seq<nat>>, ino: nat, ci: CacheInode)
    requires InodeChainsOk(inodes, chains) && ino !in inodes
    ensures InodeChainsOk(inodes[ino := ci], Push(chains, Hash32(ci.realIno), ino))
  {
    var z := Hash32(ci.realIno);
    var chains' := Push(chains, z, ino);
    assert chains'[z] == [ino] + chains[z];
    forall h | h in inodes ensures h in chains'[Hash32(inodes[h].realIno)] {
      assert h in chains[Hash32(inodes[h].realIno)];
    }
    forall k, h | 0 <= k < HASH_LIST_SIZE && h in chains'[k] ensures h in inodes[ino := ci] {
      assert h == ino || h in chains[k];
    }
  }
}

/** The image builder of lab8/tools/mksfs.c as the object that it is: struct sfs_fs with its caches, and
    the functions that update it in place. A call that ends in bug() or a failing assertion returns Bug. */
module SfsBuilder {
  import opened Common
  import opened SfsCore
  import opened SfsIndex
  import opened SfsInvariant
  import opened SfsEntry
  import opened SfsSteps
  import opened SfsHost
  import opened SfsLinks

  /** What adding the blocks `more` to file h does, `size` bytes in all: it fails exactly when the file or the disk is
      full. */
  ghost predicate Adds(total: nat, next: nat, view: View, r: Outcome, next': nat, view': View, h: nat, size: nat,
                       more: seq<seq<byte>>)
    requires h in view
  {
    match r
    case Pass =>
      && Took(total, next, next', |view[h].data|, |more|, 0)
      && view' == Extended(view, h, size, more)
    case Fail(reason) => Honest(reason) && !Room(total, next, |view[h].data|, |more|, 0)
  }

  lemma SpanOne(n: nat)
    ensures Span(n, 1) == Need(n)
  {
    assert Span(n, 1) == Need(n) + Span(n + 1, 0);
  }

  /** append_block on a block that was allocated and written to be the next block of h. */
  lemma AppendAdds(fs: Fs, owner: Owner, view: View, h: nat, size: nat, ino: nat) returns (owner': Owner)
    requires Inv(fs, owner, view) && h in view && size <= BLKSIZE && fs.nextIno > 0 && Chained(fs)
    requires ino in fs.disk && DataBlock(fs.disk, owner, h, |view[h].data|, ino, fs.disk[ino])
    ensures var view' := Extended(view, h, size, [fs.disk[ino]]);
            && AppendNeverSearches(fs, h)
            && match AppendBlock(fs, h, size, ino)
            case Ok(fs') =>
              && Inv(fs', owner', view') && SameCounts(fs.inodes, fs'.inodes)
              && Adds(fs.ninos, fs.nextIno - 1, view, Pass, fs'.nextIno, view', h, size, [fs.disk[ino]])
            case Bug(reason) => Honest(reason) && !Room(fs.ninos, fs.nextIno - 1, |view[h].data|, 1, 0)
  {
    assert |view[h].data| == fs.inodes[h].nblks by {
      assert ShowsFile(fs.blocks, fs.disk, owner, h, fs.inodes[h], view[h]);
    }
    owner' := AppendWritten(fs, owner, view, h, size, ino);
    InvCanAppend(fs, owner, view, h, size, ino);
    SearchArmUnreachable(fs, owner, h, size, ino);
    SpanOne(|view[h].data|);
  }

  /** Two additions to the same file, the second after the first. */
  lemma AddsTwice(total: nat, next: nat, view: View, r1: Outcome, next1: nat, view1: View, r: Outcome, next2: nat,
                  view2: View, h: nat, size1: nat, more1: seq<seq<byte>>, size2: nat, more2: seq<seq<byte>>)
    requires h in view && r1.Pass? && Adds(total, next, view, r1, next1, view1, h, size1, more1)
    requires Adds(total, next1, view1, r, next2, view2, h, size2, more2)
    ensures Adds(total, next, view, r, next2, view2, h, size1 + size2, more1 + more2)
  {
    SpanSum(|view[h].data|, |more1|, |more2|);
    ExtendedTwice(view, h, size1, more1, size2, more2);
  }

  /** The names "." and ".." are stored whole. */
  lemma DotNames()
    ensures NoNul([DOT]) && Stored([DOT]) == [DOT] && NoNul([DOT, DOT]) && Stored([DOT, DOT]) == [DOT, DOT]
  {
  }

  /** What does not fit by itself does not fit with more behind it. */
  lemma MoreFails(total: nat, next: nat, view: View, r: Outcome, next1: nat, view1: View, h: nat, size: nat,
                  done: seq<seq<byte>>, size': nat, more: seq<seq<byte>>)
    requires h in view && r.Fail? && Adds(total, next, view, r, next1, view1, h, size, done)
    ensures Adds(total, next, view, r, next1, view1, h, size', done + more)
  {
    SpanSum(|view[h].data|, |done|, |more|);
  }

  lemma ExtendedTwice(view: View, h: nat, size: nat, more: seq<seq<byte>>, size': nat, more': seq<seq<byte>>)
    requires h in view
    ensures Extended(Extended(view, h, size, more), h, size', more') == Extended(view, h, size + size', more + more')
  {
    assert view[h].data + more + more' == view[h].data + (more + more');
  }

  lemma ExtendedByNothing(view: View, h: nat)
    requires h in view
    ensures Extended(view, h, 0, []) == view
  {
    assert view[h].data + [] == view[h].data;
  }

  /** Before the loop over the blocks of a file, and behind it. */
  lemma NothingAdded(total: nat, next: nat, view: View, h: nat, bytes: seq<byte>)
    requires h in view && |view[h].data| <= LN && next <= total
    ensures Adds(total, next, view, Pass, next, view, h, 0, []) && Chunks(bytes) == [] + Chunks(bytes)
  {
    ExtendedByNothing(view, h);
  }

  lemma AllAdded(bytes: seq<byte>, done: seq<seq<byte>>)
    requires Chunks(bytes) == done + Chunks([])
    ensures Chunks(bytes) == done
  {
    assert done + [] == done;
  }

  lemma LengthBound(fs: Fs, owner: Owner, view: View, h: nat)
    requires Inv(fs, owner, view) && h in view
    ensures |view[h].data| <= LN && fs.nextIno <= fs.ninos
  {
    assert ShowsFile(fs.blocks, fs.disk, owner, h, fs.inodes[h], view[h]);
    assert FileOk(fs.blocks, owner, h, fs.inodes[h]);
  }

  lemma SameNames(fs: Fs, owner: Owner, view: View, buffer: seq<byte>)
    requires Inv(fs, owner, view) && |buffer| == NAME_SIZE
    ensures Inv(fs.(nameBuffer := buffer), owner, view)
  {
  }

  lemma ExtendedFresh(view: View, g: nat, kind: nat, realIno: nat, size: nat, data: seq<seq<byte>>)
    ensures Extended(view[g := FileView(kind, realIno, 0, [])], g, size, data)
            == view[g := FileView(kind, realIno, size, data)]
  {
    assert [] + data == data;
  }

  /** The chain of a host inode number holds every inode made for it. */
  lemma ChainHoldsReals(fs: Fs, owner: Owner, view: View, realIno: nat)
    requires Inv(fs, owner, view) && Chained(fs)
    ensures forall g ::
              g in fs.inodeChains[Hash32(realIno)] ==>
                g in view && g in fs.inodes && fs.inodes[g].realIno == view[g].realIno
    ensures forall g :: g in view && view[g].realIno == realIno ==> g in fs.inodeChains[Hash32(realIno)]
  {
    forall g | g in view
      ensures view[g].realIno == fs.inodes[g].realIno
      ensures view[g].realIno == realIno ==> g in fs.inodeChains[Hash32(realIno)]
    {
      assert ShowsFile(fs.blocks, fs.disk, owner, g, fs.inodes[g], view[g]);
      assert g in fs.inodeChains[Hash32(fs.inodes[g].realIno)];
    }
  }

  /** The state of the views in which the walk adds to directory `current`. */
  ghost predicate Walking(view: View, host: Host, open: set<nat>, current: nat) {
    Known(view, host) && OpenDirs(view, open) && current in open
  }

  lemma UnseenFile(view: View, realIno: nat)
    requires forall g :: g in view ==> view[g].realIno != realIno
    ensures realIno !in Seen(view)
  {
  }

  /** An entry for a file that has an inode already. */
  lemma SharedFile(total: nat, next: nat, view: View, r: Outcome, next': nat, view': View, host: Host, open: set<nat>,
                   current: nat, name: seq<byte>, node: Node, g: nat, block: seq<byte>)
    requires Walking(view, host, open, current) && node.File? && HostedNode(host, node)
    requires g in view && view[g].realIno == node.realIno && |view[g].data| <= LN
    requires EntryIs(block, g, Stored(name)) && Adds(total, next, view, r, next', view', current, NAME_SIZE, [block])
    ensures NodeAdded(total, next, view, r, next', view', host, open, current, name, node, [block])
  {
    assert KnownInode(view[g], host);
    assert node.realIno in Seen(view);
    if r.Pass? {
      NewEntries(view, host, current, [block]);
      SeenGrows(view, view', current, [block]);
      assert RepNode(view', open, g, current, node);
    }
  }

  /** A finished new file or link g with view v gets its entry. */
  lemma NewChild(total: nat, next: nat, view: View, next1: nat, r: Outcome, next': nat, view': View, host: Host,
                 open: set<nat>, current: nat, name: seq<byte>, node: Node, g: nat, v: FileView, block: seq<byte>)
    requires Walking(view, host, open, current) && HostedNode(host, node) && g !in view
    requires (node.File? && IsFile(v, node)) || (node.Link? && IsLink(v, node))
    requires v.kind == KindOf(node) && v.realIno == node.realIno && |v.data| <= LN
    requires node.Link? || forall x :: x in view ==> view[x].realIno != v.realIno
    requires next1 == next + 1 + Span(0, |v.data|)
    requires EntryIs(block, g, Stored(name))
             && Adds(total, next1, view[g := v], r, next', view', current, NAME_SIZE, [block])
    ensures NodeAdded(total, next, view, r, next', view', host, open, current, name, node, [block])
  {
    if node.File? {
      UnseenFile(view, node.realIno);
    }
    assert NodeBlocks(node, Seen(view)) == 1 + Span(0, |v.data|);
    if r.Pass? {
      NewChildKnown(view, host, current, g, v, block);
      SeenNew(view, g, v);
      SeenGrows(view[g := v], view', current, [block]);
      assert RepNode(view', open, g, current, node);
    }
  }

  // ---------- the readdir loop ----------

  lemma OtherSkipped(total: nat, next: nat, view: View, host: Host, open: set<nat>, current: nat, name: seq<byte>,
                     node: Node)
    requires Walking(view, host, open, current) && node.Other? && |view[current].data| <= LN && next <= total
    ensures NodeAdded(total, next, view, Pass, next, view, host, open, current, name, node, [])
  {
    assert view[current].data + [] == view[current].data;
  }

  lemma NothingToWalk(total: nat, next: nat, view: View, host: Host, open: set<nat>, current: nat)
    requires Walking(view, host, open, current) && |view[current].data| <= LN && next <= total
    ensures EntriesAdded(total, next, view, Pass, next, view, host, open, current, Nil, [])
  {
    assert view[current].data + [] == view[current].data;
  }

  lemma WalkingOn(view: View, view': View, host: Host, open: set<nat>, current: nat, dirs: set<nat>,
                  added: seq<seq<byte>>)
    requires Walking(view, host, open, current) && Walked(view, view', host, current, dirs, added)
    ensures Walking(view', host, open, current)
  {
  }

  /** A hidden entry is passed over. */
  lemma HiddenSkipped(total: nat, next: nat, view: View, host: Host, open: set<nat>, current: nat, name: seq<byte>,
                      node: Node)
    requires Walking(view, host, open, current) && Hidden(name) && |view[current].data| <= LN && next <= total
    ensures EntriesAdded(total, next, view, Pass, next, view, host, open, current, One(name, node), [])
  {
    assert view[current].data + [] == view[current].data;
  }

  /** A name that is too long is refused. */
  lemma NameRefused(total: nat, next: nat, view: View, host: Host, open: set<nat>, current: nat, name: seq<byte>,
                    node: Node)
    requires current in view && !Hidden(name) && |name| > MAX_FNAME_LEN
    ensures EntriesAdded(total, next, view, Fail(NameTooLong), next, view, host, open, current, One(name, node), [])
  {
  }

  /** A visible entry. */
  lemma NodeIsOne(total: nat, next: nat, view: View, r: Outcome, next': nat, view': View, host: Host, open: set<nat>,
                  current: nat, name: seq<byte>, node: Node, one: seq<seq<byte>>)
    requires current in view && !Hidden(name) && |name| <= MAX_FNAME_LEN
    requires NodeAdded(total, next, view, r, next', view', host, open, current, name, node, one)
    ensures EntriesAdded(total, next, view, r, next', view', host, open, current, One(name, node), one)
  {
    OneIs(name, node, Seen(view));
    if r.Pass? && !node.Other? {
      assert one[1..] == [];
    }
  }

  lemma OneIs(name: seq<byte>, node: Node, seen: set<nat>)
    requires !Hidden(name) && |name| <= MAX_FNAME_LEN
    ensures var es := One(name, node);
            && Count(es) == Ones(node) && (Fits(es) <==> NodeFits(node))
            && EntryBlocks(es, seen) == NodeBlocks(node, seen)
            && Dirs(es) == DirsOf(node) && Files(es) == FilesOf(node)
  {
    assert Count(Nil) == 0 && Fits(Nil) && EntryBlocks(Nil, seen + FilesOf(node)) == 0 && Dirs(Nil) == {}
           && Files(Nil) == {};
  }

  /** After one entry the loop is ready for the rest. */
  lemma OneDone(total: nat, next: nat, view: View, next1: nat, view1: View, host: Host, open: set<nat>, current: nat,
                es: Entries, one: seq<seq<byte>>)
    requires Walking(view, host, open, current) && es.Cons? && Hosted(host, es) && Once(es) && Unvisited(view, Dirs(es))
    requires EntriesAdded(total, next, view, Pass, next1, view1, host, open, current, One(es.name, es.node), one)
    ensures Walking(view1, host, open, current) && Unvisited(view1, Dirs(es.rest))
  {
    var dirs := Dirs(One(es.name, es.node));
    assert Dirs(Nil) == {};
    assert dirs == if Hidden(es.name) then {} else DirsOf(es.node);
    WalkingOn(view, view1, host, open, current, dirs, one);
    StillUnvisited(view, view1, host, current, dirs, one, es.rest);
  }

  lemma AppendCost(total: nat, next: nat, next1: nat, next': nat, d: nat, d1: nat, seen: set<nat>, seen1: set<nat>,
                   a: Entries, b: Entries)
    requires Took(total, next, next1, d, Count(a), EntryBlocks(a, seen)) && d1 == d + Count(a)
             && seen1 == seen + Files(a)
    ensures Room(total, next1, d1, Count(b), EntryBlocks(b, seen1))
            <==> Room(total, next, d, Count(Append(a, b)), EntryBlocks(Append(a, b), seen))
    ensures Took(total, next1, next', d1, Count(b), EntryBlocks(b, seen1))
            ==> Took(total, next, next', d, Count(Append(a, b)), EntryBlocks(Append(a, b), seen))
  {
    var k, e := Count(Append(a, b)), EntryBlocks(Append(a, b), seen);
    CountsAdd(a, b, seen, seen1);
    CostsAdd(total, next, next1, next', d, Count(a), EntryBlocks(a, seen), Count(b), EntryBlocks(b, seen1), k, e);
  }

  lemma CountsAdd(a: Entries, b: Entries, seen: set<nat>, seen1: set<nat>)
    requires seen1 == seen + Files(a)
    ensures Count(Append(a, b)) == Count(a) + Count(b)
    ensures EntryBlocks(Append(a, b), seen) == EntryBlocks(a, seen) + EntryBlocks(b, seen1)
  {
    AppendSums(a, b);
    AppendBlocks(a, b, seen);
  }

  lemma CostsAdd(total: nat, next: nat, next1: nat, next': nat, d: nat, k1: nat, e1: nat, k2: nat, e2: nat, k: nat,
                 e: nat)
    requires Took(total, next, next1, d, k1, e1) && k == k1 + k2 && e == e1 + e2
    ensures Room(total, next1, d + k1, k2, e2) <==> Room(total, next, d, k, e)
    ensures Took(total, next1, next', d + k1, k2, e2) ==> Took(total, next, next', d, k, e)
  {
    SpanSum(d, k1, k2);
  }

  /** Two parts of a directory, one after the other. */
  lemma EntriesTwice(total: nat, next: nat, view: View, next1: nat, view1: View, r: Outcome, next': nat, view': View,
                     host: Host, open: set<nat>, current: nat, a: Entries, added1: seq<seq<byte>>, b: Entries,
                     added2: seq<seq<byte>>) returns (added: seq<seq<byte>>)
    requires current in view && current in view1 && current in open
    requires EntriesAdded(total, next, view, Pass, next1, view1, host, open, current, a, added1)
    requires EntriesAdded(total, next1, view1, r, next', view', host, open, current, b, added2)
    ensures EntriesAdded(total, next, view, r, next', view', host, open, current, Append(a, b), added)
  {
    if r.Pass? {
      added := added1 + added2;
      EntriesBothPass(total, next, view, next1, view1, next', view', host, open, current, a, added1, b, added2);
    } else {
      added := [];
      SecondFails(total, next, view, next1, view1, r, next', view', host, open, current, a, added1, b, added2);
    }
  }

  lemma SecondFails(total: nat, next: nat, view: View, next1: nat, view1: View, r: Outcome, next': nat, view': View,
                    host: Host, open: set<nat>, current: nat, a: Entries, added1: seq<seq<byte>>, b: Entries,
                    added2: seq<seq<byte>>)
    requires current in view && current in view1 && r.Fail?
    requires EntriesAdded(total, next, view, Pass, next1, view1, host, open, current, a, added1)
    requires EntriesAdded(total, next1, view1, r, next', view', host, open, current, b, added2)
    ensures EntriesAdded(total, next, view, r, next', view', host, open, current, Append(a, b), [])
  {
    AppendCost(total, next, next1, next', |view[current].data|, |view1[current].data|, Seen(view), Seen(view1), a, b);
    AppendSums(a, b);
  }

  lemma EntriesBothPass(total: nat, next: nat, view: View, next1: nat, view1: View, next': nat, view': View,
                        host: Host, open: set<nat>, current: nat, a: Entries, added1: seq<seq<byte>>, b: Entries,
                        added2: seq<seq<byte>>)
    requires current in view && current in view1 && current in open
    requires EntriesAdded(total, next, view, Pass, next1, view1, host, open, current, a, added1)
    requires EntriesAdded(total, next1, view1, Pass, next', view', host, open, current, b, added2)
    ensures EntriesAdded(total, next, view, Pass, next', view', host, open, current, Append(a, b), added1 + added2)
  {
    AppendCost(total, next, next1, next', |view[current].data|, |view1[current].data|, Seen(view), Seen(view1), a, b);
    AppendSums(a, b);
    WalkedTwice(view, view1, view', host, current, Dirs(a), Dirs(b), added1, added2);
    RepTwice(view1, view', open, current, a, added1, b, added2);
    SeenTwice(Seen(view), Seen(view1), Seen(view'), Files(a), Files(b));
  }

  lemma SeenTwice(s: set<nat>, s1: set<nat>, s2: set<nat>, a: set<nat>, b: set<nat>)
    requires s1 == s + a && s2 == s1 + b
    ensures s2 == s + (a + b)
  {
  }

  lemma RepTwice(view1: View, view': View, open: set<nat>, current: nat, a: Entries, added1: seq<seq<byte>>,
                 b: Entries, added2: seq<seq<byte>>)
    requires current in open && GrowsBy(view1, view', current, added2)
    requires RepEntries(view1, open, current, a, added1) && RepEntries(view', open, current, b, added2)
    ensures RepEntries(view', open, current, Append(a, b), added1 + added2)
  {
    RepEntriesStay(view1, open, view', open, current, a, added1);
    AppendRep(view', open, current, a, b, added1, added2);
  }

  /** What has room with more behind it has room by itself. */
  lemma MoreRoom(total: nat, next: nat, d: nat, seen: set<nat>, a: Entries, b: Entries)
    ensures Fits(Append(a, b)) ==> Fits(a)
    ensures Room(total, next, d, Count(Append(a, b)), EntryBlocks(Append(a, b), seen))
            ==> Room(total, next, d, Count(a), EntryBlocks(a, seen))
  {
    AppendSums(a, b);
    CountsAdd(a, b, seen, seen + Files(a));
    RoomBefore(total, next, d, Count(a), EntryBlocks(a, seen), Count(b), EntryBlocks(b, seen + Files(a)),
               Count(Append(a, b)), EntryBlocks(Append(a, b), seen));
  }

  lemma RoomBefore(total: nat, next: nat, d: nat, k1: nat, e1: nat, k2: nat, e2: nat, k: nat, e: nat)
    requires k == k1 + k2 && e == e1 + e2
    ensures Room(total, next, d, k, e) ==> Room(total, next, d, k1, e1)
  {
    SpanSum(d, k1, k2);
  }

  /** What does not fit by itself does not fit with more behind it. */
  lemma MoreEntriesFail(total: nat, next: nat, view: View, r: Outcome, next': nat, view': View, host: Host,
                        open: set<nat>, current: nat, a: Entries, added: seq<seq<byte>>, b: Entries)
    requires current in view && r.Fail? && EntriesAdded(total, next, view, r, next', view', host, open, current, a,
                                                        added)
    ensures EntriesAdded(total, next, view, r, next', view', host, open, current, Append(a, b), added)
  {
    MoreRoom(total, next, |view[current].data|, Seen(view), a, b);
  }

  // ---------- directories ----------

  lemma DotFails(total: nat, next: nat, view: View, r: Outcome, next': nat, view': View, host: Host, open: set<nat>,
                 current: nat, parent: nat, es: Entries, dots: seq<seq<byte>>)
    requires current in view && view[current].data == [] && r.Fail? && |dots| == 2
    requires Adds(total, next, view, r, next', view', current, NAME_SIZE + NAME_SIZE, dots)
    ensures DirFilled(total, next, view, r, next', view', host, open, current, parent, es, [])
  {
    SpanSum(0, 2, Count(es));
  }

  lemma DotsWalked(total: nat, next: nat, view: View, next1: nat, view1: View, host: Host, open: set<nat>,
                   current: nat, b0: seq<byte>, b1: seq<byte>)
    requires Walking(view, host, open, current)
    requires Adds(total, next, view, Pass, next1, view1, current, NAME_SIZE + NAME_SIZE, [b0] + [b1])
    ensures Walked(view, view1, host, current, {}, [b0, b1]) && Seen(view1) == Seen(view)
  {
    assert [b0] + [b1] == [b0, b1];
    NewEntries(view, host, current, [b0, b1]);
    SeenGrows(view, view1, current, [b0, b1]);
  }

  /** "." and ".." are in place: the loop can start. */
  lemma DotsDone(total: nat, next: nat, view: View, next1: nat, view1: View, host: Host, open: set<nat>, current: nat,
                 es: Entries, b0: seq<byte>, b1: seq<byte>)
    requires Walking(view, host, open, current) && Hosted(host, es) && Unvisited(view, Dirs(es))
    requires Adds(total, next, view, Pass, next1, view1, current, NAME_SIZE + NAME_SIZE, [b0] + [b1])
    ensures Walking(view1, host, open, current) && Unvisited(view1, Dirs(es))
  {
    DotsWalked(total, next, view, next1, view1, host, open, current, b0, b1);
    StillUnvisited(view, view1, host, current, {}, [b0, b1], es);
  }

  lemma DirDone(total: nat, next: nat, view: View, next1: nat, view1: View, r: Outcome, next': nat, view': View,
                host: Host, open: set<nat>, current: nat, parent: nat, es: Entries, b0: seq<byte>, b1: seq<byte>,
                more: seq<seq<byte>>) returns (added: seq<seq<byte>>)
    requires Walking(view, host, open, current) && view[current].data == [] && current in view1
    requires Adds(total, next, view, Pass, next1, view1, current, NAME_SIZE + NAME_SIZE, [b0] + [b1])
    requires EntryIs(b0, current, [DOT]) && EntryIs(b1, parent, [DOT, DOT])
    requires EntriesAdded(total, next1, view1, r, next', view', host, open, current, es, more)
    ensures DirFilled(total, next, view, r, next', view', host, open, current, parent, es, added)
  {
    added := [b0, b1] + more;
    DotsWalked(total, next, view, next1, view1, host, open, current, b0, b1);
    assert |view1[current].data| == 2;
    CostsAdd(total, next, next1, next', 0, 2, 0, Count(es), EntryBlocks(es, Seen(view1)), 2 + Count(es),
             EntryBlocks(es, Seen(view)));
    if r.Pass? {
      WalkedTwice(view, view1, view', host, current, {}, Dirs(es), [b0, b1], more);
      assert {} + Dirs(es) == Dirs(es);
      assert ([b0, b1] + more)[2..] == more;
    }
  }

  /** The new, empty directory g. */
  lemma EmptyDir(view: View, host: Host, open: set<nat>, parent: nat, node: Node, g: nat)
    requires Walking(view, host, open, parent) && node.Dir? && HostedNode(host, node) && OnceNode(node)
    requires g !in view && Unvisited(view, DirsOf(node))
    ensures var view1 := view[g := FileView(TYPE_DIR, node.realIno, 0, [])];
            && Walking(view1, host, open + {g}, g) && Unvisited(view1, Dirs(node.entries)) && Seen(view1) == Seen(view)
  {
    SeenNew(view, g, FileView(TYPE_DIR, node.realIno, 0, []));
    KnownNew(view, host, g, FileView(TYPE_DIR, node.realIno, 0, []));
  }

  lemma DirFails(total: nat, next: nat, view: View, r: Outcome, next2: nat, view2: View, host: Host, open: set<nat>,
                 parent: nat, name: seq<byte>, node: Node, g: nat, filled: seq<seq<byte>>)
    requires parent in view && node.Dir? && g !in view && r.Fail?
    requires var view1 := view[g := FileView(TYPE_DIR, node.realIno, 0, [])];
             && Seen(view1) == Seen(view)
             && DirFilled(total, next + 1, view1, r, next2, view2, host, open + {g}, g, parent, node.entries, filled)
    ensures NodeAdded(total, next, view, r, next2, view2, host, open, parent, name, node, [])
  {
  }

  /** The filled directory, before it has its entry. */
  lemma DirOpen(total: nat, next1: nat, view1: View, next2: nat, view2: View, host: Host, open: set<nat>, g: nat,
                parent: nat, node: Node, filled: seq<seq<byte>>)
    requires g in view1 && g != parent && parent in view1 && view1[parent].kind == TYPE_DIR && node.Dir?
    requires DirFilled(total, next1, view1, Pass, next2, view2, host, open + {g}, g, parent, node.entries, filled)
    ensures parent in view2 && view2[parent] == view1[parent] && g in view2
  {
  }

  lemma DirRep(view: View, view1: View, view2: View, view': View, host: Host, open: set<nat>, parent: nat, node: Node,
               g: nat, filled: seq<seq<byte>>, block: seq<byte>)
    requires node.Dir? && g !in view && parent in view && OpenDirs(view, open) && parent in open
    requires view1 == view[g := FileView(TYPE_DIR, node.realIno, 0, [])]
    requires Walked(view1, view2, host, g, Dirs(node.entries), filled) && |filled| >= 2
    requires EntryIs(filled[0], g, [DOT]) && EntryIs(filled[1], parent, [DOT, DOT])
    requires RepEntries(view2, open + {g}, g, node.entries, filled[2..])
    requires Walked(view2, view', host, parent, {}, [block])
    ensures Walked(view, view', host, parent, DirsOf(node), [block]) && RepNode(view', open, g, parent, node)
  {
    DirView(view1, view2, view', host, parent, node, g, filled, block);
    DirWalked(view, view1, view2, view', host, parent, node, g, filled, block);
    RepEntriesStay(view2, open + {g}, view', open, g, node.entries, filled[2..]);
  }

  lemma DirWalked(view: View, view1: View, view2: View, view': View, host: Host, parent: nat, node: Node, g: nat,
                  filled: seq<seq<byte>>, block: seq<byte>)
    requires node.Dir? && g !in view && parent in view
    requires view1 == view[g := FileView(TYPE_DIR, node.realIno, 0, [])]
    requires Walked(view1, view2, host, g, Dirs(node.entries), filled)
    requires Walked(view2, view', host, parent, {}, [block])
    ensures Walked(view, view', host, parent, DirsOf(node), [block])
  {
  }

  lemma DirView(view1: View, view2: View, view': View, host: Host, parent: nat, node: Node, g: nat,
                filled: seq<seq<byte>>, block: seq<byte>)
    requires node.Dir? && g in view1 && view1[g] == FileView(TYPE_DIR, node.realIno, 0, []) && g != parent
    requires Walked(view1, view2, host, g, Dirs(node.entries), filled)
    requires Walked(view2, view', host, parent, {}, [block])
    ensures g in view' && view'[g] == FileView(TYPE_DIR, node.realIno, NAME_SIZE * |filled|, filled)
  {
    assert [] + filled == filled;
  }

  /** Its entry was added to the parent. */
  lemma DirEntered(total: nat, next: nat, view: View, next2: nat, view2: View, next': nat, view': View, host: Host,
                   open: set<nat>, parent: nat, name: seq<byte>, node: Node, g: nat, filled: seq<seq<byte>>,
                   block: seq<byte>)
    requires Walking(view, host, open, parent) && node.Dir? && g !in view && parent in view2
    requires var view1 := view[g := FileView(TYPE_DIR, node.realIno, 0, [])];
             && Seen(view1) == Seen(view)
             && DirFilled(total, next + 1, view1, Pass, next2, view2, host, open + {g}, g, parent, node.entries, filled)
    requires view2[parent] == view[parent] && EntryIs(block, g, Stored(name))
    requires Adds(total, next2, view2, Pass, next', view', parent, NAME_SIZE, [block])
    ensures NodeAdded(total, next, view, Pass, next', view', host, open, parent, name, node, [block])
  {
    var view1 := view[g := FileView(TYPE_DIR, node.realIno, 0, [])];
    NewEntries(view2, host, parent, [block]);
    SeenGrows(view2, view', parent, [block]);
    DirRep(view, view1, view2, view', host, open, parent, node, g, filled, block);
    DirCost(total, next, next2, next', |view[parent].data|, node, Seen(view));
    assert RepOne(view', open, parent, name, node, [block]);
  }

  /** An inode, the blocks of the directory, then one entry in the parent. */
  lemma DirCost(total: nat, next: nat, next2: nat, next': nat, n: nat, node: Node, seen: set<nat>)
    requires node.Dir? && Fits(node.entries)
    requires Took(total, next + 1, next2, 0, 2 + Count(node.entries), EntryBlocks(node.entries, seen))
    requires Took(total, next2, next', n, 1, 0)
    ensures NodeFits(node) && Took(total, next, next', n, Ones(node), NodeBlocks(node, seen))
  {
  }

  lemma DirEnds(total: nat, next: nat, view: View, next2: nat, view2: View, r: Outcome, next': nat, view': View,
                host: Host, open: set<nat>, parent: nat, name: seq<byte>, node: Node, g: nat, filled: seq<seq<byte>>,
                block: seq<byte>)
    requires Walking(view, host, open, parent) && node.Dir? && g !in view && parent in view2
    requires var view1 := view[g := FileView(TYPE_DIR, node.realIno, 0, [])];
             && Seen(view1) == Seen(view)
             && DirFilled(total, next + 1, view1, Pass, next2, view2, host, open + {g}, g, parent, node.entries, filled)
    requires EntryIs(block, g, Stored(name)) && Adds(total, next2, view2, r, next', view', parent, NAME_SIZE, [block])
    ensures NodeAdded(total, next, view, r, next', view', host, open, parent, name, node, [block])
  {
    var view1 := view[g := FileView(TYPE_DIR, node.realIno, 0, [])];
    assert view2[parent] == view[parent];
    if r.Pass? {
      DirEntered(total, next, view, next2, view2, next', view', host, open, parent, name, node, g, filled, block);
    }
  }

  // ---------- link counts ----------

  lemma SharedFileLinks(total: nat, next: nat, view: View, links: Links, next': nat, view': View, host: Host,
                        open: set<nat>, current: nat, name: seq<byte>, node: Node, g: nat, block: seq<byte>)
    requires Walking(view, host, open, current) && node.File? && HostedNode(host, node) && !Hidden(name)
    requires g in view && view[g].realIno == node.realIno
    requires Adds(total, next, view, Pass, next', view', current, NAME_SIZE, [block])
    requires NodeAdded(total, next, view, Pass, next', view', host, open, current, name, node, [block])
    ensures LinksWalked(view, links, view', OneMore(links, g), host, current, One(name, node))
  {
    assert KnownInode(view[g], host);
    SharedLinks(view, links, view', host, current, name, node, g, [block]);
  }

  lemma NewChildLinks(total: nat, next: nat, view: View, links: Links, next1: nat, next': nat, view': View, host: Host,
                      open: set<nat>, current: nat, name: seq<byte>, node: Node, g: nat, v: FileView, block: seq<byte>)
    requires Walking(view, host, open, current) && (node.File? || node.Link?) && !Hidden(name) && g !in view
    requires v.kind == KindOf(node) && v.realIno == node.realIno
    requires Adds(total, next1, view[g := v], Pass, next', view', current, NAME_SIZE, [block])
    requires NodeAdded(total, next, view, Pass, next', view', host, open, current, name, node, [block])
    ensures LinksWalked(view, links, view', OneMore(links[g := 0], g), host, current, One(name, node))
  {
    NewLinks(view, links, view', host, current, name, node, g, [block]);
  }

  lemma DirEndsLinks(total: nat, next: nat, view: View, links: Links, next2: nat, view2: View, links2: Links,
                     next': nat, view': View, host: Host, open: set<nat>, parent: nat, name: seq<byte>, node: Node,
                     g: nat, filled: seq<seq<byte>>, block: seq<byte>)
    requires Walking(view, host, open, parent) && node.Dir? && HostedNode(host, node) && !Hidden(name) && g !in view
             && parent in view2
    requires var view1 := view[g := FileView(TYPE_DIR, node.realIno, 0, [])];
             && DirFilled(total, next + 1, view1, Pass, next2, view2, host, open + {g}, g, parent, node.entries, filled)
             && LinksWalked(view1, OneMore(OneMore(links[g := 0], g), parent), view2, links2, host, g, node.entries)
    requires Adds(total, next2, view2, Pass, next', view', parent, NAME_SIZE, [block])
    ensures LinksWalked(view, links, view', OneMore(links2, g), host, parent, One(name, node))
  {
    var view1 := view[g := FileView(TYPE_DIR, node.realIno, 0, [])];
    DirLinked(view, links, view1, view2, links2, view', host, parent, name, node, g, [block]);
  }

  lemma EntriesLinks(total: nat, next: nat, view: View, links: Links, next1: nat, view1: View, links1: Links,
                     next2: nat, view2: View, links2: Links, host: Host, open: set<nat>, current: nat, a: Entries,
                     added1: seq<seq<byte>>, b: Entries, added2: seq<seq<byte>>)
    requires current in view && current in view1
    requires EntriesAdded(total, next, view, Pass, next1, view1, host, open, current, a, added1)
    requires EntriesAdded(total, next1, view1, Pass, next2, view2, host, open, current, b, added2)
    requires LinksWalked(view, links, view1, links1, host, current, a)
             && LinksWalked(view1, links1, view2, links2, host, current, b)
    ensures LinksWalked(view, links, view2, links2, host, current, Append(a, b))
  {
    LinksTwice(view, links, view1, links1, view2, links2, host, current, a, added1, b, added2);
  }

  // ---------- a new image ----------

  function NoChains(): (r: seq<seq<nat>>)
    ensures |r| == HASH_LIST_SIZE && forall k :: 0 <= k < HASH_LIST_SIZE ==> r[k] == []
  {
    seq(HASH_LIST_SIZE, _ => [])
  }

  lemma FreshInv(fs: Fs, owner: Owner, view: View)
    requires First(fs.ninos) == fs.nextIno < fs.ninos <= MAX_NBLKS && fs.unused == fs.ninos - fs.nextIno
    requires fs.inodes == map[ROOT := CacheInode(NewInode(TYPE_DIR), 0, 0, None, None)]
    requires fs.blocks == map[] && fs.disk == map[] && |fs.nameBuffer| == NAME_SIZE
    requires fs.inodeChains == Push(NoChains(), Hash32(0), ROOT) && fs.blockChains == NoChains()
    requires owner == map[ROOT := AnInode] && view == map[ROOT := FileView(TYPE_DIR, 0, 0, [])]
    ensures Inv(fs, owner, view)
  {
    assert InodeChainsOk(fs.inodes, fs.inodeChains);
    assert BlockChainsOk(fs.blocks, fs.blockChains);
    assert Shows(fs, owner, view);
  }

  class Sfs {
    const ninos: nat
    var nextIno: nat
    var unused: int
    var inodes: map<nat, CacheInode>
    var blocks: map<nat, seq<nat>>
    var inodeChains: seq<seq<nat>>
    var blockChains: seq<seq<nat>>
    var disk: map<nat, seq<byte>>
    var nameBuffer: seq<byte>
    ghost var owner: Owner
    ghost var view: View
    ghost var links: Links       // how many entries name each inode

    ghost function Snap(): Fs
      reads this`nextIno, this`unused, this`inodes, this`blocks, this`inodeChains, this`blockChains, this`disk,
            this`nameBuffer
    {
      Fs(ninos, nextIno, unused, inodes, blocks, inodeChains, blockChains, disk, nameBuffer)
    }

    ghost predicate Good()
      reads this
    {
      Holds(owner, view)
    }

    /** Files and link counts are as a view of them says. */
    ghost predicate Holds(owner: Owner, view: View)
      reads this`nextIno, this`unused, this`inodes, this`blocks, this`inodeChains, this`blockChains, this`disk,
            this`nameBuffer, this`links
    {
      Inv(Snap(), owner, view) && Counts(inodes, view, links)
    }

    /** create_sfs on an image of the given number of blocks. */
    constructor (total: nat)
      requires First(total) < total <= MAX_NBLKS
      ensures Good() && ninos == total && nextIno == First(total)
      ensures view == map[ROOT := FileView(TYPE_DIR, 0, 0, [])] && links == map[ROOT := 0]
    {
      ninos, nextIno, unused := total, First(total), total - First(total);
      inodes, blocks, disk := map[], map[], map[];
      inodeChains, blockChains := NoChains(), NoChains();
      nameBuffer := Zeros(NAME_SIZE);
      owner := map[ROOT := AnInode];
      view := map[ROOT := FileView(TYPE_DIR, 0, 0, [])];
      links := map[ROOT := 0];
      new;
      var root := AllocCacheInode(0, ROOT, TYPE_DIR);
      FreshInv(Snap(), owner, view);
    }

    // ---------- allocation ----------

    method AllocIno() returns (r: Res<nat>)
      modifies this`nextIno, this`unused
      ensures r == if old(nextIno) < ninos then Ok(old(nextIno)) else Bug(OutOfSpace)
      ensures r.Ok? ==> nextIno == old(nextIno) + 1 && unused == old(unused) - 1
    {
      if nextIno < ninos {
        unused := unused - 1;
        nextIno := nextIno + 1;
        return Ok(nextIno - 1);
      }
      return Bug(OutOfSpace);
    }

    method AllocCacheBlock(arg: nat) returns (r: Res<nat>)
      requires Chained(Snap())
      modifies this`nextIno, this`unused, this`blocks, this`blockChains
      ensures match r
              case Ok(ino) => SfsCore.AllocCacheBlock(old(Snap()), arg) == Ok((Snap(), ino))
              case Bug(reason) => SfsCore.AllocCacheBlock(old(Snap()), arg) == Bug(reason)
    {
      var ino := arg;
      if arg == 0 {
        ino :- AllocIno();
      }
      blocks := Zeroed(blocks, ino);
      blockChains := Push(blockChains, Hash32(arg), ino);
      return Ok(ino);
    }

    /** The search itself. No append reaches it; what it would find is `SearchFindsOnlyBucketZero`. */
    method SearchCacheBlock(ino: nat) returns (cb: Option<nat>)
      requires Chained(Snap())
      ensures cb == SfsCore.SearchCacheBlock(Snap(), ino)
    {
      var chain := blockChains[Hash32(ino)];
      var i: nat := 0;
      while i < |chain| && chain[i] != ino
        invariant i <= |chain| && ino !in chain[..i]
      {
        i := i + 1;
      }
      assert chain == chain[..i] + chain[i..];
      return if i < |chain| then Some(chain[i]) else None;
    }

    // ---------- the block index ----------

    /** The arm that calls search_cache_block is dead: every caller shows that a slot which is not zero holds the
        number of the cached block. */
    method UpdateCache(cb: Option<nat>, ino: nat) returns (r: Res<nat>)
      requires Chained(Snap()) && NoSearch(cb, ino)
      modifies this`nextIno, this`unused, this`blocks, this`blockChains
      ensures match r
              case Ok(b) => SfsCore.UpdateCache(old(Snap()), cb, ino) == Ok((Snap(), b))
              case Bug(reason) => SfsCore.UpdateCache(old(Snap()), cb, ino) == Bug(reason)
    {
      if ino == 0 {
        r := AllocCacheBlock(0);
      } else {
        if cb.None? || cb.value != ino {
          assert false;
        }
        r := Ok(ino);
      }
    }

    method AppendDirect(h: nat, size: nat, ino: nat) returns (r: Outcome)
      requires h in inodes
      modifies this`inodes
      ensures match r
              case Pass => SfsCore.AppendDirect(old(Snap()), h, size, ino) == Ok(Snap())
              case Fail(reason) => SfsCore.AppendDirect(old(Snap()), h, size, ino) == Bug(reason)
    {
      var ci := inodes[h];
      if ci.nblks >= |ci.inode.direct| {
        return Fail(AssertionFailed);
      }
      ci := ci.(inode := ci.inode.(direct := ci.inode.direct[ci.nblks := ino]));
      inodes := inodes[h := Appended(ci, size)];
      return Pass;
    }

    method AppendIndirect(h: nat, size: nat, ino: nat) returns (r: Outcome)
      requires Chained(Snap()) && h in inodes && L0 <= inodes[h].nblks < L1 && AppendNeverSearches(Snap(), h)
      modifies this`nextIno, this`unused, this`blocks, this`blockChains, this`inodes
      ensures match r
              case Pass => SfsCore.AppendIndirect(old(Snap()), h, size, ino) == Ok(Snap())
              case Fail(reason) => SfsCore.AppendIndirect(old(Snap()), h, size, ino) == Bug(reason)
    {
      var ci := inodes[h];
      var cached := UpdateCache(ci.l1, ci.inode.indirect);
      if cached.Bug? {
        return Fail(cached.reason);
      }
      var b := cached.value;
      ci := ci.(l1 := Some(b), inode := ci.inode.(indirect := b));
      blocks := Set(blocks, b, ci.nblks - L0, ino);
      inodes := inodes[h := Appended(ci, size)];
      return Pass;
    }

    method UpdateBoth(l2: Option<nat>, db: nat, l1: Option<nat>, k: nat) returns (r: Res<(nat, nat)>)
      requires Chained(Snap()) && NeitherSearches(Snap(), l2, db, l1, k)
      modifies this`nextIno, this`unused, this`blocks, this`blockChains
      ensures match r
              case Ok(b) => SfsCore.UpdateBoth(old(Snap()), l2, db, l1, k) == Ok((Snap(), b.0, b.1))
              case Bug(reason) => SfsCore.UpdateBoth(old(Snap()), l2, db, l1, k) == Bug(reason)
    {
      var b2 :- UpdateCache(l2, db);
      var b1 :- UpdateCache(l1, Get(blocks, b2, k));
      return Ok((b2, b1));
    }

    method AppendDouble(h: nat, size: nat, ino: nat) returns (r: Outcome)
      requires Chained(Snap()) && h in inodes && L1 <= inodes[h].nblks < LN && AppendNeverSearches(Snap(), h)
      modifies this`nextIno, this`unused, this`blocks, this`blockChains, this`inodes
      ensures match r
              case Pass => SfsCore.AppendDouble(old(Snap()), h, size, ino) == Ok(Snap())
              case Fail(reason) => SfsCore.AppendDouble(old(Snap()), h, size, ino) == Bug(reason)
    {
      var ci := inodes[h];
      var m := ci.nblks - L1;
      var both := UpdateBoth(ci.l2, ci.inode.dbIndirect, ci.l1, m / NENTRY);
      if both.Bug? {
        return Fail(both.reason);
      }
      var (b2, b1) := both.value;
      ci := ci.(l1 := Some(b1), l2 := Some(b2), inode := ci.inode.(dbIndirect := b2));
      blocks := Set(Set(blocks, b2, m / NENTRY, b1), b1, m % NENTRY, ino);
      inodes := inodes[h := Appended(ci, size)];
      return Pass;
    }

    method AppendBlock(h: nat, size: nat, ino: nat) returns (r: Outcome)
      requires Chained(Snap()) && h in inodes && size <= BLKSIZE && AppendNeverSearches(Snap(), h)
      modifies this`nextIno, this`unused, this`blocks, this`blockChains, this`inodes
      ensures match r
              case Pass => SfsCore.AppendBlock(old(Snap()), h, size, ino) == Ok(Snap())
              case Fail(reason) => SfsCore.AppendBlock(old(Snap()), h, size, ino) == Bug(reason)
    {
      var n := inodes[h].nblks;
      if n >= LN {
        return Fail(FileTooBig);
      }
      if n < L0 {
        r := AppendDirect(h, size, ino);
      } else if n < L1 {
        r := AppendIndirect(h, size, ino);
      } else {
        r := AppendDouble(h, size, ino);
      }
    }

    /** write_block: what its assertion demands is what every caller must show. */
    method WriteBlock(bytes: seq<byte>, ino: nat)
      requires |bytes| <= BLKSIZE && ino < ninos
      modifies this`disk
      ensures disk == Written(old(disk), ino, Pad(bytes))
    {
      disk := Written(disk, ino, Pad(bytes));
    }

    /** A block is allocated and written. */
    method AllocAndWrite(bytes: seq<byte>) returns (r: Res<nat>)
      requires |bytes| <= BLKSIZE
      modifies this`nextIno, this`unused, this`disk
      ensures r == if old(nextIno) < ninos then Ok(old(nextIno)) else Bug(OutOfSpace)
      ensures r.Ok? ==> Snap() == WithData(old(Snap()), bytes)
    {
      var ino :- AllocIno();
      WriteBlock(bytes, ino);
      return Ok(ino);
    }

    /** The same, to be the next block of h. */
    method NewData(h: nat, bytes: seq<byte>) returns (r: Res<nat>)
      requires Good() && h in view && |bytes| <= BLKSIZE
      modifies this
      ensures match r
              case Ok(ino) =>
                && Good() && view == old(view) && links == old(links) && old(nextIno) < ninos
                && nextIno == old(nextIno) + 1
                && ino in disk && disk[ino] == Pad(bytes) && DataBlock(disk, owner, h, |view[h].data|, ino, Pad(bytes))
              case Bug(reason) => reason == OutOfSpace && old(nextIno) >= ninos
    {
      if nextIno < ninos {
        WriteKeeps(Snap(), owner, view, h, |view[h].data|, bytes);
        owner := Given(owner, nextIno, Data(h, |view[h].data|));
      }
      r := AllocAndWrite(bytes);
    }

    /** append_block on a block that was allocated and written to be the next block of h. */
    method AppendNext(h: nat, size: nat, ino: nat) returns (r: Outcome, ghost owner': Owner, ghost view': View)
      requires Good() && h in view && size <= BLKSIZE && nextIno > 0
      requires ino in disk && DataBlock(disk, owner, h, |view[h].data|, ino, disk[ino])
      modifies this`nextIno, this`unused, this`blocks, this`blockChains, this`inodes
      ensures Adds(ninos, old(nextIno) - 1, view, r, nextIno, view', h, size, [disk[ino]])
      ensures r.Pass? ==> Holds(owner', view')
      ensures links == old(links)
    {
      view' := Extended(view, h, size, [disk[ino]]);
      owner' := AppendAdds(Snap(), owner, view, h, size, ino);
      r := AppendBlock(h, size, ino);
      if r.Pass? {
        CountsKept(old(inodes), inodes, view, view', links);
      }
    }

    /** The same, with the view of the file. */
    method AppendData(h: nat, size: nat, ino: nat) returns (r: Outcome)
      requires Good() && h in view && size <= BLKSIZE && nextIno > 0
      requires ino in disk && DataBlock(disk, owner, h, |view[h].data|, ino, disk[ino])
      modifies this`nextIno, this`unused, this`blocks, this`blockChains, this`inodes, this`view, this`owner
      ensures Adds(ninos, old(nextIno) - 1, old(view), r, nextIno, view, h, size, [old(disk)[ino]])
      ensures r.Pass? ==> Good() && links == old(links)
    {
      ghost var owner', view' := owner, view;
      r, owner', view' := AppendNext(h, size, ino);
      if r.Pass? {
        Show(owner', view');
      }
    }

    ghost method Show(owner': Owner, view': View)
      requires Holds(owner', view')
      modifies this`view, this`owner
      ensures Good() && view == view' && owner == owner' && nextIno == old(nextIno) && links == old(links)
    {
      view, owner := view', owner';
    }

    /** Allocate a block, write it, append it to file h. */
    method AddBlock(h: nat, bytes: seq<byte>, size: nat) returns (r: Outcome)
      requires Good() && h in view && |bytes| <= BLKSIZE && size <= BLKSIZE
      modifies this
      ensures Adds(ninos, old(nextIno), old(view), r, nextIno, view, h, size, [Pad(bytes)])
      ensures r.Pass? ==> Good() && links == old(links)
    {
      SpanOne(|view[h].data|);
      var data := NewData(h, bytes);
      if data.Bug? {
        return Fail(data.reason);
      }
      r := AppendData(h, size, data.value);
    }

    // ---------- entries, files and links ----------

    /** The block of an entry. */
    method WriteEntry(current: nat, file: nat, name: seq<byte>) returns (r: Outcome, ghost block: seq<byte>)
      requires Good() && current in view && file in view && |name| <= MAX_FNAME_LEN && NoNul(name)
      modifies this
      ensures EntryIs(block, file, Stored(name))
      ensures Adds(ninos, old(nextIno), old(view), r, nextIno, view, current, NAME_SIZE, [block])
      ensures r.Pass? ==> Good() && links == old(links)
    {
      assert file in owner;
      ghost var fs := Snap();
      EntryReads(nameBuffer, file, name);
      nameBuffer := CopyName(nameBuffer, name);
      SameNames(fs, owner, view, nameBuffer);
      var bytes := LE32(file) + nameBuffer[..KEPT_NAME];
      block := Pad(bytes);
      r := AddBlock(current, bytes, NAME_SIZE);
    }

    method AddEntry(current: nat, file: nat, name: seq<byte>) returns (r: Outcome, ghost block: seq<byte>)
      requires Good() && current in view && view[current].kind == TYPE_DIR && file in view
      requires |name| <= MAX_FNAME_LEN && NoNul(name)
      modifies this
      ensures EntryIs(block, file, Stored(name))
      ensures Adds(ninos, old(nextIno), old(view), r, nextIno, view, current, NAME_SIZE, [block])
      ensures r.Pass? ==> Good() && links == OneMore(old(links), file)
    {
      r, block := WriteEntry(current, file, name);
      if r.Pass? {
        CountLink(file);
      }
    }

    /** One more entry names the file. */
    method CountLink(file: nat)
      requires Good() && file in view
      modifies this`inodes, this`links
      ensures Good() && links == OneMore(old(links), file)
      ensures nextIno == old(nextIno) && view == old(view)
    {
      LinkCountKeeps(Snap(), owner, view, file);
      OneMoreCounts(inodes, view, links, file);
      inodes := inodes[file := OneMoreLink(inodes[file])];
      links := OneMore(links, file);
    }

    /** One turn of the read loop, after the blocks `done` were added to what next0 and view0 describe. */
    method AddChunk(h: nat, c: seq<byte>, ghost next0: nat, ghost view0: View, ghost size: nat,
                    ghost done: seq<seq<byte>>)
      returns (r: Outcome, ghost size': nat, ghost done': seq<seq<byte>>)
      requires Good() && h in view0 && h in view && |c| <= BLKSIZE
      requires Adds(ninos, next0, view0, Pass, nextIno, view, h, size, done)
      modifies this
      ensures size' == size + |c| && done' == done + [Pad(c)]
      ensures r.Pass? ==> Good() && h in view && links == old(links)
      ensures r.Pass? ==> Adds(ninos, next0, view0, Pass, nextIno, view, h, size', done')
      ensures r.Fail? ==> Adds(ninos, next0, view0, r, nextIno, view, h, size', done')
    {
      ghost var next1, view1 := nextIno, view;
      r := AddBlock(h, c, |c|);
      AddsTwice(ninos, next0, view0, Pass, next1, view1, r, nextIno, view, h, size, done, |c|, [Pad(c)]);
      size', done' := size + |c|, done + [Pad(c)];
    }

    /** The read loop; its assertion, that only the last read is short, is proved here. */
    method OpenFile(h: nat, bytes: seq<byte>) returns (r: Outcome)
      requires Good() && h in view
      modifies this
      ensures Adds(ninos, old(nextIno), old(view), r, nextIno, view, h, |bytes|, Chunks(bytes))
      ensures r.Pass? ==> Good() && links == old(links)
    {
      ghost var next0, view0, done := nextIno, view, [];
      ghost var size: nat := 0;
      var rest, last := bytes, BLKSIZE;
      r := Pass;
      LengthBound(Snap(), owner, view, h);
      NothingAdded(ninos, nextIno, view, h, bytes);
      while rest != []
        invariant Good() && h in view && size + |rest| == |bytes| && r == Pass && links == old(links)
        invariant rest != [] ==> last == BLKSIZE
        invariant Chunks(bytes) == done + Chunks(rest)
        invariant Adds(ninos, next0, view0, Pass, nextIno, view, h, size, done)
        decreases |rest|
      {
        assert last == BLKSIZE;
        r, rest, last, size, done := AddNext(h, bytes, rest, next0, view0, size, done);
        if r.Fail? {
          return;
        }
      }
      AllAdded(bytes, done);
    }

    /** One turn of the loop: the next read fills a block, or reaches the end of the file. */
    method AddNext(h: nat, ghost bytes: seq<byte>, rest: seq<byte>, ghost next0: nat, ghost view0: View,
                   ghost size: nat, ghost done: seq<seq<byte>>)
      returns (r: Outcome, rest': seq<byte>, last: nat, ghost size': nat, ghost done': seq<seq<byte>>)
      requires Good() && h in view0 && h in view && rest != [] && size + |rest| == |bytes|
      requires Chunks(bytes) == done + Chunks(rest)
      requires Adds(ninos, next0, view0, Pass, nextIno, view, h, size, done)
      modifies this
      ensures |rest'| < |rest| && size' + |rest'| == |bytes| && (rest' != [] ==> last == BLKSIZE)
      ensures Chunks(bytes) == done' + Chunks(rest')
      ensures r.Pass? ==> Good() && h in view && links == old(links)
      ensures r.Pass? ==> Adds(ninos, next0, view0, Pass, nextIno, view, h, size', done')
      ensures r.Fail? ==> Adds(ninos, next0, view0, r, nextIno, view, h, |bytes|, Chunks(bytes))
    {
      var c := Chunk(rest);
      ChunksStep(bytes, done, rest);
      rest', last := rest[|c|..], |c|;
      r, size', done' := AddChunk(h, c, next0, view0, size, done);
      if r.Fail? {
        MoreFails(ninos, next0, view0, r, nextIno, view, h, size', done', |bytes|, Chunks(rest'));
      }
    }

    method OpenLink(h: nat, text: seq<byte>) returns (r: Outcome)
      requires Good() && h in view
      modifies this
      ensures |text| < BLKSIZE ==> Adds(ninos, old(nextIno), old(view), r, nextIno, view, h, |text|, [Pad(text)])
      ensures |text| >= BLKSIZE ==> r.Fail? && Honest(r.reason)
      ensures r.Pass? ==> Good() && links == old(links)
    {
      if |text| >= BLKSIZE {
        return Fail(if nextIno < ninos then LinkTooLong else OutOfSpace);
      }
      r := AddBlock(h, text, |text|);
    }

    // ---------- inodes ----------

    /** Number 0 asks for a fresh one. */
    method AllocCacheInode(realIno: nat, arg: nat, kind: nat) returns (r: Res<nat>)
      requires |inodeChains| == HASH_LIST_SIZE && |blockChains| == HASH_LIST_SIZE
      modifies this`nextIno, this`unused, this`inodes, this`inodeChains
      ensures arg == 0 && old(nextIno) >= ninos ==> r == Bug(OutOfSpace)
      ensures arg == 0 && old(nextIno) < ninos
              ==> r == Ok(old(nextIno)) && Snap() == WithInode(old(Snap()), realIno, kind)
      ensures arg != 0 ==>
                && r == Ok(arg) && nextIno == old(nextIno) && unused == old(unused)
                && inodes == old(inodes)[arg := CacheInode(SfsCore.NewInode(kind), realIno, 0, None, None)]
                && inodeChains == Push(old(inodeChains), Hash32(realIno), arg)
    {
      var ino := arg;
      if arg == 0 {
        ino :- AllocIno();
      }
      inodes := inodes[ino := CacheInode(SfsCore.NewInode(kind), realIno, 0, None, None)];
      inodeChains := Push(inodeChains, Hash32(realIno), ino);
      return Ok(ino);
    }

    /** A fresh inode. */
    method NewInode(realIno: nat, kind: nat) returns (r: Res<nat>)
      requires Good() && TYPE_FILE <= kind <= TYPE_LINK
      modifies this
      ensures match r
              case Ok(g) =>
                && Good() && g !in old(view) && g in view && view == old(view)[g := FileView(kind, realIno, 0, [])]
                && links == old(links)[g := 0] && nextIno == old(nextIno) + 1 <= ninos
              case Bug(reason) => reason == OutOfSpace && old(nextIno) >= ninos
    {
      NothingAbove(Snap(), owner, view);
      if nextIno < ninos {
        AllocInodeKeeps(Snap(), owner, view, realIno, kind);
        FreshCounts(inodes, view, links, nextIno, CacheInode(SfsCore.NewInode(kind), realIno, 0, None, None),
                    FileView(kind, realIno, 0, []));
        owner := Given(owner, nextIno, AnInode);
        view := view[nextIno := FileView(kind, realIno, 0, [])];
        links := links[nextIno := 0];
      }
      r := AllocCacheInode(realIno, 0, kind);
    }

    method SearchCacheInode(realIno: nat) returns (found: Option<nat>)
      requires Good()
      ensures match found
              case Some(g) => g in view && view[g].realIno == realIno
              case None => forall g :: g in view ==> view[g].realIno != realIno
    {
      var chain := inodeChains[Hash32(realIno)];
      var i: nat := 0;
      ChainHoldsReals(Snap(), owner, view, realIno);
      while i < |chain| && inodes[chain[i]].realIno != realIno
        invariant i <= |chain|
        invariant forall j :: 0 <= j < i ==> inodes[chain[j]].realIno != realIno
      {
        i := i + 1;
      }
      return if i < |chain| then Some(chain[i]) else None;
    }

    /** A new file with its bytes. */
    method MakeFile(realIno: nat, bytes: seq<byte>) returns (r: Res<nat>)
      requires Good()
      modifies this
      ensures match r
              case Ok(g) =>
                && Good() && g !in old(view)
                && view == old(view)[g := FileView(TYPE_FILE, realIno, |bytes|, Chunks(bytes))]
                && links == old(links)[g := 0] && |Chunks(bytes)| <= LN
                && nextIno == old(nextIno) + 1 + Span(0, |Chunks(bytes)|) <= ninos
              case Bug(reason) =>
                && Honest(reason)
                && (|Chunks(bytes)| > LN || old(nextIno) + 1 + Span(0, |Chunks(bytes)|) > ninos)
    {
      var g :- NewInode(realIno, TYPE_FILE);
      ghost var view1 := view;
      var filled := OpenFile(g, bytes);
      if filled.Fail? {
        return Bug(filled.reason);
      }
      ExtendedFresh(old(view), g, TYPE_FILE, realIno, |bytes|, Chunks(bytes));
      return Ok(g);
    }

    /** A new link with its text. */
    method MakeLink(realIno: nat, text: seq<byte>) returns (r: Res<nat>)
      requires Good()
      modifies this
      ensures match r
              case Ok(g) =>
                && Good() && g !in old(view) && |text| < BLKSIZE
                && view == old(view)[g := FileView(TYPE_LINK, realIno, |text|, [Pad(text)])]
                && links == old(links)[g := 0] && nextIno == old(nextIno) + 1 + Span(0, 1) <= ninos
              case Bug(reason) => Honest(reason) && (|text| >= BLKSIZE || old(nextIno) + 1 + Span(0, 1) > ninos)
    {
      var g :- NewInode(realIno, TYPE_LINK);
      var filled := OpenLink(g, text);
      if filled.Fail? {
        return Bug(filled.reason);
      }
      ExtendedFresh(old(view), g, TYPE_LINK, realIno, |text|, [Pad(text)]);
      return Ok(g);
    }

    // ---------- the walk ----------

    /** A regular file: hard links share the inode of the first one. */
    method AddFile(current: nat, name: seq<byte>, node: Node, ghost host: Host, ghost open: set<nat>)
      returns (r: Outcome, ghost added: seq<seq<byte>>)
      requires Good() && Walking(view, host, open, current) && node.File? && HostedNode(host, node)
      requires |name| <= MAX_FNAME_LEN && NoNul(name) && !Hidden(name)
      modifies this
      ensures NodeAdded(ninos, old(nextIno), old(view), r, nextIno, view, host, open, current, name, node, added)
      ensures r.Pass? ==> Good() && LinksWalked(old(view), old(links), view, links, host, current, One(name, node))
    {
      ghost var next0, view0, links0 := nextIno, view, links;
      ghost var block: seq<byte>;
      var found := SearchCacheInode(node.realIno);
      match found {
        case Some(g) =>
          LengthBound(Snap(), owner, view, g);
          r, block := AddEntry(current, g, name);
          SharedFile(ninos, next0, view0, r, nextIno, view, host, open, current, name, node, g, block);
          if r.Pass? {
            SharedFileLinks(ninos, next0, view0, links0, nextIno, view, host, open, current, name, node, g, block);
          }
        case None =>
          var made := MakeFile(node.realIno, node.bytes);
          UnseenFile(view0, node.realIno);
          if made.Bug? {
            return Fail(made.reason), [];
          }
          ghost var next1 := nextIno;
          r, block := AddEntry(current, made.value, name);
          NewChild(ninos, next0, view0, next1, r, nextIno, view, host, open, current, name, node, made.value,
                   FileView(TYPE_FILE, node.realIno, |node.bytes|, Chunks(node.bytes)), block);
          if r.Pass? {
            NewChildLinks(ninos, next0, view0, links0, next1, nextIno, view, host, open, current, name, node,
                          made.value, FileView(TYPE_FILE, node.realIno, |node.bytes|, Chunks(node.bytes)), block);
          }
      }
      added := [block];
    }

    method AddLink(current: nat, name: seq<byte>, node: Node, ghost host: Host, ghost open: set<nat>)
      returns (r: Outcome, ghost added: seq<seq<byte>>)
      requires Good() && Walking(view, host, open, current) && node.Link? && HostedNode(host, node)
      requires |name| <= MAX_FNAME_LEN && NoNul(name) && !Hidden(name)
      modifies this
      ensures NodeAdded(ninos, old(nextIno), old(view), r, nextIno, view, host, open, current, name, node, added)
      ensures r.Pass? ==> Good() && LinksWalked(old(view), old(links), view, links, host, current, One(name, node))
    {
      ghost var next0, view0, links0 := nextIno, view, links;
      ghost var block: seq<byte>;
      var made := MakeLink(node.realIno, node.text);
      if made.Bug? {
        return Fail(made.reason), [];
      }
      ghost var next1 := nextIno;
      r, block := AddEntry(current, made.value, name);
      NewChild(ninos, next0, view0, next1, r, nextIno, view, host, open, current, name, node, made.value,
               FileView(TYPE_LINK, node.realIno, |node.text|, [Pad(node.text)]), block);
      if r.Pass? {
        NewChildLinks(ninos, next0, view0, links0, next1, nextIno, view, host, open, current, name, node, made.value,
                      FileView(TYPE_LINK, node.realIno, |node.text|, [Pad(node.text)]), block);
      }
      added := [block];
    }

    /** A directory: its assertion that no inode exists for it is proved here. */
    method AddDir(parent: nat, name: seq<byte>, node: Node, ghost host: Host, ghost open: set<nat>)
      returns (r: Outcome, ghost added: seq<seq<byte>>)
      requires Good() && Walking(view, host, open, parent) && node.Dir? && HostedNode(host, node) && OnceNode(node)
      requires |name| <= MAX_FNAME_LEN && NoNul(name) && !Hidden(name) && Unvisited(view, DirsOf(node))
      modifies this
      ensures NodeAdded(ninos, old(nextIno), old(view), r, nextIno, view, host, open, parent, name, node, added)
      ensures r.Pass? ==> Good() && LinksWalked(old(view), old(links), view, links, host, parent, One(name, node))
      decreases node, 3
    {
      ghost var next0, view0, links0 := nextIno, view, links;
      ghost var filled: seq<seq<byte>>, block: seq<byte> := [], [];
      added := [];
      var found := SearchCacheInode(node.realIno);
      assert found == None;
      var made := NewInode(node.realIno, TYPE_DIR);
      if made.Bug? {
        return Fail(made.reason), [];
      }
      var current := made.value;
      ghost var view1 := view;
      EmptyDir(view0, host, open, parent, node, current);
      r, filled := OpenDir(current, parent, node.entries, host, open + {current});
      ghost var next2, view2, links2 := nextIno, view, links;
      if r.Fail? {
        DirFails(ninos, next0, view0, r, next2, view2, host, open, parent, name, node, current, filled);
        return;
      }
      DirOpen(ninos, next0 + 1, view1, next2, view2, host, open, current, parent, node, filled);
      r, block := AddEntry(parent, current, name);
      DirEnds(ninos, next0, view0, next2, view2, r, nextIno, view, host, open, parent, name, node, current, filled,
              block);
      if r.Pass? {
        DirEndsLinks(ninos, next0, view0, links0, next2, view2, links2, nextIno, view, host, open, parent, name, node,
                     current, filled, block);
      }
      added := [block];
    }

    /** The entries "." and "..". */
    method AddDots(current: nat, parent: nat) returns (r: Outcome, ghost b0: seq<byte>, ghost b1: seq<byte>)
      requires Good() && current in view && view[current].kind == TYPE_DIR && parent in view
      modifies this
      ensures Adds(ninos, old(nextIno), old(view), r, nextIno, view, current, NAME_SIZE + NAME_SIZE, [b0] + [b1])
      ensures r.Pass? ==> Good() && EntryIs(b0, current, [DOT]) && EntryIs(b1, parent, [DOT, DOT])
      ensures r.Pass? ==> links == OneMore(OneMore(old(links), current), parent)
    {
      ghost var next0, view0 := nextIno, view;
      r, b0 := AddEntry(current, current, [DOT]);
      if r.Fail? {
        b1 := b0;
        MoreFails(ninos, next0, view0, r, nextIno, view, current, NAME_SIZE, [b0], NAME_SIZE + NAME_SIZE, [b1]);
        return;
      }
      r, b1 := AddDotDot(current, parent, next0, view0, b0);
    }

    /** The entry "..", after "." was added in the state that next0 and view0 describe. */
    method AddDotDot(current: nat, parent: nat, ghost next0: nat, ghost view0: View, ghost b0: seq<byte>)
      returns (r: Outcome, ghost b1: seq<byte>)
      requires Good() && current in view && view[current].kind == TYPE_DIR && parent in view && current in view0
      requires Adds(ninos, next0, view0, Pass, nextIno, view, current, NAME_SIZE, [b0])
      modifies this
      ensures Adds(ninos, next0, view0, r, nextIno, view, current, NAME_SIZE + NAME_SIZE, [b0] + [b1])
      ensures r.Pass? ==> Good() && EntryIs(b1, parent, [DOT, DOT]) && links == OneMore(old(links), parent)
    {
      ghost var next1, view1 := nextIno, view;
      var name := [DOT, DOT];
      DotNames();
      r, b1 := AddEntry(current, parent, name);
      AddsTwice(ninos, next0, view0, Pass, next1, view1, r, nextIno, view, current, NAME_SIZE, [b0], NAME_SIZE, [b1]);
    }

    method OpenDir(current: nat, parent: nat, es: Entries, ghost host: Host, ghost open: set<nat>)
      returns (r: Outcome, ghost added: seq<seq<byte>>)
      requires Good() && Walking(view, host, open, current) && parent in view
      requires view[current].data == [] && Hosted(host, es) && Once(es) && Unvisited(view, Dirs(es))
      modifies this
      ensures DirFilled(ninos, old(nextIno), old(view), r, nextIno, view, host, open, current, parent, es, added)
      ensures r.Pass? ==> Good()
      ensures r.Pass? ==> LinksWalked(old(view), OneMore(OneMore(old(links), current), parent), view, links, host,
                                      current, es)
      decreases es, 2
    {
      ghost var next0, view0 := nextIno, view;
      ghost var b0, b1, more;
      added := [];
      r, b0, b1 := AddDots(current, parent);
      ghost var next1, view1, links1 := nextIno, view, links;
      if r.Fail? {
        DotFails(ninos, next0, view0, r, next1, view1, host, open, current, parent, es, [b0] + [b1]);
        return;
      }
      DotsDone(ninos, next0, view0, next1, view1, host, open, current, es, b0, b1);
      r, more := Walk(current, es, host, open);
      added := DirDone(ninos, next0, view0, next1, view1, r, nextIno, view, host, open, current, parent, es, b0, b1,
                       more);
      if r.Pass? {
        SameKeysLinks(view0, view1, links1, view, links, host, current, es);
      }
    }

    /** The body of the readdir loop: one entry of the host directory. */
    method EnterOne(current: nat, name: seq<byte>, node: Node, ghost host: Host, ghost open: set<nat>)
      returns (r: Outcome, ghost one: seq<seq<byte>>)
      requires Good() && Walking(view, host, open, current) && NoNul(name)
      requires Hidden(name) || (HostedNode(host, node) && OnceNode(node) && Unvisited(view, DirsOf(node)))
      modifies this
      ensures EntriesAdded(ninos, old(nextIno), old(view), r, nextIno, view, host, open, current, One(name, node), one)
      ensures r.Pass? ==> Good() && LinksWalked(old(view), old(links), view, links, host, current, One(name, node))
      decreases node, 5
    {
      ghost var next0, view0 := nextIno, view;
      if Hidden(name) {
        LengthBound(Snap(), owner, view, current);
        HiddenSkipped(ninos, nextIno, view, host, open, current, name, node);
        SkippedLinks(view, links, host, current, name, node);
        return Pass, [];
      }
      if |name| > MAX_FNAME_LEN {
        NameRefused(ninos, nextIno, view, host, open, current, name, node);
        return Fail(NameTooLong), [];
      }
      r, one := AddNode(current, name, node, host, open);
      NodeIsOne(ninos, next0, view0, r, nextIno, view, host, open, current, name, node, one);
    }

    /** One turn of the loop, after the entries `done` were taken in the state that next0 and view0 describe. */
    method EnterNext(current: nat, rest: Entries, ghost host: Host, ghost open: set<nat>, ghost next0: nat,
                     ghost view0: View, ghost links0: Links, ghost done: Entries, ghost added: seq<seq<byte>>)
      returns (r: Outcome, ghost done': Entries, ghost added': seq<seq<byte>>)
      requires Good() && Walking(view, host, open, current) && rest.Cons? && current in view0
      requires Hosted(host, rest) && Once(rest) && Unvisited(view, Dirs(rest))
      requires EntriesAdded(ninos, next0, view0, Pass, nextIno, view, host, open, current, done, added)
      requires LinksWalked(view0, links0, view, links, host, current, done)
      modifies this
      ensures done' == Append(done, One(rest.name, rest.node))
      ensures EntriesAdded(ninos, next0, view0, r, nextIno, view, host, open, current, done', added')
      ensures r.Pass? ==> Good() && Walking(view, host, open, current) && Unvisited(view, Dirs(rest.rest))
      ensures r.Pass? ==> LinksWalked(view0, links0, view, links, host, current, done')
      decreases rest, 0
    {
      ghost var next1, view1, links1, one := nextIno, view, links, [];
      done' := Append(done, One(rest.name, rest.node));
      r, one := EnterOne(current, rest.name, rest.node, host, open);
      added' := EntriesTwice(ninos, next0, view0, next1, view1, r, nextIno, view, host, open, current, done, added,
                             One(rest.name, rest.node), one);
      if r.Pass? {
        OneDone(ninos, next1, view1, nextIno, view, host, open, current, rest, one);
        EntriesLinks(ninos, next0, view0, links0, next1, view1, links1, nextIno, view, links, host, open, current,
                     done, added, One(rest.name, rest.node), one);
      }
    }

    /** The readdir loop. */
    method Walk(current: nat, es: Entries, ghost host: Host, ghost open: set<nat>)
      returns (r: Outcome, ghost added: seq<seq<byte>>)
      requires Good() && Walking(view, host, open, current)
      requires Hosted(host, es) && Once(es) && Unvisited(view, Dirs(es))
      modifies this
      ensures EntriesAdded(ninos, old(nextIno), old(view), r, nextIno, view, host, open, current, es, added)
      ensures r.Pass? ==> Good() && LinksWalked(old(view), old(links), view, links, host, current, es)
      decreases es, 1
    {
      ghost var next0, view0, links0, done := nextIno, view, links, Nil;
      var rest := es;
      r, added := Pass, [];
      LengthBound(Snap(), owner, view, current);
      NothingToWalk(ninos, nextIno, view, host, open, current);
      NothingLinked(view, links, host, current);
      while rest.Cons?
        invariant Good() && Walking(view, host, open, current) && r == Pass
        invariant Hosted(host, rest) && Once(rest) && Unvisited(view, Dirs(rest))
        invariant Append(done, rest) == es && (rest == es || rest < es)
        invariant EntriesAdded(ninos, next0, view0, Pass, nextIno, view, host, open, current, done, added)
        invariant LinksWalked(view0, links0, view, links, host, current, done)
        decreases rest
      {
        AppendAssoc(done, One(rest.name, rest.node), rest.rest);
        r, done, added := EnterNext(current, rest, host, open, next0, view0, links0, done, added);
        if r.Fail? {
          MoreEntriesFail(ninos, next0, view0, r, nextIno, view, host, open, current, done, added, rest.rest);
          return;
        }
        rest := rest.rest;
      }
      AppendNil(done);
    }

    method AddNode(current: nat, name: seq<byte>, node: Node, ghost host: Host, ghost open: set<nat>)
      returns (r: Outcome, ghost added: seq<seq<byte>>)
      requires Good() && Walking(view, host, open, current) && HostedNode(host, node) && OnceNode(node)
      requires |name| <= MAX_FNAME_LEN && NoNul(name) && !Hidden(name) && Unvisited(view, DirsOf(node))
      modifies this
      ensures NodeAdded(ninos, old(nextIno), old(view), r, nextIno, view, host, open, current, name, node, added)
      ensures r.Pass? ==> Good() && LinksWalked(old(view), old(links), view, links, host, current, One(name, node))
      decreases node, 4
    {
      match node {
        case File(_, _) => r, added := AddFile(current, name, node, host, open);
        case Link(_, _) => r, added := AddLink(current, name, node, host, open);
        case Dir(_, _) => r, added := AddDir(current, name, node, host, open);
        case Other =>
          LengthBound(Snap(), owner, view, current);
          OtherSkipped(ninos, nextIno, view, host, open, current, name, node);
          SkippedLinks(view, links, host, current, name, node);
          return Pass, [];
      }
    }
  }
}

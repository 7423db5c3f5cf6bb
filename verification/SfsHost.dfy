/** A host directory, and when inodes stand for its objects. */
module SfsHost {
  import opened Common
  import opened SfsCore
  import opened SfsInvariant
  import opened SfsEntry
  import opened SfsSteps

  /** A host directory as readdir lists it. Every object carries its host inode number; Other is
      anything that is neither a directory, a regular file nor a symbolic link. */
  datatype Node =
    | File(realIno: nat, bytes: seq<byte>)
    | Link(realIno: nat, text: seq<byte>)
    | Dir(realIno: nat, entries: Entries)
    | Other

  datatype Entries = Nil | Cons(name: seq<byte>, node: Node, rest: Entries)

  /** Names with a leading dot, "." and ".." among them, are passed over. */
  predicate Hidden(name: seq<byte>) {
    |name| > 0 && name[0] == DOT
  }

  // ---------- what the host promises ----------

  function KindOf(node: Node): nat {
    match node
    case File(_, _) => TYPE_FILE
    case Dir(_, _) => TYPE_DIR
    case Link(_, _) => TYPE_LINK
    case Other => 0
  }

  type Host = map<nat, Node>

  /** Every visible object is the one that its host inode number stands for, and names are C strings. */
  ghost predicate HostedNode(host: Host, node: Node) {
    match node
    case File(r, _) => r in host && host[r] == node
    case Link(r, _) => r in host && host[r] == node
    case Dir(r, es) => r in host && host[r] == node && Hosted(host, es)
    case Other => true
  }

  ghost predicate Hosted(host: Host, es: Entries) {
    match es
    case Nil => true
    case Cons(name, node, rest) => NoNul(name) && (Hidden(name) || HostedNode(host, node)) && Hosted(host, rest)
  }

  /** The host inode numbers of the visible directories. */
  function DirsOf(node: Node): set<nat> {
    match node
    case Dir(r, es) => {r} + Dirs(es)
    case _ => {}
  }

  function Dirs(es: Entries): set<nat> {
    match es
    case Nil => {}
    case Cons(name, node, rest) => (if Hidden(name) then {} else DirsOf(node)) + Dirs(rest)
  }

  /** No directory is visible twice. */
  ghost predicate OnceNode(node: Node) {
    match node
    case Dir(r, es) => r !in Dirs(es) && Once(es)
    case _ => true
  }

  ghost predicate Once(es: Entries) {
    match es
    case Nil => true
    case Cons(name, node, rest) => (Hidden(name) || (OnceNode(node) && DirsOf(node) !! Dirs(rest))) && Once(rest)
  }

  lemma {:induction false} HostedDirsOf(host: Host, node: Node, r: nat)
    requires HostedNode(host, node) && r in DirsOf(node)
    ensures r in host && host[r].Dir?
  {
    if node.Dir? && r != node.realIno {
      HostedDirs(host, node.entries, r);
    }
  }

  lemma {:induction false} HostedDirs(host: Host, es: Entries, r: nat)
    requires Hosted(host, es) && r in Dirs(es)
    ensures r in host && host[r].Dir?
  {
    if !Hidden(es.name) && r in DirsOf(es.node) {
      HostedDirsOf(host, es.node, r);
    } else {
      HostedDirs(host, es.rest, r);
    }
  }

  // ---------- an inode stands for a host object ----------

  ghost predicate IsFile(v: FileView, node: Node) {
    node.File? && v.size == |node.bytes| && v.data == Chunks(node.bytes)
  }

  ghost predicate IsLink(v: FileView, node: Node) {
    node.Link? && |node.text| < BLKSIZE && v.size == |node.text| && v.data == [Pad(node.text)]
  }

  ghost predicate EntryIs(block: seq<byte>, ino: nat, name: seq<byte>) {
    |block| == BLKSIZE && EntryIno(block) == ino && EntryName(block) == name
  }

  /** Inode h, found in directory `parent`, stands for the node; directories in `open` are still being filled. */
  ghost predicate RepNode(view: View, open: set<nat>, h: nat, parent: nat, node: Node)
    decreases node, 1
  {
    && h in view && h !in open && view[h].kind == KindOf(node)
    && match node
       case File(r, _) => view[h].realIno == r && IsFile(view[h], node)
       case Link(r, _) => view[h].realIno == r && IsLink(view[h], node)
       case Dir(r, es) =>
         var data := view[h].data;
         && view[h].realIno == r && |data| >= 2 && view[h].size == NAME_SIZE * |data|
         && EntryIs(data[0], h, [DOT]) && EntryIs(data[1], parent, [DOT, DOT])
         && RepEntries(view, open, h, es, data[2..])
       case Other => false
  }

  /** The entry blocks `data` of directory `dir` list the visible objects in order. */
  ghost predicate RepEntries(view: View, open: set<nat>, dir: nat, es: Entries, data: seq<seq<byte>>)
    decreases es, 0
  {
    match es
    case Nil => data == []
    case Cons(name, node, rest) =>
      if Hidden(name) || node.Other? then RepEntries(view, open, dir, rest, data)
      else
        && |data| > 0 && |data[0]| == BLKSIZE && EntryName(data[0]) == Stored(name)
        && RepNode(view, open, EntryIno(data[0]), dir, node)
        && RepEntries(view, open, dir, rest, data[1..])
  }

  /** Inodes outside `open` are as before. */
  ghost predicate Settled(view: View, view': View, open: set<nat>) {
    forall g :: g in view && g !in open ==> g in view' && view'[g] == view[g]
  }

  lemma {:induction false} RepNodeStays(view: View, open: set<nat>, view': View, open': set<nat>, h: nat, parent: nat,
                                        node: Node)
    requires RepNode(view, open, h, parent, node) && Settled(view, view', open) && open' <= open
    ensures RepNode(view', open', h, parent, node)
    decreases node, 1
  {
    if node.Dir? {
      RepEntriesStay(view, open, view', open', h, node.entries, view[h].data[2..]);
    }
  }

  lemma {:induction false} RepEntriesStay(view: View, open: set<nat>, view': View, open': set<nat>, dir: nat,
                                          es: Entries, data: seq<seq<byte>>)
    requires RepEntries(view, open, dir, es, data) && Settled(view, view', open) && open' <= open
    ensures RepEntries(view', open', dir, es, data)
    decreases es, 0
  {
    if es.Cons? {
      if Hidden(es.name) || es.node.Other? {
        RepEntriesStay(view, open, view', open', dir, es.rest, data);
      } else {
        RepNodeStays(view, open, view', open', EntryIno(data[0]), dir, es.node);
        RepEntriesStay(view, open, view', open', dir, es.rest, data[1..]);
      }
    }
  }

  // ---------- what the walk knows about the inodes ----------

  /** An inode other than the root is of the kind of its host object, and a finished file holds its bytes. */
  ghost predicate KnownInode(v: FileView, host: Host) {
    && v.realIno in host && v.kind == KindOf(host[v.realIno])
    && (v.kind == TYPE_FILE ==> IsFile(v, host[v.realIno]))
  }

  /** Two inodes, neither a link, for the same host object. */
  ghost predicate Twins(view: View, a: nat, b: nat) {
    && a in view && b in view && view[a].realIno == view[b].realIno
    && view[a].kind != TYPE_LINK && view[b].kind != TYPE_LINK
  }

  /** Files and directories have one inode per host object; links are never shared. */
  ghost predicate OneInodeEach(view: View) {
    forall a, b {:trigger Twins(view, a, b)} :: Twins(view, a, b) ==> a == b
  }

  ghost predicate Known(view: View, host: Host) {
    && 0 !in host
    && ROOT in view && view[ROOT].kind == TYPE_DIR && view[ROOT].realIno == 0
    && (forall g {:trigger KnownInode(view[g], host)} :: g in view && g != ROOT ==> KnownInode(view[g], host))
    && OneInodeEach(view)
  }

  ghost predicate OpenDirs(view: View, open: set<nat>) {
    forall g :: g in open ==> g in view && view[g].kind == TYPE_DIR
  }

  /** Only `current` and new inodes differ, and `current` gained the blocks `added`. */
  ghost predicate GrowsBy(view: View, view': View, current: nat, added: seq<seq<byte>>) {
    && current in view && current in view'
    && view'[current] == view[current].(size := view[current].size + NAME_SIZE * |added|,
                                        data := view[current].data + added)
    && forall g :: g in view && g != current ==> g in view' && view'[g] == view[g]
  }

  /** New directories are among the given host inode numbers. */
  ghost predicate NewDirsIn(view: View, view': View, dirs: set<nat>) {
    forall g :: g in view' && g !in view && view'[g].kind == TYPE_DIR ==> view'[g].realIno in dirs
  }

  /** None of the directories still to come has an inode. */
  ghost predicate Unvisited(view: View, dirs: set<nat>) {
    forall g :: g in view ==> view[g].realIno !in dirs
  }

  lemma GrowsTwice(view: View, view1: View, view2: View, current: nat, added1: seq<seq<byte>>, added2: seq<seq<byte>>)
    requires GrowsBy(view, view1, current, added1) && GrowsBy(view1, view2, current, added2)
    ensures GrowsBy(view, view2, current, added1 + added2)
  {
    assert view[current].data + added1 + added2 == view[current].data + (added1 + added2);
  }

  // ---------- how much space a host directory takes ----------

  /** The number of entries that the visible objects take. */
  function Ones(node: Node): nat {
    if node.Other? then 0 else 1
  }

  function Count(es: Entries): nat {
    match es
    case Nil => 0
    case Cons(name, node, rest) => (if Hidden(name) then 0 else Ones(node)) + Count(rest)
  }

  /** The host inode numbers of the visible regular files. */
  function FilesOf(node: Node): set<nat> {
    match node
    case File(r, _) => {r}
    case Dir(_, es) => Files(es)
    case _ => {}
  }

  function Files(es: Entries): set<nat> {
    match es
    case Nil => {}
    case Cons(name, node, rest) => (if Hidden(name) then {} else FilesOf(node)) + Files(rest)
  }

  /** The blocks for an object, its own entry apart; a file that was seen before takes none. */
  function NodeBlocks(node: Node, seen: set<nat>): nat {
    match node
    case File(r, bytes) => if r in seen then 0 else 1 + Span(0, |Chunks(bytes)|)
    case Link(_, _) => 1 + Span(0, 1)
    case Dir(_, es) => 1 + Span(0, 2 + Count(es)) + EntryBlocks(es, seen)
    case Other => 0
  }

  function EntryBlocks(es: Entries, seen: set<nat>): nat {
    match es
    case Nil => 0
    case Cons(name, node, rest) =>
      if Hidden(name) then EntryBlocks(rest, seen) else NodeBlocks(node, seen) + EntryBlocks(rest, seen + FilesOf(node))
  }

  /** The limits of the format: names, link texts, file sizes and directory sizes. */
  predicate NodeFits(node: Node) {
    match node
    case File(_, bytes) => |Chunks(bytes)| <= LN
    case Link(_, text) => |text| < BLKSIZE
    case Dir(_, es) => 2 + Count(es) <= LN && Fits(es)
    case Other => true
  }

  predicate Fits(es: Entries) {
    match es
    case Nil => true
    case Cons(name, node, rest) => (Hidden(name) || (|name| <= MAX_FNAME_LEN && NodeFits(node))) && Fits(rest)
  }

  /** The host inode numbers that have a file. */
  ghost function Seen(view: View): set<nat> {
    set g | g in view && view[g].kind == TYPE_FILE :: view[g].realIno
  }

  lemma SeenGrows(view: View, view': View, current: nat, added: seq<seq<byte>>)
    requires GrowsBy(view, view', current, added) && forall g :: g in view' ==> g in view
    ensures Seen(view') == Seen(view)
  {
    assert forall g :: g in view ==> view'[g].kind == view[g].kind && view'[g].realIno == view[g].realIno;
  }

  lemma SeenNew(view: View, g: nat, v: FileView)
    requires g !in view
    ensures Seen(view[g := v]) == Seen(view) + if v.kind == TYPE_FILE then {v.realIno} else {}
  {
    forall r | r in Seen(view) ensures r in Seen(view[g := v]) {
      var x :| x in view && view[x].kind == TYPE_FILE && view[x].realIno == r;
      assert view[g := v][x] == view[x];
    }
    if v.kind == TYPE_FILE {
      assert view[g := v][g].realIno in Seen(view[g := v]);
    }
  }

  lemma SpanSum(n: nat, a: nat, b: nat)
    ensures Span(n, a + b) == Span(n, a) + Span(n + a, b)
  {
    SpanIsSum(n, a, n + a);
    SpanIsSum(n + a, b, n + a + b);
    SpanIsSum(n, a + b, n + a + b);
  }

  /** The index blocks of a file with n blocks: the indirect block, the double-indirect block and those below it. */
  function IndexBlocks(n: nat): nat {
    (if n > L0 then 1 else 0) + (if n > L1 then 1 + (n - L1 + NENTRY - 1) / NENTRY else 0)
  }

  /** The index blocks that adding n blocks one by one takes. */
  function IndexSum(n: nat): nat {
    if n == 0 then 0 else IndexSum(n - 1) + (Need(n - 1) - 1)
  }

  /** A file with n blocks takes n blocks and its index blocks. */
  lemma SpanIsClosed(n: nat)
    ensures Span(0, n) == n + IndexBlocks(n)
  {
    SpanIsSum(0, n, n);
    SumIsClosed(n);
  }

  lemma {:induction false} SpanIsSum(n: nat, k: nat, end: nat)
    requires end == n + k
    ensures IndexSum(n) + Span(n, k) == k + IndexSum(end)
    decreases k
  {
    if k > 0 {
      SpanIsSum(n + 1, k - 1, end);
      assert Span(n, k) == Need(n) + Span(n + 1, k - 1);
    }
  }

  lemma {:induction false} SumIsClosed(n: nat)
    ensures IndexSum(n) == IndexBlocks(n)
  {
    if n > 0 {
      SumIsClosed(n - 1);
      IndexBlocksGrow(n - 1);
    }
  }

  lemma IndexBlocksGrow(n: nat)
    ensures IndexBlocks(n + 1) == IndexBlocks(n) + IndexNeed(n)
  {
    if n > L1 {
      var q, m := (n - L1) / NENTRY, (n - L1) % NENTRY;
      assert n - L1 == NENTRY * q + m;
    }
  }

  // ---------- one more child ----------

  /** Everything a step of the walk in directory `current` keeps: what is known about inodes, and what was there
      before. */
  ghost predicate Walked(view: View, view': View, host: Host, current: nat, dirs: set<nat>, added: seq<seq<byte>>) {
    Known(view', host) && GrowsBy(view, view', current, added) && NewDirsIn(view, view', dirs)
  }

  /** The blocks that one host object added to directory `dir`. */
  ghost predicate RepOne(view: View, open: set<nat>, dir: nat, name: seq<byte>, node: Node, added: seq<seq<byte>>) {
    if node.Other? then added == []
    else
      && |added| == 1 && |added[0]| == BLKSIZE && EntryName(added[0]) == Stored(name)
      && RepNode(view, open, EntryIno(added[0]), dir, node)
  }

  /** More entries in a directory change nothing that is known. */
  lemma KnownGrows(view: View, view': View, host: Host, current: nat, added: seq<seq<byte>>)
    requires Known(view, host) && GrowsBy(view, view', current, added) && view[current].kind == TYPE_DIR
    requires forall g :: g in view' ==> g in view
    ensures Known(view', host)
  {
    forall g | g in view' && g != ROOT ensures KnownInode(view'[g], host) {
      assert KnownInode(view[g], host);
    }
    forall a, b | Twins(view', a, b) ensures a == b {
      assert Twins(view, a, b);
    }
  }

  lemma KnownNew(view: View, host: Host, g: nat, v: FileView)
    requires Known(view, host) && g !in view && KnownInode(v, host)
    requires v.kind == TYPE_LINK || forall x :: x in view ==> view[x].realIno != v.realIno
    ensures Known(view[g := v], host)
  {
    var view' := view[g := v];
    forall x | x in view' && x != ROOT ensures KnownInode(view'[x], host) {
      if x != g {
        assert KnownInode(view[x], host);
      }
    }
    forall a, b | Twins(view', a, b) ensures a == b {
      if a != g && b != g {
        assert Twins(view, a, b);
      }
    }
  }

  /** New entries in `current`, and nothing else. */
  lemma NewEntries(view: View, host: Host, current: nat, blocks: seq<seq<byte>>)
    requires Known(view, host) && current in view && view[current].kind == TYPE_DIR
    ensures Walked(view, Extended(view, current, NAME_SIZE * |blocks|, blocks), host, current, {}, blocks)
  {
    KnownGrows(view, Extended(view, current, NAME_SIZE * |blocks|, blocks), host, current, blocks);
  }

  /** A finished inode g and its entry in `current`. */
  lemma NewChildKnown(view: View, host: Host, current: nat, g: nat, v: FileView, block: seq<byte>)
    requires Known(view, host) && current in view && view[current].kind == TYPE_DIR && g !in view
    requires KnownInode(v, host) && v.kind != TYPE_DIR
             && (v.kind == TYPE_LINK || forall x :: x in view ==> view[x].realIno != v.realIno)
    ensures Walked(view, Extended(view[g := v], current, NAME_SIZE, [block]), host, current, {}, [block])
  {
    KnownNew(view, host, g, v);
    NewEntries(view[g := v], host, current, [block]);
  }

  /** Directories to come stay unvisited by a step that made other directories. */
  lemma StillUnvisited(view: View, view': View, host: Host, current: nat, dirs: set<nat>, added: seq<seq<byte>>,
                       es: Entries)
    requires Known(view, host) && Walked(view, view', host, current, dirs, added) && Unvisited(view, Dirs(es))
             && dirs !! Dirs(es) && Hosted(host, es)
    ensures Unvisited(view', Dirs(es))
  {
    forall g | g in view' ensures view'[g].realIno !in Dirs(es) {
      if g in view {
        assert view'[g].realIno == view[g].realIno;
      } else if view'[g].realIno in Dirs(es) {
        assert g == ROOT || KnownInode(view'[g], host);
        HostedDirs(host, es, view'[g].realIno);
      }
    }
  }

  lemma WalkedTwice(view: View, view1: View, view2: View, host: Host, current: nat, dirs1: set<nat>, dirs2: set<nat>,
                    added1: seq<seq<byte>>, added2: seq<seq<byte>>)
    requires Walked(view, view1, host, current, dirs1, added1) && Walked(view1, view2, host, current, dirs2, added2)
    ensures Walked(view, view2, host, current, dirs1 + dirs2, added1 + added2)
  {
    GrowsTwice(view, view1, view2, current, added1, added2);
    forall g | g in view2 && g !in view && view2[g].kind == TYPE_DIR ensures view2[g].realIno in dirs1 + dirs2 {
      if g in view1 {
        assert view2[g].kind == view1[g].kind && view2[g].realIno == view1[g].realIno;
      }
    }
  }

  // ---------- directories in two parts ----------

  function Append(a: Entries, b: Entries): Entries {
    match a
    case Nil => b
    case Cons(name, node, rest) => Cons(name, node, Append(rest, b))
  }

  /** The list of one entry. */
  function One(name: seq<byte>, node: Node): Entries {
    Cons(name, node, Nil)
  }

  lemma {:induction false} AppendAssoc(a: Entries, b: Entries, c: Entries)
    ensures Append(Append(a, b), c) == Append(a, Append(b, c))
  {
    if a.Cons? {
      AppendAssoc(a.rest, b, c);
    }
  }

  lemma {:induction false} AppendNil(a: Entries)
    ensures Append(a, Nil) == a
  {
    if a.Cons? {
      AppendNil(a.rest);
    }
  }

  lemma {:induction false} AppendSums(a: Entries, b: Entries)
    ensures Count(Append(a, b)) == Count(a) + Count(b) && (Fits(Append(a, b)) <==> Fits(a) && Fits(b))
    ensures Dirs(Append(a, b)) == Dirs(a) + Dirs(b) && Files(Append(a, b)) == Files(a) + Files(b)
  {
    if a.Cons? {
      AppendSums(a.rest, b);
    }
  }

  lemma {:induction false} AppendBlocks(a: Entries, b: Entries, seen: set<nat>)
    ensures EntryBlocks(Append(a, b), seen) == EntryBlocks(a, seen) + EntryBlocks(b, seen + Files(a))
  {
    match a {
      case Nil => assert seen + Files(a) == seen;
      case Cons(name, node, rest) =>
        if Hidden(name) {
          AppendBlocks(rest, b, seen);
          assert Files(a) == Files(rest);
        } else {
          AppendBlocks(rest, b, seen + FilesOf(node));
          assert seen + FilesOf(node) + Files(rest) == seen + Files(a);
        }
    }
  }

  lemma {:induction false} AppendRep(view: View, open: set<nat>, dir: nat, a: Entries, b: Entries, d1: seq<seq<byte>>,
                                     d2: seq<seq<byte>>)
    requires RepEntries(view, open, dir, a, d1) && RepEntries(view, open, dir, b, d2)
    ensures RepEntries(view, open, dir, Append(a, b), d1 + d2)
  {
    match a {
      case Nil => assert d1 + d2 == d2;
      case Cons(name, node, rest) =>
        if Hidden(name) || node.Other? {
          AppendRep(view, open, dir, rest, b, d1, d2);
        } else {
          AppendRep(view, open, dir, rest, b, d1[1..], d2);
          HeadTail(d1, d2);
        }
    }
  }

  lemma HeadTail(d1: seq<seq<byte>>, d2: seq<seq<byte>>)
    requires d1 != []
    ensures (d1 + d2)[0] == d1[0] && (d1 + d2)[1..] == d1[1..] + d2
  {
  }

  // ---------- what the steps of the walk do ----------

  /** There is room for k more blocks in a file with n, and for `extra` blocks elsewhere. */
  ghost predicate Room(total: nat, next: nat, n: nat, k: nat, extra: nat) {
    n + k <= LN && next + extra + Span(n, k) <= total
  }

  /** Exactly those blocks were taken. */
  ghost predicate Took(total: nat, next: nat, next': nat, n: nat, k: nat, extra: nat) {
    Room(total, next, n, k, extra) && next' == next + extra + Span(n, k)
  }

  /** Adding a host object to directory `current`: it fails exactly when the object or the space it needs is too big. */
  ghost predicate NodeAdded(total: nat, next: nat, view: View, r: Outcome, next': nat, view': View, host: Host,
                            open: set<nat>, current: nat, name: seq<byte>, node: Node, added: seq<seq<byte>>)
    requires current in view
  {
    match r
    case Pass =>
      && NodeFits(node) && Took(total, next, next', |view[current].data|, Ones(node), NodeBlocks(node, Seen(view)))
      && Walked(view, view', host, current, DirsOf(node), added) && Seen(view') == Seen(view) + FilesOf(node)
      && RepOne(view', open, current, name, node, added)
    case Fail(reason) =>
      Honest(reason) && !(NodeFits(node) && Room(total, next, |view[current].data|, Ones(node),
                                                 NodeBlocks(node, Seen(view))))
  }

  /** The readdir loop in directory `current`. */
  ghost predicate EntriesAdded(total: nat, next: nat, view: View, r: Outcome, next': nat, view': View, host: Host,
                               open: set<nat>, current: nat, es: Entries, added: seq<seq<byte>>)
    requires current in view
  {
    match r
    case Pass =>
      && Fits(es) && Took(total, next, next', |view[current].data|, Count(es), EntryBlocks(es, Seen(view)))
      && Walked(view, view', host, current, Dirs(es), added) && Seen(view') == Seen(view) + Files(es)
      && RepEntries(view', open, current, es, added) && |added| == Count(es)
    case Fail(reason) =>
      Honest(reason) && !(Fits(es) && Room(total, next, |view[current].data|, Count(es), EntryBlocks(es, Seen(view))))
  }

  /** Filling the empty directory `current`: "." and ".." come first. */
  ghost predicate DirFilled(total: nat, next: nat, view: View, r: Outcome, next': nat, view': View, host: Host,
                            open: set<nat>, current: nat, parent: nat, es: Entries, added: seq<seq<byte>>)
    requires current in view
  {
    match r
    case Pass =>
      && Fits(es) && Took(total, next, next', 0, 2 + Count(es), EntryBlocks(es, Seen(view)))
      && Walked(view, view', host, current, Dirs(es), added) && Seen(view') == Seen(view) + Files(es)
      && |added| == 2 + Count(es) && EntryIs(added[0], current, [DOT]) && EntryIs(added[1], parent, [DOT, DOT])
      && RepEntries(view', open, current, es, added[2..])
    case Fail(reason) => Honest(reason) && !(Fits(es)
                                             && Room(total, next, 0, 2 + Count(es), EntryBlocks(es, Seen(view))))
  }
}

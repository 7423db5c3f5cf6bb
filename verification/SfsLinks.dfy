/** Link counts: how many entries name an inode, in terms of the host directory. */
module SfsLinks {
  import opened Common
  import opened SfsCore
  import opened SfsInvariant
  import opened SfsHost
  import opened SfsSteps

  // ---------- counts in the host directory ----------

  /** How many visible entries lead to the regular file with host inode number r. */
  function FileCountOf(node: Node, r: nat): nat {
    match node
    case File(s, _) => if s == r then 1 else 0
    case Dir(_, es) => FileCount(es, r)
    case _ => 0
  }

  function FileCount(es: Entries, r: nat): nat {
    match es
    case Nil => 0
    case Cons(name, node, rest) => (if Hidden(name) then 0 else FileCountOf(node, r)) + FileCount(rest, r)
  }

  /** How many visible entries of a directory are directories. */
  function Subdirs(es: Entries): nat {
    match es
    case Nil => 0
    case Cons(name, node, rest) => (if !Hidden(name) && node.Dir? then 1 else 0) + Subdirs(rest)
  }

  /** The link count of a finished directory: ".", its own entry (or the ".." of the root), and the ".." of every
      subdirectory. */
  function DirLinks(node: Node): nat {
    if node.Dir? then 2 + Subdirs(node.entries) else 0
  }

  lemma {:induction false} AppendLinks(a: Entries, b: Entries, r: nat)
    ensures FileCount(Append(a, b), r) == FileCount(a, r) + FileCount(b, r)
    ensures Subdirs(Append(a, b)) == Subdirs(a) + Subdirs(b)
  {
    if a.Cons? {
      AppendLinks(a.rest, b, r);
    }
  }

  // ---------- counts of the inodes ----------

  /** The true number of entries that name each inode; the inode keeps it modulo 2^16. */
  type Links = map<nat, nat>

  ghost predicate CountIs(inodes: map<nat, CacheInode>, links: Links, g: nat) {
    g in links && CountOf(inodes, g) == links[g] % 0x1_0000
  }

  ghost predicate Counts(inodes: map<nat, CacheInode>, view: View, links: Links) {
    forall g {:trigger CountIs(inodes, links, g)} :: g in view ==> CountIs(inodes, links, g)
  }

  function At(links: Links, g: nat): nat {
    if g in links then links[g] else 0
  }

  /** One more entry names g. */
  function OneMore(links: Links, g: nat): Links {
    links[g := At(links, g) + 1]
  }

  /** What walking the entries es in directory `current` does to the count of inode g. */
  ghost predicate LinkStep(view: View, links: Links, view': View, links': Links, host: Host, current: nat, es: Entries,
                           g: nat)
    requires g in view'
  {
    var before := if g in view then At(links, g) else 0;
    if view'[g].kind == TYPE_FILE then At(links', g) == before + FileCount(es, view'[g].realIno)
    else if view'[g].kind == TYPE_LINK then At(links', g) == if g in view then before else 1
    else if g == current then At(links', g) == before + Subdirs(es)
    else if g in view then At(links', g) == before
    else view'[g].realIno in host && At(links', g) == DirLinks(host[view'[g].realIno])
  }

  ghost predicate LinksWalked(view: View, links: Links, view': View, links': Links, host: Host, current: nat,
                              es: Entries) {
    forall g {:trigger LinkStep(view, links, view', links', host, current, es, g)} ::
      g in view' ==> LinkStep(view, links, view', links', host, current, es, g)
  }

  /** Appending blocks keeps all counts. */
  lemma CountsKept(inodes: map<nat, CacheInode>, inodes': map<nat, CacheInode>, view: View, view': View, links: Links)
    requires Counts(inodes, view, links) && SameCounts(inodes, inodes') && forall g :: g in view' ==> g in view
    ensures Counts(inodes', view', links)
  {
    forall g | g in view' ensures CountIs(inodes', links, g) {
      assert CountIs(inodes, links, g);
      assert CountOf(inodes', g) == CountOf(inodes, g);
    }
  }

  /** A fresh inode is named by nothing. */
  lemma FreshCounts(inodes: map<nat, CacheInode>, view: View, links: Links, g: nat, ci: CacheInode, v: FileView)
    requires Counts(inodes, view, links) && g !in view && ci.inode.nlinks == 0
    ensures Counts(inodes[g := ci], view[g := v], links[g := 0])
  {
    var inodes', links' := inodes[g := ci], links[g := 0];
    forall x | x in view[g := v] ensures CountIs(inodes', links', x) {
      assert x != g ==> CountIs(inodes, links, x);
    }
  }

  /** One more entry: the 16-bit count follows. */
  lemma OneMoreCounts(inodes: map<nat, CacheInode>, view: View, links: Links, f: nat)
    requires Counts(inodes, view, links) && f in view && f in inodes
    ensures Counts(inodes[f := OneMoreLink(inodes[f])], view, OneMore(links, f))
  {
    var inodes' := inodes[f := OneMoreLink(inodes[f])];
    forall g | g in view ensures CountIs(inodes', OneMore(links, f), g) {
      assert CountIs(inodes, links, g);
    }
  }

  lemma {:induction false} Uncounted(es: Entries, r: nat)
    requires r !in Files(es)
    ensures FileCount(es, r) == 0
  {
    if es.Cons? {
      Uncounted(es.rest, r);
      if !Hidden(es.name) && es.node.Dir? {
        Uncounted(es.node.entries, r);
      }
    }
  }

  /** A file that is new in a view was not among the entries walked before. */
  lemma NewFileUncounted(view1: View, view2: View, current: nat, added: seq<seq<byte>>, a: Entries, g: nat)
    requires GrowsBy(view1, view2, current, added) && OneInodeEach(view2) && Files(a) <= Seen(view1)
    requires g in view2 && g !in view1 && view2[g].kind == TYPE_FILE
    ensures FileCount(a, view2[g].realIno) == 0
  {
    var r := view2[g].realIno;
    if r in Files(a) {
      assert r in Seen(view1);
      var x :| x in view1 && view1[x].kind == TYPE_FILE && view1[x].realIno == r;
      assert Twins(view2, x, g);
    } else {
      Uncounted(a, r);
    }
  }

  lemma LinkStepTwice(view: View, links: Links, view1: View, links1: Links, view2: View, links2: Links, host: Host,
                      current: nat, a: Entries, added1: seq<seq<byte>>, b: Entries, added2: seq<seq<byte>>, g: nat)
    requires GrowsBy(view, view1, current, added1) && GrowsBy(view1, view2, current, added2)
    requires g in view2 && LinkStep(view1, links1, view2, links2, host, current, b, g)
    requires g in view1 ==> LinkStep(view, links, view1, links1, host, current, a, g)
    requires OneInodeEach(view2) && Files(a) <= Seen(view1)
    ensures LinkStep(view, links, view2, links2, host, current, Append(a, b), g)
  {
    AppendLinks(a, b, view2[g].realIno);
    if g !in view1 && view2[g].kind == TYPE_FILE {
      NewFileUncounted(view1, view2, current, added2, a, g);
    }
  }

  lemma LinksTwice(view: View, links: Links, view1: View, links1: Links, view2: View, links2: Links, host: Host,
                   current: nat, a: Entries, added1: seq<seq<byte>>, b: Entries, added2: seq<seq<byte>>)
    requires LinksWalked(view, links, view1, links1, host, current, a)
             && LinksWalked(view1, links1, view2, links2, host, current, b)
    requires GrowsBy(view, view1, current, added1) && GrowsBy(view1, view2, current, added2)
    requires OneInodeEach(view2) && Files(a) <= Seen(view1)
    ensures LinksWalked(view, links, view2, links2, host, current, Append(a, b))
  {
    forall g | g in view2 ensures LinkStep(view, links, view2, links2, host, current, Append(a, b), g) {
      assert LinkStep(view1, links1, view2, links2, host, current, b, g);
      assert g in view1 ==> LinkStep(view, links, view1, links1, host, current, a, g);
      LinkStepTwice(view, links, view1, links1, view2, links2, host, current, a, added1, b, added2, g);
    }
  }

  /** More entries of the directory itself do not matter. */
  lemma SameKeysLinks(view: View, view1: View, links: Links, view': View, links': Links, host: Host, current: nat,
                      es: Entries)
    requires LinksWalked(view1, links, view', links', host, current, es) && forall g :: g in view <==> g in view1
    ensures LinksWalked(view, links, view', links', host, current, es)
  {
    forall g | g in view' ensures LinkStep(view, links, view', links', host, current, es, g) {
      assert LinkStep(view1, links, view', links', host, current, es, g);
    }
  }

  lemma NothingLinked(view: View, links: Links, host: Host, current: nat)
    ensures LinksWalked(view, links, view, links, host, current, Nil)
  {
    forall g | g in view ensures LinkStep(view, links, view, links, host, current, Nil, g) {
      assert FileCount(Nil, view[g].realIno) == 0 && Subdirs(Nil) == 0;
    }
  }

  // ---------- one entry ----------

  lemma OneCounts(name: seq<byte>, node: Node, r: nat)
    ensures FileCount(One(name, node), r) == (if Hidden(name) then 0 else FileCountOf(node, r))
    ensures Subdirs(One(name, node)) == if !Hidden(name) && node.Dir? then 1 else 0
  {
    assert FileCount(Nil, r) == 0 && Subdirs(Nil) == 0;
  }

  /** A hidden or unsupported entry links nothing. */
  lemma SkippedLinks(view: View, links: Links, host: Host, current: nat, name: seq<byte>, node: Node)
    requires Hidden(name) || node.Other?
    ensures LinksWalked(view, links, view, links, host, current, One(name, node))
  {
    forall g | g in view ensures LinkStep(view, links, view, links, host, current, One(name, node), g) {
      OneCounts(name, node, view[g].realIno);
    }
  }

  /** One more entry for a file that has an inode. */
  lemma SharedLinks(view: View, links: Links, view': View, host: Host, current: nat, name: seq<byte>, node: Node,
                    f: nat, added: seq<seq<byte>>)
    requires node.File? && !Hidden(name) && f in view && view[f].kind == TYPE_FILE && view[f].realIno == node.realIno
    requires GrowsBy(view, view', current, added) && (forall g :: g in view' ==> g in view) && OneInodeEach(view')
    requires view[current].kind == TYPE_DIR
    ensures LinksWalked(view, links, view', OneMore(links, f), host, current, One(name, node))
  {
    forall g | g in view' ensures LinkStep(view, links, view', OneMore(links, f), host, current, One(name, node), g) {
      OneCounts(name, node, view'[g].realIno);
      if view'[g].kind == TYPE_FILE && view'[g].realIno == node.realIno {
        assert Twins(view', f, g);
      }
    }
  }

  /** A new file or link f with its one entry. */
  lemma NewLinks(view: View, links: Links, view': View, host: Host, current: nat, name: seq<byte>, node: Node, f: nat,
                 added: seq<seq<byte>>)
    requires (node.File? || node.Link?) && !Hidden(name)
    requires f !in view && f in view' && view'[f].kind == KindOf(node) && view'[f].realIno == node.realIno
    requires GrowsBy(view, view', current, added) && (forall g :: g in view' ==> g in view || g == f)
             && OneInodeEach(view')
    requires view[current].kind == TYPE_DIR
    ensures LinksWalked(view, links, view', OneMore(links[f := 0], f), host, current, One(name, node))
  {
    var links' := OneMore(links[f := 0], f);
    forall g | g in view' ensures LinkStep(view, links, view', links', host, current, One(name, node), g) {
      OneCounts(name, node, view'[g].realIno);
      if node.File? && view'[g].kind == TYPE_FILE && view'[g].realIno == node.realIno {
        assert Twins(view', f, g);
      }
    }
  }

  /** A new directory d: its own "." and the ".." that names its parent, then its entries, then its entry in the
      parent. */
  lemma DirLinked(view: View, links: Links, view1: View, view2: View, links2: Links, view': View, host: Host,
                  parent: nat, name: seq<byte>, node: Node, d: nat, added: seq<seq<byte>>)
    requires node.Dir? && !Hidden(name) && HostedNode(host, node) && d !in view && parent in view
             && view[parent].kind == TYPE_DIR
    requires view1 == view[d := FileView(TYPE_DIR, node.realIno, 0, [])]
    requires LinksWalked(view1, OneMore(OneMore(links[d := 0], d), parent), view2, links2, host, d, node.entries)
    requires forall g ::
               g in view1 ==> g in view2 && view2[g].kind == view1[g].kind && view2[g].realIno == view1[g].realIno
    requires GrowsBy(view2, view', parent, added) && (forall g :: g in view' ==> g in view2)
    ensures LinksWalked(view, links, view', OneMore(links2, d), host, parent, One(name, node))
  {
    forall g | g in view' ensures LinkStep(view, links, view', OneMore(links2, d), host, parent, One(name, node), g) {
      OneCounts(name, node, view'[g].realIno);
      assert LinkStep(view1, OneMore(OneMore(links[d := 0], d), parent), view2, links2, host, d, node.entries, g);
    }
  }
}

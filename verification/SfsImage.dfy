/** Reading an image back: following entries and block pointers from block 1 gives the host directory. */
module SfsImage {
  import opened Common
  import opened SfsCore
  import opened SfsIndex
  import opened SfsInvariant
  import opened SfsEntry
  import opened SfsSteps
  import opened SfsHost
  import opened SfsLinks
  import opened SfsFormat
  import opened SfsBuilder
  import opened SfsClose

  // ---------- an independent reader ----------

  /** What an inode number leads to on the image. */
  datatype Content = Content(kind: nat, size: nat, data: seq<seq<byte>>)

  predicate Present(img: Image, b: nat) {
    b in img && |img[b]| == BLKSIZE
  }

  function ReadWord(img: Image, b: nat, i: nat): nat
    requires i < NENTRY
  {
    if Present(img, b) then Word(img[b], 4 * i) else 0
  }

  /** The number of block i of a file. */
  function ReadPointer(img: Image, inode: Inode, i: nat): nat
    requires |inode.direct| == L0
  {
    if i < L0 then inode.direct[i]
    else if i < L1 then ReadWord(img, inode.indirect, i - L0)
    else if (i - L1) / NENTRY >= NENTRY then 0
    else ReadWord(img, ReadWord(img, inode.dbIndirect, (i - L1) / NENTRY), (i - L1) % NENTRY)
  }

  /** The first n blocks of a file. */
  function ReadBlocks(img: Image, inode: Inode, n: nat): (r: Option<seq<seq<byte>>>)
    requires |inode.direct| == L0
    ensures r.Some? ==> |r.value| == n && forall i :: 0 <= i < n ==> |r.value[i]| == BLKSIZE
  {
    if n == 0 then Some([])
    else
      var before := ReadBlocks(img, inode, n - 1);
      var b := ReadPointer(img, inode, n - 1);
      if before.None? || !Present(img, b) then None else Some(before.value + [img[b]])
  }

  function ReadContent(img: Image, h: nat): (r: Option<Content>)
    ensures r.Some? ==> forall i :: 0 <= i < |r.value.data| ==> |r.value.data[i]| == BLKSIZE
  {
    if !Present(img, h) then None
    else
      var inode := ReadInode(img[h]);
      var data := ReadBlocks(img, inode, inode.blocks);
      if data.None? then None else Some(Content(inode.kind, inode.size, data.value))
  }

  /** The link count of an inode. */
  function ReadLinks(img: Image, h: nat): nat {
    if Present(img, h) then ReadInode(img[h]).nlinks else 0
  }

  function ReadBytes(c: Content): Option<seq<byte>> {
    var all := Flatten(c.data);
    if |all| < c.size then None else Some(all[..c.size])
  }

  /** The object at inode h of directory `parent`, down to the given depth. The host inode numbers of the
      result are inode numbers of the image. */
  function ReadNode(img: Image, h: nat, parent: nat, depth: nat): Option<Node>
    decreases depth, 0, 0
  {
    match ReadContent(img, h)
    case None => None
    case Some(c) =>
      if c.kind == TYPE_DIR then
        if depth == 0 || |c.data| < 2 || c.size != NAME_SIZE * |c.data|
           || EntryIno(c.data[0]) != h || EntryName(c.data[0]) != [DOT]
           || EntryIno(c.data[1]) != parent || EntryName(c.data[1]) != [DOT, DOT] then None
        else
          match ReadEntries(img, h, c.data[2..], depth - 1)
          case None => None
          case Some(es) => Some(Dir(h, es))
      else
        match ReadBytes(c)
        case None => None
        case Some(bytes) =>
          if c.kind == TYPE_FILE then Some(File(h, bytes))
          else if c.kind == TYPE_LINK then Some(Link(h, bytes))
          else None
  }

  function ReadEntries(img: Image, dir: nat, data: seq<seq<byte>>, depth: nat): Option<Entries>
    requires forall i :: 0 <= i < |data| ==> |data[i]| == BLKSIZE
    decreases depth, 1, |data|
  {
    if data == [] then Some(Nil)
    else
      var node := ReadNode(img, EntryIno(data[0]), dir, depth);
      var rest := ReadEntries(img, dir, data[1..], depth);
      if node.None? || rest.None? then None else Some(Cons(EntryName(data[0]), node.value, rest.value))
  }

  // ---------- what the image holds for every inode ----------

  lemma WordOf(fs: Fs, owner: Owner, view: View, junk: seq<byte>, img: Image, b: nat, i: nat)
    requires Inv(fs, owner, view) && |INFO| + |junk| == INFO_SIZE && Closed(fs, junk, img)
    requires b in fs.blocks && i < NENTRY
    ensures ReadWord(img, b, i) == Get(fs.blocks, b, i)
  {
    assert Right(fs, junk, b, img[b]);
    assert |fs.blocks[b]| == NENTRY && fs.blocks[b][i] < W32;
    WordsReadBack(fs.blocks[b], [], i);
    assert WordsBytes(fs.blocks[b]) + [] == WordsBytes(fs.blocks[b]);
  }

  lemma PointerOf(fs: Fs, owner: Owner, view: View, junk: seq<byte>, img: Image, h: nat, i: nat)
    requires Inv(fs, owner, view) && |INFO| + |junk| == INFO_SIZE && Closed(fs, junk, img)
    requires h in fs.inodes && i < fs.inodes[h].nblks
    ensures |fs.inodes[h].inode.direct| == L0
            && ReadPointer(img, fs.inodes[h].inode, i) == BlockAt(fs.blocks, fs.inodes[h], i)
  {
    var ci := fs.inodes[h];
    assert FileOk(fs.blocks, owner, h, ci);
    if L0 <= i < L1 {
      WordOf(fs, owner, view, junk, img, ci.inode.indirect, i - L0);
    } else if L1 <= i {
      var k := (i - L1) / NENTRY;
      WordOf(fs, owner, view, junk, img, ci.inode.dbIndirect, k);
      var b1 := Get(fs.blocks, ci.inode.dbIndirect, k);
      assert IndexBlock(fs.blocks, owner, h, k, b1);
      WordOf(fs, owner, view, junk, img, b1, (i - L1) % NENTRY);
    }
  }

  lemma BlockOf(fs: Fs, owner: Owner, view: View, junk: seq<byte>, img: Image, h: nat, i: nat)
    requires Inv(fs, owner, view) && |INFO| + |junk| == INFO_SIZE && Closed(fs, junk, img)
    requires h in view && i < |view[h].data|
    ensures |fs.inodes[h].inode.direct| == L0
    ensures var b := ReadPointer(img, fs.inodes[h].inode, i);
            Present(img, b) && img[b] == view[h].data[i]
  {
    assert ShowsFile(fs.blocks, fs.disk, owner, h, fs.inodes[h], view[h]);
    PointerOf(fs, owner, view, junk, img, h, i);
    var b := BlockAt(fs.blocks, fs.inodes[h], i);
    assert DataBlock(fs.disk, owner, h, i, b, view[h].data[i]);
    assert Right(fs, junk, b, img[b]);
  }

  lemma {:induction false} BlocksOf(img: Image, inode: Inode, data: seq<seq<byte>>, n: nat)
    requires |inode.direct| == L0 && n <= |data|
    requires forall i {:trigger ReadPointer(img, inode, i)} :: 0 <= i < |data| ==>
               Present(img, ReadPointer(img, inode, i)) && img[ReadPointer(img, inode, i)] == data[i]
    ensures ReadBlocks(img, inode, n) == Some(data[..n])
    decreases n
  {
    if n > 0 {
      BlocksOf(img, inode, data, n - 1);
      assert Present(img, ReadPointer(img, inode, n - 1)) && img[ReadPointer(img, inode, n - 1)] == data[n - 1];
      assert data[..n] == data[..n - 1] + [data[n - 1]];
    }
  }

  /** Reading inode h of the image gives what the builder appended to h. */
  lemma ContentOf(fs: Fs, owner: Owner, view: View, junk: seq<byte>, img: Image, h: nat)
    requires Inv(fs, owner, view) && |INFO| + |junk| == INFO_SIZE && Closed(fs, junk, img) && h in view
    ensures ReadContent(img, h) == Some(Content(view[h].kind, view[h].size, view[h].data))
  {
    var ci := fs.inodes[h];
    assert ShowsFile(fs.blocks, fs.disk, owner, h, ci, view[h]);
    assert FileOk(fs.blocks, owner, h, ci) && InodeFits(ci);
    assert Right(fs, junk, h, img[h]);
    InodeReadsBack(ci.inode);
    var data := view[h].data;
    forall i | 0 <= i < |data|
      ensures Present(img, ReadPointer(img, ci.inode, i)) && img[ReadPointer(img, ci.inode, i)] == data[i]
    {
      BlockOf(fs, owner, view, junk, img, h, i);
    }
    BlocksOf(img, ci.inode, data, |data|);
    assert data[..|data|] == data;
  }

  // ---------- the tree that is read ----------

  function HeightOf(node: Node): nat {
    match node
    case Dir(_, es) => 1 + Height(es)
    case _ => 0
  }

  function Height(es: Entries): nat {
    match es
    case Nil => 0
    case Cons(name, node, rest) =>
      if Hidden(name) || HeightOf(node) <= Height(rest) then Height(rest) else HeightOf(node)
  }

  type Numbering = map<nat, nat>

  /** Different host inode numbers have different inodes. */
  ghost predicate Injective(number: Numbering) {
    forall a, b :: a in number && b in number && number[a] == number[b] ==> a == b
  }

  /** `got` is the host object: same kind, same bytes or text; files and directories are numbered, so that
      two paths lead to one inode exactly when they lead to one host object. The link count of a file is the number of
      entries below `root` that lead to it, that of a directory two and the number of its subdirectories, that of
      a link one; all modulo 2^16. */
  ghost predicate Same(img: Image, root: Entries, node: Node, got: Node, number: Numbering)
    decreases node, 1
  {
    match node
    case File(r, bytes) =>
      && got.File? && got.bytes == bytes && r in number && got.realIno == number[r]
      && ReadLinks(img, got.realIno) == FileCount(root, r) % 0x1_0000
    case Link(_, text) => got.Link? && got.text == text && ReadLinks(img, got.realIno) == 1
    case Dir(r, es) =>
      && got.Dir? && r in number && got.realIno == number[r] && SameEntries(img, root, es, got.entries, number)
      && ReadLinks(img, got.realIno) == (2 + Subdirs(es)) % 0x1_0000
    case Other => false
  }

  /** The visible objects in order, under their names, of which 252 bytes are kept. */
  ghost predicate SameEntries(img: Image, root: Entries, es: Entries, got: Entries, number: Numbering)
    decreases es, 0
  {
    match es
    case Nil => got == Nil
    case Cons(name, node, rest) =>
      if Hidden(name) || node.Other? then SameEntries(img, root, rest, got, number)
      else
        && got.Cons? && got.name == Stored(name) && Same(img, root, node, got.node, number)
        && SameEntries(img, root, rest, got.rest, number)
  }

  // ---------- names ----------

  /** All visible names have at most 252 bytes. */
  predicate ShortNames(es: Entries) {
    match es
    case Nil => true
    case Cons(name, node, rest) =>
      && (Hidden(name) || node.Other? || (|name| <= KEPT_NAME && (node.Dir? ==> ShortNames(node.entries))))
      && ShortNames(rest)
  }

  /** The names that were read are the visible names. */
  predicate SameNames(es: Entries, got: Entries) {
    match es
    case Nil => got == Nil
    case Cons(name, node, rest) =>
      if Hidden(name) || node.Other? then SameNames(rest, got)
      else
        && got.Cons? && got.name == name && SameNames(rest, got.rest)
        && (node.Dir? ==> got.node.Dir? && SameNames(node.entries, got.node.entries))
  }

  /** The names come back exactly when all of them have at most 252 bytes. */
  lemma {:induction false} NamesExactly(img: Image, root: Entries, es: Entries, got: Entries, number: Numbering)
    requires SameEntries(img, root, es, got, number)
    ensures SameNames(es, got) <==> ShortNames(es)
  {
    if es.Cons? {
      if Hidden(es.name) || es.node.Other? {
        NamesExactly(img, root, es.rest, got, number);
      } else {
        NamesExactly(img, root, es.rest, got.rest, number);
        if es.node.Dir? {
          assert Same(img, root, es.node, got.node, number);
          NamesExactly(img, root, es.node.entries, got.node.entries, number);
        }
      }
    }
  }

  /** Two names collide exactly when they are the same or longer than 252 bytes and agree in these. */
  lemma NamesCollide(a: seq<byte>, b: seq<byte>)
    ensures Stored(a) == Stored(b) <==>
            a == b || (|a| >= KEPT_NAME && |b| >= KEPT_NAME && a[..KEPT_NAME] == b[..KEPT_NAME])
  {
    if |a| >= KEPT_NAME {
      assert Stored(a) == a[..KEPT_NAME];
    }
    if |b| >= KEPT_NAME {
      assert Stored(b) == b[..KEPT_NAME];
    }
  }

  /** The image shows every inode of the view. */
  ghost predicate ShowsAll(img: Image, view: View) {
    forall h {:trigger ReadContent(img, h)} :: h in view
      ==> ReadContent(img, h) == Some(Content(view[h].kind, view[h].size, view[h].data))
  }

  ghost predicate Numbers(view: View, number: Numbering) {
    forall g {:trigger view[g].realIno} ::
      g in view && view[g].kind != TYPE_LINK ==> view[g].realIno in number && number[view[g].realIno] == g
  }

  /** The link counts on the image. */
  ghost predicate ShowsLinks(img: Image, view: View, host: Host, root: Entries) {
    forall h {:trigger ReadLinks(img, h)} :: h in view && h != ROOT
      ==> RightLinks(view, host, root, h, ReadLinks(img, h))
  }

  /** Everything there is to know about the inodes of the image. */
  ghost predicate Showing(img: Image, view: View, host: Host, root: Entries, number: Numbering) {
    && ShowsAll(img, view) && ShowsLinks(img, view, host, root) && Numbers(view, number)
    && ROOT in view && view[ROOT].realIno == 0 && 0 !in host
  }

  lemma {:induction false} NodeReadsBack(img: Image, view: View, host: Host, root: Entries, number: Numbering, h: nat,
                                         parent: nat, node: Node, depth: nat) returns (got: Node)
    requires Showing(img, view, host, root, number) && HostedNode(host, node)
    requires RepNode(view, {}, h, parent, node) && HeightOf(node) <= depth
    ensures ReadNode(img, h, parent, depth) == Some(got) && Same(img, root, node, got, number)
    decreases node, 1
  {
    match node {
      case File(_, bytes) =>
        got := File(h, bytes);
        FileReadsBack(img, view, host, root, number, h, parent, node, depth);
      case Link(_, text) =>
        got := Link(h, text);
        LinkReadsBack(img, view, host, root, number, h, parent, node, depth);
      case Dir(_, es) =>
        DirParts(img, view, host, h, parent, node, depth);
        var entries := EntriesReadBack(img, view, host, root, number, h, es, view[h].data[2..], depth - 1);
        got := Dir(h, entries);
        DirReadsBack(img, view, host, root, number, h, parent, node, entries, depth);
    }
  }

  /** What lies behind "." and ".." in a directory. */
  lemma DirParts(img: Image, view: View, host: Host, h: nat, parent: nat, node: Node, depth: nat)
    requires ShowsAll(img, view) && HostedNode(host, node) && node.Dir?
    requires RepNode(view, {}, h, parent, node) && HeightOf(node) <= depth
    ensures h in view && |view[h].data| >= 2 && RepEntries(view, {}, h, node.entries, view[h].data[2..])
    ensures Hosted(host, node.entries) && depth > 0 && Height(node.entries) <= depth - 1
    ensures forall i :: 0 <= i < |view[h].data| ==> |view[h].data[i]| == BLKSIZE
  {
    assert ReadContent(img, h) == Some(Content(view[h].kind, view[h].size, view[h].data));
  }

  lemma FileReadsBack(img: Image, view: View, host: Host, root: Entries, number: Numbering, h: nat, parent: nat,
                      node: Node, depth: nat)
    requires Showing(img, view, host, root, number) && HostedNode(host, node) && node.File?
    requires RepNode(view, {}, h, parent, node)
    ensures var got := File(h, node.bytes);
            ReadNode(img, h, parent, depth) == Some(got) && Same(img, root, node, got, number)
  {
    var v := view[h];
    assert ReadContent(img, h) == Some(Content(v.kind, v.size, v.data));
    ChunksReadBack(node.bytes);
    assert h != ROOT && ReadLinks(img, h) == FileCount(root, v.realIno) % 0x1_0000;
  }

  lemma LinkReadsBack(img: Image, view: View, host: Host, root: Entries, number: Numbering, h: nat, parent: nat,
                      node: Node, depth: nat)
    requires Showing(img, view, host, root, number) && HostedNode(host, node) && node.Link?
    requires RepNode(view, {}, h, parent, node)
    ensures var got := Link(h, node.text);
            ReadNode(img, h, parent, depth) == Some(got) && Same(img, root, node, got, number)
  {
    var v := view[h];
    assert ReadContent(img, h) == Some(Content(v.kind, v.size, v.data));
    assert Flatten([Pad(node.text)]) == Pad(node.text) + [] == Pad(node.text);
    assert h != ROOT && ReadLinks(img, h) == 1;
  }

  lemma DirReadsBack(img: Image, view: View, host: Host, root: Entries, number: Numbering, h: nat, parent: nat,
                     node: Node, entries: Entries, depth: nat)
    requires Showing(img, view, host, root, number) && HostedNode(host, node) && node.Dir? && depth > 0
    requires RepNode(view, {}, h, parent, node)
    requires forall i :: 0 <= i < |view[h].data| ==> |view[h].data[i]| == BLKSIZE
    requires ReadEntries(img, h, view[h].data[2..], depth - 1) == Some(entries)
    requires SameEntries(img, root, node.entries, entries, number)
    ensures var got := Dir(h, entries);
            ReadNode(img, h, parent, depth) == Some(got) && Same(img, root, node, got, number)
  {
    var v := view[h];
    assert ReadContent(img, h) == Some(Content(v.kind, v.size, v.data));
    assert h != ROOT && ReadLinks(img, h) == DirLinks(node) % 0x1_0000;
  }

  lemma {:induction false} EntriesReadBack(img: Image, view: View, host: Host, root: Entries, number: Numbering,
                                           dir: nat, es: Entries, data: seq<seq<byte>>, depth: nat)
    returns (got: Entries)
    requires Showing(img, view, host, root, number) && Hosted(host, es)
    requires RepEntries(view, {}, dir, es, data) && Height(es) <= depth
    requires forall i :: 0 <= i < |data| ==> |data[i]| == BLKSIZE
    ensures ReadEntries(img, dir, data, depth) == Some(got) && SameEntries(img, root, es, got, number)
    decreases es, 0
  {
    match es {
      case Nil => got := Nil;
      case Cons(name, node, rest) =>
        if Hidden(name) || node.Other? {
          got := EntriesReadBack(img, view, host, root, number, dir, rest, data, depth);
        } else {
          var first := NodeReadsBack(img, view, host, root, number, EntryIno(data[0]), dir, node, depth);
          var more := EntriesReadBack(img, view, host, root, number, dir, rest, data[1..], depth);
          got := Cons(EntryName(data[0]), first, more);
        }
    }
  }

  /** The count of an inode, as the image shows it. */
  lemma LinksOf(fs: Fs, owner: Owner, view: View, junk: seq<byte>, img: Image, h: nat)
    requires Inv(fs, owner, view) && |INFO| + |junk| == INFO_SIZE && Closed(fs, junk, img) && h in view
    ensures ReadLinks(img, h) == CountOf(fs.inodes, h)
  {
    assert FileOk(fs.blocks, owner, h, fs.inodes[h]) && InodeFits(fs.inodes[h]);
    assert Right(fs, junk, h, img[h]);
    InodeReadsBack(fs.inodes[h].inode);
  }

  /** What the count of a finished inode should be. */
  ghost predicate RightLinks(view: View, host: Host, root: Entries, h: nat, n: nat)
    requires h in view
  {
    && (view[h].kind == TYPE_FILE ==> n == FileCount(root, view[h].realIno) % 0x1_0000)
    && (view[h].kind == TYPE_LINK ==> n == 1)
    && (view[h].kind == TYPE_DIR ==> view[h].realIno in host && n == DirLinks(host[view[h].realIno]) % 0x1_0000)
  }

  /** The counts that the walk over the whole directory leaves are those of the host directory. */
  lemma WalkedLinks(view0: View, links0: Links, view: View, links: Links, host: Host, es: Entries, h: nat)
    requires (forall g :: g in view0 <==> g == ROOT) && At(links0, ROOT) == 2 && h in view
    requires LinkStep(view0, links0, view, links, host, ROOT, es, h)
    ensures h != ROOT && view[h].kind in {TYPE_FILE, TYPE_LINK, TYPE_DIR}
            ==> RightLinks(view, host, es, h, At(links, h) % 0x1_0000)
    ensures h == ROOT && view[h].kind == TYPE_DIR ==> At(links, h) == 2 + Subdirs(es)
  {
  }

  lemma RootLinks(fs: Fs, owner: Owner, view: View, links: Links, junk: seq<byte>, img: Image, host: Host, es: Entries)
    requires Inv(fs, owner, view) && |INFO| + |junk| == INFO_SIZE && Closed(fs, junk, img)
             && Counts(fs.inodes, view, links)
    requires Known(view, host)
    requires LinksWalked(EMPTY, OneMore(OneMore(UNNAMED, ROOT), ROOT), view, links, host, ROOT, es)
    ensures ShowsLinks(img, view, host, es) && ReadLinks(img, ROOT) == (2 + Subdirs(es)) % 0x1_0000
  {
    var view0, links0 := EMPTY, OneMore(OneMore(UNNAMED, ROOT), ROOT);
    forall h | h in view
      ensures h != ROOT ==> RightLinks(view, host, es, h, ReadLinks(img, h))
      ensures h == ROOT ==> ReadLinks(img, h) == (2 + Subdirs(es)) % 0x1_0000
    {
      LinksOf(fs, owner, view, junk, img, h);
      assert CountIs(fs.inodes, links, h);
      assert LinkStep(view0, links0, view, links, host, ROOT, es, h);
      assert InodeFits(fs.inodes[h]) && ShowsFile(fs.blocks, fs.disk, owner, h, fs.inodes[h], view[h]);
      WalkedLinks(view0, links0, view, links, host, es, h);
    }
  }

  /** One inode per file and directory gives a numbering. */
  lemma NumberingExists(view: View) returns (number: Numbering)
    requires OneInodeEach(view)
    ensures Numbers(view, number) && Injective(number)
  {
    var reals := set g | g in view && view[g].kind != TYPE_LINK :: view[g].realIno;
    number := map r | r in reals :: InodeFor(view, r);
    forall g | g in view && view[g].kind != TYPE_LINK
      ensures view[g].realIno in number && number[view[g].realIno] == g
    {
      assert view[g].realIno in reals;
      assert Twins(view, g, InodeFor(view, view[g].realIno));
    }
  }

  ghost function InodeFor(view: View, r: nat): (g: nat)
    requires exists x :: x in view && view[x].kind != TYPE_LINK && view[x].realIno == r
    ensures g in view && view[g].kind != TYPE_LINK && view[g].realIno == r
  {
    var x :| x in view && view[x].kind != TYPE_LINK && view[x].realIno == r;
    x
  }

  // ---------- the free map ----------

  /** Bit b of the free map of the image. */
  ghost predicate FreeBit(img: Image, b: nat)
    requires Present(img, FREEMAP + b / BLKBITS)
  {
    MapBit(img[FREEMAP + b / BLKBITS], b % BLKBITS)
  }

  /** The number of bits that the free map holds. */
  function MapSize(total: nat): nat {
    BLKBITS * (First(total) - FREEMAP)
  }

  ghost predicate MapPresent(img: Image, total: nat) {
    forall b :: 0 <= b < MapSize(total) ==> Present(img, FREEMAP + b / BLKBITS)
  }

  /** The number of ones among the first n bits. */
  ghost function FreeCount(img: Image, total: nat, n: nat): nat
    requires n <= MapSize(total) && MapPresent(img, total)
  {
    if n == 0 then 0 else FreeCount(img, total, n - 1) + if FreeBit(img, n - 1) then 1 else 0
  }

  lemma FreeMapExact(fs: Fs, owner: Owner, view: View, junk: seq<byte>, img: Image)
    requires Inv(fs, owner, view) && |INFO| + |junk| == INFO_SIZE && Closed(fs, junk, img)
    ensures MapPresent(img, fs.ninos) && fs.ninos <= MapSize(fs.ninos)
    ensures forall b :: 0 <= b < MapSize(fs.ninos) ==> (FreeBit(img, b) <==> fs.nextIno <= b < fs.ninos)
  {
    forall b | 0 <= b < MapSize(fs.ninos)
      ensures Present(img, FREEMAP + b / BLKBITS) && (FreeBit(img, b) <==> fs.nextIno <= b < fs.ninos)
    {
      var m := FREEMAP + b / BLKBITS;
      assert Right(fs, junk, m, img[m]);
      assert MapBit(img[m], b % BLKBITS) <==> Between(fs.nextIno, BLKBITS * (b / BLKBITS) + b % BLKBITS, fs.ninos);
    }
  }

  lemma {:induction false} FreeCountExact(img: Image, total: nat, lo: nat, n: nat)
    requires n <= MapSize(total) && MapPresent(img, total) && lo <= total
    requires forall b :: 0 <= b < MapSize(total) ==> (FreeBit(img, b) <==> lo <= b < total)
    ensures FreeCount(img, total, n) == if n <= lo then 0 else if n <= total then n - lo else total - lo
  {
    if n > 0 {
      FreeCountExact(img, total, lo, n - 1);
    }
  }

  // ---------- the whole program ----------

  /** The number of blocks of an image file of the given length. */
  function ImageBlocks(length: nat): nat {
    var n := length / BLKSIZE % W32;
    if n > MAX_NBLKS then MAX_NBLKS else n
  }

  /** How many blocks are in use once the directory is stored. */
  function Used(total: nat, es: Entries): nat {
    First(total) + EntryBlocks(es, {}) + Span(0, 2 + Count(es))
  }

  ghost predicate ReadsAs(img: Image, es: Entries, number: Numbering, depth: nat) {
    var root := ReadNode(img, ROOT, ROOT, depth);
    && root.Some? && root.value.Dir? && SameEntries(img, es, es, root.value.entries, number)
    && ReadLinks(img, ROOT) == (2 + Subdirs(es)) % 0x1_0000
  }

  /** The superblock and the free map count the blocks from `used` on as free. */
  ghost predicate Accounts(img: Image, total: nat, used: nat) {
    && Present(img, 0) && used <= total
    && ReadSuper(img[0]) == Super(MAGIC, total, total - used, INFO[..|INFO| - 1])
    && MapPresent(img, total) && FreeCount(img, total, MapSize(total)) == total - used
    && forall b :: 0 <= b < MapSize(total) ==> (FreeBit(img, b) <==> used <= b < total)
  }

  /** The image of a host directory, as a reader finds it. */
  ghost predicate ImageOf(img: Image, total: nat, es: Entries) {
    && Accounts(img, total, Used(total, es))
    && exists number :: Injective(number) && forall depth :: depth > Height(es) ==> ReadsAs(img, es, number, depth)
  }

  /** The root directory of the image, finished: its blocks list the entries. */
  ghost predicate RootHolds(view: View, es: Entries, data: seq<seq<byte>>) {
    && ROOT in view && view[ROOT].kind == TYPE_DIR && view[ROOT].data == data && view[ROOT].size == NAME_SIZE * |data|
    && |data| >= 2 && EntryIs(data[0], ROOT, [DOT]) && EntryIs(data[1], ROOT, [DOT, DOT])
    && RepEntries(view, {}, ROOT, es, data[2..])
  }

  lemma RootReadsBack(fs: Fs, owner: Owner, view: View, links: Links, junk: seq<byte>, img: Image, host: Host,
                      es: Entries, data: seq<seq<byte>>)
    requires Inv(fs, owner, view) && |INFO| + |junk| == INFO_SIZE && Closed(fs, junk, img)
             && Counts(fs.inodes, view, links)
    requires Known(view, host) && Hosted(host, es) && RootHolds(view, es, data)
    requires LinksWalked(EMPTY, OneMore(OneMore(UNNAMED, ROOT), ROOT), view, links, host, ROOT, es)
    ensures exists number :: Injective(number) && forall depth :: depth > Height(es) ==> ReadsAs(img, es, number, depth)
  {
    forall h | h in view ensures ReadContent(img, h) == Some(Content(view[h].kind, view[h].size, view[h].data)) {
      ContentOf(fs, owner, view, junk, img, h);
    }
    RootLinks(fs, owner, view, links, junk, img, host, es);
    var number := NumberingExists(view);
    forall depth: nat | depth > Height(es) ensures ReadsAs(img, es, number, depth) {
      RootReads(img, view, host, number, es, data, depth);
    }
  }

  lemma RootReads(img: Image, view: View, host: Host, number: Numbering, es: Entries, data: seq<seq<byte>>, depth: nat)
    requires Showing(img, view, host, es, number) && Hosted(host, es) && depth > Height(es) && RootHolds(view, es, data)
    requires ReadLinks(img, ROOT) == (2 + Subdirs(es)) % 0x1_0000
    ensures ReadsAs(img, es, number, depth)
  {
    assert ReadContent(img, ROOT) == Some(Content(TYPE_DIR, view[ROOT].size, data));
    var got := EntriesReadBack(img, view, host, es, number, ROOT, es, data[2..], depth - 1);
  }

  /** The directory keeps to the limits of the format and there are enough blocks. */
  ghost predicate FitsIn(total: nat, es: Entries) {
    Fits(es) && 2 + Count(es) <= LN && Used(total, es) <= total
  }

  /** An image is built exactly when the directory fits, and it reads back as the directory; otherwise the directory or
      the lack of space is to blame. */
  ghost predicate Built(total: nat, es: Entries, r: Res<Image>) {
    match r
    case Ok(img) => FitsIn(total, es) && ImageOf(img, total, es)
    case Bug(reason) => Honest(reason) && !FitsIn(total, es)
  }

  const EMPTY: View := map[ROOT := FileView(TYPE_DIR, 0, 0, [])]
  const UNNAMED: Links := map[ROOT := 0]

  /** The builder before close_sfs: the root directory is finished. */
  ghost predicate Finished(total: nat, next: nat, view: View, links: Links, host: Host, es: Entries) {
    && FitsIn(total, es) && next == Used(total, es) && Known(view, host)
    && ROOT in view && RootHolds(view, es, view[ROOT].data)
    && LinksWalked(EMPTY, OneMore(OneMore(UNNAMED, ROOT), ROOT), view, links, host, ROOT, es)
  }

  /** open_dir on the root of a new image. */
  method FillRoot(sfs: Sfs, es: Entries, ghost host: Host) returns (r: Outcome)
    requires sfs.Good() && sfs.nextIno == First(sfs.ninos) && sfs.view == EMPTY && sfs.links == UNNAMED
    requires Hosted(host, es) && Once(es) && 0 !in host
    modifies sfs
    ensures match r
            case Pass => sfs.Good() && Finished(sfs.ninos, sfs.nextIno, sfs.view, sfs.links, host, es)
            case Fail(reason) => Honest(reason) && !FitsIn(sfs.ninos, es)
  {
    ghost var added;
    RootKnown(EMPTY, host, es);
    r, added := sfs.OpenDir(ROOT, ROOT, es, host, {ROOT});
    if r.Fail? {
      RootFails(sfs.ninos, EMPTY, r, sfs.nextIno, sfs.view, host, es, added);
    } else {
      RootFilled(sfs.ninos, sfs.nextIno, sfs.view, host, es, added);
    }
  }

  /** open_dir on the root of a new image of so many blocks, then close_sfs. */
  method BuildImage(total: nat, es: Entries, junk: seq<byte>, ghost host: Host) returns (r: Res<Image>)
    requires First(total) < total <= MAX_NBLKS && |INFO| + |junk| == INFO_SIZE
    requires Hosted(host, es) && Once(es) && 0 !in host
    ensures Built(total, es, r)
  {
    var sfs := new Sfs(total);
    var built := FillRoot(sfs, es, host);
    if built.Fail? {
      return Bug(built.reason);
    }
    var img := CloseImage(sfs, es, junk, host);
    return Ok(img);
  }

  /** close_sfs after the walk. */
  method CloseImage(sfs: Sfs, ghost es: Entries, junk: seq<byte>, ghost host: Host) returns (img: Image)
    requires sfs.Good() && |INFO| + |junk| == INFO_SIZE && Hosted(host, es)
    requires Finished(sfs.ninos, sfs.nextIno, sfs.view, sfs.links, host, es)
    modifies sfs`disk
    ensures ImageOf(img, sfs.ninos, es)
  {
    ghost var fs := sfs.Snap();
    CloseSfs(sfs, junk);
    img := sfs.disk;
    RootDone(fs, sfs.owner, sfs.view, sfs.links, host, es, junk, img);
  }

  /** The blocks that fit into the file: at most 524288 of 4096 bytes each. Block numbers have 32 bits, so of a file of
      2^44 bytes or more only the length modulo 2^44 counts. */
  lemma BlocksOfLength(length: nat)
    ensures var total, rest := ImageBlocks(length), length % 0x1000_0000_0000;
            && total <= 524288 && 4096 * total <= rest && (total == 524288 || rest < 4096 * (total + 1))
    ensures length < 0x1000_0000_0000 ==> length % 0x1000_0000_0000 == length
  {
    var blocks := length / 4096;
    var q, n, m := blocks / W32, blocks % W32, length % 4096;
    assert length == 4096 * blocks + m && blocks == 0x1_0000_0000 * q + n;
    Modulo44(q, 4096 * n + m);
    if length < 0x1000_0000_0000 {
      Modulo44(0, length);
    }
  }

  lemma Modulo44(q: nat, r: nat)
    requires r < 0x1000_0000_0000
    ensures (0x1000_0000_0000 * q + r) % 0x1000_0000_0000 == r
  {
  }

  /** Block 0 begins with the magic number and the number of blocks, in little-endian order. */
  predicate OnBlockZero(block: seq<byte>, total: nat) {
    && |block| == 4096 && block[..4] == [0x2a, 0xbe, 0x8d, 0x2f]
    && block[4] as int + 256 * block[5] as int + 65536 * block[6] as int + 16777216 * block[7] as int == total
  }

  lemma CountOnDisk(img: Image, total: nat, es: Entries)
    requires ImageOf(img, total, es)
    ensures 0 in img && OnBlockZero(img[0], total)
  {
    var b := img[0];
    assert Word(b, 0) == MAGIC && Word(b, 4) == total;
    assert b[0] == 0x2a && b[1] == 0xbe && b[2] == 0x8d && b[3] == 0x2f;
  }

  /** The whole program succeeds exactly when the directory fits into the image file, and then the image reads
      back as the directory. */
  method MakeImage(length: nat, es: Entries, junk: seq<byte>, ghost host: Host) returns (r: Res<Image>, total: nat)
    requires |INFO| + |junk| == INFO_SIZE
    requires Hosted(host, es) && Once(es) && 0 !in host
    ensures total <= 524288
    ensures length < 0x1000_0000_0000 ==>
              4096 * total <= length && (total == 524288 || length < 4096 * (total + 1))
    ensures length >= 0x1000_0000_0000 ==>
              var rest := length % 0x1000_0000_0000;
              4096 * total <= rest && (total == 524288 || rest < 4096 * (total + 1))
    ensures total <= 2 + (total + 32767) / 32768 ==> r == Bug(ImageTooSmall)
    ensures total > 2 + (total + 32767) / 32768 ==> Built(total, es, r)
    ensures r.Ok? ==> 0 in r.value && OnBlockZero(r.value[0], total)
  {
    BlocksOfLength(length);
    total := ImageBlocks(length);
    if First(total) >= total {
      return Bug(ImageTooSmall), total;
    }
    r := BuildImage(total, es, junk, host);
    if r.Ok? {
      CountOnDisk(r.value, total, es);
    }
  }

  lemma RootKnown(view: View, host: Host, es: Entries)
    requires view == EMPTY && Hosted(host, es) && 0 !in host
    ensures Walking(view, host, {ROOT}, ROOT) && Unvisited(view, Dirs(es)) && Seen(view) == {}
  {
    if 0 in Dirs(es) {
      HostedDirs(host, es, 0);
    }
  }

  /** The superblock and the free map agree with the allocator. */
  lemma AccountsRight(fs: Fs, owner: Owner, view: View, junk: seq<byte>, img: Image)
    requires Inv(fs, owner, view) && |INFO| + |junk| == INFO_SIZE && Closed(fs, junk, img)
    ensures Accounts(img, fs.ninos, fs.nextIno)
  {
    FreeMapExact(fs, owner, view, junk, img);
    FreeCountExact(img, fs.ninos, fs.nextIno, MapSize(fs.ninos));
    assert Right(fs, junk, 0, img[0]);
    SuperReadsBack(fs.ninos, fs.unused, junk);
  }

  lemma RootFails(total: nat, view0: View, r: Outcome, next': nat, view: View, host: Host, es: Entries,
                  added: seq<seq<byte>>)
    requires ROOT in view0 && Seen(view0) == {} && r.Fail?
    requires DirFilled(total, First(total), view0, r, next', view, host, {ROOT}, ROOT, ROOT, es, added)
    ensures Honest(r.reason) && !FitsIn(total, es)
  {
  }

  lemma RootFilled(total: nat, next: nat, view: View, host: Host, es: Entries, added: seq<seq<byte>>)
    requires Seen(EMPTY) == {} && DirFilled(total, First(total), EMPTY, Pass, next, view, host, {ROOT}, ROOT, ROOT, es,
                                            added)
    ensures FitsIn(total, es) && next == Used(total, es) && Known(view, host)
    ensures ROOT in view && RootHolds(view, es, view[ROOT].data)
  {
    assert [] + added == added;
    RepEntriesStay(view, {ROOT}, view, {}, ROOT, es, added[2..]);
  }

  lemma RootDone(fs: Fs, owner: Owner, view: View, links: Links, host: Host, es: Entries, junk: seq<byte>, img: Image)
    requires Inv(fs, owner, view) && Counts(fs.inodes, view, links) && Hosted(host, es)
    requires Finished(fs.ninos, fs.nextIno, view, links, host, es)
    requires |INFO| + |junk| == INFO_SIZE && Closed(fs, junk, img)
    ensures ImageOf(img, fs.ninos, es)
  {
    RootReadsBack(fs, owner, view, links, junk, img, host, es, view[ROOT].data);
    AccountsRight(fs, owner, view, junk, img);
  }
}

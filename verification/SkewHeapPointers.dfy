/** The destructive skew heap of lab8/libs/skew_heap.h on linked entries with parent
    pointers.  Each method is tied to the tree function it refines. */
module SkewHeapPointers {
  import opened SkewHeap

  // ---------- when linked entries represent a tree ----------

  /** `p` points to `t` through the left and right fields. */
  ghost predicate Kids<K>(t: Tree<K>, p: Node?<K>)
    reads Nodes(t)`left, Nodes(t)`right
    decreases t
  {
    match t
    case Leaf => p == null
    case Branch(n, l, r) => p == n && Kids(l, n.left) && Kids(r, n.right)
  }

  /** Every node below the root points back to its parent. */
  ghost predicate ParentsBelow<K>(t: Tree<K>)
    reads (if t.Leaf? then {} else Nodes(t.left) + Nodes(t.right))`parent
    decreases t
  {
    match t
    case Leaf => true
    case Branch(n, l, r) =>
      && (l.Branch? ==> l.root.parent == n) && (r.Branch? ==> r.root.parent == n)
      && ParentsBelow(l) && ParentsBelow(r)
  }

  /** `p` is the root of linked entries that represent `t`. */
  ghost predicate Linked<K>(t: Tree<K>, p: Node?<K>)
    reads Nodes(t)
  {
    Distinct(t) && Kids(t, p) && ParentsBelow(t)
  }

  /** A whole heap: children, parent links and a parentless root. */
  ghost predicate Heap<K>(t: Tree<K>, p: Node?<K>)
    reads Nodes(t)
  {
    Linked(t, p) && (t.Branch? ==> t.root.parent == null)
  }

  /** The entries of a tree that is at hand are allocated. */
  lemma {:induction false} NodesAllocated<K>(t: Tree<K>)
    ensures forall n :: n in Nodes(t) ==> allocated(n)
  {
    match t
    case Leaf =>
    case Branch(_, l, r) =>
      NodesAllocated(l);
      NodesAllocated(r);
  }

  // ---------- skew_heap_init, skew_heap_merge, skew_heap_insert ----------

  method Init<K>(a: Node<K>)
    modifies a
    ensures Heap(Single(a), a)
  {
    a.left, a.right, a.parent := null, null, null;
    assert Kids(Leaf, a.left) && Kids(Leaf, a.right);
  }

  /** The last steps of both arms of skew_heap_merge: `n` gets the merged subtree on the left
      and its old left subtree on the right. */
  method Relink<K>(n: Node<K>, l: Node?<K>, r: Node?<K>, ghost tl: Tree<K>, ghost tr: Tree<K>)
    requires Linked(tl, l) && Linked(tr, r)
    requires n !in Nodes(tl) && n !in Nodes(tr) && Nodes(tl) !! Nodes(tr)
    requires r != null ==> r.parent == n
    modifies n`left, n`right, (if l == null then {} else {l})`parent
    ensures Linked(Branch(n, tl, tr), n)
  {
    n.left := l;
    n.right := r;
    if l != null { l.parent := n; }
  }

  /** The result represents MergeT of the two arguments; its root keeps its own parent field. */
  method Merge<K>(a: Node?<K>, b: Node?<K>, comp: (K, K) -> int, ghost ta: Tree<K>, ghost tb: Tree<K>)
    returns (res: Node?<K>, ghost calls: nat)
    requires Linked(ta, a) && Linked(tb, b) && Nodes(ta) !! Nodes(tb)
    modifies Nodes(ta) + Nodes(tb)
    ensures Linked(MergeT(ta, tb, comp), res)
    ensures calls == MergeCalls(ta, tb, comp)
    ensures res == a || res == b
    ensures res != null ==> res.parent == old(res.parent)
    decreases Size(ta) + Size(tb), 1
  {
    if a == null {
      return b, 0;
    } else if b == null {
      return a, 0;
    }
    if comp(a.key, b.key) == -1 {
      calls := KeepFirst(a, b, comp, ta, tb);
      return a, calls + 1;
    } else {
      calls := KeepSecond(a, b, comp, ta, tb);
      return b, calls + 1;
    }
  }

  /** The arm of skew_heap_merge in which `a` stays on top. */
  method KeepFirst<K>(a: Node<K>, b: Node<K>, comp: (K, K) -> int, ghost ta: Tree<K>, ghost tb: Tree<K>)
    returns (ghost calls: nat)
    requires Linked(ta, a) && Linked(tb, b) && Nodes(ta) !! Nodes(tb)
    modifies Nodes(ta) + Nodes(tb)
    ensures Linked(Branch(a, MergeT(ta.right, tb, comp), ta.left), a)
    ensures calls == MergeCalls(ta.right, tb, comp)
    ensures a.parent == old(a.parent)
    decreases Size(ta) + Size(tb), 0
  {
    var r := a.left;
    MergeNodes(ta.right, tb, comp);
    NodesAllocated(ta);
    assert Linked(ta.left, r) && Linked(ta.right, a.right);
    var l;
    l, calls := Merge(a.right, b, comp, ta.right, tb);
    Relink(a, l, r, MergeT(ta.right, tb, comp), ta.left);
  }

  /** The arm of skew_heap_merge in which `b` stays on top. */
  method KeepSecond<K>(a: Node<K>, b: Node<K>, comp: (K, K) -> int, ghost ta: Tree<K>, ghost tb: Tree<K>)
    returns (ghost calls: nat)
    requires Linked(ta, a) && Linked(tb, b) && Nodes(ta) !! Nodes(tb)
    modifies Nodes(ta) + Nodes(tb)
    ensures Linked(Branch(b, MergeT(ta, tb.right, comp), tb.left), b)
    ensures calls == MergeCalls(ta, tb.right, comp)
    ensures b.parent == old(b.parent)
    decreases Size(ta) + Size(tb), 0
  {
    var r := b.left;
    MergeNodes(ta, tb.right, comp);
    NodesAllocated(tb);
    assert Linked(tb.left, r) && Linked(tb.right, b.right);
    var l;
    l, calls := Merge(a, b.right, comp, ta, tb.right);
    Relink(b, l, r, MergeT(ta, tb.right, comp), tb.left);
  }

  method Insert<K>(a: Node?<K>, b: Node<K>, comp: (K, K) -> int, ghost t: Tree<K>)
    returns (res: Node?<K>, ghost calls: nat)
    requires Heap(t, a) && b !in Nodes(t)
    modifies Nodes(t), b
    ensures Heap(Step(t, SkewHeap.Insert(b), comp), res)
    ensures calls == StepCalls(t, SkewHeap.Insert(b), comp)
  {
    assert Linked(t, a);
    NodesAllocated(t);
    Init(b);
    assert Nodes(Single(b)) == {b};
    assert Linked(t, a);
    MergeNodes(t, Single(b), comp);
    res, calls := Merge(a, b, comp, t, Single(b));
  }

  // ---------- skew_heap_remove ----------

  /** The nodes of `t` outside the subtree at `b`. */
  ghost function Outside<K>(t: Tree<K>, b: Node<K>): (s: set<Node<K>>)
    ensures s <= Nodes(t)
  {
    match t
    case Leaf => {}
    case Branch(n, l, r) => if n == b then {} else {n} + Outside(l, b) + Outside(r, b)
  }

  lemma {:induction false} OutsideSub<K>(t: Tree<K>, b: Node<K>)
    requires Distinct(t) && b in Nodes(t)
    ensures Outside(t, b) == Nodes(t) - Nodes(SubT(t, b))
  {
    if t.root == b {
    } else if b in Nodes(t.left) {
      OutsideSub(t.left, b);
      OutsideAll(t.right, b);
    } else {
      OutsideAll(t.left, b);
      OutsideSub(t.right, b);
    }
  }

  lemma {:induction false} OutsideAll<K>(t: Tree<K>, b: Node<K>)
    requires b !in Nodes(t)
    ensures Outside(t, b) == Nodes(t)
  {
    match t
    case Leaf =>
    case Branch(_, l, r) =>
      OutsideAll(l, b);
      OutsideAll(r, b);
  }

  /** Like Kids, with two exceptions: where the subtree at `b` should hang the pointer is `rep`,
      and the fields of `up` are taken to be `lp` and `rp`. */
  ghost predicate KidsExcept<K>(t: Tree<K>, p: Node?<K>, b: Node<K>, rep: Node?<K>,
                                up: Node?<K>, lp: Node?<K>, rp: Node?<K>)
    reads (Outside(t, b) - {up})`left, (Outside(t, b) - {up})`right
    decreases t
  {
    match t
    case Leaf => p == null
    case Branch(n, l, r) =>
      if n == b then p == rep
      else
        && p == n
        && KidsExcept(l, if n == up then lp else n.left, b, rep, up, lp, rp)
        && KidsExcept(r, if n == up then rp else n.right, b, rep, up, lp, rp)
  }

  /** Parent links outside the subtree at `b`, whose parent is `up`; the parent of `t` is `par`. */
  ghost predicate ParentsExcept<K>(t: Tree<K>, b: Node<K>, up: Node?<K>, par: Node?<K>)
    reads Outside(t, b)`parent
    decreases t
  {
    match t
    case Leaf => true
    case Branch(n, l, r) =>
      if n == b then up == par
      else n.parent == par && ParentsExcept(l, b, up, n) && ParentsExcept(r, b, up, n)
  }

  /** Cutting the subtree at `b` out of linked entries. */
  lemma {:induction false} Detach<K>(t: Tree<K>, p: Node?<K>, par: Node?<K>, b: Node<K>)
    requires Linked(t, p) && (t.Branch? ==> t.root.parent == par)
    ensures KidsExcept(t, p, b, b, null, null, null) && ParentsExcept(t, b, b.parent, par)
    ensures b in Nodes(t) ==> Linked(SubT(t, b), b)
    ensures b in Nodes(t) && b != t.root ==> b.parent != null && b.parent in Outside(t, b)
  {
    if t.Branch? && t.root != b {
      Detach(t.left, t.root.left, t.root, b);
      Detach(t.right, t.root.right, t.root, b);
    }
  }

  /** Where `b` does not occur nothing is cut out. */
  lemma {:induction false} NothingCut<K>(t: Tree<K>, p: Node?<K>, b: Node<K>, rep: Node?<K>, up: Node?<K>,
                                         par: Node?<K>)
    requires b !in Nodes(t) && Distinct(t)
    requires KidsExcept(t, p, b, rep, null, null, null) && ParentsExcept(t, b, up, par)
    ensures Linked(t, p) && (t.Branch? ==> t.root.parent == par)
  {
    match t
    case Leaf =>
    case Branch(n, l, r) =>
      NothingCut(l, n.left, b, rep, up, n);
      NothingCut(r, n.right, b, rep, up, n);
  }

  /** Putting the merged children in the place of `b`. */
  lemma {:induction false} Attach<K>(t: Tree<K>, p: Node?<K>, b: Node<K>, rep: Node?<K>,
                                     up: Node?<K>, par: Node?<K>, comp: (K, K) -> int)
    requires Distinct(t) && b in Nodes(t)
    requires KidsExcept(t, p, b, rep, null, null, null) && ParentsExcept(t, b, up, par)
    requires Linked(MergeT(SubT(t, b).left, SubT(t, b).right, comp), rep)
    requires rep != null ==> rep.parent == up
    ensures Linked(RemoveT(t, b, comp), p)
    ensures RemoveT(t, b, comp).Branch? ==> RemoveT(t, b, comp).root.parent == par
  {
    RemoveNodes(t, b, comp);
    if t.root == b {
    } else if b in Nodes(t.left) {
      Attach(t.left, t.root.left, b, rep, up, t.root, comp);
      NothingCut(t.right, t.root.right, b, rep, up, t.root);
    } else {
      Attach(t.right, t.root.right, b, rep, up, t.root, comp);
      NothingCut(t.left, t.root.left, b, rep, up, t.root);
    }
  }

  /** Naming the fields of `up` explicitly. */
  lemma {:induction false} Name<K>(t: Tree<K>, p: Node?<K>, b: Node<K>, rep: Node?<K>, up: Node<K>)
    ensures KidsExcept(t, p, b, rep, null, null, null) == KidsExcept(t, p, b, rep, up, up.left, up.right)
  {
    if t.Branch? && t.root != b {
      Name(t.left, t.root.left, b, rep, up);
      Name(t.right, t.root.right, b, rep, up);
    }
  }

  lemma {:induction false} Untouched<K>(t: Tree<K>, p: Node?<K>, b: Node<K>, rep: Node?<K>,
                                        up: Node<K>, lp: Node?<K>, rp: Node?<K>, lp': Node?<K>, rp': Node?<K>)
    requires b !in Nodes(t) && up !in Nodes(t)
    requires KidsExcept(t, p, b, b, up, lp, rp)
    ensures KidsExcept(t, p, b, rep, up, lp', rp')
  {
    match t
    case Leaf =>
    case Branch(n, l, r) =>
      Untouched(l, n.left, b, rep, up, lp, rp, lp', rp');
      Untouched(r, n.right, b, rep, up, lp, rp, lp', rp');
  }

  /** The parent of a node below the root is in the tree. */
  lemma {:induction false} UpInside<K>(t: Tree<K>, b: Node<K>, up: Node?<K>, par: Node?<K>)
    requires b in Nodes(t) && b != t.root && ParentsExcept(t, b, up, par)
    ensures up in Outside(t, b)
  {
    if b in Nodes(t.left) {
      if t.left.root != b { UpInside(t.left, b, up, t.root); }
    } else {
      if t.right.root != b { UpInside(t.right, b, up, t.root); }
    }
  }

  /** Redirecting the one pointer to `b`, which is a field of `up`, to `rep`. */
  lemma {:induction false} Redirect<K>(t: Tree<K>, p: Node?<K>, b: Node<K>, rep: Node?<K>, up: Node<K>,
                                       lp: Node?<K>, rp: Node?<K>, lp': Node?<K>, rp': Node?<K>, par: Node?<K>)
    requires Distinct(t) && b in Nodes(t) && b != t.root
    requires KidsExcept(t, p, b, b, up, lp, rp) && ParentsExcept(t, b, up, par)
    requires if lp == b then lp' == rep && rp' == rp else lp' == lp && rp' == rep
    ensures KidsExcept(t, p, b, rep, up, lp', rp')
  {
    UpInside(t, b, up, par);
    var n := t.root;
    var inside := if b in Nodes(t.left) then t.left else t.right;
    var outside := if b in Nodes(t.left) then t.right else t.left;
    if inside.root == b {
      assert n == up;
      Untouched(outside, if outside == t.left then lp else rp, b, rep, up, lp, rp, lp', rp');
    } else {
      UpInside(inside, b, up, n);
      if b in Nodes(t.left) {
        Redirect(t.left, n.left, b, rep, up, lp, rp, lp', rp', n);
        Untouched(t.right, n.right, b, rep, up, lp, rp, lp', rp');
      } else {
        Redirect(t.right, n.right, b, rep, up, lp, rp, lp', rp', n);
        Untouched(t.left, n.left, b, rep, up, lp, rp, lp', rp');
      }
    }
  }

  /** Makes the field of `p` that points to `b` point to `rep`. */
  method Replace<K>(p: Node<K>, b: Node<K>, rep: Node?<K>, ghost t: Tree<K>, ghost a: Node<K>, ghost tr: Tree<K>)
    requires Distinct(t) && b in Nodes(t) && b != t.root && p in Outside(t, b)
    requires KidsExcept(t, a, b, b, null, null, null) && ParentsExcept(t, b, p, null)
    requires Linked(tr, rep) && p !in Nodes(tr)
    modifies p`left, p`right
    ensures KidsExcept(t, a, b, rep, null, null, null) && ParentsExcept(t, b, p, null)
    ensures Linked(tr, rep)
  {
    Name(t, a, b, b, p);
    if p.left == b {
      Redirect(t, a, b, rep, p, p.left, p.right, rep, p.right, null);
      p.left := rep;
    } else {
      Redirect(t, a, b, rep, p, p.left, p.right, p.left, rep, null);
      p.right := rep;
    }
    Name(t, a, b, rep, p);
  }

  /** Merges the children of `b` and gives the result the parent of `b`. */
  method MergeChildren<K>(b: Node<K>, comp: (K, K) -> int, ghost t: Tree<K>, ghost a: Node<K>)
    returns (rep: Node?<K>, ghost calls: nat)
    requires Heap(t, a) && b in Nodes(t)
    modifies Nodes(SubT(t, b)) - {b}
    ensures Linked(MergeT(SubT(t, b).left, SubT(t, b).right, comp), rep)
    ensures calls == RemoveCalls(t, b, comp)
    ensures rep != null ==> rep.parent == b.parent
    ensures KidsExcept(t, a, b, b, null, null, null) && ParentsExcept(t, b, b.parent, null)
    ensures b.parent == old(b.parent)
    ensures if b == t.root then b.parent == null else b.parent != null && b.parent in Outside(t, b)
  {
    ghost var sub := SubT(t, b);
    Detach(t, a, null, b);
    OutsideSub(t, b);
    NodesAllocated(t);
    var p := b.parent;
    rep, calls := Merge(b.left, b.right, comp, sub.left, sub.right);
    assert KidsExcept(t, a, b, b, null, null, null) && ParentsExcept(t, b, p, null);
    if rep != null { rep.parent := p; }
  }

  method Remove<K>(a: Node<K>, b: Node<K>, comp: (K, K) -> int, ghost t: Tree<K>)
    returns (res: Node?<K>, ghost calls: nat)
    requires Heap(t, a) && b in Nodes(t)
    modifies Nodes(t)
    ensures Heap(Step(t, SkewHeap.Remove(b), comp), res)
    ensures calls == StepCalls(t, SkewHeap.Remove(b), comp)
  {
    var p := b.parent;
    var rep;
    rep, calls := MergeChildren(b, comp, t, a);
    ghost var sub := SubT(t, b);
    OutsideSub(t, b);
    MergeNodes(sub.left, sub.right, comp);
    if p != null {
      Replace(p, b, rep, t, a, MergeT(sub.left, sub.right, comp));
      Attach(t, a, b, rep, p, null, comp);
      return a, calls;
    } else {
      Attach(t, rep, b, rep, p, null, comp);
      return rep, calls;
    }
  }

  lemma RootOrNull<K>(t: Tree<K>, p: Node?<K>)
    requires Linked(t, p)
    ensures p == null <==> Nodes(t) == {}
    ensures p != null ==> t.Branch? && t.root == p
  {
    assert t.Branch? ==> t.root in Nodes(t);
  }

  // ---------- every run ----------

  /** Any legal run of inserts and removals on pointers, from the empty heap, with any comparator: the links represent
      the tree of the run over exactly the live nodes, and the comparing calls made are the ones that RunAmortised
      bounds. When the comparator orders the nodes of the run, the root is a minimum of the live nodes. */
  method RunAll<K>(ops: seq<Op<K>>, comp: (K, K) -> int)
    returns (root: Node?<K>, ghost calls: nat)
    requires Legal(ops)
    modifies Mentioned(ops)
    ensures Heap(Run(ops, comp), root) && Nodes(Run(ops, comp)) == Live(ops) && Distinct(Run(ops, comp))
    ensures calls == RunCalls(ops, comp)
    ensures root == null <==> Live(ops) == {}
    ensures root != null && OrderOn(comp, Mentioned(ops)) ==>
              root in Live(ops) && forall m :: m in Live(ops) && m != root ==> Le(comp, root.key, m.key)
    decreases |ops|
  {
    RunNodes(ops, comp);
    if OrderOn(comp, Mentioned(ops)) {
      RunInvariant(ops, comp, Mentioned(ops));
    }
    if ops == [] {
      return null, 0;
    }
    ghost var before := ops[..|ops| - 1];
    RunNodes(before, comp);
    ghost var earlier: nat;
    root, earlier := RunAll(ops[..|ops| - 1], comp);
    RootOrNull(Run(before, comp), root);
    match ops[|ops| - 1] {
      case Insert(n) =>
        root, calls := Insert(root, n, comp, Run(before, comp));
      case Remove(n) =>
        root, calls := Remove(root, n, comp, Run(before, comp));
    }
    calls := earlier + calls;
    RootOrNull(Run(ops, comp), root);
  }
}

/** The skew heap of lab8/libs/skew_heap.h: its shape as a functional tree, the
    tree-level operations, their amortised cost, and the invariants of every run.
    The pointer program that refines these functions is in SkewHeapPointers.dfy. */
module SkewHeap {
  import opened Common

  /** An intrusive heap entry.  `key` stands for what the container of the entry
      contributes to a comparison. */
  class Node<K> {
    const key: K
    var parent: Node?<K>
    var left: Node?<K>
    var right: Node?<K>

    constructor (key: K)
      ensures this.key == key && parent == null && left == null && right == null
    {
      this.key := key;
      parent, left, right := null, null, null;
    }
  }

  datatype Tree<!K> = Leaf | Branch(root: Node<K>, left: Tree<K>, right: Tree<K>)

  // ---------- the order ----------

  /** What the heap demands of `compare_f`: returning exactly -1 is a strict weak order on the
      entries that are compared, which are never the same entry twice. */
  ghost predicate OrderOn<K>(comp: (K, K) -> int, nodes: set<Node<K>>) {
    && (forall x, y :: x in nodes && y in nodes && x != y ==> Le(comp, x.key, y.key) || Le(comp, y.key, x.key))
    && (forall x, y, z {:trigger Le(comp, x.key, y.key), Le(comp, y.key, z.key)} ::
          (x in nodes && y in nodes && z in nodes && x != y && y != z && x != z
           && Le(comp, x.key, y.key) && Le(comp, y.key, z.key)) ==> Le(comp, x.key, z.key))
  }

  predicate Le<K>(comp: (K, K) -> int, x: K, y: K) {
    comp(y, x) != -1
  }

  // ---------- shape ----------

  ghost function Nodes<K>(t: Tree<K>): set<Node<K>> {
    match t
    case Leaf => {}
    case Branch(n, l, r) => {n} + Nodes(l) + Nodes(r)
  }

  function Size<K>(t: Tree<K>): nat {
    match t
    case Leaf => 0
    case Branch(_, l, r) => 1 + Size(l) + Size(r)
  }

  /** No node occurs twice. */
  ghost predicate Distinct<K>(t: Tree<K>) {
    match t
    case Leaf => true
    case Branch(n, l, r) =>
      n !in Nodes(l) && n !in Nodes(r) && Nodes(l) !! Nodes(r) && Distinct(l) && Distinct(r)
  }

  /** Every node is at most everything below it. */
  ghost predicate HeapOrdered<K>(t: Tree<K>, comp: (K, K) -> int) {
    match t
    case Leaf => true
    case Branch(n, l, r) =>
      && (forall m :: m in Nodes(l) + Nodes(r) ==> Le(comp, n.key, m.key))
      && HeapOrdered(l, comp) && HeapOrdered(r, comp)
  }

  lemma {:induction false} SizeIsCardinality<K>(t: Tree<K>)
    requires Distinct(t)
    ensures Size(t) == |Nodes(t)|
  {
    match t
    case Leaf =>
    case Branch(n, l, r) =>
      SizeIsCardinality(l);
      SizeIsCardinality(r);
      CardinalityOfBranch(n, Nodes(l), Nodes(r));
  }

  lemma CardinalityOfBranch<T>(x: T, a: set<T>, b: set<T>)
    requires x !in a && x !in b && a !! b
    ensures |{x} + a + b| == 1 + |a| + |b|
  {
    assert {x} + a + b == {x} + (a + b);
  }

  // ---------- operations on trees ----------

  /** skew_heap_merge: the winner's right subtree is merged with the loser, and the two
      children are exchanged. */
  function MergeT<K>(a: Tree<K>, b: Tree<K>, comp: (K, K) -> int): Tree<K>
    decreases Size(a) + Size(b)
  {
    if a.Leaf? then b
    else if b.Leaf? then a
    else if comp(a.root.key, b.root.key) == -1 then Branch(a.root, MergeT(a.right, b, comp), a.left)
    else Branch(b.root, MergeT(a, b.right, comp), b.left)
  }

  /** The number of calls of skew_heap_merge that compare two entries. */
  function MergeCalls<K>(a: Tree<K>, b: Tree<K>, comp: (K, K) -> int): nat
    decreases Size(a) + Size(b)
  {
    if a.Leaf? || b.Leaf? then 0
    else if comp(a.root.key, b.root.key) == -1 then 1 + MergeCalls(a.right, b, comp)
    else 1 + MergeCalls(a, b.right, comp)
  }

  function Single<K>(n: Node<K>): Tree<K> {
    Branch(n, Leaf, Leaf)
  }

  /** skew_heap_remove: the subtree at `b` is replaced by the merge of its children. */
  ghost function RemoveT<K>(t: Tree<K>, b: Node<K>, comp: (K, K) -> int): Tree<K> {
    match t
    case Leaf => Leaf
    case Branch(n, l, r) =>
      if n == b then MergeT(l, r, comp)
      else if b in Nodes(l) then Branch(n, RemoveT(l, b, comp), r)
      else Branch(n, l, RemoveT(r, b, comp))
  }

  /** The subtree rooted at `b`. */
  ghost function SubT<K>(t: Tree<K>, b: Node<K>): (s: Tree<K>)
    requires b in Nodes(t)
    ensures s.Branch? && s.root == b && Nodes(s) <= Nodes(t) && Size(s) <= Size(t)
    ensures Distinct(t) ==> Distinct(s)
  {
    if t.root == b then t
    else if b in Nodes(t.left) then SubT(t.left, b)
    else SubT(t.right, b)
  }

  ghost function RemoveCalls<K>(t: Tree<K>, b: Node<K>, comp: (K, K) -> int): nat
    requires b in Nodes(t)
  {
    var s := SubT(t, b);
    MergeCalls(s.left, s.right, comp)
  }

  // ---------- merging as a sequence of comparisons ----------

  /** One comparing call on a and b with the result t: the root of a if the comparator says exactly -1, of b otherwise.
      Its left subtree becomes the right one, and the next call, on its right subtree and the other heap, gives the left
      one. */
  ghost predicate MergeStep<K>(a: Tree<K>, b: Tree<K>, t: Tree<K>, a': Tree<K>, b': Tree<K>, t': Tree<K>,
                               comp: (K, K) -> int)
  {
    && a.Branch? && b.Branch? && t.Branch? && t.left == t'
    && if comp(a.root.key, b.root.key) == -1
       then t.root == a.root && t.right == a.left && a' == a.right && b' == b
       else t.root == b.root && t.right == b.left && a' == a && b' == b.right
  }

  /** A merge is such a sequence of calls, down to one in which a heap is empty and which gives the other. */
  ghost predicate MergeTrace<K>(a: Tree<K>, b: Tree<K>, t: Tree<K>, calls: nat, comp: (K, K) -> int, tas: seq<Tree<K>>,
                                tbs: seq<Tree<K>>, ts: seq<Tree<K>>)
  {
    && |tas| == |tbs| == |ts| == calls + 1 && tas[0] == a && tbs[0] == b && ts[0] == t
    && (forall k :: 0 <= k < calls ==> MergeStep(tas[k], tbs[k], ts[k], tas[k + 1], tbs[k + 1], ts[k + 1], comp))
    && (if tas[calls].Leaf? then ts[calls] == tbs[calls] else tbs[calls].Leaf? && ts[calls] == tas[calls])
  }

  lemma {:induction false} MergeSteps<K>(a: Tree<K>, b: Tree<K>, comp: (K, K) -> int)
    returns (tas: seq<Tree<K>>, tbs: seq<Tree<K>>, ts: seq<Tree<K>>)
    ensures MergeTrace(a, b, MergeT(a, b, comp), MergeCalls(a, b, comp), comp, tas, tbs, ts)
    decreases Size(a) + Size(b)
  {
    tas, tbs, ts := [a], [b], [MergeT(a, b, comp)];
    if a.Branch? && b.Branch? {
      var first := comp(a.root.key, b.root.key) == -1;
      var a', b' := if first then a.right else a, if first then b else b.right;
      var tas', tbs', ts' := MergeSteps(a', b', comp);
      TraceOn(a, b, a', b', comp, tas', tbs', ts');
      tas, tbs, ts := tas + tas', tbs + tbs', ts + ts';
    }
  }

  lemma TraceOn<K>(a: Tree<K>, b: Tree<K>, a': Tree<K>, b': Tree<K>, comp: (K, K) -> int, tas: seq<Tree<K>>,
                   tbs: seq<Tree<K>>, ts: seq<Tree<K>>)
    requires MergeStep(a, b, MergeT(a, b, comp), a', b', MergeT(a', b', comp), comp)
    requires MergeCalls(a, b, comp) == MergeCalls(a', b', comp) + 1
    requires MergeTrace(a', b', MergeT(a', b', comp), MergeCalls(a', b', comp), comp, tas, tbs, ts)
    ensures MergeTrace(a, b, MergeT(a, b, comp), MergeCalls(a, b, comp), comp, [a] + tas, [b] + tbs,
                       [MergeT(a, b, comp)] + ts)
  {
    var xs, ys, zs, n := [a] + tas, [b] + tbs, [MergeT(a, b, comp)] + ts, MergeCalls(a, b, comp);
    forall k | 0 <= k < n ensures MergeStep(xs[k], ys[k], zs[k], xs[k + 1], ys[k + 1], zs[k + 1], comp) {
      if k > 0 {
        assert MergeStep(tas[k - 1], tbs[k - 1], ts[k - 1], tas[k], tbs[k], ts[k], comp);
      }
    }
  }

  /** A node on top whose key does not compare -1 with the new one makes way for it. */
  lemma InsertTop<K>(t: Tree<K>, n: Node<K>, comp: (K, K) -> int)
    requires t.Branch?
    ensures var s := Step(t, Insert(n), comp);
            && s.Branch? && s.root == (if comp(t.root.key, n.key) == -1 then t.root else n)
            && s.right == (if comp(t.root.key, n.key) == -1 then t.left else Leaf)
  {
  }

  /** When the top is removed, the left child takes its place if its key compares -1 with the right one, and otherwise
      the right child. */
  lemma RemoveTop<K>(t: Tree<K>, comp: (K, K) -> int)
    requires t.Branch? && t.left.Branch? && t.right.Branch?
    ensures var l, r, s := t.left, t.right, Step(t, Remove(t.root), comp);
            && s.Branch? && s.root == (if comp(l.root.key, r.root.key) == -1 then l.root else r.root)
            && s.right == (if comp(l.root.key, r.root.key) == -1 then l.left else r.left)
  {
  }

  /** Removing another node keeps the top and the child that does not hold the node. */
  lemma RemoveBelow<K>(t: Tree<K>, n: Node<K>, comp: (K, K) -> int)
    requires t.Branch? && n != t.root && Distinct(t)
    ensures var s := Step(t, Remove(n), comp);
            && s.Branch? && s.root == t.root
            && (n in Nodes(t.left) ==> s.right == t.right && s.left == Step(t.left, Remove(n), comp))
            && (n in Nodes(t.right) ==> s.left == t.left && s.right == Step(t.right, Remove(n), comp))
  {
  }

  // ---------- merge and remove keep the invariants ----------

  lemma {:induction false} MergeNodes<K>(a: Tree<K>, b: Tree<K>, comp: (K, K) -> int)
    ensures Nodes(MergeT(a, b, comp)) == Nodes(a) + Nodes(b)
    ensures Size(MergeT(a, b, comp)) == Size(a) + Size(b)
    ensures Distinct(a) && Distinct(b) && Nodes(a) !! Nodes(b) ==> Distinct(MergeT(a, b, comp))
    decreases Size(a) + Size(b)
  {
    if a.Leaf? || b.Leaf? {
    } else if comp(a.root.key, b.root.key) == -1 {
      MergeNodes(a.right, b, comp);
    } else {
      MergeNodes(a, b.right, comp);
    }
  }

  /** The root of a heap is at most every other node. */
  lemma RootIsLeast<K>(t: Tree<K>, comp: (K, K) -> int)
    requires HeapOrdered(t, comp) && t.Branch?
    ensures forall m :: m in Nodes(t) && m != t.root ==> Le(comp, t.root.key, m.key)
  {
  }

  lemma BelowRoot<K>(x: Node<K>, t: Tree<K>, comp: (K, K) -> int, nodes: set<Node<K>>)
    requires OrderOn(comp, nodes) && x in nodes && Nodes(t) <= nodes && x !in Nodes(t) && Distinct(t)
    requires HeapOrdered(t, comp) && t.Branch? && Le(comp, x.key, t.root.key)
    ensures forall m :: m in Nodes(t) ==> Le(comp, x.key, m.key)
  {
    RootIsLeast(t, comp);
    assert t.root in Nodes(t);
    forall m | m in Nodes(t) ensures Le(comp, x.key, m.key) {
      if m != t.root {
        assert Le(comp, t.root.key, m.key);
      }
    }
  }

  /** Merging two heaps gives a heap. */
  lemma {:induction false} MergeOrdered<K>(a: Tree<K>, b: Tree<K>, comp: (K, K) -> int, nodes: set<Node<K>>)
    requires OrderOn(comp, nodes) && Nodes(a) <= nodes && Nodes(b) <= nodes
    requires Distinct(a) && Distinct(b) && Nodes(a) !! Nodes(b) && HeapOrdered(a, comp) && HeapOrdered(b, comp)
    ensures HeapOrdered(MergeT(a, b, comp), comp)
    decreases Size(a) + Size(b)
  {
    if a.Leaf? || b.Leaf? {
    } else {
      assert a.root in Nodes(a) && b.root in Nodes(b);
      assert Le(comp, a.root.key, b.root.key) || Le(comp, b.root.key, a.root.key);
      if comp(a.root.key, b.root.key) == -1 {
        MergeOrdered(a.right, b, comp, nodes);
        MergeNodes(a.right, b, comp);
        BelowRoot(a.root, b, comp, nodes);
      } else {
        MergeOrdered(a, b.right, comp, nodes);
        MergeNodes(a, b.right, comp);
        BelowRoot(b.root, a, comp, nodes);
      }
    }
  }

  lemma {:induction false} RemoveNodes<K>(t: Tree<K>, b: Node<K>, comp: (K, K) -> int)
    requires Distinct(t) && b in Nodes(t)
    ensures Nodes(RemoveT(t, b, comp)) == Nodes(t) - {b}
    ensures Distinct(RemoveT(t, b, comp))
    ensures Size(RemoveT(t, b, comp)) == Size(t) - 1
  {
    if t.root == b {
      MergeNodes(t.left, t.right, comp);
    } else if b in Nodes(t.left) {
      RemoveNodes(t.left, b, comp);
    } else {
      RemoveNodes(t.right, b, comp);
    }
  }

  lemma {:induction false} RemoveOrdered<K>(t: Tree<K>, b: Node<K>, comp: (K, K) -> int, nodes: set<Node<K>>)
    requires OrderOn(comp, nodes) && Nodes(t) <= nodes && Distinct(t) && HeapOrdered(t, comp) && b in Nodes(t)
    ensures HeapOrdered(RemoveT(t, b, comp), comp)
  {
    if t.root == b {
      MergeOrdered(t.left, t.right, comp, nodes);
    } else if b in Nodes(t.left) {
      RemoveOrdered(t.left, b, comp, nodes);
      RemoveNodes(t.left, b, comp);
    } else {
      RemoveOrdered(t.right, b, comp, nodes);
      RemoveNodes(t.right, b, comp);
    }
  }

  // ---------- amortised cost ----------

  function Log2(n: nat): nat
    requires n > 0
  {
    if n == 1 then 0 else 1 + Log2(n / 2)
  }

  lemma {:induction false} Log2Monotone(m: nat, n: nat)
    requires 0 < m <= n
    ensures Log2(m) <= Log2(n)
  {
    if m > 1 {
      Log2Monotone(m / 2, n / 2);
    }
  }

  /** Halving loses at least one from the logarithm. */
  lemma Log2Half(m: nat, n: nat)
    requires 0 < m && 2 * m <= n
    ensures 1 + Log2(m) <= Log2(n)
  {
    Log2Monotone(m, n / 2);
  }

  predicate RightHeavy<K>(t: Tree<K>) {
    t.Branch? && Size(t.right) > Size(t.left)
  }

  /** The potential: how many nodes have a larger right than left subtree. */
  function Potential<K>(t: Tree<K>): nat {
    match t
    case Leaf => 0
    case Branch(_, l, r) => (if RightHeavy(t) then 1 else 0) + Potential(l) + Potential(r)
  }

  /** How many nodes on the right spine are not right-heavy. */
  function LightSpine<K>(t: Tree<K>): nat {
    match t
    case Leaf => 0
    case Branch(_, l, r) => (if RightHeavy(t) then 0 else 1) + LightSpine(r)
  }

  lemma {:induction false} LightSpineBound<K>(t: Tree<K>)
    ensures LightSpine(t) <= Log2(Size(t) + 1)
  {
    match t
    case Leaf =>
    case Branch(_, l, r) =>
      LightSpineBound(r);
      if RightHeavy(t) {
        Log2Monotone(Size(r) + 1, Size(t) + 1);
      } else {
        Log2Half(Size(r) + 1, Size(t) + 1);
      }
  }

  lemma {:induction false} MergeSpineCost<K>(a: Tree<K>, b: Tree<K>, comp: (K, K) -> int)
    ensures MergeCalls(a, b, comp) + Potential(MergeT(a, b, comp))
         <= Potential(a) + Potential(b) + 2 * (LightSpine(a) + LightSpine(b))
    decreases Size(a) + Size(b)
  {
    if a.Leaf? || b.Leaf? {
    } else if comp(a.root.key, b.root.key) == -1 {
      MergeSpineCost(a.right, b, comp);
      MergeNodes(a.right, b, comp);
    } else {
      MergeSpineCost(a, b.right, comp);
      MergeNodes(a, b.right, comp);
    }
  }

  /** Amortised cost of one merge. */
  lemma MergeAmortised<K>(a: Tree<K>, b: Tree<K>, comp: (K, K) -> int)
    ensures MergeCalls(a, b, comp) + Potential(MergeT(a, b, comp))
         <= Potential(a) + Potential(b) + 2 * (Log2(Size(a) + 1) + Log2(Size(b) + 1))
  {
    MergeSpineCost(a, b, comp);
    LightSpineBound(a);
    LightSpineBound(b);
  }

  /** How many proper ancestors of `b` have `b` on their left and subtrees of equal sizes: the
      ones that become right-heavy when `b` goes. */
  ghost function EvenAncestors<K>(t: Tree<K>, b: Node<K>): nat {
    match t
    case Leaf => 0
    case Branch(n, l, r) =>
      if n == b then 0
      else if b in Nodes(l) then (if Size(l) == Size(r) then 1 else 0) + EvenAncestors(l, b)
      else EvenAncestors(r, b)
  }

  lemma {:induction false} EvenAncestorsBound<K>(t: Tree<K>, b: Node<K>)
    ensures EvenAncestors(t, b) <= Log2(Size(t) + 1)
  {
    if t.Branch? && t.root != b {
      var inside := if b in Nodes(t.left) then t.left else t.right;
      EvenAncestorsBound(inside, b);
      if b in Nodes(t.left) && Size(t.left) == Size(t.right) {
        Log2Half(Size(inside) + 1, Size(t) + 1);
      } else {
        Log2Monotone(Size(inside) + 1, Size(t) + 1);
      }
    }
  }

  lemma {:induction false} RemoveSpineCost<K>(t: Tree<K>, b: Node<K>, comp: (K, K) -> int)
    requires Distinct(t) && b in Nodes(t)
    ensures var s := SubT(t, b);
            RemoveCalls(t, b, comp) + Potential(RemoveT(t, b, comp))
            <= Potential(t) + EvenAncestors(t, b) + 2 * (LightSpine(s.left) + LightSpine(s.right))
  {
    if t.root == b {
      MergeSpineCost(t.left, t.right, comp);
    } else if b in Nodes(t.left) {
      RemoveSpineCost(t.left, b, comp);
      RemoveNodes(t.left, b, comp);
      assert RemoveT(t, b, comp) == Branch(t.root, RemoveT(t.left, b, comp), t.right);
    } else {
      RemoveSpineCost(t.right, b, comp);
      RemoveNodes(t.right, b, comp);
      assert RemoveT(t, b, comp) == Branch(t.root, t.left, RemoveT(t.right, b, comp));
    }
  }

  /** `log` is at least the logarithm of every tree of at most `cap` nodes. */
  lemma SpineWithin<K>(t: Tree<K>, cap: nat, log: nat)
    requires Size(t) <= cap && log == Log2(cap + 1)
    ensures LightSpine(t) <= log
  {
    LightSpineBound(t);
    Log2Monotone(Size(t) + 1, cap + 1);
  }

  lemma EvenWithin<K>(t: Tree<K>, b: Node<K>, cap: nat, log: nat)
    requires Size(t) <= cap && log == Log2(cap + 1)
    ensures EvenAncestors(t, b) <= log
  {
    EvenAncestorsBound(t, b);
    Log2Monotone(Size(t) + 1, cap + 1);
  }

  // ---------- runs ----------

  datatype Op<!K> = Insert(n: Node<K>) | Remove(n: Node<K>)

  ghost function Step<K>(t: Tree<K>, op: Op<K>, comp: (K, K) -> int): Tree<K> {
    match op
    case Insert(n) => MergeT(t, Single(n), comp)
    case Remove(n) => RemoveT(t, n, comp)
  }

  ghost function StepCalls<K>(t: Tree<K>, op: Op<K>, comp: (K, K) -> int): nat
    requires op.Remove? ==> op.n in Nodes(t)
  {
    match op
    case Insert(n) => MergeCalls(t, Single(n), comp)
    case Remove(n) => RemoveCalls(t, n, comp)
  }

  /** The nodes inserted and not removed since. */
  ghost function Live<K>(ops: seq<Op<K>>): set<Node<K>> {
    if ops == [] then {}
    else
      var before := Live(ops[..|ops| - 1]);
      match ops[|ops| - 1]
      case Insert(n) => before + {n}
      case Remove(n) => before - {n}
  }

  /** A caller inserts only nodes that are out of the heap and removes only nodes in it. */
  ghost predicate Legal<K>(ops: seq<Op<K>>) {
    ops == [] ||
    (Legal(ops[..|ops| - 1]) && (ops[|ops| - 1].Insert? <==> ops[|ops| - 1].n !in Live(ops[..|ops| - 1])))
  }

  ghost function Run<K>(ops: seq<Op<K>>, comp: (K, K) -> int): Tree<K> {
    if ops == [] then Leaf else Step(Run(ops[..|ops| - 1], comp), ops[|ops| - 1], comp)
  }

  /** The nodes that a run speaks of. */
  ghost function Mentioned<K>(ops: seq<Op<K>>): (s: set<Node<K>>)
    ensures Live(ops) <= s
  {
    if ops == [] then {} else Mentioned(ops[..|ops| - 1]) + {ops[|ops| - 1].n}
  }

  lemma StepNodes<K>(t: Tree<K>, op: Op<K>, comp: (K, K) -> int)
    requires Distinct(t) && (op.Insert? <==> op.n !in Nodes(t))
    ensures Distinct(Step(t, op, comp))
    ensures Nodes(Step(t, op, comp)) == if op.Insert? then Nodes(t) + {op.n} else Nodes(t) - {op.n}
    ensures Size(Step(t, op, comp)) == if op.Insert? then Size(t) + 1 else Size(t) - 1
  {
    match op
    case Insert(n) =>
      assert Nodes(Single(n)) == {n} && Distinct(Single(n));
      MergeNodes(t, Single(n), comp);
    case Remove(n) =>
      RemoveNodes(t, n, comp);
  }

  /** Over every run, with any comparator: the heap holds exactly the live nodes, once each. */
  lemma {:induction false} RunNodes<K>(ops: seq<Op<K>>, comp: (K, K) -> int)
    requires Legal(ops)
    ensures Distinct(Run(ops, comp)) && Nodes(Run(ops, comp)) == Live(ops)
  {
    if ops != [] {
      var before, op := ops[..|ops| - 1], ops[|ops| - 1];
      RunNodes(before, comp);
      StepNodes(Run(before, comp), op, comp);
    }
  }

  lemma StepOrdered<K>(t: Tree<K>, op: Op<K>, comp: (K, K) -> int, nodes: set<Node<K>>)
    requires OrderOn(comp, nodes) && Nodes(t) <= nodes && op.n in nodes
    requires Distinct(t) && HeapOrdered(t, comp) && (op.Insert? <==> op.n !in Nodes(t))
    ensures HeapOrdered(Step(t, op, comp), comp)
  {
    match op
    case Insert(n) =>
      assert Nodes(Single(n)) == {n} && Distinct(Single(n)) && HeapOrdered(Single(n), comp);
      MergeOrdered(t, Single(n), comp, nodes);
    case Remove(n) =>
      RemoveOrdered(t, n, comp, nodes);
  }

  /** Every run over nodes that the comparator orders keeps heap order, and
      so the root is a minimum of the live nodes. */
  lemma {:induction false} RunInvariant<K>(ops: seq<Op<K>>, comp: (K, K) -> int, nodes: set<Node<K>>)
    requires OrderOn(comp, nodes) && Legal(ops) && Mentioned(ops) <= nodes
    ensures HeapOrdered(Run(ops, comp), comp)
    ensures Live(ops) != {} ==>
              && Run(ops, comp).Branch? && Run(ops, comp).root in Live(ops)
              && forall m :: m in Live(ops) && m != Run(ops, comp).root ==> Le(comp, Run(ops, comp).root.key, m.key)
  {
    if ops != [] {
      var before, op := ops[..|ops| - 1], ops[|ops| - 1];
      RunInvariant(before, comp, nodes);
      RunNodes(before, comp);
      StepOrdered(Run(before, comp), op, comp, nodes);
    }
    RunNodes(ops, comp);
    if Live(ops) != {} {
      RootIsLeast(Run(ops, comp), comp);
    }
  }

  // ---------- exactly which comparators will do ----------

  lemma TwoInserts<K>(x: Node<K>, y: Node<K>, comp: (K, K) -> int) returns (ops: seq<Op<K>>)
    requires x != y
    ensures ops == [Insert(x), Insert(y)] && Legal(ops) && Mentioned(ops) == {x, y} == Live(ops)
    ensures Run(ops, comp)
            == if comp(x.key, y.key) == -1 then Branch(x, Single(y), Leaf) else Branch(y, Single(x), Leaf)
  {
    ops := [Insert(x), Insert(y)];
    OneInsert(x, comp);
    assert ops[..1] == [Insert(x)];
    assert MergeT(Leaf, Single(y), comp) == Single(y) && MergeT(Single(x), Leaf, comp) == Single(x);
    assert Run(ops, comp) == MergeT(Single(x), Single(y), comp);
  }

  lemma OneInsert<K>(x: Node<K>, comp: (K, K) -> int)
    ensures var ops := [Insert(x)];
            Legal(ops) && Mentioned(ops) == {x} == Live(ops) && Run(ops, comp) == Single(x)
  {
    var ops := [Insert(x)];
    assert ops[..0] == [];
  }

  /** When neither y wins over x nor z over y, inserting z, y, x leaves x over y over z. */
  lemma ThreeInserts<K>(x: Node<K>, y: Node<K>, z: Node<K>, comp: (K, K) -> int) returns (ops: seq<Op<K>>)
    requires x != y && y != z && x != z && Le(comp, x.key, y.key) && Le(comp, y.key, z.key)
    ensures Legal(ops) && Mentioned(ops) == {x, y, z}
    ensures Run(ops, comp) == Branch(x, Branch(y, Single(z), Leaf), Leaf)
  {
    var two := TwoInserts(z, y, comp);
    ops := two + [Insert(x)];
    assert ops[..2] == two;
    var t := Branch(y, Single(z), Leaf);
    assert Run(ops, comp) == MergeT(t, Single(x), comp);
    assert MergeT(t, Leaf, comp) == t;
  }

  /** Heap order survives every run over a set of nodes exactly when the comparator orders these nodes. */
  lemma HeapOrderExactly<K>(comp: (K, K) -> int, nodes: set<Node<K>>)
    ensures OrderOn(comp, nodes) <==>
            forall ops: seq<Op<K>> :: Legal(ops) && Mentioned(ops) <= nodes ==> HeapOrdered(Run(ops, comp), comp)
  {
    if OrderOn(comp, nodes) {
      forall ops: seq<Op<K>> | Legal(ops) && Mentioned(ops) <= nodes ensures HeapOrdered(Run(ops, comp), comp) {
        RunInvariant(ops, comp, nodes);
      }
    } else {
      var ops := DisorderedRun(comp, nodes);
    }
  }

  lemma DisorderedRun<K>(comp: (K, K) -> int, nodes: set<Node<K>>) returns (ops: seq<Op<K>>)
    requires !OrderOn(comp, nodes)
    ensures Legal(ops) && Mentioned(ops) <= nodes && !HeapOrdered(Run(ops, comp), comp)
  {
    if x, y :| x in nodes && y in nodes && x != y && !Le(comp, x.key, y.key) && !Le(comp, y.key, x.key) {
      ops := TwoInserts(x, y, comp);
      assert y in Nodes(Single(y)) + Nodes(Leaf);
    } else {
      var x, y, z :| x in nodes && y in nodes && z in nodes && x != y && y != z && x != z
                     && Le(comp, x.key, y.key) && Le(comp, y.key, z.key) && !Le(comp, x.key, z.key);
      ops := ThreeInserts(x, y, z, comp);
      assert z in Nodes(Single(z)) && z in Nodes(Branch(y, Single(z), Leaf));
    }
  }

  /** The root of the heap is least by sign. */
  ghost predicate LeastBySign<K>(t: Tree<K>, comp: (K, K) -> int) {
    t.Branch? ==> forall m :: m in Nodes(t) ==> comp(t.root.key, m.key) <= 0
  }

  /** Every negative result of a comparison between two of the nodes is -1. */
  ghost predicate NegativeIsMinusOne<K>(comp: (K, K) -> int, nodes: set<Node<K>>) {
    forall x, y :: x in nodes && y in nodes && x != y && comp(x.key, y.key) < 0 ==> comp(x.key, y.key) == -1
  }

  /** A comparator that orders by sign, as those of qsort do, keeps a least node on top in every run over a set of
      nodes exactly when it never returns a negative number other than -1 for two of them. */
  lemma MinusOneExactly<K(!new)>(comp: (K, K) -> int, nodes: set<Node<K>>)
    requires TotalPreorder(comp)
    ensures NegativeIsMinusOne(comp, nodes) <==>
            forall ops: seq<Op<K>> :: Legal(ops) && Mentioned(ops) <= nodes ==> LeastBySign(Run(ops, comp), comp)
  {
    if NegativeIsMinusOne(comp, nodes) {
      SignsOrder(comp, nodes);
      forall ops: seq<Op<K>> | Legal(ops) && Mentioned(ops) <= nodes ensures LeastBySign(Run(ops, comp), comp) {
        SignRun(ops, comp, nodes);
      }
    } else {
      var x, y :| x in nodes && y in nodes && x != y && comp(x.key, y.key) < 0 && comp(x.key, y.key) != -1;
      var ops := TwoInserts(x, y, comp);
      assert x in Nodes(Run(ops, comp));
    }
  }

  lemma SignsOrder<K(!new)>(comp: (K, K) -> int, nodes: set<Node<K>>)
    requires TotalPreorder(comp) && NegativeIsMinusOne(comp, nodes)
    ensures OrderOn(comp, nodes)
  {
    forall x, y, z | x in nodes && y in nodes && z in nodes && x != y && y != z && x != z
                     && Le(comp, x.key, y.key) && Le(comp, y.key, z.key)
      ensures Le(comp, x.key, z.key)
    {
      assert comp(x.key, y.key) <= 0 && comp(y.key, z.key) <= 0;
      assert comp(x.key, z.key) <= 0;
    }
  }

  lemma SignRun<K(!new)>(ops: seq<Op<K>>, comp: (K, K) -> int, nodes: set<Node<K>>)
    requires TotalPreorder(comp) && NegativeIsMinusOne(comp, nodes) && OrderOn(comp, nodes)
    requires Legal(ops) && Mentioned(ops) <= nodes
    ensures LeastBySign(Run(ops, comp), comp)
  {
    RunInvariant(ops, comp, nodes);
    RunNodes(ops, comp);
    var t := Run(ops, comp);
    if t.Branch? {
      assert t.root in Nodes(t);
      forall m | m in Nodes(t) ensures comp(t.root.key, m.key) <= 0 {
        if m == t.root {
          assert comp(m.key, m.key) < 0 <==> comp(m.key, m.key) > 0;
        } else {
          assert Le(comp, t.root.key, m.key);
        }
      }
    }
  }

  /** The difference of two keys, a total preorder by sign, does not do: it puts the larger of two keys on top as
      soon as they differ by more than one. */
  lemma DifferenceComparatorFails(x: Node<int>, y: Node<int>)
    requires x != y && x.key + 1 < y.key
    ensures var comp := (i: int, j: int) => i - j;
            && TotalPreorder(comp)
            && exists ops :: Legal(ops) && Mentioned(ops) <= {x, y} && !LeastBySign(Run(ops, comp), comp)
  {
    var comp := (i: int, j: int) => i - j;
    assert comp(x.key, y.key) < 0 && comp(x.key, y.key) != -1;
    MinusOneExactly(comp, {x, y});
  }

  // ---------- the cost of runs ----------

  /** The comparing calls of a whole run. */
  ghost function RunCalls<K>(ops: seq<Op<K>>, comp: (K, K) -> int): nat
    requires Legal(ops)
  {
    if ops == [] then 0
    else
      var before := ops[..|ops| - 1];
      RunNodes(before, comp);
      RunCalls(before, comp) + StepCalls(Run(before, comp), ops[|ops| - 1], comp)
  }

  /** At most `cap` nodes are in the heap at any time. */
  ghost predicate Within<K>(ops: seq<Op<K>>, cap: nat) {
    |Live(ops)| <= cap && (ops != [] ==> Within(ops[..|ops| - 1], cap))
  }

  lemma StepSpineCost<K>(t: Tree<K>, op: Op<K>, comp: (K, K) -> int) returns (spine: nat, even: nat)
    requires Distinct(t) && (op.Insert? <==> op.n !in Nodes(t))
    ensures StepCalls(t, op, comp) + Potential(Step(t, op, comp)) <= Potential(t) + 2 * spine + even
    ensures op.Insert? ==> spine == LightSpine(t) + 1 && even == 0
    ensures op.Remove? ==> spine == LightSpine(SubT(t, op.n).left) + LightSpine(SubT(t, op.n).right)
    ensures op.Remove? ==> even == EvenAncestors(t, op.n)
  {
    match op
    case Insert(n) =>
      MergeSpineCost(t, Single(n), comp);
      spine, even := LightSpine(t) + 1, 0;
    case Remove(n) =>
      RemoveSpineCost(t, n, comp);
      spine, even := LightSpine(SubT(t, n).left) + LightSpine(SubT(t, n).right), EvenAncestors(t, n);
  }

  /** Amortised cost of one operation. */
  lemma StepAmortised<K>(t: Tree<K>, op: Op<K>, comp: (K, K) -> int, cap: nat, log: nat)
    requires Distinct(t) && (op.Insert? <==> op.n !in Nodes(t))
    requires (if op.Insert? then Size(t) + 1 else Size(t)) <= cap && log == Log2(cap + 1)
    ensures StepCalls(t, op, comp) + Potential(Step(t, op, comp)) <= Potential(t) + 5 * log
  {
    var spine, even := StepSpineCost(t, op, comp);
    match op
    case Insert(n) =>
      SpineWithin(t, cap, log);
      SpineWithin(Single(n), cap, log);
      assert LightSpine(Single(n)) == 1;
    case Remove(n) =>
      SpineWithin(SubT(t, n).left, cap, log);
      SpineWithin(SubT(t, n).right, cap, log);
      EvenWithin(t, n, cap, log);
  }

  lemma {:induction false} RunPaid<K>(ops: seq<Op<K>>, comp: (K, K) -> int, cap: nat, log: nat)
    requires Legal(ops) && Within(ops, cap) && log == Log2(cap + 1)
    ensures RunCalls(ops, comp) + Potential(Run(ops, comp)) <= |ops| * (5 * log)
  {
    if ops != [] {
      var before, op := ops[..|ops| - 1], ops[|ops| - 1];
      RunPaid(before, comp, cap, log);
      RunStepPaid(ops, comp, cap, log);
      TimesSucc(|before|, 5 * log);
    }
  }

  lemma RunStepPaid<K>(ops: seq<Op<K>>, comp: (K, K) -> int, cap: nat, log: nat)
    requires Legal(ops) && Within(ops, cap) && log == Log2(cap + 1) && ops != []
    ensures RunCalls(ops, comp) + Potential(Run(ops, comp))
         <= RunCalls(ops[..|ops| - 1], comp) + Potential(Run(ops[..|ops| - 1], comp)) + 5 * log
  {
    var before, op := ops[..|ops| - 1], ops[|ops| - 1];
    RunNodes(before, comp);
    RunNodes(ops, comp);
    var t := Run(before, comp);
    SizeIsCardinality(t);
    SizeIsCardinality(Run(ops, comp));
    StepNodes(t, op, comp);
    StepAmortised(t, op, comp, cap, log);
  }

  lemma FiveTimes(m: nat, c: nat)
    ensures m * (5 * c) == 5 * m * c
  {
  }

  lemma TimesSucc(m: nat, c: nat)
    ensures (m + 1) * c == m * c + c
  {
  }

  /** Any run of m operations that never holds more than `cap` nodes compares at most
      5 m log2(cap + 1) times. */
  lemma RunAmortised<K>(ops: seq<Op<K>>, comp: (K, K) -> int, cap: nat)
    requires Legal(ops) && Within(ops, cap)
    ensures RunCalls(ops, comp) <= 5 * |ops| * Log2(cap + 1)
  {
    var log := Log2(cap + 1);
    RunPaid(ops, comp, cap, log);
    FiveTimes(|ops|, log);
  }
}

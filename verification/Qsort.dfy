/** The Bentley-McIlroy quicksort of lab8/libs/qsort.c.  An element is one array slot; `lo` and
    `n` stand for the pointer and the count that the C function is called with. */
module Qsort {
  import opened Common

  // ---------- order, permutation, regions ----------

  ghost predicate Sorted<T>(s: seq<T>, lo: nat, hi: nat, cmp: (T, T) -> int)
    requires lo <= hi <= |s|
  {
    forall i, j :: lo <= i < j < hi ==> cmp(s[i], s[j]) <= 0
  }

  /** Everything in the first range is at most everything in the second. */
  ghost predicate Before<T>(s: seq<T>, lo: nat, mid: nat, from: nat, hi: nat, cmp: (T, T) -> int)
    requires lo <= mid <= |s| && from <= hi <= |s|
  {
    forall i, j :: lo <= i < mid && from <= j < hi ==> cmp(s[i], s[j]) <= 0
  }

  /** `t` rearranges `s` inside the range and equals it outside. */
  ghost predicate Rearranged<T>(s: seq<T>, t: seq<T>, lo: nat, hi: nat) {
    && |s| == |t| && lo <= hi <= |s|
    && multiset(s) == multiset(t)
    && (forall k :: 0 <= k < |s| && !(lo <= k < hi) ==> t[k] == s[k])
  }

  lemma RangeElements<T>(s: seq<T>, lo: nat, hi: nat)
    requires lo <= hi <= |s|
    ensures multiset(s[lo..hi]) == multiset(s) - multiset(s[..lo]) - multiset(s[hi..])
  {
    assert s == s[..lo] + s[lo..hi] + s[hi..];
  }

  /** The elements inside the range are the same, with multiplicity. */
  lemma RearrangedRange<T>(s: seq<T>, t: seq<T>, lo: nat, hi: nat)
    requires Rearranged(s, t, lo, hi)
    ensures multiset(s[lo..hi]) == multiset(t[lo..hi])
    ensures s[..lo] == t[..lo] && s[hi..] == t[hi..]
  {
    assert s[..lo] == t[..lo] && s[hi..] == t[hi..];
    RangeElements(s, lo, hi);
    RangeElements(t, lo, hi);
  }

  /** Every element of the rearranged range was there before. */
  lemma RearrangedFrom<T>(s: seq<T>, t: seq<T>, lo: nat, hi: nat, k: nat) returns (j: nat)
    requires Rearranged(s, t, lo, hi) && lo <= k < hi
    ensures lo <= j < hi && t[k] == s[j]
  {
    RearrangedRange(s, t, lo, hi);
    assert t[lo..hi][k - lo] in multiset(t[lo..hi]);
    assert t[k] in s[lo..hi];
    var i :| 0 <= i < |s[lo..hi]| && s[lo..hi][i] == t[k];
    j := lo + i;
  }

  function Swapped<T>(s: seq<T>, i: nat, j: nat): seq<T>
    requires i < |s| && j < |s|
  {
    s[i := s[j]][j := s[i]]
  }

  lemma SwappedElements<T>(s: seq<T>, i: nat, j: nat)
    requires i < |s| && j < |s|
    ensures multiset(Swapped(s, i, j)) == multiset(s)
  {
  }

  lemma RearrangedTrans<T>(s: seq<T>, t: seq<T>, u: seq<T>, lo: nat, hi: nat)
    requires Rearranged(s, t, lo, hi) && Rearranged(t, u, lo, hi)
    ensures Rearranged(s, u, lo, hi)
  {
  }

  lemma RearrangedSwap<T>(s: seq<T>, t: seq<T>, i: nat, j: nat, lo: nat, hi: nat)
    requires Rearranged(s, t, lo, hi) && lo <= i < hi && lo <= j < hi
    ensures Rearranged(s, Swapped(t, i, j), lo, hi)
  {
    SwappedElements(t, i, j);
  }

  // ---------- swap, vecswap ----------

  method Swap<T>(a: array<T>, i: nat, j: nat)
    requires i < a.Length && j < a.Length
    modifies a
    ensures a[..] == Swapped(old(a[..]), i, j) && multiset(a[..]) == multiset(old(a[..]))
  {
    SwappedElements(a[..], i, j);
    var t := a[i];
    a[i] := a[j];
    a[j] := t;
  }

  /** Position `k` after exchanging the blocks of `r` elements at `i` and `j`. */
  function Exchanged(i: nat, j: nat, r: nat, k: nat): nat
    requires i + r <= j
  {
    if i <= k < i + r then j + (k - i) else if j <= k < j + r then i + (k - j) else k
  }

  ghost predicate BlocksExchanged<T>(s: seq<T>, t: seq<T>, i: nat, j: nat, r: nat)
    requires i + r <= j && j + r <= |s|
  {
    |s| == |t| && forall k {:trigger Exchanged(i, j, r, k)} :: 0 <= k < |s| ==> t[k] == s[Exchanged(i, j, r, k)]
  }

  lemma ExchangeOneMore<T>(s: seq<T>, t: seq<T>, u: seq<T>, i: nat, j: nat, m: nat)
    requires i + m + 1 <= j && j + m + 1 <= |s|
    requires BlocksExchanged(s, t, i, j, m) && u == Swapped(t, i + m, j + m)
    ensures BlocksExchanged(s, u, i, j, m + 1)
  {
    forall k | 0 <= k < |s| ensures u[k] == s[Exchanged(i, j, m + 1, k)] {
      assert t[k] == s[Exchanged(i, j, m, k)];
      assert t[i + m] == s[Exchanged(i, j, m, i + m)] && t[j + m] == s[Exchanged(i, j, m, j + m)];
    }
  }

  /** One element more of two blocks. */
  method SwapNext<T>(a: array<T>, i: nat, j: nat, m: nat, ghost s: seq<T>)
    requires i + m + 1 <= j && j + m + 1 <= a.Length == |s|
    requires BlocksExchanged(s, a[..], i, j, m) && multiset(a[..]) == multiset(s)
    modifies a
    ensures BlocksExchanged(s, a[..], i, j, m + 1) && multiset(a[..]) == multiset(s)
  {
    ghost var t := a[..];
    ghost var u := Swapped(t, i + m, j + m);
    ExchangeOneMore(s, t, u, i, j, m);
    Swap(a, i + m, j + m);
    assert a[..] == u;
  }

  /** Exchanges two blocks of `r` elements that do not overlap. */
  method VecSwap<T>(a: array<T>, i: nat, j: nat, r: nat)
    requires i + r <= j && j + r <= a.Length
    modifies a
    ensures BlocksExchanged(old(a[..]), a[..], i, j, r)
    ensures multiset(a[..]) == multiset(old(a[..]))
  {
    var m := 0;
    ghost var s := a[..];
    while m < r
      invariant 0 <= m <= r
      invariant BlocksExchanged(s, a[..], i, j, m) && multiset(a[..]) == multiset(s)
    {
      SwapNext(a, i, j, m, s);
      m := m + 1;
    }
  }

  // ---------- med3 and the choice of the pivot ----------

  ghost predicate Between<T>(x: T, m: T, y: T, cmp: (T, T) -> int) {
    (cmp(x, m) <= 0 && cmp(m, y) <= 0) || (cmp(y, m) <= 0 && cmp(m, x) <= 0)
  }

  /** m is one of three positions and holds their median. */
  ghost predicate IsMedian<T>(a: array<T>, m: nat, i: nat, j: nat, k: nat, cmp: (T, T) -> int)
    reads a
    requires i < a.Length && j < a.Length && k < a.Length
  {
    || (m == i && Between(a[j], a[i], a[k], cmp))
    || (m == j && Between(a[i], a[j], a[k], cmp))
    || (m == k && Between(a[i], a[k], a[j], cmp))
  }

  /** The position of the median of three elements. */
  function Med3<T(!new)>(a: array<T>, i: nat, j: nat, k: nat, cmp: (T, T) -> int): (m: nat)
    reads a
    requires i < a.Length && j < a.Length && k < a.Length && TotalPreorder(cmp)
    ensures IsMedian(a, m, i, j, k, cmp)
  {
    if cmp(a[i], a[j]) < 0 then
      (if cmp(a[j], a[k]) < 0 then j else if cmp(a[i], a[k]) < 0 then k else i)
    else
      (if cmp(a[j], a[k]) > 0 then j else if cmp(a[i], a[k]) < 0 then i else k)
  }

  /** pl, mid and pn are the medians of three samples each, at the low end, around h and at the high end. */
  ghost predicate Samples<T>(a: array<T>, lo: nat, n: nat, h: nat, d: nat, pl: nat, mid: nat, pn: nat,
                             cmp: (T, T) -> int)
    reads a
    requires lo + n <= a.Length && 2 * d < n && d <= h && h + d < n
  {
    && IsMedian(a, pl, lo, lo + d, lo + 2 * d, cmp)
    && IsMedian(a, mid, lo + h - d, lo + h, lo + h + d, cmp)
    && IsMedian(a, pn, lo + n - 1 - 2 * d, lo + n - 1 - d, lo + n - 1, cmp)
  }

  /** The pseudo-median of nine: the median of three medians. */
  ghost predicate MedianOfNine<T>(a: array<T>, lo: nat, n: nat, h: nat, d: nat, pm: nat, cmp: (T, T) -> int)
    reads a
    requires lo + n <= a.Length && 2 * d < n && d <= h && h + d < n
  {
    exists pl, mid, pn :: Samples(a, lo, n, h, d, pl, mid, pn, cmp) && IsMedian(a, pm, pl, mid, pn, cmp)
  }

  method PseudoMedian<T(!new)>(a: array<T>, lo: nat, n: nat, h: nat, d: nat, cmp: (T, T) -> int) returns (pm: nat)
    requires lo + n <= a.Length && 2 * d < n && d <= h && h + d < n && TotalPreorder(cmp)
    ensures lo <= pm < lo + n && MedianOfNine(a, lo, n, h, d, pm, cmp)
  {
    var pl := Med3(a, lo, lo + d, lo + 2 * d, cmp);
    var mid := Med3(a, lo + h - d, lo + h, lo + h + d, cmp);
    var pn := Med3(a, lo + n - 1 - 2 * d, lo + n - 1 - d, lo + n - 1, cmp);
    assert Samples(a, lo, n, h, d, pl, mid, pn, cmp);
    pm := Med3(a, pl, mid, pn, cmp);
  }

  /** Middle, median of three or pseudo-median of nine; every sampled position is in range. */
  method ChoosePivot<T(!new)>(a: array<T>, lo: nat, n: nat, cmp: (T, T) -> int) returns (pm: nat)
    requires lo + n <= a.Length && n >= 7 && TotalPreorder(cmp)
    ensures lo <= pm < lo + n
    ensures n == 7 ==> pm == lo + 3
    ensures 7 < n <= 40 ==> IsMedian(a, pm, lo, lo + n / 2, lo + n - 1, cmp)
    ensures n > 40 ==> MedianOfNine(a, lo, n, n / 2, n / 8, pm, cmp)
  {
    var h, d := n / 2, n / 8;
    if n > 40 {
      pm := PseudoMedian(a, lo, n, h, d, cmp);
    } else if n > 7 {
      pm := Med3(a, lo, lo + h, lo + n - 1, cmp);
    } else {
      pm := lo + h;
    }
  }

  // ---------- insertion sort ----------

  /** Sorted up to `pm`, except that the element at `pl` is yet to sink. */
  ghost predicate Sinking<T>(s: seq<T>, lo: nat, pl: nat, pm: nat, cmp: (T, T) -> int) {
    && lo <= pl <= pm < |s|
    && forall i, j :: lo <= i < j <= pm && j != pl ==> cmp(s[i], s[j]) <= 0
  }

  lemma SinkStep<T(!new)>(s: seq<T>, lo: nat, pl: nat, pm: nat, cmp: (T, T) -> int)
    requires TotalPreorder(cmp) && Sinking(s, lo, pl, pm, cmp) && pl > lo && cmp(s[pl - 1], s[pl]) > 0
    ensures Sinking(Swapped(s, pl, pl - 1), lo, pl - 1, pm, cmp)
  {
    var t := Swapped(s, pl, pl - 1);
    forall i, j | lo <= i < j <= pm && j != pl - 1 ensures cmp(t[i], t[j]) <= 0 {
      if j == pl {
        assert i != pl - 1 ==> cmp(s[i], s[pl - 1]) <= 0;
      }
    }
  }

  lemma SinkEnd<T(!new)>(s: seq<T>, lo: nat, pl: nat, pm: nat, cmp: (T, T) -> int)
    requires TotalPreorder(cmp) && Sinking(s, lo, pl, pm, cmp) && (pl == lo || cmp(s[pl - 1], s[pl]) <= 0)
    ensures Sorted(s, lo, pm + 1, cmp)
  {
    forall i, j | lo <= i < j < pm + 1 ensures cmp(s[i], s[j]) <= 0 {
      if j == pl && i != pl - 1 {
        assert cmp(s[i], s[pl - 1]) <= 0;
      }
    }
  }

  /** One turn of the inner loop. */
  method SinkNext<T(!new)>(a: array<T>, lo: nat, pl: nat, pm: nat, cmp: (T, T) -> int, ghost s: seq<T>)
    requires lo < pl <= pm < a.Length && TotalPreorder(cmp) && cmp(a[pl - 1], a[pl]) > 0
    requires Sinking(a[..], lo, pl, pm, cmp) && Rearranged(s, a[..], lo, pm + 1)
    modifies a
    ensures Sinking(a[..], lo, pl - 1, pm, cmp) && Rearranged(s, a[..], lo, pm + 1)
  {
    ghost var t := a[..];
    SinkStep(t, lo, pl, pm, cmp);
    RearrangedSwap(s, t, pl, pl - 1, lo, pm + 1);
    Swap(a, pl, pl - 1);
    assert a[..] == Swapped(t, pl, pl - 1);
  }

  /** The inner loop: sinks the element at `pm` into the sorted range before it. */
  method Sink<T(!new)>(a: array<T>, lo: nat, pm: nat, cmp: (T, T) -> int)
    requires lo <= pm < a.Length && TotalPreorder(cmp)
    requires Sorted(a[..], lo, pm, cmp)
    modifies a
    ensures Sorted(a[..], lo, pm + 1, cmp)
    ensures Rearranged(old(a[..]), a[..], lo, pm + 1)
  {
    var pl: nat := pm;
    while pl > lo && cmp(a[pl - 1], a[pl]) > 0
      invariant Sinking(a[..], lo, pl, pm, cmp)
      invariant Rearranged(old(a[..]), a[..], lo, pm + 1)
    {
      SinkNext(a, lo, pl, pm, cmp, old(a[..]));
      pl := pl - 1;
    }
    SinkEnd(a[..], lo, pl, pm, cmp);
  }

  method InsertionSort<T(!new)>(a: array<T>, lo: nat, n: nat, cmp: (T, T) -> int)
    requires lo + n <= a.Length && TotalPreorder(cmp)
    modifies a
    ensures Sorted(a[..], lo, lo + n, cmp)
    ensures Rearranged(old(a[..]), a[..], lo, lo + n)
  {
    var pm := lo + 1;
    while pm < lo + n
      invariant lo + 1 <= pm && (pm <= lo + n || n == 0)
      invariant n > 0 ==> Sorted(a[..], lo, pm, cmp)
      invariant Rearranged(old(a[..]), a[..], lo, lo + n)
    {
      Sink(a, lo, pm, cmp);
      pm := pm + 1;
    }
  }

  // ---------- the five-region partition ----------

  /** equal | less | unknown | greater | equal, against the pivot at `lo`. */
  ghost predicate FiveRegions<T>(s: seq<T>, lo: nat, pa: nat, pb: nat, pc: int, pd: int, hi: nat, cmp: (T, T) -> int) {
    && lo < pa <= pb <= pc + 1 <= pd + 1 <= hi <= |s|
    && (forall k :: lo <= k < pa ==> cmp(s[k], s[lo]) == 0)
    && (forall k :: pa <= k < pb ==> cmp(s[k], s[lo]) < 0)
    && (forall k :: pc < k <= pd ==> cmp(s[k], s[lo]) > 0)
    && (forall k :: pd < k < hi ==> cmp(s[k], s[lo]) == 0)
  }

  /** An equal element joins the left equal block. */
  lemma EqualLeft<T>(s: seq<T>, lo: nat, pa: nat, pb: nat, pc: int, pd: int, hi: nat, cmp: (T, T) -> int)
    requires FiveRegions(s, lo, pa, pb, pc, pd, hi, cmp) && pb <= pc && cmp(s[pb], s[lo]) == 0
    ensures FiveRegions(Swapped(s, pa, pb), lo, pa + 1, pb + 1, pc, pd, hi, cmp)
  {
  }

  /** An equal element joins the right equal block. */
  lemma EqualRight<T>(s: seq<T>, lo: nat, pa: nat, pb: nat, pc: int, pd: int, hi: nat, cmp: (T, T) -> int)
    requires FiveRegions(s, lo, pa, pb, pc, pd, hi, cmp) && pb <= pc && cmp(s[pc], s[lo]) == 0
    ensures FiveRegions(Swapped(s, pc, pd), lo, pa, pb, pc - 1, pd - 1, hi, cmp)
    ensures Swapped(s, pc, pd)[lo] == s[lo] && (pb < pc ==> Swapped(s, pc, pd)[pb] == s[pb])
  {
  }

  lemma CrossSwap<T>(s: seq<T>, lo: nat, pa: nat, pb: nat, pc: nat, pd: int, hi: nat, cmp: (T, T) -> int)
    requires FiveRegions(s, lo, pa, pb, pc, pd, hi, cmp) && pb < pc
    requires cmp(s[pb], s[lo]) > 0 && cmp(s[pc], s[lo]) < 0
    ensures FiveRegions(Swapped(s, pb, pc), lo, pa, pb + 1, pc - 1, pd, hi, cmp)
  {
  }

  /** The first inner loop: moves `pb` right over elements not above the pivot. */
  method ScanUp<T(!new)>(a: array<T>, lo: nat, pa0: nat, pb0: nat, pc: int, ghost pd: int, ghost hi: nat,
                         cmp: (T, T) -> int) returns (pa: nat, pb: nat, swapped: bool)
    requires FiveRegions(a[..], lo, pa0, pb0, pc, pd, hi, cmp)
    modifies a
    ensures FiveRegions(a[..], lo, pa, pb, pc, pd, hi, cmp)
    ensures pb >= pb0 && (pb <= pc ==> cmp(a[pb], a[lo]) > 0)
    ensures !swapped ==> a[..] == old(a[..])
    ensures Rearranged(old(a[..]), a[..], lo, hi)
  {
    pa, pb, swapped := pa0, pb0, false;
    while pb <= pc && cmp(a[pb], a[lo]) <= 0
      invariant FiveRegions(a[..], lo, pa, pb, pc, pd, hi, cmp) && pb0 <= pb
      invariant !swapped ==> a[..] == old(a[..])
      invariant Rearranged(old(a[..]), a[..], lo, hi)
      decreases pc - pb
    {
      if cmp(a[pb], a[lo]) == 0 {
        swapped := true;
        EqualLeft(a[..], lo, pa, pb, pc, pd, hi, cmp);
        RearrangedSwap(old(a[..]), a[..], pa, pb, lo, hi);
        Swap(a, pa, pb);
        pa := pa + 1;
      }
      pb := pb + 1;
    }
  }

  /** The second inner loop: moves `pc` left over elements not below the pivot. */
  method ScanDown<T(!new)>(a: array<T>, lo: nat, ghost pa: nat, pb: nat, pc0: int, pd0: int, ghost hi: nat,
                           cmp: (T, T) -> int) returns (pc: int, pd: int, swapped: bool)
    requires FiveRegions(a[..], lo, pa, pb, pc0, pd0, hi, cmp)
    modifies a
    ensures FiveRegions(a[..], lo, pa, pb, pc, pd, hi, cmp)
    ensures pc <= pc0 && (pb <= pc ==> cmp(a[pc], a[lo]) < 0 && a[pb] == old(a[pb]) && a[lo] == old(a[lo]))
    ensures !swapped ==> a[..] == old(a[..])
    ensures Rearranged(old(a[..]), a[..], lo, hi)
  {
    pc, pd, swapped := pc0, pd0, false;
    while pb <= pc && cmp(a[pc], a[lo]) >= 0
      invariant FiveRegions(a[..], lo, pa, pb, pc, pd, hi, cmp) && pc <= pc0
      invariant a[..][lo] == old(a[..])[lo] && (pb <= pc ==> a[..][pb] == old(a[..])[pb])
      invariant !swapped ==> a[..] == old(a[..])
      invariant Rearranged(old(a[..]), a[..], lo, hi)
      decreases pc - pb
    {
      if cmp(a[pc], a[lo]) == 0 {
        swapped := true;
        EqualRight(a[..], lo, pa, pb, pc, pd, hi, cmp);
        RearrangedSwap(old(a[..]), a[..], pc, pd, lo, hi);
        Swap(a, pc, pd);
        pd := pd - 1;
      }
      pc := pc - 1;
    }
  }

  /** One turn of the `for (;;)` loop; it ends with the unknown region empty or smaller. */
  method Turn<T(!new)>(a: array<T>, lo: nat, pa0: nat, pb0: nat, pc0: int, pd0: int, ghost hi: nat, cmp: (T, T) -> int)
    returns (pa: nat, pb: nat, pc: int, pd: int, swapped: bool, more: bool)
    requires FiveRegions(a[..], lo, pa0, pb0, pc0, pd0, hi, cmp)
    modifies a
    ensures FiveRegions(a[..], lo, pa, pb, pc, pd, hi, cmp)
    ensures if more then pc - pb < pc0 - pb0 && pb0 <= pc0 else pb == pc + 1
    ensures !swapped ==> a[..] == old(a[..])
    ensures Rearranged(old(a[..]), a[..], lo, hi)
  {
    var up, down;
    pa, pb, up := ScanUp(a, lo, pa0, pb0, pc0, pd0, hi, cmp);
    ghost var s := a[..];
    pc, pd, down := ScanDown(a, lo, pa, pb, pc0, pd0, hi, cmp);
    RearrangedTrans(old(a[..]), s, a[..], lo, hi);
    if pb > pc {
      return pa, pb, pc, pd, up || down, false;
    }
    assert pb != pc;
    CrossSwap(a[..], lo, pa, pb, pc, pd, hi, cmp);
    RearrangedSwap(old(a[..]), a[..], pb, pc, lo, hi);
    Swap(a, pb, pc);
    return pa, pb + 1, pc - 1, pd, true, true;
  }

  /** The `for (;;)` loop: until the unknown region is empty. */
  method Partition<T(!new)>(a: array<T>, lo: nat, n: nat, cmp: (T, T) -> int)
    returns (pa: nat, pb: nat, pc: int, pd: int, swapped: bool)
    requires lo + n <= a.Length && n >= 2 && TotalPreorder(cmp)
    modifies a
    ensures FiveRegions(a[..], lo, pa, pb, pc, pd, lo + n, cmp) && pb == pc + 1
    ensures Rearranged(old(a[..]), a[..], lo, lo + n)
    ensures !swapped ==> a[..] == old(a[..])
  {
    swapped := false;
    pa, pb := lo + 1, lo + 1;
    pc, pd := lo + n - 1, lo + n - 1;
    assert cmp(a[lo], a[lo]) == 0;
    var more := true;
    while more
      invariant FiveRegions(a[..], lo, pa, pb, pc, pd, lo + n, cmp)
      invariant Rearranged(old(a[..]), a[..], lo, lo + n)
      invariant !swapped ==> a[..] == old(a[..])
      invariant !more ==> pb == pc + 1
      decreases more, pc - pb + 1
    {
      ghost var s := a[..];
      var moved;
      pa, pb, pc, pd, moved, more := Turn(a, lo, pa, pb, pc, pd, lo + n, cmp);
      RearrangedTrans(old(a[..]), s, a[..], lo, lo + n);
      swapped := swapped || moved;
    }
  }

  /** less | equal | greater, with a non-empty middle. */
  ghost predicate ThreeRegions<T>(s: seq<T>, lo: nat, less: nat, greater: nat, hi: nat, v: T, cmp: (T, T) -> int) {
    && lo + less < hi - greater && lo + less <= hi <= |s|
    && (forall k :: lo <= k < lo + less ==> cmp(s[k], v) < 0)
    && (forall k :: lo + less <= k < hi - greater ==> cmp(s[k], v) == 0)
    && (forall k :: hi - greater <= k < hi ==> cmp(s[k], v) > 0)
  }

  /** equal | less becomes less | equal. */
  lemma LeftGathered<T>(s: seq<T>, t: seq<T>, lo: nat, pa: nat, pb: nat, r: nat, cmp: (T, T) -> int)
    requires lo < pa <= pb <= |s| && r == Min(pa - lo, pb - pa)
    requires forall k :: lo <= k < pa ==> cmp(s[k], s[lo]) == 0
    requires forall k :: pa <= k < pb ==> cmp(s[k], s[lo]) < 0
    requires BlocksExchanged(s, t, lo, pb - r, r)
    ensures forall k :: lo <= k < lo + (pb - pa) ==> cmp(t[k], s[lo]) < 0
    ensures forall k :: lo + (pb - pa) <= k < pb ==> cmp(t[k], s[lo]) == 0
    ensures forall k :: 0 <= k < lo || pb <= k < |s| ==> t[k] == s[k]
  {
    assert forall k :: 0 <= k < |s| ==> t[k] == s[Exchanged(lo, pb - r, r, k)];
  }

  /** greater | equal becomes equal | greater. */
  lemma RightGathered<T>(s: seq<T>, t: seq<T>, pb: nat, greater: nat, pn: nat, r: nat, v: T, cmp: (T, T) -> int)
    requires pb + greater <= pn <= |s| && r == Min(greater, pn - pb - greater)
    requires forall k :: pb <= k < pb + greater ==> cmp(s[k], v) > 0
    requires forall k :: pb + greater <= k < pn ==> cmp(s[k], v) == 0
    requires BlocksExchanged(s, t, pb, pn - r, r)
    ensures forall k :: pb <= k < pn - greater ==> cmp(t[k], v) == 0
    ensures forall k :: pn - greater <= k < pn ==> cmp(t[k], v) > 0
    ensures forall k :: 0 <= k < pb || pn <= k < |s| ==> t[k] == s[k]
  {
    assert forall k :: 0 <= k < |s| ==> t[k] == s[Exchanged(pb, pn - r, r, k)];
  }

  lemma Gathered<T>(s0: seq<T>, s1: seq<T>, s2: seq<T>, lo: nat, pa: nat, pb: nat, pd: int, pn: nat,
                    r: nat, r': nat, cmp: (T, T) -> int)
    requires FiveRegions(s0, lo, pa, pb, pb - 1, pd, pn, cmp)
    requires r == Min(pa - lo, pb - pa) && BlocksExchanged(s0, s1, lo, pb - r, r)
    requires r' == Min(pd - (pb - 1), pn - pd - 1) && BlocksExchanged(s1, s2, pb, pn - r', r')
    requires multiset(s0) == multiset(s1) == multiset(s2)
    ensures ThreeRegions(s2, lo, pb - pa, pd - (pb - 1), pn, s0[lo], cmp)
    ensures Rearranged(s0, s2, lo, pn)
  {
    LeftGathered(s0, s1, lo, pa, pb, r, cmp);
    RightGathered(s1, s2, pb, pd - (pb - 1), pn, r', s0[lo], cmp);
  }

  /** The two vector swaps that bring the equal elements from both ends to the middle. */
  method GatherEqual<T(!new)>(a: array<T>, lo: nat, n: nat, pa: nat, pb: nat, pc: int, pd: int, cmp: (T, T) -> int)
    returns (ghost v: T)
    requires lo + n <= a.Length
    requires FiveRegions(a[..], lo, pa, pb, pc, pd, lo + n, cmp) && pb == pc + 1
    modifies a
    ensures ThreeRegions(a[..], lo, pb - pa, pd - pc, lo + n, v, cmp)
    ensures Rearranged(old(a[..]), a[..], lo, lo + n)
  {
    v := a[lo];
    var pn := lo + n;
    ghost var s0 := a[..];
    var r := Min(pa - lo, pb - pa);
    VecSwap(a, lo, pb - r, r);
    ghost var s1 := a[..];
    var r' := Min(pd - pc, pn - pd - 1);
    VecSwap(a, pb, pn - r', r');
    Gathered(s0, s1, a[..], lo, pa, pb, pd, pn, r, r', cmp);
  }

  // ---------- qsort ----------

  /** One pass of the body for n >= 7: either the range is sorted by the insertion sort that takes
      over when partitioning swapped nothing, or it is split around a non-empty equal block. */
  method Pass<T(!new)>(a: array<T>, lo: nat, n: nat, cmp: (T, T) -> int)
    returns (done: bool, less: nat, greater: nat, ghost v: T)
    requires lo + n <= a.Length && n >= 7 && TotalPreorder(cmp)
    modifies a
    ensures Rearranged(old(a[..]), a[..], lo, lo + n)
    ensures done ==> Sorted(a[..], lo, lo + n, cmp)
    ensures !done ==> ThreeRegions(a[..], lo, less, greater, lo + n, v, cmp)
  {
    var pm := ChoosePivot(a, lo, n, cmp);
    RearrangedSwap(a[..], a[..], lo, pm, lo, lo + n);
    Swap(a, lo, pm);
    var pa, pb, pc, pd, swapped := Partition(a, lo, n, cmp);
    if !swapped {
      v := a[lo];
      InsertionSort(a, lo, n, cmp);
      return true, 0, 0, v;
    }
    v := GatherEqual(a, lo, n, pa, pb, pc, pd, cmp);
    return false, pb - pa, pd - pc, v;
  }

  /** Sorting the lower part of a split range. */
  lemma SplitAfterLess<T(!new)>(s: seq<T>, t: seq<T>, lo: nat, less: nat, greater: nat, hi: nat, v: T,
                                cmp: (T, T) -> int)
    requires TotalPreorder(cmp) && ThreeRegions(s, lo, less, greater, hi, v, cmp)
    requires Rearranged(s, t, lo, lo + less) && Sorted(t, lo, lo + less, cmp)
    ensures Sorted(t, lo, hi - greater, cmp) && Before(t, lo, hi - greater, hi - greater, hi, cmp)
  {
    forall k | lo <= k < lo + less ensures cmp(t[k], v) < 0 {
      var j := RearrangedFrom(s, t, lo, lo + less, k);
    }
    assert forall k :: lo + less <= k < hi ==> cmp(v, t[k]) <= 0;
    assert forall k :: lo <= k < hi - greater ==> cmp(t[k], v) <= 0;
  }

  /** What holds between the rounds: the elements of [aa, hi) are those of the start, and what is
      before `lo` is sorted and at most the rest. */
  ghost predicate Progress<T>(s0: seq<T>, s: seq<T>, aa: nat, lo: nat, hi: nat, cmp: (T, T) -> int) {
    && Rearranged(s0, s, aa, hi) && aa <= lo <= hi
    && Sorted(s, aa, lo, cmp) && Before(s, aa, lo, lo, hi, cmp)
  }

  lemma ProgressRearranged<T>(s0: seq<T>, s: seq<T>, t: seq<T>, aa: nat, lo: nat, hi: nat, cmp: (T, T) -> int)
    requires Progress(s0, s, aa, lo, hi, cmp) && Rearranged(s, t, lo, hi)
    ensures Progress(s0, t, aa, lo, hi, cmp)
  {
    forall i, j | aa <= i < lo && lo <= j < hi ensures cmp(t[i], t[j]) <= 0 {
      var j' := RearrangedFrom(s, t, lo, hi, j);
    }
  }

  lemma ProgressAdvance<T>(s0: seq<T>, s: seq<T>, aa: nat, lo: nat, mid: nat, hi: nat, cmp: (T, T) -> int)
    requires Progress(s0, s, aa, lo, hi, cmp) && lo <= mid <= hi
    requires Sorted(s, lo, mid, cmp) && Before(s, lo, mid, mid, hi, cmp)
    ensures Progress(s0, s, aa, mid, hi, cmp)
  {
  }

  lemma ProgressEnd<T>(s0: seq<T>, s: seq<T>, aa: nat, lo: nat, hi: nat, cmp: (T, T) -> int)
    requires Progress(s0, s, aa, lo, hi, cmp) && Sorted(s, lo, hi, cmp)
    ensures Progress(s0, s, aa, hi, hi, cmp)
  {
    ProgressAdvance(s0, s, aa, lo, hi, hi, cmp);
  }

  /** The round after a split: the lower part is sorted by the recursive call. */
  lemma ProgressSplit<T(!new)>(s0: seq<T>, s: seq<T>, t: seq<T>, aa: nat, lo: nat, less: nat, greater: nat, hi: nat,
                               v: T, cmp: (T, T) -> int)
    requires TotalPreorder(cmp) && Progress(s0, s, aa, lo, hi, cmp)
    requires ThreeRegions(s, lo, less, greater, hi, v, cmp)
    requires Rearranged(s, t, lo, lo + less) && Sorted(t, lo, lo + less, cmp)
    ensures Progress(s0, t, aa, hi - greater, hi, cmp)
  {
    SplitAfterLess(s, t, lo, less, greater, hi, v, cmp);
    assert Rearranged(s, t, lo, hi);
    ProgressRearranged(s0, s, t, aa, lo, hi, cmp);
    ProgressAdvance(s0, t, aa, lo, hi - greater, hi, cmp);
  }

  /** The part of a round before the recursive call. */
  method Divide<T(!new)>(a: array<T>, ghost s0: seq<T>, ghost aa: nat, lo: nat, n: nat, cmp: (T, T) -> int)
    returns (done: bool, less: nat, greater: nat, ghost v: T)
    requires TotalPreorder(cmp) && lo + n <= a.Length && n >= 7
    requires Progress(s0, a[..], aa, lo, lo + n, cmp)
    modifies a
    ensures Progress(s0, a[..], aa, if done then lo + n else lo, lo + n, cmp)
    ensures !done ==> ThreeRegions(a[..], lo, less, greater, lo + n, v, cmp)
  {
    ghost var s := a[..];
    done, less, greater, v := Pass(a, lo, n, cmp);
    ProgressRearranged(s0, s, a[..], aa, lo, lo + n, cmp);
    if done {
      ProgressEnd(s0, a[..], aa, lo, lo + n, cmp);
    }
  }

  /** One round of `loop`: `lo` moves right over what is now in its final place. */
  method Round<T(!new)>(a: array<T>, ghost s0: seq<T>, ghost aa: nat, lo0: nat, n0: nat, cmp: (T, T) -> int)
    returns (lo: nat, n: nat)
    requires TotalPreorder(cmp) && lo0 + n0 <= a.Length && n0 >= 7
    requires Progress(s0, a[..], aa, lo0, lo0 + n0, cmp)
    modifies a
    ensures lo + n == lo0 + n0 && n < n0 && n != 1
    ensures Progress(s0, a[..], aa, lo, lo0 + n0, cmp)
    decreases n0, 0
  {
    var done, less, greater, v := Divide(a, s0, aa, lo0, n0, cmp);
    if done {
      return lo0 + n0, 0;
    }
    lo, n := UpperPart(a, s0, aa, lo0, less, greater, lo0 + n0, v, cmp);
  }

  /** The lower part is sorted by a call; the upper part is left to the loop, if anything is to do there. */
  method UpperPart<T(!new)>(a: array<T>, ghost s0: seq<T>, ghost aa: nat, lo0: nat, less: nat, greater: nat, hi: nat,
                            ghost v: T, cmp: (T, T) -> int)
    returns (lo: nat, n: nat)
    requires TotalPreorder(cmp) && hi <= a.Length
    requires Progress(s0, a[..], aa, lo0, hi, cmp) && ThreeRegions(a[..], lo0, less, greater, hi, v, cmp)
    modifies a
    ensures lo + n == hi && n <= greater && n != 1
    ensures Progress(s0, a[..], aa, lo, hi, cmp)
    decreases less, 3
  {
    LowerPart(a, s0, aa, lo0, less, greater, hi, v, cmp);
    if greater > 1 {
      return hi - greater, greater;
    }
    ProgressEnd(s0, a[..], aa, hi - greater, hi, cmp);
    return hi, 0;
  }

  /** The recursive call on what is below the pivot. */
  method LowerPart<T(!new)>(a: array<T>, ghost s0: seq<T>, ghost aa: nat, lo: nat, less: nat,
                            ghost greater: nat, ghost hi: nat, ghost v: T, cmp: (T, T) -> int)
    requires TotalPreorder(cmp) && hi <= a.Length
    requires Progress(s0, a[..], aa, lo, hi, cmp) && ThreeRegions(a[..], lo, less, greater, hi, v, cmp)
    modifies a
    ensures Progress(s0, a[..], aa, hi - greater, hi, cmp)
    decreases less, 2
  {
    ghost var s := a[..];
    if less > 1 {
      Sort(a, lo, less, cmp);
    }
    ProgressSplit(s0, s, a[..], aa, lo, less, greater, hi, v, cmp);
  }

  /** qsort: for every count and every total preorder the range ends sorted, holds the same
      elements, and nothing outside it changes.  `goto loop` is the loop; the recursive call and
      the next round both get fewer elements because the equal block is never empty. */
  method Sort<T(!new)>(a: array<T>, aa: nat, count: nat, cmp: (T, T) -> int)
    requires aa + count <= a.Length && TotalPreorder(cmp)
    modifies a
    ensures Sorted(a[..], aa, aa + count, cmp)
    ensures Rearranged(old(a[..]), a[..], aa, aa + count)
    decreases count, 1
  {
    var lo: nat, n: nat := aa, count;
    ghost var s0, hi := a[..], aa + count;
    while n >= 7
      invariant aa <= lo && lo + n == hi && n <= count
      invariant Progress(s0, a[..], aa, lo, hi, cmp)
      decreases n
    {
      lo, n := Round(a, s0, aa, lo, n, cmp);
    }
    ghost var s := a[..];
    InsertionSort(a, lo, n, cmp);
    ProgressRearranged(s0, s, a[..], aa, lo, hi, cmp);
    ProgressAdvance(s0, a[..], aa, lo, hi, hi, cmp);
  }
}

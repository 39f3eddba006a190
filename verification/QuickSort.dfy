/**
 * otawa/include/elm/data/quicksort.h: a quicksort in place, with an explicit stack of segments. One
 * element (the pivot) is held aside, so that the array always has a "hole", and elements are moved into it.
 */
module QuickSort {
  import opened Powers

  // A comparator: negative, zero or positive, as `elm::Comparator::compare`.
  type Compare<!T> = (T, T) -> int

  // The comparator is a total preorder: the two directions agree, and it is
  // transitive.
  ghost predicate TotalPreorder<T(!new)>(c: Compare<T>) {
    (forall x, y :: c(x, y) >= 0 <==> c(y, x) <= 0) &&
    (forall x, y, z :: c(x, y) <= 0 && c(y, z) <= 0 ==> c(x, z) <= 0)
  }

  ghost predicate Sorted<T>(c: Compare<T>, s: seq<T>) {
    forall p, q :: 0 <= p < q < |s| ==> c(s[p], s[q]) <= 0
  }

  ghost predicate Permutes<T>(s: seq<T>, t: seq<T>) {
    |s| == |t| && multiset(s) == multiset(t)
  }

  // The size of the stack of segments.
  const MAX := 300

  // The array counts fit in the source's 32-bit integers.
  const INT_LIMIT := 0x8000_0000

  // ----- the hole -----

  lemma Parts<T>(s: seq<T>, lo: nat, hi: nat)
    requires lo <= hi <= |s|
    ensures multiset(s[lo..hi]) == multiset(s) - multiset(s[..lo]) - multiset(s[hi..])
  {
    assert s == s[..lo] + s[lo..hi] + s[hi..];
  }

  // A permutation that moves nothing outside a segment permutes the segment.
  lemma SegmentPermuted<T>(s: seq<T>, t: seq<T>, lo: nat, hi: nat, q: nat)
    requires Permutes(s, t) && lo <= q < hi <= |s|
    requires s[..lo] == t[..lo] && s[hi..] == t[hi..]
    ensures exists p :: lo <= p < hi && s[p] == t[q]
  {
    assert t[q] == t[lo..hi][q - lo];
    assert multiset(s[lo..hi]) == multiset(t[lo..hi]) by {
      Parts(s, lo, hi);
      Parts(t, lo, hi);
    }
    var k := Found(s[lo..hi], t[lo..hi], t[q]);
    assert s[lo + k] == t[q];
  }

  lemma Found<T>(s: seq<T>, t: seq<T>, x: T) returns (k: nat)
    requires multiset(s) == multiset(t) && x in t
    ensures k < |s| && s[k] == x
  {
    assert x in multiset(s);
    k :| 0 <= k < |s| && s[k] == x;
  }

  // The segment is cut at `m`: everything before is at most the pivot, everything
  // after at least it.
  ghost predicate CutAt<T>(c: Compare<T>, s: seq<T>, lo: int, m: int, hi: int) {
    0 <= lo <= m < hi <= |s| &&
    (forall p :: lo <= p < m ==> c(s[p], s[m]) <= 0) &&
    (forall q :: m < q < hi ==> c(s[m], s[q]) <= 0)
  }

  // Only the segment changed, and it was permuted.
  ghost predicate Within<T>(s: seq<T>, t: seq<T>, lo: int, hi: int) {
    Permutes(s, t) && 0 <= lo <= hi <= |s| && s[..lo] == t[..lo] && s[hi..] == t[hi..]
  }

  // Moving an element into the hole moves the hole to where the element was:
  // nothing is lost.
  lemma HoleMoves<T>(was: seq<T>, s: seq<T>, hole: nat, from: nat, pivot: T, lo: nat, hi: nat)
    requires lo <= hole < hi <= |s| && lo <= from < hi && hole != from
    requires Within(was, s[hole := pivot], lo, hi)
    ensures Within(was, s[hole := s[from]][from := pivot], lo, hi)
  {
    var t := s[hole := s[from]];
    assert t[from] == s[from];
    assert multiset(t[from := pivot]) == multiset(t) - multiset{s[from]} + multiset{pivot};
    assert t[from := pivot][..lo] == s[hole := pivot][..lo];
    assert t[from := pivot][hi..] == s[hole := pivot][hi..];
  }

  // The scans have reached `l` and `r`; the pivot is held aside and `hole` is
  // free.
  ghost predicate Scanned<T>(c: Compare<T>, was: seq<T>, s: seq<T>, lo: nat, l: nat, r: nat, hi: nat, hole: nat,
                             pivot: T) {
    lo <= l <= r < hi <= |s| && (hole == l || hole == r) &&
    (forall p :: lo <= p < l ==> c(s[p], pivot) <= 0) &&
    (forall q :: r < q < hi ==> c(pivot, s[q]) <= 0) &&
    Within(was, s[hole := pivot], lo, hi)
  }

  // quicksort.h:40: looks from the right for an element below the pivot and moves
  // it into the hole.
  method FillFromRight<T(!new)>(c: Compare<T>, a: array<T>, lo: nat, left: nat, right: nat, hi: nat, pivot: T,
                         ghost was: seq<T>)
    returns (l: nat, r: nat)
    requires TotalPreorder(c) && left < right && Scanned(c, was, a[..], lo, left, right, hi, left, pivot)
    modifies a
    ensures Scanned(c, was, a[..], lo, l, r, hi, r, pivot)
    ensures r - l < right - left
  {
    hide Within, Permutes;
    l, r := left, right;
    while c(a[r], pivot) >= 0 && l < r
      invariant l <= r <= right
      invariant forall q :: r < q < hi ==> c(pivot, a[..][q]) <= 0
      decreases r
    {
      r := r - 1;
    }
    if l < r {
      HoleMoves(was, a[..], l, r, pivot, lo, hi);
      a[l] := a[r];
      l := l + 1;
    }
  }

  // quicksort.h:41: looks from the left for an element above the pivot and moves
  // it into the hole.
  method FillFromLeft<T(!new)>(c: Compare<T>, a: array<T>, lo: nat, left: nat, right: nat, hi: nat, pivot: T,
                        ghost was: seq<T>)
    returns (l: nat, r: nat)
    requires TotalPreorder(c) && Scanned(c, was, a[..], lo, left, right, hi, right, pivot)
    modifies a
    ensures Scanned(c, was, a[..], lo, l, r, hi, l, pivot)
    ensures r - l <= right - left
  {
    hide Within, Permutes;
    l, r := left, right;
    while c(a[l], pivot) <= 0 && l < r
      invariant left <= l <= r
      invariant forall p :: lo <= p < l ==> c(a[..][p], pivot) <= 0
      decreases r - l
    {
      l := l + 1;
    }
    if l < r {
      HoleMoves(was, a[..], r, l, pivot, lo, hi);
      a[r] := a[l];
      r := r - 1;
    }
  }

  // quicksort.h:37-43: moves the hole between the two scans until they meet, then
  // drops the pivot in it.
  method Partition<T(!new)>(c: Compare<T>, a: array<T>, lo: nat, hi: nat) returns (m: nat)
    requires TotalPreorder(c) && lo + 1 < hi <= a.Length
    modifies a
    ensures CutAt(c, a[..], lo, m, hi)
    ensures Within(old(a[..]), a[..], lo, hi)
  {
    var l: nat, r: nat := lo, hi - 1;
    var pivot := a[l];
    assert a[..][l := pivot] == a[..];
    while l < r
      invariant Scanned(c, old(a[..]), a[..], lo, l, r, hi, l, pivot)
      decreases r - l
    {
      l, r := FillFromRight(c, a, lo, l, r, hi, pivot, old(a[..]));
      l, r := FillFromLeft(c, a, lo, l, r, hi, pivot, old(a[..]));
    }
    ghost var before := a[..];
    a[l] := pivot;
    assert a[..] == before[l := pivot];
    m := l;
  }

  // ----- the stack of segments -----

  datatype Segment = Segment(lo: int, hi: int)

  // The segments held by the two arrays up to index `i`.
  ghost function Segments(beg: seq<int>, end: seq<int>, i: int): (segs: seq<Segment>)
    requires -1 <= i < |beg| && |beg| == |end|
    ensures |segs| == i + 1
    ensures forall k :: 0 <= k <= i ==> segs[k] == Segment(beg[k], end[k])
  {
    seq(i + 1, k requires 0 <= k <= i => Segment(beg[k], end[k]))
  }

  // Both positions lie in one segment that is still to be sorted.
  ghost predicate Pending(segs: seq<Segment>, p: int, q: int) {
    exists k :: 0 <= k < |segs| && segs[k].lo <= p && q < segs[k].hi
  }

  ghost predicate Apart(x: Segment, y: Segment) {
    x.hi <= y.lo || y.hi <= x.lo
  }

  // Every two positions are in order, unless one pending segment holds both.
  ghost predicate Ordered<T>(c: Compare<T>, s: seq<T>, segs: seq<Segment>) {
    forall p, q :: 0 <= p < q < |s| ==> c(s[p], s[q]) <= 0 || Pending(segs, p, q)
  }

  ghost function Weight(k: nat, x: Segment): int {
    Pow2(k) * (x.hi - x.lo)
  }

  // The segments lie in the array and apart, and the one at depth k has at most n
  // / 2^k elements.
  ghost predicate Stacked(n: nat, segs: seq<Segment>) {
    (forall k :: 0 <= k < |segs| ==> 0 <= segs[k].lo <= segs[k].hi <= n) &&
    (forall k :: 0 <= k < |segs| ==> Weight(k, segs[k]) <= n) &&
    (forall j, k :: 0 <= j < k < |segs| ==> Apart(segs[j], segs[k]))
  }

  // What is left to do: every segment costs at least its own removal.
  ghost function Work(segs: seq<Segment>): (w: int) {
    if segs == [] then 0 else
    var x := segs[|segs| - 1];
    Work(segs[..|segs| - 1]) + 2 * (x.hi - x.lo) + 1
  }

  lemma {:induction false} WorkNonNegative(n: nat, segs: seq<Segment>)
    requires Stacked(n, segs)
    ensures Work(segs) >= 0
  {
    if segs != [] {
      WorkNonNegative(n, segs[..|segs| - 1]);
    }
  }

  // A segment at depth k that still has two elements bounds k: 2^(k+1) <= n.
  lemma DepthBound(n: nat, k: nat, x: Segment)
    requires n < INT_LIMIT && x.hi - x.lo >= 2 && Weight(k, x) <= n
    ensures Pow2(k + 1) <= n && k + 1 <= 30
  {
    TimesMonotone(Pow2(k), 2, x.hi - x.lo);
    assert Pow2(k + 1) <= n;
    if k + 1 >= 31 {
      PowerGrows(31, k + 1);
      LimitIsPower();
    }
  }

  lemma LimitIsPower()
    ensures Pow2(31) == INT_LIMIT
  {
    assert Pow2(8) == 0x100;
    assert Pow2(16) == 0x1_0000;
    assert Pow2(24) == 0x100_0000;
  }

  lemma {:induction false} PowerGrows(j: nat, k: nat)
    requires j <= k
    ensures Pow2(j) <= Pow2(k)
  {
    if j < k {
      PowerGrows(j, k - 1);
    }
  }

  // A segment with at most one element is done with.
  lemma DropDone<T>(c: Compare<T>, s: seq<T>, segs: seq<Segment>)
    requires segs != [] && Stacked(|s|, segs) && Ordered(c, s, segs)
    requires segs[|segs| - 1].hi <= segs[|segs| - 1].lo + 1
    ensures Stacked(|s|, segs[..|segs| - 1]) && Ordered(c, s, segs[..|segs| - 1])
    ensures Work(segs[..|segs| - 1]) < Work(segs)
  {
    var rest := segs[..|segs| - 1];
    forall p, q | 0 <= p < q < |s| && Pending(segs, p, q)
      ensures Pending(rest, p, q)
    {
      var k :| 0 <= k < |segs| && segs[k].lo <= p && q < segs[k].hi;
      assert rest[k] == segs[k];
    }
  }

  // The two parts of a partitioned segment, the larger one below.
  ghost function Parted(x: Segment, m: int): (parts: seq<Segment>) {
    var left, right := Segment(x.lo, m), Segment(m + 1, x.hi);
    if right.hi - right.lo > left.hi - left.lo then [right, left] else [left, right]
  }

  lemma PartedStacked(n: nat, segs: seq<Segment>, m: int)
    requires segs != [] && Stacked(n, segs)
    requires segs[|segs| - 1].lo <= m < segs[|segs| - 1].hi
    ensures Stacked(n, segs[..|segs| - 1] + Parted(segs[|segs| - 1], m))
    ensures Work(segs[..|segs| - 1] + Parted(segs[|segs| - 1], m)) < Work(segs)
  {
    var x, rest := segs[|segs| - 1], segs[..|segs| - 1];
    var parts := Parted(x, m);
    var after := rest + parts;
    PartedFits(n, segs, m);
    PartedApart(n, segs, m);
    hide Pow2, Apart;
    PartedWork(segs, m);
  }

  lemma WorkPushed(segs: seq<Segment>, x: Segment)
    ensures Work(segs + [x]) == Work(segs) + 2 * (x.hi - x.lo) + 1
  {
    assert (segs + [x])[..|segs|] == segs;
  }

  lemma WorkPushedTwo(segs: seq<Segment>, x: Segment, y: Segment)
    ensures Work(segs + [x, y]) == Work(segs) + 2 * (x.hi - x.lo) + 2 * (y.hi - y.lo) + 2
  {
    var all := segs + [x, y];
    assert all[..|all| - 1] == segs + [x];
    assert all[|all| - 1] == y;
    WorkPushed(segs, x);
  }

  lemma PartedWork(segs: seq<Segment>, m: int)
    requires segs != []
    ensures Work(segs[..|segs| - 1] + Parted(segs[|segs| - 1], m)) == Work(segs) - 1
  {
    var x, rest := segs[|segs| - 1], segs[..|segs| - 1];
    assert segs == rest + [x];
    WorkPushed(rest, x);
    var left, right := Segment(x.lo, m), Segment(m + 1, x.hi);
    WorkPushedTwo(rest, left, right);
    WorkPushedTwo(rest, right, left);
    hide Work;
  }

  lemma PartedFits(n: nat, segs: seq<Segment>, m: int)
    requires segs != [] && Stacked(n, segs)
    requires segs[|segs| - 1].lo <= m < segs[|segs| - 1].hi
    ensures var after := segs[..|segs| - 1] + Parted(segs[|segs| - 1], m);
      forall k :: 0 <= k < |after| ==> Weight(k, after[k]) <= n
  {
    var x, rest := segs[|segs| - 1], segs[..|segs| - 1];
    var parts := Parted(x, m);
    HalfFits(n, |rest|, x, parts[0], parts[1]);
    hide Weight, Apart;
    var after := rest + parts;
    forall k | 0 <= k < |after|
      ensures Weight(k, after[k]) <= n
    {
      if k < |rest| {
        assert after[k] == segs[k];
      } else {
        assert after[k] == parts[k - |rest|];
      }
    }
  }

  lemma PartedApart(n: nat, segs: seq<Segment>, m: int)
    requires segs != [] && Stacked(n, segs)
    requires segs[|segs| - 1].lo <= m < segs[|segs| - 1].hi
    ensures var after := segs[..|segs| - 1] + Parted(segs[|segs| - 1], m);
      (forall k :: 0 <= k < |after| ==> 0 <= after[k].lo <= after[k].hi <= n) &&
      (forall j, k :: 0 <= j < k < |after| ==> Apart(after[j], after[k]))
  {
    hide Pow2;
    var x, rest := segs[|segs| - 1], segs[..|segs| - 1];
    var after := rest + Parted(x, m);
    forall j, k | 0 <= j < k < |after|
      ensures Apart(after[j], after[k])
    {
      if j < |rest| {
        assert after[j] == segs[j];
        assert k < |rest| ==> after[k] == segs[k];
        assert Apart(segs[j], x);
      }
    }
  }

  lemma HalfFits(n: nat, k: nat, x: Segment, larger: Segment, smaller: Segment)
    requires Weight(k, x) <= n && 0 <= smaller.hi - smaller.lo <= larger.hi - larger.lo
    requires smaller.hi - smaller.lo + larger.hi - larger.lo == x.hi - x.lo - 1
    ensures Weight(k, larger) <= n && Weight(k + 1, smaller) <= n
  {
    var p := Pow2(k);
    assert Weight(k + 1, smaller) == (2 * p) * (smaller.hi - smaller.lo);
    Doubled(p, smaller.hi - smaller.lo);
    TimesMonotone(p, larger.hi - larger.lo, x.hi - x.lo);
    TimesMonotone(p, 2 * (smaller.hi - smaller.lo), x.hi - x.lo);
  }

  lemma Doubled(p: nat, a: int)
    ensures (2 * p) * a == p * (2 * a)
  {
  }

  lemma TimesMonotone(p: nat, a: int, b: int)
    requires a <= b
    ensures p * a <= p * b
  {
  }

  // One pair of positions after a partition.
  lemma PartedPair<T(!new)>(c: Compare<T>, s: seq<T>, t: seq<T>, segs: seq<Segment>, m: int, p: int, q: int)
    requires TotalPreorder(c) && segs != [] && Stacked(|s|, segs) && Ordered(c, s, segs)
    requires var x := segs[|segs| - 1]; CutAt(c, t, x.lo, m, x.hi) && Within(s, t, x.lo, x.hi)
    requires 0 <= p < q < |t|
    ensures c(t[p], t[q]) <= 0 || Pending(segs[..|segs| - 1] + Parted(segs[|segs| - 1], m), p, q)
  {
    hide Pow2;
    var x, rest := segs[|segs| - 1], segs[..|segs| - 1];
    var after := rest + Parted(x, m);
    if x.lo <= p && q < x.hi {
      if q < m {
        var k := if after[|rest|] == Segment(x.lo, m) then |rest| else |rest| + 1;
        assert after[k].lo <= p && q < after[k].hi;
      } else if m < p {
        var k := if after[|rest|] == Segment(m + 1, x.hi) then |rest| else |rest| + 1;
        assert after[k].lo <= p && q < after[k].hi;
      } else {
        assert c(t[p], t[m]) <= 0 || p == m;
      }
    } else {
      PartedOutside(c, s, t, segs, m, p, q);
    }
  }

  lemma PartedOutside<T(!new)>(c: Compare<T>, s: seq<T>, t: seq<T>, segs: seq<Segment>, m: int, p: int, q: int)
    requires segs != [] && Stacked(|s|, segs) && Ordered(c, s, segs)
    requires var x := segs[|segs| - 1]; Within(s, t, x.lo, x.hi) && !(x.lo <= p && q < x.hi)
    requires 0 <= p < q < |t|
    ensures c(t[p], t[q]) <= 0 || Pending(segs[..|segs| - 1] + Parted(segs[|segs| - 1], m), p, q)
  {
    hide Pow2, Within, Parted;
    var x, rest := segs[|segs| - 1], segs[..|segs| - 1];
    var after := rest + Parted(x, m);
    {
      var p0 := Origin(s, t, x, p);
      var q0 := Origin(s, t, x, q);
      if c(s[p0], s[q0]) > 0 {
        var k :| 0 <= k < |segs| && segs[k].lo <= p0 && q0 < segs[k].hi;
        assert Apart(segs[k], x) || k == |rest|;
        assert after[k] == segs[k];
      }
    }
  }

  // Where the element now at `q` came from: the same place, or the same segment.
  lemma Origin<T>(s: seq<T>, t: seq<T>, x: Segment, q: int) returns (p: int)
    requires 0 <= x.lo <= x.hi <= |s| && Within(s, t, x.lo, x.hi) && 0 <= q < |t|
    ensures 0 <= p < |s| && s[p] == t[q]
    ensures if x.lo <= q < x.hi then x.lo <= p < x.hi else p == q
  {
    if x.lo <= q < x.hi {
      SegmentPermuted(s, t, x.lo, x.hi, q);
      p :| x.lo <= p < x.hi && s[p] == t[q];
    } else if q < x.lo {
      assert s[..x.lo][q] == t[..x.lo][q];
      p := q;
    } else {
      assert s[x.hi..][q - x.hi] == t[x.hi..][q - x.hi];
      p := q;
    }
  }

  lemma PartedOrdered<T(!new)>(c: Compare<T>, s: seq<T>, t: seq<T>, segs: seq<Segment>, m: int)
    requires TotalPreorder(c) && segs != [] && Stacked(|s|, segs) && Ordered(c, s, segs)
    requires var x := segs[|segs| - 1]; CutAt(c, t, x.lo, m, x.hi) && Within(s, t, x.lo, x.hi)
    ensures Ordered(c, t, segs[..|segs| - 1] + Parted(segs[|segs| - 1], m))
  {
    var after := segs[..|segs| - 1] + Parted(segs[|segs| - 1], m);
    forall p, q | 0 <= p < q < |t|
      ensures c(t[p], t[q]) <= 0 || Pending(after, p, q)
    {
      PartedPair(c, s, t, segs, m, p, q);
    }
  }

  // ----- the algorithm -----

  lemma Whole<T>(c: Compare<T>, s: seq<T>)
    ensures Stacked(|s|, [Segment(0, |s|)]) && Ordered(c, s, [Segment(0, |s|)])
    ensures Work([Segment(0, |s|)]) >= 0 && Permutes(s, s)
  {
    var whole := [Segment(0, |s|)];
    forall p, q | 0 <= p < q < |s|
      ensures Pending(whole, p, q)
    {
      assert whole[0].lo <= p && q < whole[0].hi;
    }
    assert whole[..0] == [];
  }

  lemma Inside(n: nat, segs: seq<Segment>, k: int)
    requires Stacked(n, segs) && 0 <= k < |segs|
    ensures 0 <= segs[k].lo <= segs[k].hi <= n
  {
  }

  lemma NothingPending<T>(c: Compare<T>, s: seq<T>)
    requires Ordered(c, s, [])
    ensures Sorted(c, s)
  {
  }

  lemma PermutesBoth<T>(s: seq<T>, t: seq<T>, u: seq<T>)
    requires Permutes(s, t) && Permutes(t, u)
    ensures Permutes(s, u)
  {
  }

  // Partitions the segment on top of the stack.
  method PartitionTop<T(!new)>(c: Compare<T>, a: array<T>, lo: nat, hi: nat, ghost segs: seq<Segment>) returns (m: nat)
    requires TotalPreorder(c) && lo + 1 < hi <= a.Length < INT_LIMIT
    requires segs != [] && segs[|segs| - 1] == Segment(lo, hi)
    requires Stacked(a.Length, segs) && Ordered(c, a[..], segs)
    modifies a
    ensures Permutes(old(a[..]), a[..]) && lo <= m < hi && |segs| <= 30
    ensures var after := segs[..|segs| - 1] + Parted(segs[|segs| - 1], m);
      Stacked(a.Length, after) && Ordered(c, a[..], after) && 0 <= Work(after) < Work(segs)
  {
    DepthBound(a.Length, |segs| - 1, Segment(lo, hi));
    m := Partition(c, a, lo, hi);
    PartedOrdered(c, old(a[..]), a[..], segs, m);
    PartedStacked(a.Length, segs, m);
    WorkNonNegative(a.Length, segs[..|segs| - 1] + Parted(segs[|segs| - 1], m));
  }

  // quicksort.h:29-53. The array is sorted in place; the stack of 300 segments
  // never overflows.
  method QuickSort<T(!new)>(c: Compare<T>, a: array<T>)
    requires TotalPreorder(c) && a.Length < INT_LIMIT
    modifies a
    ensures Sorted(c, a[..]) && Permutes(old(a[..]), a[..])
  {
    hide Stacked, Ordered, Permutes, Sorted, Segments, Work, Parted, TotalPreorder;
    var beg, end, i := new int[MAX], new int[MAX], 0;
    beg[0], end[0] := 0, a.Length;
    ghost var segs := [Segment(0, a.Length)];
    Whole(c, a[..]);
    while i >= 0
      invariant -1 <= i < MAX && segs == Segments(beg[..], end[..], i)
      invariant Stacked(a.Length, segs) && Ordered(c, a[..], segs)
      invariant Permutes(old(a[..]), a[..])
      invariant Work(segs) >= 0
      decreases Work(segs)
    {
      assert segs[i] == Segment(beg[i], end[i]);
      Inside(a.Length, segs, i);
      if beg[i] < end[i] - 1 {
        ghost var was := a[..];
        var m := PartitionTop(c, a, beg[i], end[i], segs);
        PermutesBoth(old(a[..]), was, a[..]);
        segs := segs[..i] + Parted(segs[i], m);
        i := PushParts(beg, end, i, m);
      } else {
        DropDone(c, a[..], segs);
        segs := segs[..i];
        i := i - 1;
        WorkNonNegative(a.Length, segs);
      }
    }
    NothingPending(c, a[..]);
  }

  // quicksort.h:43-47: the left part replaces the segment, the right part is
  // pushed, the larger goes below.
  method PushParts(beg: array<int>, end: array<int>, top: nat, m: int) returns (i: int)
    requires beg != end && beg.Length == end.Length == MAX && top + 1 < MAX
    modifies beg, end
    ensures i == top + 1
    ensures Segments(beg[..], end[..], i)
      == Segments(old(beg[..]), old(end[..]), top)[..top] + Parted(Segment(old(beg[top]), old(end[top])), m)
  {
    i := top;
    beg[i + 1] := m + 1;
    end[i + 1] := end[i];
    end[i] := m;
    i := i + 1;
    if end[i] - beg[i] > end[i - 1] - beg[i - 1] {
      beg[i], beg[i - 1] := beg[i - 1], beg[i];
      end[i], end[i - 1] := end[i - 1], end[i];
    }
  }
}

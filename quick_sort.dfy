/**
  `QuickSort` of src/sort.hpp: `quick_sort` on [lo, hi] takes a pivot value
  from the pivot strategy, partitions the range around it with two indices
  moving towards each other, and sorts [lo, idx - 1] and [idx, hi].

  The pivot strategy is modelled by the position it reads the pivot from
  (`choose`); the partition's scans need no bounds checks because an element
  equal to the pivot, and later the elements just exchanged, stop them.
*/
module QuickSorts {
  import opened Ordering
  import PivotStrategies

  /**
    What Quicksort needs of a pivot strategy: on a range of two or more
    elements the pivot is read from a position in the range other than the
    last one. (With the pivot read from the last position, an input whose
    last element is its largest one would be split into itself and nothing;
    see PivotAtEndRepeatsRange.)
  */
  ghost predicate ValidChooser<T(!new)>(choose: (seq<T>, int, int) -> int) {
    forall s: seq<T>, lo, hi :: 0 <= lo < hi < |s| ==> lo <= choose(s, lo, hi) < hi
  }

  /** No element of s must come after piv. */
  ghost predicate AllNotAfter<T>(lt: (T, T) -> bool, s: seq<T>, piv: T) {
    forall k :: 0 <= k < |s| ==> !lt(piv, s[k])
  }

  /** No element of s must come before piv. */
  ghost predicate AllNotBefore<T>(lt: (T, T) -> bool, s: seq<T>, piv: T) {
    forall k :: 0 <= k < |s| ==> !lt(s[k], piv)
  }

  /** `s` is `s0` with s0[lo..hi) replaced by a permutation of it. */
  ghost predicate PermutedWithin<T>(s0: seq<T>, s: seq<T>, lo: int, hi: int) {
    && |s| == |s0| && 0 <= lo <= hi <= |s|
    && s[..lo] == s0[..lo] && s[hi..] == s0[hi..]
    && multiset(s[lo..hi]) == multiset(s0[lo..hi])
  }

  /** `s` is `s0` with s0[lo..hi) sorted in place. */
  ghost predicate SortedWithin<T>(lt: (T, T) -> bool, s0: seq<T>, s: seq<T>, lo: int, hi: int) {
    PermutedWithin(s0, s, lo, hi) && Sorted(lt, s[lo..hi])
  }

  /**
    What `partition(arr, lo, hi, piv)` leaves: [lo, hi] permuted, lo < idx <= hi + 1,
    nothing in [lo, idx) after the pivot and nothing in [idx, hi] before it.
  */
  ghost predicate PartitionedAround<T>(lt: (T, T) -> bool, s0: seq<T>, s: seq<T>, lo: int, hi: int, idx: int, piv: T) {
    && PermutedWithin(s0, s, lo, hi + 1)
    && lo < idx <= hi + 1
    && AllNotAfter(lt, s[lo..idx], piv)
    && AllNotBefore(lt, s[idx..hi + 1], piv)
  }

  /** A permutation keeps "nothing after the pivot". */
  lemma NotAfterPermuted<T>(lt: (T, T) -> bool, s: seq<T>, t: seq<T>, piv: T)
    requires multiset(s) == multiset(t) && AllNotAfter(lt, s, piv)
    ensures AllNotAfter(lt, t, piv)
  {
    forall k | 0 <= k < |t| ensures !lt(piv, t[k]) {
      assert t[k] in multiset(s);
    }
  }

  /** A permutation keeps "nothing before the pivot". */
  lemma NotBeforePermuted<T>(lt: (T, T) -> bool, s: seq<T>, t: seq<T>, piv: T)
    requires multiset(s) == multiset(t) && AllNotBefore(lt, s, piv)
    ensures AllNotBefore(lt, t, piv)
  {
    forall k | 0 <= k < |t| ensures !lt(t[k], piv) {
      assert t[k] in multiset(s);
    }
  }

  /** Two sorted parts on either side of a pivot make a sorted whole. */
  lemma SortedAroundPivot<T(!new)>(lt: (T, T) -> bool, l: seq<T>, r: seq<T>, piv: T)
    requires StrictWeakOrder(lt)
    requires Sorted(lt, l) && Sorted(lt, r)
    requires AllNotAfter(lt, l, piv) && AllNotBefore(lt, r, piv)
    ensures Sorted(lt, l + r)
  {
    var s := l + r;
    forall i, j | 0 <= i < j < |s| ensures !lt(s[j], s[i]) {
      if j < |l| {
        assert s[i] == l[i] && s[j] == l[j];
      } else if |l| <= i {
        assert s[i] == r[i - |l|] && s[j] == r[j - |l|];
      } else {
        assert s[i] == l[i] && s[j] == r[j - |l|];
        NotAfterTransitive(lt, s[i], piv, s[j]);
      }
    }
  }

  /** Splitting [lo, hi) at m splits its multiset. */
  lemma SliceSplit<T>(s: seq<T>, lo: int, m: int, hi: int)
    requires 0 <= lo <= m <= hi <= |s|
    ensures s[lo..hi] == s[lo..m] + s[m..hi]
    ensures multiset(s[lo..hi]) == multiset(s[lo..m]) + multiset(s[m..hi])
  {
    assert s[lo..hi] == s[lo..m] + s[m..hi];
  }

  /** Permuting a sub-range of a permuted range keeps the larger range permuted. */
  lemma PermutedWithinNested<T>(s0: seq<T>, s1: seq<T>, lo: int, hi: int, lo': int, hi': int)
    requires lo <= lo' <= hi' <= hi
    requires PermutedWithin(s0, s1, lo', hi') && |s0| == |s1| && 0 <= lo && hi <= |s0|
    ensures PermutedWithin(s0, s1, lo, hi)
    ensures s1[lo..lo'] == s0[lo..lo'] && s1[hi'..hi] == s0[hi'..hi]
  {
    assert s1[lo..lo'] == s1[..lo'][lo..] && s0[lo..lo'] == s0[..lo'][lo..];
    assert s1[hi'..hi] == s1[hi'..][..hi - hi'] && s0[hi'..hi] == s0[hi'..][..hi - hi'];
    assert s1[..lo] == s1[..lo'][..lo] && s0[..lo] == s0[..lo'][..lo];
    assert s1[hi..] == s1[hi'..][hi - hi'..] && s0[hi..] == s0[hi'..][hi - hi'..];
    calc {
      multiset(s1[lo..hi]);
      { SliceSplit(s1, lo, lo', hi); SliceSplit(s1, lo', hi', hi); }
      multiset(s1[lo..lo']) + multiset(s1[lo'..hi']) + multiset(s1[hi'..hi]);
      multiset(s0[lo..lo']) + multiset(s0[lo'..hi']) + multiset(s0[hi'..hi]);
      { SliceSplit(s0, lo, lo', hi); SliceSplit(s0, lo', hi', hi); }
      multiset(s0[lo..hi]);
    }
  }

  /**
    One call of quick_sort on [lo, hi]: partitioning, then sorting
    [lo, idx - 1] and [idx, hi], sorts [lo, hi].
  */
  lemma QuickSortStep<T(!new)>(lt: (T, T) -> bool, s0: seq<T>, s1: seq<T>, s2: seq<T>, s3: seq<T>, lo: int, hi: int, idx: int, piv: T)
    requires StrictWeakOrder(lt)
    requires PartitionedAround(lt, s0, s1, lo, hi, idx, piv)
    requires SortedWithin(lt, s1, s2, lo, idx)
    requires SortedWithin(lt, s2, s3, idx, hi + 1)
    ensures SortedWithin(lt, s0, s3, lo, hi + 1)
  {
    PermutedWithinNested(s1, s2, lo, hi + 1, lo, idx);
    PermutedWithinNested(s2, s3, lo, hi + 1, idx, hi + 1);
    assert s3[lo..idx] == s2[lo..idx];
    assert s2[idx..hi + 1] == s1[idx..hi + 1];
    NotAfterPermuted(lt, s1[lo..idx], s3[lo..idx], piv);
    NotBeforePermuted(lt, s1[idx..hi + 1], s3[idx..hi + 1], piv);
    SliceSplit(s3, lo, idx, hi + 1);
    SortedAroundPivot(lt, s3[lo..idx], s3[idx..hi + 1], piv);
    assert s3[..lo] == s0[..lo] by {
      assert s3[..lo] == s2[..lo] && s2[..lo] == s1[..lo];
    }
    assert s3[hi + 1..] == s0[hi + 1..] by {
      assert s3[hi + 1..] == s2[hi + 1..] && s2[hi + 1..] == s1[hi + 1..];
    }
  }

  /**
    The `while (comp(arr[lo], piv)) lo++` scan: it stops at the first
    position from `left` on whose element is not before the pivot, at the
    latest at the sentinel `sl`.
  */
  method ScanUp<T>(a: array<T>, lt: (T, T) -> bool, piv: T, left: int, ghost sl: int) returns (l: int)
    requires 0 <= left <= sl < a.Length && !lt(a[sl], piv)
    ensures left <= l <= sl && !lt(a[l], piv)
    ensures forall k :: left <= k < l ==> lt(a[k], piv)
  {
    l := left;
    while lt(a[l], piv)
      invariant left <= l <= sl
      invariant forall k :: left <= k < l ==> lt(a[k], piv)
      decreases sl - l
    {
      l := l + 1;
    }
  }

  /**
    The `while (comp(piv, arr[hi])) hi--` scan: it stops at the first
    position from `right` down whose element is not after the pivot, at the
    latest at the sentinel `sh`.
  */
  method ScanDown<T>(a: array<T>, lt: (T, T) -> bool, piv: T, right: int, ghost sh: int) returns (h: int)
    requires 0 <= sh <= right < a.Length && !lt(piv, a[sh])
    ensures sh <= h <= right && !lt(piv, a[h])
    ensures forall k :: h < k <= right ==> lt(piv, a[k])
  {
    h := right;
    while lt(piv, a[h])
      invariant sh <= h <= right
      invariant forall k :: h < k <= right ==> lt(piv, a[k])
      decreases h - sh
    {
      h := h - 1;
    }
  }

  /**
    The state of partition's outer loop on [lo, hi] with indices `left` and
    `right`: everything left of `left` is not after the pivot, everything
    right of `right` not before it, and while the indices have not crossed
    the sentinels `sl` and `sh` stop the next scans. Before the first
    exchange both sentinels are the pivot's own position; after it both
    indices have moved, which bounds the result to (lo, hi + 1].
  */
  ghost predicate PartitionState<T>(lt: (T, T) -> bool, s0: seq<T>, s: seq<T>, lo: int, hi: int, piv: T,
                                    left: int, right: int, sl: int, sh: int)
  {
    && |s| == |s0| && 0 <= lo < hi < |s|
    && s[..lo] == s0[..lo] && s[hi + 1..] == s0[hi + 1..] && multiset(s) == multiset(s0)
    && lo <= left <= hi + 1 && lo - 1 <= right <= hi
    && ((left == lo && right == hi && sl == sh <= hi) || (lo < left && right < hi))
    && (forall k :: lo <= k < left ==> !lt(piv, s[k]))
    && (forall k :: right < k <= hi ==> !lt(s[k], piv))
    && (left <= right ==> left <= sl <= hi && !lt(s[sl], piv) && lo <= sh <= right && !lt(piv, s[sh]))
  }

  /** Whole-array and slice views of "the rest is unchanged". */
  lemma PermutedFromFrame<T>(s0: seq<T>, s: seq<T>, lo: int, hi: int)
    requires |s| == |s0| && 0 <= lo <= hi <= |s|
    requires s[..lo] == s0[..lo] && s[hi..] == s0[hi..] && multiset(s) == multiset(s0)
    ensures PermutedWithin(s0, s, lo, hi)
  {
    assert s == s[..lo] + s[lo..hi] + s[hi..];
    assert s0 == s0[..lo] + s0[lo..hi] + s0[hi..];
    assert multiset(s) == multiset(s[..lo]) + multiset(s[lo..hi]) + multiset(s[hi..]);
    assert multiset(s0) == multiset(s0[..lo]) + multiset(s0[lo..hi]) + multiset(s0[hi..]);
    forall x ensures multiset(s[lo..hi])[x] == multiset(s0[lo..hi])[x] {
      assert multiset(s)[x] == multiset(s0)[x];
    }
    assert multiset(s[lo..hi]) == multiset(s0[lo..hi]);
  }

  /** The partition state at entry: the pivot's position is both sentinels. */
  lemma PartitionStarts<T(!new)>(lt: (T, T) -> bool, s: seq<T>, lo: int, hi: int, piv: T, p: int)
    requires StrictWeakOrder(lt)
    requires 0 <= lo <= p <= hi < |s| && lo < hi && s[p] == piv
    ensures PartitionState(lt, s, s, lo, hi, piv, lo, hi, p, p)
  {
  }

  /**
    One pass of partition's outer loop from a state: after the two scans stop
    at l and h, the elements there are exchanged and both indices move when
    l <= h; otherwise the indices have crossed.
  */
  lemma PartitionAdvances<T(!new)>(lt: (T, T) -> bool, s0: seq<T>, s: seq<T>, lo: int, hi: int, piv: T,
                                    left: int, right: int, sl: int, sh: int, l: int, h: int)
    requires StrictWeakOrder(lt)
    requires PartitionState(lt, s0, s, lo, hi, piv, left, right, sl, sh)
    requires left <= right
    requires left <= l <= sl && !lt(s[l], piv) && (forall k :: left <= k < l ==> lt(s[k], piv))
    requires sh <= h <= right && !lt(piv, s[h]) && (forall k :: h < k <= right ==> lt(piv, s[k]))
    ensures l <= h ==> PartitionState(lt, s0, Exchanged(s, l, h), lo, hi, piv, l + 1, h - 1, h, l)
    ensures h < l ==> PartitionState(lt, s0, s, lo, hi, piv, l, h, sl, sh) && h < l <= hi
  {
    forall k | left <= k < l ensures !lt(piv, s[k]) {
      AsymmetricOf(lt, s[k], piv);
    }
    forall k | h < k <= right ensures !lt(s[k], piv) {
      AsymmetricOf(lt, piv, s[k]);
    }
    if l <= h {
      var t := Exchanged(s, l, h);
      assert t[l] == s[h] && t[h] == s[l];
      assert forall k :: 0 <= k < |s| && k != l && k != h ==> t[k] == s[k];
      assert t[..lo] == s[..lo] && t[hi + 1..] == s[hi + 1..];
    }
  }

  /**
    QuickSort::partition on [lo, hi] (lo < hi) with the pivot read from any
    position p of the range: returns idx with lo < idx <= hi + 1, [lo, idx)
    not after the pivot and [idx, hi] not before it. Only a pivot below hi
    guarantees idx <= hi; from arr[hi], with everything else before it, idx
    is hi + 1. On two elements equivalent to the pivot both scans stop at
    once and the elements are exchanged.
  */
  method Partition<T(!new)>(a: array<T>, lt: (T, T) -> bool, lo: int, hi: int, piv: T, ghost p: int) returns (idx: int)
    requires StrictWeakOrder(lt)
    requires 0 <= lo <= p <= hi < a.Length && lo < hi && a[p] == piv
    modifies a
    ensures PartitionedAround(lt, old(a[..]), a[..], lo, hi, idx, piv)
    ensures p < hi ==> idx <= hi
    ensures p == hi && (forall k :: lo <= k < hi ==> lt(old(a[k]), piv)) ==> idx == hi + 1
    ensures hi == lo + 1 && Equivalent(lt, old(a[lo]), piv) && Equivalent(lt, old(a[hi]), piv) ==>
      idx == hi && a[..] == Exchanged(old(a[..]), lo, hi)
  {
    ghost var s0 := a[..];
    ghost var allBefore := p == hi && forall k :: lo <= k < hi ==> lt(s0[k], piv);
    ghost var pairEquiv := hi == lo + 1 && Equivalent(lt, s0[lo], piv) && Equivalent(lt, s0[hi], piv);
    var left, right := lo, hi;
    ghost var sl, sh := p, p;
    PartitionStarts(lt, s0, lo, hi, piv, p);
    while left <= right
      invariant PartitionState(lt, s0, a[..], lo, hi, piv, left, right, sl, sh)
      invariant left == lo && right == hi ==> sl == p && a[..] == s0
      invariant p < hi ==> left <= hi
      invariant allBefore ==> a[..] == s0 && ((left == lo && right == hi) || left == hi + 1)
      invariant pairEquiv ==> (left == lo && right == hi && a[..] == s0) ||
                              (left == hi && right == lo && a[..] == Exchanged(s0, lo, hi))
      decreases right - left + 2
    {
      left, right, sl, sh := PartitionStep(a, lt, lo, hi, piv, left, right, s0, sl, sh);
    }
    idx := left;
    PartitionDone(lt, s0, a[..], lo, hi, piv, left, right, sl, sh);
  }

  /**
    One pass of partition's outer loop: the two scans, and the exchange of
    the elements where they stop when they have not crossed. The indices
    come closer; on the first pass, a pivot at hi with everything before it
    ends both at hi + 1 and hi - 1 with nothing changed, and two elements
    both equivalent to the pivot are exchanged.
  */
  method PartitionStep<T(!new)>(a: array<T>, lt: (T, T) -> bool, lo: int, hi: int, piv: T, left: int, right: int,
                                ghost s0: seq<T>, ghost sl: int, ghost sh: int)
    returns (l: int, h: int, ghost sl': int, ghost sh': int)
    requires StrictWeakOrder(lt)
    requires PartitionState(lt, s0, a[..], lo, hi, piv, left, right, sl, sh) && left <= right
    modifies a
    ensures PartitionState(lt, s0, a[..], lo, hi, piv, l, h, sl', sh')
    ensures h - l < right - left
    ensures sl < hi || right < hi ==> l <= hi
    ensures left == lo && right == hi && sl == hi && (forall k :: lo <= k < hi ==> lt(old(a[k]), piv)) ==>
      l == hi + 1 && a[..] == old(a[..])
    ensures left == lo && right == hi == lo + 1 && Equivalent(lt, old(a[lo]), piv) && Equivalent(lt, old(a[hi]), piv) ==>
      l == hi && h == lo && a[..] == Exchanged(old(a[..]), lo, hi)
  {
    l := ScanUp(a, lt, piv, left, sl);
    h := ScanDown(a, lt, piv, right, sh);
    sl', sh' := sl, sh;
    PartitionAdvances(lt, s0, a[..], lo, hi, piv, left, right, sl, sh, l, h);
    if l <= h {
      ghost var s := a[..];
      Swap(a, l, h);
      if l == h {
        assert a[..] == s;
      }
      sl', sh' := h, l;
      l, h := l + 1, h - 1;
    }
  }

  /** When the indices have crossed, the state is the partition's result. */
  lemma PartitionDone<T>(lt: (T, T) -> bool, s0: seq<T>, s: seq<T>, lo: int, hi: int, piv: T,
                         left: int, right: int, sl: int, sh: int)
    requires PartitionState(lt, s0, s, lo, hi, piv, left, right, sl, sh)
    requires right < left
    ensures PartitionedAround(lt, s0, s, lo, hi, left, piv)
  {
    PermutedFromFrame(s0, s, lo, hi + 1);
  }

  /**
    QuickSort::quick_sort on [lo, hi]: nothing to do for fewer than two
    elements; otherwise partition around the chosen pivot and recurse.
  */
  method QuickSortRange<T(!new)>(a: array<T>, lt: (T, T) -> bool, choose: (seq<T>, int, int) -> int, lo: int, hi: int)
    requires StrictWeakOrder(lt) && ValidChooser(choose)
    requires 0 <= lo <= hi + 1 <= a.Length
    modifies a
    ensures SortedWithin(lt, old(a[..]), a[..], lo, hi + 1)
    ensures lo >= hi ==> a[..] == old(a[..])
    ensures hi == lo + 1 && Equivalent(lt, old(a[lo]), old(a[hi])) ==> a[..] == Exchanged(old(a[..]), lo, hi)
    decreases hi - lo
  {
    if lo >= hi {
      ghost var s := a[..];
      assert Sorted(lt, s[lo..hi + 1]);
      return;
    }
    ghost var s0 := a[..];
    var p := choose(a[..], lo, hi);
    var piv := a[p];
    if hi == lo + 1 {
      assert p == lo && !lt(piv, piv);
    }
    var idx := Partition(a, lt, lo, hi, piv, p);
    ghost var s1 := a[..];
    QuickSortRange(a, lt, choose, lo, idx - 1);
    ghost var s2 := a[..];
    QuickSortRange(a, lt, choose, idx, hi);
    QuickSortStep(lt, s0, s1, s2, a[..], lo, hi, idx, piv);
  }

  /**
    QuickSort::sort_vector: quick_sort on [0, size - 1], which for an empty
    vector is [0, -1] and returns at once. The sort is not stable, and a
    sorted input stays as it is only when equivalent elements are equal: two
    equivalent elements alone are exchanged.
  */
  method QuickSort<T(!new)>(a: array<T>, lt: (T, T) -> bool, choose: (seq<T>, int, int) -> int)
    requires StrictWeakOrder(lt) && ValidChooser(choose)
    modifies a
    ensures Sorted(lt, a[..])
    ensures multiset(a[..]) == old(multiset(a[..]))
    ensures EquivalentMeansEqual(lt) && Sorted(lt, old(a[..])) ==> a[..] == old(a[..])
    ensures a.Length == 2 && Equivalent(lt, old(a[0]), old(a[1])) ==> a[..] == [old(a[1]), old(a[0])]
  {
    QuickSortRange(a, lt, choose, 0, a.Length - 1);
    assert a[..] == a[0..a.Length];
    assert old(a[..]) == old(a[..])[0..a.Length];
    if EquivalentMeansEqual(lt) && Sorted(lt, old(a[..])) {
      SortedPermutationUnique(lt, a[..], old(a[..]));
    }
  }

  /** Pairs compared by their first component only: (1, 0) and (1, 1) are equivalent. */
  function ByFirst(x: (int, int), y: (int, int)): bool {
    x.0 < y.0
  }

  /**
    Quicksort with the middle pivot reorders the sorted input
    [(1, 0), (1, 1)]: the pivot is (1, 0), neither scan moves, and the two
    elements are exchanged.
  */
  method SortedPairReordered() returns (before: seq<(int, int)>, after: seq<(int, int)>)
    ensures Sorted(ByFirst, before) && multiset(after) == multiset(before)
    ensures |before| == 2 && after == [before[1], before[0]] && after != before
  {
    var a := new (int, int)[] [(1, 0), (1, 1)];
    before := a[..];
    ByKeyStrictWeakOrder(ByFirst, (x: (int, int)) => x.0);
    QuickSort(a, ByFirst, (s: seq<(int, int)>, lo: int, hi: int) => PivotStrategies.MiddleIndex(lo, hi));
    after := a[..];
  }

  /**
    A pivot strategy returning arr[hi]: on [1, 2] under `less<int>` the
    pivot is 2, both scans stop at index 1, and partition returns 2. Then
    `quick_sort(arr, 0, 1)` calls `quick_sort(arr, 0, idx - 1)`, the same
    range, again and again.
  */
  method PivotAtEndRepeatsRange() returns (idx: int)
    ensures idx - 1 == 1
  {
    var a := new int[] [1, 2];
    var lt := (x: int, y: int) => x < y;
    ByKeyStrictWeakOrder(lt, (x: int) => x);
    idx := Partition(a, lt, 0, 1, a[1], 1);
  }
}

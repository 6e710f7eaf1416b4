/**
  `MergeSort` of src/sort.hpp: a top-down merge sort that copies only the
  left half of each range into a shared buffer of n/2 + 1 cells and merges
  back into the array, taking the left element on ties.
*/
module MergeSorts {
  import opened Ordering
  import InsertionSorts

  /** Merging two runs, taking the left head unless the right head comes strictly before it. */
  function Merge<T>(lt: (T, T) -> bool, l: seq<T>, r: seq<T>): seq<T>
    decreases |l| + |r|
  {
    if l == [] then r
    else if r == [] then l
    else if !lt(r[0], l[0]) then [l[0]] + Merge(lt, l[1..], r)
    else [r[0]] + Merge(lt, l, r[1..])
  }

  /** The left half of a range of length len: lo..mid with mid = lo + (hi - lo) / 2. */
  function LeftLength(len: int): (h: int)
    requires len >= 2
    ensures 1 <= h < len
  {
    (len - 1) / 2 + 1
  }

  /** The result of the merge sort on a sequence. */
  function MergeSorted<T>(lt: (T, T) -> bool, s: seq<T>): seq<T>
    decreases |s|
  {
    if |s| <= 1 then s
    else
      var h := LeftLength(|s|);
      Merge(lt, MergeSorted(lt, s[..h]), MergeSorted(lt, s[h..]))
  }

  lemma {:induction false} MergePermutation<T>(lt: (T, T) -> bool, l: seq<T>, r: seq<T>)
    ensures multiset(Merge(lt, l, r)) == multiset(l) + multiset(r)
    ensures |Merge(lt, l, r)| == |l| + |r|
    decreases |l| + |r|
  {
    if l != [] && r != [] {
      if !lt(r[0], l[0]) {
        MergePermutation(lt, l[1..], r);
        MultisetCons(l);
      } else {
        MergePermutation(lt, l, r[1..]);
        MultisetCons(r);
      }
    }
  }

  lemma {:induction false} MergeSortedLength<T>(lt: (T, T) -> bool, s: seq<T>)
    ensures |MergeSorted(lt, s)| == |s|
    decreases |s|
  {
    if |s| > 1 {
      var h := LeftLength(|s|);
      MergeSortedLength(lt, s[..h]);
      MergeSortedLength(lt, s[h..]);
      MergePermutation(lt, MergeSorted(lt, s[..h]), MergeSorted(lt, s[h..]));
    }
  }

  /** Merging two sorted runs gives a sorted run. */
  lemma {:induction false} MergeSortedRuns<T(!new)>(lt: (T, T) -> bool, l: seq<T>, r: seq<T>)
    requires StrictWeakOrder(lt)
    requires Sorted(lt, l) && Sorted(lt, r)
    ensures Sorted(lt, Merge(lt, l, r))
    decreases |l| + |r|
  {
    if l != [] && r != [] {
      if !lt(r[0], l[0]) {
        var v := Merge(lt, l[1..], r);
        assert Sorted(lt, l[1..]);
        MergeSortedRuns(lt, l[1..], r);
        MergePermutation(lt, l[1..], r);
        forall k | 0 <= k < |v| ensures !lt(v[k], l[0]) {
          assert v[k] in multiset(l[1..]) + multiset(r);
          if v[k] in multiset(l[1..]) {
            var p :| 0 <= p < |l[1..]| && l[1..][p] == v[k];
            assert l[p + 1] == v[k];
          } else {
            var p :| 0 <= p < |r| && r[p] == v[k];
            NotAfterTransitive(lt, l[0], r[0], r[p]);
          }
        }
        SortedPrepend(lt, l[0], v);
      } else {
        var v := Merge(lt, l, r[1..]);
        assert Sorted(lt, r[1..]);
        MergeSortedRuns(lt, l, r[1..]);
        MergePermutation(lt, l, r[1..]);
        AsymmetricOf(lt, r[0], l[0]);
        forall k | 0 <= k < |v| ensures !lt(v[k], r[0]) {
          assert v[k] in multiset(l) + multiset(r[1..]);
          if v[k] in multiset(l) {
            var p :| 0 <= p < |l| && l[p] == v[k];
            NotAfterTransitive(lt, r[0], l[0], l[p]);
          } else {
            var p :| 0 <= p < |r[1..]| && r[1..][p] == v[k];
            assert r[p + 1] == v[k];
          }
        }
        SortedPrepend(lt, r[0], v);
      }
    }
  }

  /**
    Merging keeps every class of equivalent elements in order, left run
    first: a right element overtakes only left elements strictly after it,
    which are never equivalent to it.
  */
  lemma {:induction false} MergeStable<T(!new)>(lt: (T, T) -> bool, l: seq<T>, r: seq<T>, z: T)
    requires StrictWeakOrder(lt)
    requires Sorted(lt, l)
    ensures EquivSub(lt, z, Merge(lt, l, r)) == EquivSub(lt, z, l) + EquivSub(lt, z, r)
    decreases |l| + |r|
  {
    if l == [] {
      assert EquivSub(lt, z, l) == [];
    } else if r == [] {
      assert EquivSub(lt, z, r) == [];
    } else if !lt(r[0], l[0]) {
      SortedTail(lt, l);
      MergeStable(lt, l[1..], r, z);
      MergeStableLeft(lt, l, r, z);
    } else {
      MergeStable(lt, l, r[1..], z);
      if Equivalent(lt, z, r[0]) {
        NothingEquivalentAfter(lt, l, r[0], z);
      }
      MergeStableRight(lt, l, r, z);
    }
  }

  /** The step of MergeStable where the left head is taken. */
  lemma MergeStableLeft<T>(lt: (T, T) -> bool, l: seq<T>, r: seq<T>, z: T)
    requires l != [] && r != [] && !lt(r[0], l[0])
    requires EquivSub(lt, z, Merge(lt, l[1..], r)) == EquivSub(lt, z, l[1..]) + EquivSub(lt, z, r)
    ensures EquivSub(lt, z, Merge(lt, l, r)) == EquivSub(lt, z, l) + EquivSub(lt, z, r)
  {
    MergeTakesLeft(lt, l, r);
    EquivSubAppend(lt, z, [l[0]], Merge(lt, l[1..], r));
    EquivSubAppend(lt, z, [l[0]], l[1..]);
    AppendAssociative(EquivSub(lt, z, [l[0]]), EquivSub(lt, z, l[1..]), EquivSub(lt, z, r));
    assert l == [l[0]] + l[1..];
  }

  /** The step of MergeStable where the right head is taken, passing no element equivalent to it. */
  lemma MergeStableRight<T>(lt: (T, T) -> bool, l: seq<T>, r: seq<T>, z: T)
    requires l != [] && r != [] && lt(r[0], l[0])
    requires EquivSub(lt, z, Merge(lt, l, r[1..])) == EquivSub(lt, z, l) + EquivSub(lt, z, r[1..])
    requires Equivalent(lt, z, r[0]) ==> EquivSub(lt, z, l) == []
    ensures EquivSub(lt, z, Merge(lt, l, r)) == EquivSub(lt, z, l) + EquivSub(lt, z, r)
  {
    var h, m := EquivSub(lt, z, [r[0]]), Merge(lt, l, r[1..]);
    assert Merge(lt, l, r) == [r[0]] + m;
    EquivSubAppend(lt, z, [r[0]], m);
    assert r == [r[0]] + r[1..];
    EquivSubAppend(lt, z, [r[0]], r[1..]);
    var el, er := EquivSub(lt, z, l), EquivSub(lt, z, r[1..]);
    if h == [] {
      assert h + (el + er) == el + er && h + er == er;
    } else {
      assert el == [];
      assert el + er == er && el + (h + er) == h + er;
    }
  }

  /** Every element of a sorted l is strictly after x when l[0] is, so none is equivalent to x. */
  lemma NothingEquivalentAfter<T(!new)>(lt: (T, T) -> bool, l: seq<T>, x: T, z: T)
    requires StrictWeakOrder(lt)
    requires Sorted(lt, l) && l != [] && lt(x, l[0])
    requires Equivalent(lt, z, x)
    ensures EquivSub(lt, z, l) == []
  {
    forall k | 0 <= k < |l| ensures !Equivalent(lt, z, l[k]) {
      BeforeSplits(lt, x, l[k], l[0]);
      BeforeSplits(lt, x, z, l[k]);
    }
    EquivSubNone(lt, z, l);
  }

  /** No element equivalent to z: the subsequence is empty. */
  lemma {:induction false} EquivSubNone<T>(lt: (T, T) -> bool, z: T, s: seq<T>)
    requires forall k :: 0 <= k < |s| ==> !Equivalent(lt, z, s[k])
    ensures EquivSub(lt, z, s) == []
  {
    if s != [] {
      EquivSubNone(lt, z, s[1..]);
    }
  }

  /** The functional merge sort sorts. */
  lemma {:induction false} MergeSortedSorted<T(!new)>(lt: (T, T) -> bool, s: seq<T>)
    requires StrictWeakOrder(lt)
    ensures Sorted(lt, MergeSorted(lt, s))
    decreases |s|
  {
    if |s| > 1 {
      var h := LeftLength(|s|);
      MergeSortedSorted(lt, s[..h]);
      MergeSortedSorted(lt, s[h..]);
      MergeSortedRuns(lt, MergeSorted(lt, s[..h]), MergeSorted(lt, s[h..]));
    }
  }

  /** The functional merge sort permutes. */
  lemma {:induction false} MergeSortedPermutation<T>(lt: (T, T) -> bool, s: seq<T>)
    ensures multiset(MergeSorted(lt, s)) == multiset(s)
    decreases |s|
  {
    if |s| > 1 {
      var h := LeftLength(|s|);
      var l, r := MergeSorted(lt, s[..h]), MergeSorted(lt, s[h..]);
      MergeSortedPermutation(lt, s[..h]);
      MergeSortedPermutation(lt, s[h..]);
      MergePermutation(lt, l, r);
      assert MergeSorted(lt, s) == Merge(lt, l, r);
      MultisetSplit(s, h);
    }
  }

  /** The functional merge sort is stable. */
  lemma {:induction false} MergeSortedStable<T(!new)>(lt: (T, T) -> bool, s: seq<T>)
    requires StrictWeakOrder(lt)
    ensures Stable(lt, s, MergeSorted(lt, s))
    decreases |s|
  {
    if |s| > 1 {
      var h := LeftLength(|s|);
      var l, r := MergeSorted(lt, s[..h]), MergeSorted(lt, s[h..]);
      MergeSortedStable(lt, s[..h]);
      MergeSortedStable(lt, s[h..]);
      MergeSortedSorted(lt, s[..h]);
      assert s == s[..h] + s[h..];
      forall z ensures EquivSub(lt, z, MergeSorted(lt, s)) == EquivSub(lt, z, s) {
        MergeStable(lt, l, r, z);
        EquivSubAppend(lt, z, s[..h], s[h..]);
      }
    }
  }

  /**
    Merge sort and insertion sort are both stable sorts, so they agree on
    every input.
  */
  lemma MergeSortedIsInsertionSorted<T(!new)>(lt: (T, T) -> bool, s: seq<T>)
    requires StrictWeakOrder(lt)
    ensures MergeSorted(lt, s) == InsertionSorts.InsertionSorted(lt, s)
  {
    MergeSortedSorted(lt, s);
    MergeSortedStable(lt, s);
    InsertionSorts.InsertionSortedCorrect(lt, s);
    SortedStableUnique(lt, s, MergeSorted(lt, s), InsertionSorts.InsertionSorted(lt, s));
  }

  /** MergeSort::sort_vector: one buffer of n/2 + 1 cells for the whole sort. */
  method MergeSort<T(0)>(a: array<T>, lt: (T, T) -> bool)
    modifies a
    ensures a[..] == MergeSorted(lt, old(a[..]))
  {
    if a.Length == 0 {
      return;
    }
    var temp := new T[a.Length / 2 + 1];
    MergeSortRange(a, temp, lt, 0, a.Length - 1);
    assert old(a[..])[0..a.Length] == old(a[..]);
  }

  /** s with s[lo..hi] replaced by its merge sort. */
  ghost function SortedRange<T>(lt: (T, T) -> bool, s: seq<T>, lo: int, hi: int): seq<T>
    requires 0 <= lo <= hi + 1 <= |s|
  {
    s[..lo] + MergeSorted(lt, s[lo..hi + 1]) + s[hi + 1..]
  }

  /** s with the runs s[lo..mid] and s[mid+1..hi] replaced by their merge. */
  ghost function MergedRange<T>(lt: (T, T) -> bool, s: seq<T>, lo: int, mid: int, hi: int): seq<T>
    requires 0 <= lo <= mid < hi < |s|
  {
    s[..lo] + Merge(lt, s[lo..mid + 1], s[mid + 1..hi + 1]) + s[hi + 1..]
  }

  /** MergeSort::merge_sort: sorts a[lo..hi], both ends included, and changes nothing else. */
  method MergeSortRange<T>(a: array<T>, temp: array<T>, lt: (T, T) -> bool, lo: int, hi: int)
    requires a != temp
    requires 0 <= lo <= hi + 1 <= a.Length
    requires (hi - lo) / 2 < temp.Length
    modifies a, temp
    ensures a[..] == SortedRange(lt, old(a[..]), lo, hi)
    decreases hi - lo
  {
    if hi <= lo {
      assert a[..] == a[..lo] + a[lo..hi + 1] + a[hi + 1..];
      return;
    }
    var mid := lo + (hi - lo) / 2;
    ghost var a0 := a[..];
    MergeSortRange(a, temp, lt, lo, mid);
    ghost var a1 := a[..];
    MergeSortRange(a, temp, lt, mid + 1, hi);
    ghost var a2 := a[..];
    MergeRuns(a, temp, lt, lo, mid, hi);
    MergeSortStep(lt, a0, a1, a2, a[..], lo, mid, hi);
  }

  /**
    One level of merge_sort: sorting both halves in place and merging them
    leaves MergeSorted of the range in the range and nothing else changed.
  */
  lemma MergeSortStep<T>(lt: (T, T) -> bool, a0: seq<T>, a1: seq<T>, a2: seq<T>, a3: seq<T>, lo: int, mid: int, hi: int)
    requires 0 <= lo < hi < |a0| == |a1| == |a2| && mid == lo + (hi - lo) / 2
    requires a1 == SortedRange(lt, a0, lo, mid)
    requires a2 == SortedRange(lt, a1, mid + 1, hi)
    requires a3 == MergedRange(lt, a2, lo, mid, hi)
    ensures a3 == SortedRange(lt, a0, lo, hi)
  {
    var left := MergeSorted(lt, a0[lo..mid + 1]);
    var right := MergeSorted(lt, a0[mid + 1..hi + 1]);
    MergeSortedLength(lt, a0[lo..mid + 1]);
    MergeSortedLength(lt, a0[mid + 1..hi + 1]);
    SpliceParts(a0, left, lo, mid);
    SpliceParts(a1, right, mid + 1, hi);
    assert a2[..lo] == a1[..lo] == a0[..lo];
    SplitAtLeftLength(lt, a0, lo, mid, hi);
  }

  /** The three parts of s with s[lo..hi] replaced by x. */
  lemma SpliceParts<T>(s: seq<T>, x: seq<T>, lo: int, hi: int)
    requires 0 <= lo <= hi + 1 <= |s| && |x| == hi + 1 - lo
    ensures var t := s[..lo] + x + s[hi + 1..];
      |t| == |s| && t[..lo] == s[..lo] && t[lo..hi + 1] == x && t[hi + 1..] == s[hi + 1..]
    ensures var t := s[..lo] + x + s[hi + 1..];
      forall i, j :: 0 <= i <= j <= lo ==> t[i..j] == s[i..j]
    ensures var t := s[..lo] + x + s[hi + 1..];
      forall i, j :: hi + 1 <= i <= j <= |s| ==> t[i..j] == s[i..j]
  {
    var t := s[..lo] + x + s[hi + 1..];
    assert forall k :: 0 <= k < lo ==> t[k] == s[k];
    assert forall k :: hi + 1 <= k < |s| ==> t[k] == s[k];
    forall i, j | 0 <= i <= j <= lo ensures t[i..j] == s[i..j] {
      assert forall k :: 0 <= k < j - i ==> t[i..j][k] == t[i + k] && s[i..j][k] == s[i + k];
    }
    forall i, j | hi + 1 <= i <= j <= |s| ensures t[i..j] == s[i..j] {
      assert forall k :: 0 <= k < j - i ==> t[i..j][k] == t[i + k] && s[i..j][k] == s[i + k];
    }
  }

  /** The recursion of merge_sort splits the range where MergeSorted splits the sequence. */
  lemma SplitAtLeftLength<T>(lt: (T, T) -> bool, s: seq<T>, lo: int, mid: int, hi: int)
    requires 0 <= lo < hi < |s| && mid == lo + (hi - lo) / 2
    ensures LeftLength(hi + 1 - lo) == mid + 1 - lo
    ensures s[lo..hi + 1][..mid + 1 - lo] == s[lo..mid + 1]
    ensures s[lo..hi + 1][mid + 1 - lo..] == s[mid + 1..hi + 1]
    ensures MergeSorted(lt, s[lo..hi + 1]) == Merge(lt, MergeSorted(lt, s[lo..mid + 1]), MergeSorted(lt, s[mid + 1..hi + 1]))
  {
  }

  /**
    MergeSort::merge: copies a[lo..mid] into temp, then fills a[lo..hi]
    from temp and the right run still in place.
  */
  method MergeRuns<T>(a: array<T>, temp: array<T>, lt: (T, T) -> bool, lo: int, mid: int, hi: int)
    requires a != temp
    requires 0 <= lo <= mid < hi < a.Length
    requires mid - lo < temp.Length
    modifies a, temp
    ensures a[..] == MergedRange(lt, old(a[..]), lo, mid, hi)
  {
    ghost var L := a[lo..mid + 1];
    ghost var R := a[mid + 1..hi + 1];
    ghost var orig := a[..];
    var arrInd := lo;
    var cpyInd := CopyLeftRun(a, temp, lo, mid);
    var leftHalfInd := 0;
    var rightHalfInd := cpyInd;
    assert a[lo..arrInd] == [] && L[leftHalfInd..] == L && R[rightHalfInd - mid - 1..] == R;
    assert MergeState(a, temp, lt, lo, mid, hi, L, R, orig, leftHalfInd, rightHalfInd, arrInd);
    while arrInd < rightHalfInd && rightHalfInd <= hi
      invariant MergeState(a, temp, lt, lo, mid, hi, L, R, orig, leftHalfInd, rightHalfInd, arrInd)
      decreases hi + 1 - arrInd
    {
      if !lt(a[rightHalfInd], temp[leftHalfInd]) {
        arrInd, leftHalfInd := TakeLeft(a, temp, lt, lo, mid, hi, L, R, orig, leftHalfInd, rightHalfInd, arrInd);
      } else {
        arrInd, rightHalfInd := TakeRight(a, temp, lt, lo, mid, hi, L, R, orig, leftHalfInd, rightHalfInd, arrInd);
      }
    }
    while arrInd < rightHalfInd
      invariant MergeState(a, temp, lt, lo, mid, hi, L, R, orig, leftHalfInd, rightHalfInd, arrInd)
      invariant arrInd < rightHalfInd ==> rightHalfInd == hi + 1
      decreases rightHalfInd - arrInd
    {
      arrInd, leftHalfInd := TakeLeft(a, temp, lt, lo, mid, hi, L, R, orig, leftHalfInd, rightHalfInd, arrInd);
    }
    MergeFinished(a, temp, lt, lo, mid, hi, L, R, orig, leftHalfInd, rightHalfInd, arrInd);
  }

  /** The first loop of MergeSort::merge: temp[0..mid-lo] := a[lo..mid]; returns mid + 1. */
  method CopyLeftRun<T>(a: array<T>, temp: array<T>, lo: int, mid: int) returns (cpyInd: int)
    requires a != temp
    requires 0 <= lo <= mid < a.Length && mid - lo < temp.Length
    modifies temp
    ensures cpyInd == mid + 1
    ensures temp[..mid - lo + 1] == a[lo..mid + 1]
  {
    var leftHalfInd := 0;
    cpyInd := lo;
    while cpyInd <= mid
      invariant lo <= cpyInd <= mid + 1 && leftHalfInd == cpyInd - lo
      invariant temp[..leftHalfInd] == a[lo..cpyInd]
    {
      temp[leftHalfInd] := a[cpyInd];
      leftHalfInd, cpyInd := leftHalfInd + 1, cpyInd + 1;
    }
  }

  /**
    The state of the merging loops: temp still holds the left run, the
    unconsumed right run sits in a[rightHalfInd..hi], and a[lo..arrInd]
    followed by the merge of what is left is the merge of the two runs.
  */
  ghost predicate MergeState<T>(a: array<T>, temp: array<T>, lt: (T, T) -> bool, lo: int, mid: int, hi: int,
                                L: seq<T>, R: seq<T>, orig: seq<T>, li: int, ri: int, ai: int)
    reads a, temp
  {
    0 <= lo <= mid < hi < a.Length && |L| == mid - lo + 1 && |R| == hi - mid && |L| <= temp.Length &&
    0 <= li <= |L| && mid + 1 <= ri <= hi + 1 && ai == lo + li + (ri - mid - 1) &&
    temp[..|L|] == L &&
    a[ri..hi + 1] == R[ri - mid - 1..] &&
    a[lo..ai] + Merge(lt, L[li..], R[ri - mid - 1..]) == Merge(lt, L, R) &&
    |orig| == a.Length &&
    (forall k :: 0 <= k < a.Length && !(lo <= k <= hi) ==> a[k] == orig[k])
  }

  /** Once the left run is used up, a[lo..hi] holds the merge. */
  lemma MergeFinished<T>(a: array<T>, temp: array<T>, lt: (T, T) -> bool, lo: int, mid: int, hi: int,
                         L: seq<T>, R: seq<T>, orig: seq<T>, li: int, ri: int, ai: int)
    requires MergeState(a, temp, lt, lo, mid, hi, L, R, orig, li, ri, ai)
    requires ai == ri
    requires L == orig[lo..mid + 1] && R == orig[mid + 1..hi + 1]
    ensures a[..] == MergedRange(lt, orig, lo, mid, hi)
  {
    assert L[li..] == [];
    assert a[lo..hi + 1] == a[lo..ai] + a[ri..hi + 1];
    assert a[..] == a[..lo] + a[lo..hi + 1] + a[hi + 1..];
    assert a[..lo] == orig[..lo] && a[hi + 1..] == orig[hi + 1..];
  }

  lemma MergeTakesLeft<T>(lt: (T, T) -> bool, l: seq<T>, r: seq<T>)
    requires l != [] && (r != [] ==> !lt(r[0], l[0]))
    ensures Merge(lt, l, r) == [l[0]] + Merge(lt, l[1..], r)
  {
    if r == [] {
      assert l == [l[0]] + l[1..];
    }
  }

  lemma MergeTakesRight<T>(lt: (T, T) -> bool, l: seq<T>, r: seq<T>)
    requires l != [] && r != [] && lt(r[0], l[0])
    ensures Merge(lt, l, r) == [r[0]] + Merge(lt, l, r[1..])
  {
  }

  /** One step of the merging loops that moves temp[li] into a[ai]. */
  method TakeLeft<T>(a: array<T>, temp: array<T>, lt: (T, T) -> bool, lo: int, mid: int, hi: int,
                     ghost L: seq<T>, ghost R: seq<T>, ghost orig: seq<T>, li: int, ri: int, ai: int)
    returns (ai': int, li': int)
    requires a != temp
    requires MergeState(a, temp, lt, lo, mid, hi, L, R, orig, li, ri, ai)
    requires ai < ri
    requires ri <= hi ==> !lt(a[ri], temp[li])
    modifies a
    ensures ai' == ai + 1 && li' == li + 1
    ensures MergeState(a, temp, lt, lo, mid, hi, L, R, orig, li', ri, ai')
  {
    ghost var done := a[lo..ai];
    ghost var rest := R[ri - mid - 1..];
    assert rest != [] ==> rest[0] == a[ri] && temp[li] == L[li];
    MergeTakesLeft(lt, L[li..], rest);
    assert L[li..][1..] == L[li + 1..];
    ghost var merged := Merge(lt, L[li + 1..], rest);
    assert done + [L[li]] + merged == done + ([L[li]] + merged);
    a[ai] := temp[li];
    assert a[lo..ai + 1] == done + [L[li]];
    assert a[ri..hi + 1] == rest;
    ai', li' := ai + 1, li + 1;
  }

  /** One step of the first merging loop that moves a[ri] down into a[ai]. */
  method TakeRight<T>(a: array<T>, temp: array<T>, lt: (T, T) -> bool, lo: int, mid: int, hi: int,
                      ghost L: seq<T>, ghost R: seq<T>, ghost orig: seq<T>, li: int, ri: int, ai: int)
    returns (ai': int, ri': int)
    requires a != temp
    requires MergeState(a, temp, lt, lo, mid, hi, L, R, orig, li, ri, ai)
    requires ai < ri <= hi
    requires lt(a[ri], temp[li])
    modifies a
    ensures ai' == ai + 1 && ri' == ri + 1
    ensures MergeState(a, temp, lt, lo, mid, hi, L, R, orig, li, ri', ai')
  {
    ghost var done := a[lo..ai];
    ghost var rest := R[ri - mid - 1..];
    assert rest[0] == a[ri] && temp[li] == L[li];
    MergeTakesRight(lt, L[li..], rest);
    assert rest[1..] == R[ri - mid..];
    ghost var merged := Merge(lt, L[li..], R[ri - mid..]);
    assert done + [rest[0]] + merged == done + ([rest[0]] + merged);
    a[ai] := a[ri];
    assert a[lo..ai + 1] == done + [rest[0]];
    assert a[ri + 1..hi + 1] == R[ri - mid..];
    ai', ri' := ai + 1, ri + 1;
  }
}

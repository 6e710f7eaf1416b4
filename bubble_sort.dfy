/**
  `BubbleSort` and `OptimizedBubbleSort` of src/sort.hpp.

  Both passes are proved with the same picture: a pass carries the largest
  element seen so far to the right, and the part of the vector to the right
  of the pass's reach is "settled" (sorted, and not before anything to its
  left).
*/
module BubbleSorts {
  import opened Ordering

  /** s[i] is not before anything to its left. */
  ghost predicate MaxAt<T>(lt: (T, T) -> bool, s: seq<T>, i: int) {
    forall p :: 0 <= p < i < |s| ==> !lt(s[i], s[p])
  }

  /** s[m..] is sorted and nothing in s[..m] comes after anything in it. */
  ghost predicate SettledFrom<T>(lt: (T, T) -> bool, s: seq<T>, m: int) {
    SortedFrom(lt, s, m) && PartitionedAt(lt, s, m)
  }

  /**
    BubbleSort::sort_vector: n passes, each comparing every adjacent pair of
    the whole vector. After pass i the last i+1 elements are in their final
    places.
  */
  method BubbleSort<T(!new)>(a: array<T>, lt: (T, T) -> bool)
    requires StrictWeakOrder(lt)
    modifies a
    ensures Sorted(lt, a[..])
    ensures multiset(a[..]) == old(multiset(a[..]))
    ensures Sorted(lt, old(a[..])) ==> a[..] == old(a[..])
  {
    var n := a.Length;
    ghost var wasSorted := Sorted(lt, a[..]);
    for i := 0 to n
      invariant SettledFrom(lt, a[..], n - i)
      invariant multiset(a[..]) == old(multiset(a[..]))
      invariant wasSorted ==> a[..] == old(a[..])
    {
      BubblePass(a, lt, n - 1, n - i);
    }
  }

  /**
    One pass of the inner loop of BubbleSort::sort_vector, `for j < limit`
    with `limit` the vector's size minus one: a[j] and a[j+1] are exchanged
    whenever a[j+1] must come before a[j]. When a[m..] is settled, the pass
    settles a[m-1..] too, and exchanges nothing at or beyond m.
  */
  method BubblePass<T(!new)>(a: array<T>, lt: (T, T) -> bool, limit: int, ghost m: int)
    requires StrictWeakOrder(lt)
    requires limit == a.Length - 1 && 1 <= m <= a.Length
    requires SettledFrom(lt, a[..], m)
    modifies a
    ensures SettledFrom(lt, a[..], m - 1)
    ensures a[m..] == old(a[m..])
    ensures multiset(a[..]) == old(multiset(a[..]))
    ensures Sorted(lt, old(a[..])) ==> a[..] == old(a[..])
  {
    ghost var wasSorted := Sorted(lt, a[..]);
    for j := 0 to limit
      invariant MaxAt(lt, a[..], j)
      invariant m - 1 <= j ==> MaxAt(lt, a[..], m - 1)
      invariant SettledFrom(lt, a[..], m)
      invariant a[m..] == old(a[m..])
      invariant multiset(a[..]) == old(multiset(a[..]))
      invariant wasSorted ==> a[..] == old(a[..])
    {
      assert m - 1 <= j ==> !lt(a[j + 1], a[j]) by {
        if m - 1 <= j {
          assert a[..][j] == a[j] && a[..][j + 1] == a[j + 1];
        }
      }
      assert wasSorted ==> !lt(a[j + 1], a[j]) by {
        if wasSorted {
          assert old(a[..])[j] == a[j] && old(a[..])[j + 1] == a[j + 1];
        }
      }
      if lt(a[j + 1], a[j]) {
        ExchangeDescent(a, lt, j, m);
      } else {
        MaxAtStep(lt, a[..], j);
      }
    }
    SettleOneMore(lt, a[..], m);
  }

  /**
    OptimizedBubbleSort::sort_vector: each pass stops at `bound`, the place of
    the last exchange of the previous pass, and the sort ends when a pass's
    last exchange was at index 0 or there was none.
  */
  method OptimizedBubbleSort<T(!new)>(a: array<T>, lt: (T, T) -> bool)
    requires StrictWeakOrder(lt)
    modifies a
    ensures Sorted(lt, a[..])
    ensures multiset(a[..]) == old(multiset(a[..]))
    ensures Sorted(lt, old(a[..])) ==> a[..] == old(a[..])
  {
    if a.Length == 0 {
      return;
    }
    var n := a.Length;
    var lastChangeOn := n - 1;
    var bound;
    ghost var wasSorted := Sorted(lt, a[..]);
    while true
      invariant 0 <= lastChangeOn < n
      invariant SettledFrom(lt, a[..], lastChangeOn + 1)
      invariant multiset(a[..]) == old(multiset(a[..]))
      invariant wasSorted ==> a[..] == old(a[..])
      decreases lastChangeOn
    {
      bound := lastChangeOn;
      lastChangeOn := BoundedPass(a, lt, bound);
      if lastChangeOn == 0 {
        break;
      }
    }
  }

  /**
    One pass of OptimizedBubbleSort::sort_vector over the pairs below `bound`;
    returns the index of the last exchange, or 0 when there was none. The
    returned index is below `bound` whenever `bound` is positive, which is
    what makes the sort terminate, and everything after it is settled.
  */
  method BoundedPass<T(!new)>(a: array<T>, lt: (T, T) -> bool, bound: int) returns (lastChangeOn: int)
    requires StrictWeakOrder(lt)
    requires 0 <= bound < a.Length
    requires SettledFrom(lt, a[..], bound + 1)
    modifies a
    ensures 0 <= lastChangeOn <= bound && (0 < bound ==> lastChangeOn < bound)
    ensures SettledFrom(lt, a[..], lastChangeOn + 1)
    ensures a[bound + 1..] == old(a[bound + 1..])
    ensures multiset(a[..]) == old(multiset(a[..]))
    ensures Sorted(lt, old(a[..])) ==> a[..] == old(a[..])
  {
    ghost var wasSorted := Sorted(lt, a[..]);
    lastChangeOn := 0;
    for i := 0 to bound
      invariant PassState(lt, a[..], i, lastChangeOn, bound)
      invariant SettledFrom(lt, a[..], bound + 1)
      invariant a[bound + 1..] == old(a[bound + 1..])
      invariant multiset(a[..]) == old(multiset(a[..]))
      invariant wasSorted ==> a[..] == old(a[..])
    {
      assert wasSorted ==> !lt(a[i + 1], a[i]) by {
        if wasSorted {
          assert old(a[..])[i] == a[i] && old(a[..])[i + 1] == a[i + 1];
        }
      }
      lastChangeOn := PassStep(a, lt, i, lastChangeOn, bound);
    }
    PassEnd(lt, a[..], lastChangeOn, bound);
  }

  /**
    One comparison of the pass in OptimizedBubbleSort::sort_vector: the pair
    at i and i+1 is exchanged when a[i+1] must come before a[i], and then i
    is the last exchange; otherwise nothing changes.
  */
  method PassStep<T(!new)>(a: array<T>, lt: (T, T) -> bool, i: int, lastChangeOn: int, bound: int)
    returns (last: int)
    requires StrictWeakOrder(lt)
    requires i < bound && PassState(lt, a[..], i, lastChangeOn, bound)
    requires SettledFrom(lt, a[..], bound + 1)
    modifies a
    ensures PassState(lt, a[..], i + 1, last, bound)
    ensures SettledFrom(lt, a[..], bound + 1)
    ensures a[bound + 1..] == old(a[bound + 1..])
    ensures multiset(a[..]) == old(multiset(a[..]))
    ensures !lt(old(a[i + 1]), old(a[i])) ==> a[..] == old(a[..]) && last == lastChangeOn
  {
    if lt(a[i + 1], a[i]) {
      ExchangeDescent(a, lt, i, bound + 1);
      last := i;
    } else {
      MaxAtStep(lt, a[..], i);
      last := lastChangeOn;
    }
  }

  /**
    `swap(arr[i], arr[i + 1])` when arr[i+1] must come before arr[i]: the
    larger of the two moves right, so the element at i+1 is again not before
    anything to its left, and a settled suffix beyond i+1 stays settled.
  */
  method ExchangeDescent<T(!new)>(a: array<T>, lt: (T, T) -> bool, i: int, ghost m: int)
    requires StrictWeakOrder(lt)
    requires 0 <= i && i + 1 < m <= a.Length
    requires MaxAt(lt, a[..], i) && lt(a[i + 1], a[i])
    requires SettledFrom(lt, a[..], m)
    modifies a
    ensures a[..] == Exchanged(old(a[..]), i, i + 1)
    ensures MaxAt(lt, a[..], i + 1)
    ensures SettledFrom(lt, a[..], m)
    ensures a[m..] == old(a[m..])
    ensures multiset(a[..]) == old(multiset(a[..]))
  {
    ghost var s := a[..];
    Swap(a, i, i + 1);
    assert a[..] == Exchanged(s, i, i + 1);
    ExchangeKeepsSettled(lt, s, i, i + 1, m);
    AsymmetricOf(lt, s[i + 1], s[i]);
    assert forall p :: 0 <= p < i ==> a[p] == s[p];
  }

  /** Without an exchange, the element at i+1 is not before anything to its left. */
  lemma MaxAtStep<T(!new)>(lt: (T, T) -> bool, s: seq<T>, i: int)
    requires StrictWeakOrder(lt)
    requires 0 <= i && i + 1 < |s|
    requires MaxAt(lt, s, i) && !lt(s[i + 1], s[i])
    ensures MaxAt(lt, s, i + 1)
  {
    forall p | 0 <= p < i ensures !lt(s[i + 1], s[p]) {
      NotAfterTransitive(lt, s[p], s[i], s[i + 1]);
    }
  }

  /** A pass that has carried the maximum of s[..m] to m-1 settles s[m-1..]. */
  lemma SettleOneMore<T>(lt: (T, T) -> bool, s: seq<T>, m: int)
    requires 1 <= m <= |s|
    requires MaxAt(lt, s, m - 1) && SettledFrom(lt, s, m)
    ensures SettledFrom(lt, s, m - 1)
  {
  }

  /** The state of a pass of OptimizedBubbleSort after the pairs below i. */
  ghost predicate PassState<T>(lt: (T, T) -> bool, s: seq<T>, i: int, last: int, bound: int) {
    && 0 <= last <= i <= bound < |s| && (0 < i ==> last < i)
    && MaxAt(lt, s, i)
    // s[last+1..i+1] is sorted and nothing at or before last comes after it
    && (forall p, q :: last < p < q <= i ==> !lt(s[q], s[p]))
    && (forall p, q :: 0 <= p <= last < q <= i ==> !lt(s[q], s[p]))
  }

  /** The pass ends with everything after the last exchange settled. */
  lemma PassEnd<T>(lt: (T, T) -> bool, s: seq<T>, last: int, bound: int)
    requires PassState(lt, s, bound, last, bound)
    requires SettledFrom(lt, s, bound + 1)
    ensures SettledFrom(lt, s, last + 1)
  {
  }
}

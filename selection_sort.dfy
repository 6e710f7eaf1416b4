/**
  `SelectionSort` and `OptimizedSelectionSort` of src/sort.hpp.
*/
module SelectionSorts {
  import opened Ordering

  /**
    SelectionSort::sort_vector: for each position i, every later element that
    must come before the current arr[i] is swapped into position i.
  */
  method SelectionSort<T(!new)>(a: array<T>, lt: (T, T) -> bool)
    requires StrictWeakOrder(lt)
    modifies a
    ensures Sorted(lt, a[..])
    ensures multiset(a[..]) == old(multiset(a[..]))
    ensures Sorted(lt, old(a[..])) ==> a[..] == old(a[..])
  {
    var n := a.Length;
    ghost var wasSorted := Sorted(lt, a[..]);
    for i := 0 to n
      // a[..i] is sorted and no element of it is after any element of a[i..]
      invariant forall p, q :: 0 <= p < q < i ==> !lt(a[q], a[p])
      invariant forall p, q :: 0 <= p < i <= q < n ==> !lt(a[q], a[p])
      invariant multiset(a[..]) == old(multiset(a[..]))
      invariant wasSorted ==> a[..] == old(a[..])
    {
      SwapSmallerInto(a, lt, i);
    }
  }

  /**
    The inner loop of SelectionSort::sort_vector at position i: scanning j
    upwards, a[j] and a[i] are exchanged whenever a[j] must come before a[i],
    so that afterwards no element of a[i+1..] must come before a[i].
  */
  method SwapSmallerInto<T(!new)>(a: array<T>, lt: (T, T) -> bool, i: int)
    requires StrictWeakOrder(lt)
    requires 0 <= i < a.Length
    requires forall p, q :: 0 <= p < i <= q < a.Length ==> !lt(a[q], a[p])
    modifies a
    ensures forall q :: i < q < a.Length ==> !lt(a[q], a[i])
    ensures forall p, q :: 0 <= p < i <= q < a.Length ==> !lt(a[q], a[p])
    ensures a[..i] == old(a[..i])
    ensures multiset(a[..]) == old(multiset(a[..]))
    ensures Sorted(lt, old(a[..])) ==> a[..] == old(a[..])
  {
    var n := a.Length;
    ghost var wasSorted := Sorted(lt, a[..]);
    for j := i + 1 to n
      invariant forall p, q :: 0 <= p < i <= q < n ==> !lt(a[q], a[p])
      invariant forall q :: i < q < j ==> !lt(a[q], a[i])
      invariant a[..i] == old(a[..i])
      invariant multiset(a[..]) == old(multiset(a[..]))
      invariant wasSorted ==> a[..] == old(a[..])
    {
      assert wasSorted ==> !lt(a[j], a[i]) by {
        if wasSorted {
          assert old(a[..])[j] == a[j] && old(a[..])[i] == a[i];
        }
      }
      if lt(a[j], a[i]) {
        ghost var oldI := a[i];
        Swap(a, i, j);
        forall q | i < q <= j ensures !lt(a[q], a[i]) {
          if q == j {
            AsymmetricOf(lt, a[i], oldI);
          } else if lt(a[q], a[i]) {
            Transitive(lt, a[q], a[i], oldI);
          }
        }
      }
    }
  }

  /**
    The inner scan of OptimizedSelectionSort::sort_vector: the value and the
    position of the FIRST minimum of a[i..] (a later element replaces the
    candidate only when it must come strictly before it).
  */
  method FirstMinimum<T(!new)>(a: array<T>, lt: (T, T) -> bool, i: int) returns (minElement: T, minPos: int)
    requires StrictWeakOrder(lt)
    requires 0 <= i < a.Length
    ensures i <= minPos < a.Length && minElement == a[minPos]
    ensures forall q :: i <= q < a.Length ==> !lt(a[q], minElement)
    ensures forall q :: i <= q < minPos ==> lt(minElement, a[q])
  {
    minElement := a[i];
    minPos := i;
    for j := i + 1 to a.Length
      invariant i <= minPos < j && minElement == a[minPos]
      invariant forall q :: i <= q < j ==> !lt(a[q], minElement)
      invariant forall q :: i <= q < minPos ==> lt(minElement, a[q])
    {
      if lt(a[j], minElement) {
        forall q | i <= q < j ensures !lt(a[q], a[j]) && (q < j ==> lt(a[j], a[q])) {
          if q < minPos {
            Transitive(lt, a[j], minElement, a[q]);
          } else {
            assert NegativelyTransitiveAt(lt, a[j], a[q], minElement);
          }
          AsymmetricOf(lt, a[j], a[q]);
        }
        minElement := a[j];
        minPos := j;
      }
    }
  }

  /**
    OptimizedSelectionSort::sort_vector: one exchange per outer iteration,
    between position i and the first minimum of a[i..].
  */
  method OptimizedSelectionSort<T(!new)>(a: array<T>, lt: (T, T) -> bool)
    requires StrictWeakOrder(lt)
    modifies a
    ensures Sorted(lt, a[..])
    ensures multiset(a[..]) == old(multiset(a[..]))
    ensures Sorted(lt, old(a[..])) ==> a[..] == old(a[..])
  {
    if a.Length == 0 {
      return;
    }
    var n := a.Length;
    ghost var wasSorted := Sorted(lt, a[..]);
    for i := 0 to n - 1
      invariant SelectedPrefix(lt, a[..], i)
      invariant multiset(a[..]) == old(multiset(a[..]))
      invariant wasSorted ==> a[..] == old(a[..])
    {
      var minElement, minPos := FirstMinimum(a, lt, i);
      assert wasSorted ==> !lt(a[minPos], a[i]) by {
        if wasSorted {
          assert old(a[..])[minPos] == a[minPos] && old(a[..])[i] == a[i];
        }
      }
      ghost var s := a[..];
      // arr[min_pos] = arr[i]; arr[i] = min_element; exchanges the two cells
      Swap(a, minPos, i);
      SelectedPrefixStep(lt, s, i, minPos);
      if wasSorted {
        assert minPos == i;
        assert a[..] == s;
      }
    }
    SelectedPrefixSorted(lt, a[..]);
  }

  /** s[..i] is sorted and no element of it is after any element of s[i..]. */
  ghost predicate SelectedPrefix<T>(lt: (T, T) -> bool, s: seq<T>, i: int) {
    && 0 <= i <= |s|
    && (forall p, q :: 0 <= p < q < i ==> !lt(s[q], s[p]))
    && (forall p, q :: 0 <= p < i <= q < |s| ==> !lt(s[q], s[p]))
  }

  /** Exchanging a minimum of s[i..] into position i extends the selected prefix by one. */
  lemma SelectedPrefixStep<T(!new)>(lt: (T, T) -> bool, s: seq<T>, i: int, m: int)
    requires 0 <= i <= m < |s|
    requires SelectedPrefix(lt, s, i)
    requires forall q :: i <= q < |s| ==> !lt(s[q], s[m])
    ensures SelectedPrefix(lt, Exchanged(s, m, i), i + 1)
  {
    var t := Exchanged(s, m, i);
    assert forall k :: 0 <= k < |s| && k != i && k != m ==> t[k] == s[k];
    assert t[i] == s[m] && t[m] == s[i];
  }

  /** A selected prefix that leaves one element is the whole sorted sequence. */
  lemma SelectedPrefixSorted<T>(lt: (T, T) -> bool, s: seq<T>)
    requires s != [] && SelectedPrefix(lt, s, |s| - 1)
    ensures Sorted(lt, s)
  {
  }
}

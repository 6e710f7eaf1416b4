/**
  The earlier revision of the sorts, Sorting/sort.h, whose indices are
  `size_t`. Its selection sorts, optimized bubble sort and merge sort are
  the loops of src/sort.hpp with unsigned counters that never go below 0,
  and are the methods of those modules. The members here are the loops
  where the unsigned type matters: insertion sort and the descending
  counting-sort offsets, which stop only because a counter wraps past 0;
  bubble sort, which computes `arr.size() - 1`; and the empty `ShellSort`.
  Each is proved to compute what its src/sort.hpp counterpart computes.
*/
module LegacySorts {
  import opened Options
  import opened Ordering
  import opened Unsigned
  import SelectionSorts
  import BubbleSorts
  import InsertionSorts
  import MergeSorts
  import CountingSorts
  import Sorters

  /**
    InsertionSort::sortVector with `size_t j`: `j >= 0` always holds, and
    the loop ends through `j < arr.size()` once j wraps from 0 to SIZE_MAX;
    `arr[j + 1]` then wraps back to index 0. The result is the insertion
    sort of src/sort.hpp.
  */
  method LegacyInsertionSort<T(!new)>(a: array<T>, lt: (T, T) -> bool)
    requires IsSize(a.Length)
    modifies a
    ensures a[..] == InsertionSorts.InsertionSorted(lt, old(a[..]))
  {
    var n := a.Length;
    if n == 0 {
      return;
    }
    ghost var s := a[..];
    for i := 1 to n
      invariant a[..i] == InsertionSorts.InsertionSorted(lt, s[..i])
      invariant a[i..] == s[i..]
    {
      LegacyInsertAt(a, lt, i);
      assert s[..i + 1][..i] == s[..i];
    }
    assert s[..n] == s && a[..n] == a[..];
  }

  /**
    One iteration of the outer loop with the unsigned j: the same insertion
    of arr[i] into arr[..i] as InsertionSorts.InsertAt. The ghost `sj` is
    the signed value j stands for; j is SIZE_MAX when sj is -1.
  */
  method LegacyInsertAt<T>(a: array<T>, lt: (T, T) -> bool, i: int)
    requires 1 <= i < a.Length && IsSize(a.Length)
    modifies a
    ensures a[..i + 1] == InsertionSorts.Insert(lt, old(a[..i]), old(a[i]))
    ensures a[i + 1..] == old(a[i + 1..])
  {
    ghost var t := a[..i];
    ghost var a0 := a[..];
    var j := i - 1;
    ghost var sj := i - 1;
    var cur := a[i];
    assert t[..sj + 1] == t && t[sj + 1..] == [];
    assert a[sj + 2..i + 1] == [];
    while j >= 0 && j < a.Length && lt(cur, a[j])
      invariant InsertionSorts.Shifting(a[..], t, a0, i, sj)
      invariant sj >= 0 ==> j == sj
      invariant sj < 0 ==> j == SizeModulus - 1
      invariant InsertionSorts.Insert(lt, t, cur) == InsertionSorts.Insert(lt, t[..sj + 1], cur) + t[sj + 1..]
      decreases sj
    {
      InsertionSorts.ShiftingStep(a[..], t, a0, i, sj);
      InsertionSorts.InsertStep(lt, t, cur, sj);
      var next := SizeInc(j);
      a[next] := a[j];
      j := SizeDec(j);
      sj := sj - 1;
    }
    if sj >= 0 {
      assert a[j] == t[sj] by { assert a[..sj + 1][sj] == t[..sj + 1][sj]; }
    }
    InsertionSorts.InsertStop(lt, t, cur, sj);
    InsertionSorts.ShiftingDone(a[..], t, a0, i, sj, cur);
    var hole := SizeInc(j);
    a[hole] := cur;
  }

  /**
    BubbleSort::sortVector with `size_t` counters: the inner bound
    `arr.size() - 1` is computed only inside the outer loop, which does not
    run for an empty vector, so it never wraps. Sorted and a permutation, as
    BubbleSorts.BubbleSort.
  */
  method LegacyBubbleSort<T(!new)>(a: array<T>, lt: (T, T) -> bool)
    requires StrictWeakOrder(lt) && IsSize(a.Length)
    modifies a
    ensures Sorted(lt, a[..])
    ensures multiset(a[..]) == old(multiset(a[..]))
    ensures Sorted(lt, old(a[..])) ==> a[..] == old(a[..])
  {
    var n := a.Length;
    ghost var wasSorted := Sorted(lt, a[..]);
    for i := 0 to n
      invariant BubbleSorts.SettledFrom(lt, a[..], n - i)
      invariant multiset(a[..]) == old(multiset(a[..]))
      invariant wasSorted ==> a[..] == old(a[..])
    {
      var limit := SizeDec(n);
      BubbleSorts.BubblePass(a, lt, limit, n - i);
    }
  }

  /**
    The offsets loop of CountingSort::sortVector with `size_t i`: in the
    descending direction `i >= 0` always holds, and the loop ends through
    `i < n` once i wraps from 0 to SIZE_MAX. The counters end as the same
    offsets as in CountingSorts.PrefixOffsets.
  */
  method LegacyPrefixOffsets(count: array<int>, ascending: bool, ghost m: multiset<int>)
    requires IsSize(count.Length)
    requires forall v {:trigger count[v]} :: 0 <= v < count.Length ==> count[v] == m[v]
    modifies count
    ensures forall v {:trigger count[v]} :: 0 <= v < count.Length ==>
      count[v] == CountingSorts.Before(m, ascending, count.Length - 1, CountingSorts.Key(ascending, count.Length - 1, v))
  {
    var n := count.Length;
    ghost var k := n - 1;
    var total := 0;
    var i := if ascending then 0 else SizeDec(n);
    ghost var r := 0;
    CountingSorts.OffsetsInitially(count, m, ascending);
    while i < n && (!ascending ==> i >= 0)
      invariant CountingSorts.OffsetsState(count, m, ascending, k, r, total) && IsSize(i)
      invariant r < n ==> i == CountingSorts.Key(ascending, k, r)
      invariant r == n ==> i >= n
      decreases n - r
    {
      total := CountingSorts.AdvanceOffset(count, ascending, m, k, r, i, total);
      i := if ascending then i + 1 else SizeDec(i);
      r := r + 1;
    }
    CountingSorts.OffsetsFinally(count, m, ascending, total);
  }

  /**
    CountingSort::sortVector of the earlier revision, whose bound k is a
    `size_t`: the counting sort of src/sort.hpp.
  */
  method LegacyCountingSort(a: array<int>, lt: (int, int) -> bool, k: int)
    requires 0 <= k && IsSize(k + 1) && CountingSorts.InRange(a[..], k)
    modifies a
    ensures a[..] == CountingSorts.CountingSorted(old(a[..]), lt(0, 1), k)
  {
    var ascending := lt(0, 1);
    var count := CountingSorts.Histogram(a, k);
    LegacyPrefixOffsets(count, ascending, multiset(a[..]));
    var sortedArr := CountingSorts.Place(a, count, ascending, k);
    forall i | 0 <= i < a.Length {
      a[i] := sortedArr[i];
    }
  }

  /** ShellSort::sortVector of the earlier revision: an empty body. */
  method LegacyShellSort<T>(a: array<T>)
    modifies a
    ensures a[..] == old(a[..])
  {
  }

  /**
    The `Sort` base class of the earlier revision with the algorithms it
    defines; it has no Quicksort.
  */
  class LegacySorter<T(0,!new)> {
    const algorithm: Sorters.Algorithm
    const lt: (T, T) -> bool
    var sizeOfLastSort: nat

    constructor(algorithm: Sorters.Algorithm, lt: (T, T) -> bool)
      requires algorithm != Sorters.Quick
      ensures this.algorithm == algorithm && this.lt == lt
      ensures sizeOfLastSort == 0 && Report() == None
    {
      this.algorithm := algorithm;
      this.lt := lt;
      sizeOfLastSort := 0;
    }

    /** operator<<: nothing is written while the last sort had no elements. */
    function Report(): (r: Option<Sorters.RunReport>)
      reads this
      ensures r == None <==> sizeOfLastSort == 0
      ensures r != None ==> r.value.name == Sorters.AlgorithmName(algorithm)
    {
      Sorters.ReportFor(sizeOfLastSort, Sorters.AlgorithmName(algorithm))
    }

    /**
      Sort::sort: runs sortVector and records the size. Every algorithm but
      the Shellsort stub leaves a sorted permutation, the stable ones the
      stable sort; the stub leaves the vector as it is, and so does every
      algorithm when the vector is already sorted.
    */
    method Sort(a: array<T>)
      requires algorithm != Sorters.Quick && StrictWeakOrder(lt) && IsSize(a.Length)
      modifies this, a
      ensures sizeOfLastSort == a.Length
      ensures multiset(a[..]) == old(multiset(a[..]))
      ensures algorithm != Sorters.Shell ==> Sorted(lt, a[..])
      ensures algorithm == Sorters.Shell ==> a[..] == old(a[..])
      ensures algorithm == Sorters.Insertion || algorithm == Sorters.Merge ==>
        a[..] == InsertionSorts.InsertionSorted(lt, old(a[..]))
      ensures Sorted(lt, old(a[..])) ==> a[..] == old(a[..])
      ensures Report() == None <==> a.Length == 0
    {
      match algorithm {
        case Selection => SelectionSorts.SelectionSort(a, lt);
        case OptimizedSelection => SelectionSorts.OptimizedSelectionSort(a, lt);
        case Bubble => LegacyBubbleSort(a, lt);
        case OptimizedBubble => BubbleSorts.OptimizedBubbleSort(a, lt);
        case Insertion =>
          LegacyInsertionSort(a, lt);
          InsertionSorts.InsertionSortedCorrect(lt, old(a[..]));
          if Sorted(lt, old(a[..])) {
            InsertionSorts.InsertionSortedOfSorted(lt, old(a[..]));
          }
        case Merge =>
          MergeSorts.MergeSort(a, lt);
          MergeSorts.MergeSortedIsInsertionSorted(lt, old(a[..]));
          InsertionSorts.InsertionSortedCorrect(lt, old(a[..]));
          if Sorted(lt, old(a[..])) {
            InsertionSorts.InsertionSortedOfSorted(lt, old(a[..]));
          }
        case Shell => LegacyShellSort(a);
        case Quick => assert false;
      }
      sizeOfLastSort := a.Length;
    }
  }

  /** `CountingSort` of the earlier revision, built from a `size_t` limit. */
  class LegacyCountingSorter {
    const k: nat
    const lt: (int, int) -> bool
    var sizeOfLastSort: nat

    constructor(limit: nat, lt: (int, int) -> bool)
      ensures k == limit && this.lt == lt
      ensures sizeOfLastSort == 0 && Report() == None
    {
      k := limit;
      this.lt := lt;
      sizeOfLastSort := 0;
    }

    function Report(): (r: Option<Sorters.RunReport>)
      reads this
      ensures r == None <==> sizeOfLastSort == 0
      ensures r != None ==> r.value.name == Sorters.CountingSortName
    {
      Sorters.ReportFor(sizeOfLastSort, Sorters.CountingSortName)
    }

    /** Sort::sort with the earlier CountingSort::sortVector. */
    method Sort(a: array<int>)
      requires IsSize(k + 1) && CountingSorts.InRange(a[..], k)
      modifies this, a
      ensures sizeOfLastSort == a.Length
      ensures a[..] == CountingSorts.CountingSorted(old(a[..]), lt(0, 1), k)
      ensures multiset(a[..]) == old(multiset(a[..]))
      ensures CountingSorts.IntOrder(lt) && Sorted(lt, old(a[..])) ==> a[..] == old(a[..])
      ensures Report() == None <==> a.Length == 0
    {
      if CountingSorts.IntOrder(lt) && Sorted(lt, a[..]) {
        CountingSorts.CountingSortedOfSorted(a[..], lt, k);
      }
      LegacyCountingSort(a, lt, k);
      CountingSorts.CountingSortedPermutation(old(a[..]), lt(0, 1), k);
      sizeOfLastSort := a.Length;
    }
  }
}

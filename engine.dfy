/**
  The `Sort` base class of src/sort.hpp and the algorithm classes derived
  from it, as seen by a caller: `sort(arr)` runs the algorithm's
  `sort_vector` and records the size of the vector, and the report written
  by `operator<<` (size, duration and name) appears only after a sort of a
  non-empty vector.

  The generic algorithm classes are one class here, `Sorter`, tagged with
  the algorithm; the strategy fields of `ShellSort` and `QuickSort` are its
  fields `gapStrategy` and `pivotChooser`, replaced by the setters.
  `CountingSort`, which sorts only integers and carries the bound k, is the
  class `CountingSorter`.
*/
module Sorters {
  import opened Options
  import opened Ordering
  import SelectionSorts
  import BubbleSorts
  import InsertionSorts
  import MergeSorts
  import CountingSorts
  import ShellSorts
  import QuickSorts
  import GapStrategies
  import PivotStrategies

  datatype Algorithm =
    | Selection | OptimizedSelection | Bubble | OptimizedBubble
    | Insertion | Merge | Shell | Quick

  /** get_algorithm_name: the name each class reports. */
  function AlgorithmName(algorithm: Algorithm): string {
    match algorithm
    case Selection => "Selection sort"
    case OptimizedSelection => "Optimized selection sort"
    case Bubble => "Bubble sort"
    case OptimizedBubble => "Optimized bubble sort"
    case Insertion => "Insertion sort"
    case Merge => "Mergesort"
    case Shell => "Shellsort"
    case Quick => "Quicksort"
  }

  const CountingSortName: string := "Counting sort"

  /** Every report names its algorithm unambiguously. */
  lemma AlgorithmNamesDistinct(x: Algorithm, y: Algorithm)
    ensures AlgorithmName(x) == AlgorithmName(y) ==> x == y
    ensures AlgorithmName(x) != CountingSortName
  {
  }

  /** What `operator<<` writes, apart from the duration: the size and the name. */
  datatype RunReport = RunReport(size: nat, name: string)

  /**
    The report for a last sort of `size` elements: nothing when the size is
    0, the size and the name otherwise.
  */
  function ReportFor(size: nat, name: string): (r: Option<RunReport>)
    ensures r == None <==> size == 0
    ensures r != None ==> r.value.size == size && r.value.name == name
  {
    if size > 0 then Some(RunReport(size, name)) else None
  }

  /** `GapStrategy`'s promise the sort relies on: no gap is negative. */
  ghost predicate NonNegativeGaps(gapStrategy: nat -> seq<int>) {
    forall n: nat, k :: 0 <= k < |gapStrategy(n)| ==> gapStrategy(n)[k] >= 0
  }

  /** The gap sequence ends with 1, which makes the last pass an insertion sort. */
  predicate EndsWithOne(gaps: seq<int>) {
    gaps != [] && gaps[|gaps| - 1] == 1
  }

  /** `MiddlePivotStrategy`, as the position the pivot is read from. */
  function MiddleChooser<T>(s: seq<T>, lo: int, hi: int): (p: int)
    ensures 0 <= lo < hi < |s| ==> lo <= p < hi
  {
    PivotStrategies.MiddleIndex(lo, hi)
  }

  /** The default strategies are ones the sorts accept. */
  lemma DefaultStrategiesValid<T(!new)>()
    ensures NonNegativeGaps(GapStrategies.KnuthGaps)
    ensures forall n: nat :: EndsWithOne(GapStrategies.KnuthGaps(n))
    ensures QuickSorts.ValidChooser(MiddleChooser<T>)
  {
  }

  class Sorter<T(0,!new)> {
    const algorithm: Algorithm
    /** The `Compare` template argument. */
    const lt: (T, T) -> bool
    var sizeOfLastSort: nat
    var gapStrategy: nat -> seq<int>
    var pivotChooser: (seq<T>, int, int) -> int

    ghost predicate Valid()
      reads this
    {
      NonNegativeGaps(gapStrategy) && QuickSorts.ValidChooser(pivotChooser)
    }

    /** A sorter that has sorted nothing yet, with the Knuth gaps and the middle pivot. */
    constructor(algorithm: Algorithm, lt: (T, T) -> bool)
      ensures this.algorithm == algorithm && this.lt == lt
      ensures sizeOfLastSort == 0 && Report() == None
      ensures gapStrategy == GapStrategies.KnuthGaps && pivotChooser == MiddleChooser<T>
      ensures Valid()
    {
      this.algorithm := algorithm;
      this.lt := lt;
      sizeOfLastSort := 0;
      gapStrategy := GapStrategies.KnuthGaps;
      pivotChooser := MiddleChooser<T>;
      DefaultStrategiesValid<T>();
    }

    /** operator<<: the report of the last sort, if there is one to write. */
    function Report(): (r: Option<RunReport>)
      reads this
      ensures r == None <==> sizeOfLastSort == 0
      ensures r != None ==> r.value.name == AlgorithmName(algorithm)
    {
      ReportFor(sizeOfLastSort, AlgorithmName(algorithm))
    }

    /**
      Sort::sort: runs the algorithm and records the size. The vector ends a
      permutation of itself, sorted (for Shellsort when the gaps end with
      1), and for the two stable algorithms equal to the stable sort of the
      input. A sorted vector is left as it is by every algorithm but
      Quicksort, and by Quicksort too when equivalent elements are equal;
      so is a vector of at most one element. Nothing but the recorded size
      changes in the sorter.
    */
    method Sort(a: array<T>)
      requires Valid() && StrictWeakOrder(lt)
      modifies this, a
      ensures Valid()
      ensures sizeOfLastSort == a.Length
      ensures gapStrategy == old(gapStrategy) && pivotChooser == old(pivotChooser)
      ensures multiset(a[..]) == old(multiset(a[..]))
      ensures algorithm != Shell || EndsWithOne(gapStrategy(a.Length)) ==> Sorted(lt, a[..])
      ensures algorithm == Insertion || algorithm == Merge ==>
        a[..] == InsertionSorts.InsertionSorted(lt, old(a[..]))
      ensures algorithm != Quick && Sorted(lt, old(a[..])) ==> a[..] == old(a[..])
      ensures EquivalentMeansEqual(lt) && Sorted(lt, old(a[..])) ==> a[..] == old(a[..])
      ensures a.Length <= 1 ==> a[..] == old(a[..])
      ensures Report() == None <==> a.Length == 0
    {
      match algorithm {
        case Selection => SelectionSorts.SelectionSort(a, lt);
        case OptimizedSelection => SelectionSorts.OptimizedSelectionSort(a, lt);
        case Bubble => BubbleSorts.BubbleSort(a, lt);
        case OptimizedBubble => BubbleSorts.OptimizedBubbleSort(a, lt);
        case Insertion =>
          InsertionSorts.InsertionSort(a, lt);
          InsertionSorts.InsertionSortedCorrect(lt, old(a[..]));
          if Sorted(lt, old(a[..])) {
            InsertionSorts.InsertionSortedOfSorted(lt, old(a[..]));
          }
        case Merge =>
          MergeSorts.MergeSort(a, lt);
          MergeSorts.MergeSortedIsInsertionSorted(lt, old(a[..]));
          InsertionSorts.InsertionSortedCorrect(lt, old(a[..]));
          if Sorted(lt, old(a[..])) {
            InsertionSorts.InsertionSortedOfSorted(lt, old(a[..]));
          }
        case Shell => ShellSorts.ShellSort(a, lt, gapStrategy);
        case Quick => QuickSorts.QuickSort(a, lt, pivotChooser);
      }
      if a.Length <= 1 {
        ShortPermutationUnchanged(old(a[..]), a[..]);
      }
      sizeOfLastSort := a.Length;
    }

    /** ShellSort::set_gap_strategy. */
    method SetGapStrategy(gapStrategy: nat -> seq<int>)
      requires Valid() && NonNegativeGaps(gapStrategy)
      modifies this
      ensures Valid()
      ensures this.gapStrategy == gapStrategy
      ensures sizeOfLastSort == old(sizeOfLastSort) && pivotChooser == old(pivotChooser)
    {
      this.gapStrategy := gapStrategy;
    }

    /** QuickSort::set_pivot_strategy. */
    method SetPivotStrategy(pivotChooser: (seq<T>, int, int) -> int)
      requires Valid() && QuickSorts.ValidChooser(pivotChooser)
      modifies this
      ensures Valid()
      ensures this.pivotChooser == pivotChooser
      ensures sizeOfLastSort == old(sizeOfLastSort) && gapStrategy == old(gapStrategy)
    {
      this.pivotChooser := pivotChooser;
    }
  }

  /** `CountingSort<Compare>`: sorts integers in [0, k]. */
  class CountingSorter {
    /** The bound given to the constructor. */
    const k: int
    const lt: (int, int) -> bool
    var sizeOfLastSort: nat

    constructor(limit: int, lt: (int, int) -> bool)
      ensures k == limit && this.lt == lt
      ensures sizeOfLastSort == 0 && Report() == None
    {
      k := limit;
      this.lt := lt;
      sizeOfLastSort := 0;
    }

    function Report(): (r: Option<RunReport>)
      reads this
      ensures r == None <==> sizeOfLastSort == 0
      ensures r != None ==> r.value.name == CountingSortName
    {
      ReportFor(sizeOfLastSort, CountingSortName)
    }

    /**
      Sort::sort with CountingSort::sort_vector: the vector becomes its
      counting sort in the direction comp(0, 1) picks, a permutation of the
      input, sorted under `less<int>` and `greater<int>`, and under those
      two left as it is when already sorted.
    */
    method Sort(a: array<int>)
      requires -1 <= k && CountingSorts.InRange(a[..], k)
      modifies this, a
      ensures sizeOfLastSort == a.Length
      ensures a[..] == CountingSorts.CountingSorted(old(a[..]), lt(0, 1), k)
      ensures multiset(a[..]) == old(multiset(a[..]))
      ensures (forall x, y :: lt(x, y) == (x < y)) ==> Sorted(lt, a[..])
      ensures (forall x, y :: lt(x, y) == (x > y)) ==> Sorted(lt, a[..])
      ensures CountingSorts.IntOrder(lt) && Sorted(lt, old(a[..])) ==> a[..] == old(a[..])
      ensures Report() == None <==> a.Length == 0
    {
      CountingSorts.CountingSort(a, lt, k);
      CountingSorts.CountingSortedPermutation(old(a[..]), lt(0, 1), k);
      if forall x, y :: lt(x, y) == (x < y) {
        CountingSorts.CountingSortedSortedLess(old(a[..]), lt, k);
      }
      if forall x, y :: lt(x, y) == (x > y) {
        CountingSorts.CountingSortedSortedGreater(old(a[..]), lt, k);
      }
      sizeOfLastSort := a.Length;
    }
  }
}

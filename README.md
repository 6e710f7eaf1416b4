# Sorting algorithms with pluggable strategies, in Dafny

This project models a small C++ library of in-place sorting algorithms.
Every algorithm sorts a vector under a `Compare` object. Each is a class
derived from a `Sort` base class, which records the size of the last sort
and reports it with the algorithm's name. Shellsort takes its gaps from a
gap strategy; the Knuth strategy is the default. Quicksort takes its pivot
from a pivot strategy; the middle element is the default. An earlier
revision of the library (under `Sorting/`) has the same algorithms written
with `size_t` indices, plus a Shellsort stub.

The model has these parts:

- A comparator is a function `lt: (T, T) -> bool` that satisfies
  `StrictWeakOrder`, the C++ requirement on `Compare`. Nothing fixes it to
  `<`, so `greater<T>` is covered as well.
- Every `sort_vector` is an imperative method over an `array<T>`, with its
  loops and their invariants:
  - selection and optimized selection sort (`SelectionSorts`);
  - bubble and optimized bubble sort (`BubbleSorts`);
  - insertion sort (`InsertionSorts`);
  - top-down merge sort with its half-size buffer (`MergeSorts`);
  - counting sort (`CountingSorts`);
  - Shellsort (`ShellSorts`);
  - Quicksort with its two-index partition (`QuickSorts`).
- Insertion and merge sort are each proved equal to a functional
  specification. Those specifications are then proved sorted, a
  permutation and stable, and equal to each other.
- The `Sort` base class with its derived classes is the class
  `Sorters.Sorter`, and `Sorters.CountingSorter` covers counting sort.
  - The strategies are function-valued fields, replaced by the setters.
    In C++ only `ShellSort` has `set_gap_strategy` and only `QuickSort` has
    `set_pivot_strategy`. Here both setters exist on every `Sorter`, and
    each strategy matters only to the algorithm that uses it.
  - The report is an `Option<RunReport>` that is `None` exactly when the
    last sort had no elements.
- The Knuth gap strategy is in `GapStrategies` and the middle pivot in
  `PivotStrategies`.
- The `size_t` revision is in `LegacySorts` and `Unsigned`.

## Model

| member | source | states |
|---|---|---|
| Ordering.AdjacentSortedIffSorted | src/sort.hpp:414-424 | under a strict weak order, "no adjacent pair out of order", which is what a pass of the optimized bubble sort without an exchange establishes, holds exactly when no later element must come before any earlier one |
| Ordering.SortedStableUnique | src/sort.hpp:429-446 | two sorted, stable rearrangements of the same input are equal, so any two stable sorts agree |
| Ordering.SortedPermutationUnique | src/sort.hpp:549-582 | when equivalent elements are equal, two sorted permutations of one input are equal, so a sort leaves a sorted input as it is |
| Ordering.Swap | src/sort.hpp:365-371 | `swap(arr[i], arr[j])` exchanges the two cells, changes nothing else and keeps the multiset |
| SelectionSorts.SelectionSort | src/sort.hpp:359-372 | the vector ends sorted and a permutation of the input; an already sorted input is left unchanged |
| SelectionSorts.SwapSmallerInto | src/sort.hpp:365-370 | after the inner loop for i, nothing in arr[i+1..] must come before arr[i], the prefix is untouched, and the prefix-before-suffix order of the earlier iterations is kept |
| SelectionSorts.FirstMinimum | src/sort.hpp:381-391 | the inner loop finds the first position of a minimum of arr[i..]: nothing after i is before it, and everything between i and it is strictly after it |
| SelectionSorts.OptimizedSelectionSort | src/sort.hpp:374-395 | sorted permutation; an empty vector returns at once; a sorted input is left unchanged |
| BubbleSorts.BubbleSort | src/sort.hpp:397-407 | sorted permutation after n full passes; a sorted input is left unchanged |
| BubbleSorts.BubblePass | src/sort.hpp:401-405 | one pass moves a largest element of arr[..m] to position m-1, so the settled suffix grows by one and nothing at or after m moves |
| BubbleSorts.OptimizedBubbleSort | src/sort.hpp:409-427 | sorted permutation; the do-while ends because `last_change_on` decreases from pass to pass |
| BubbleSorts.BoundedPass | src/sort.hpp:414-424 | a pass up to `bound` returns the last exchange index, which is below `bound` whenever `bound > 0`, and everything after that index is sorted and not before anything earlier |
| InsertionSorts.InsertionSort | src/sort.hpp:429-446 | the vector becomes `InsertionSorted` of the input |
| InsertionSorts.InsertAt | src/sort.hpp:434-444 | one outer iteration inserts arr[i] into arr[..i] exactly as `Insert` does (shifting only while `comp(cur, arr[j])`), and leaves arr[i+1..] untouched |
| InsertionSorts.InsertionSortedCorrect | src/sort.hpp:429-446 | the insertion-sort specification is sorted, a permutation, and stable: the elements of each equivalence class keep their order |
| InsertionSorts.InsertSorted | src/sort.hpp:438-444 | inserting into a sorted prefix keeps it sorted |
| InsertionSorts.InsertStable | src/sort.hpp:438-441 | an insertion keeps the order within every class of equivalent elements, because `cur` only passes elements it is strictly before |
| InsertionSorts.InsertionSortedOfSorted | src/sort.hpp:429-446 | a sorted input is its own insertion sort |
| MergeSorts.MergeSort | src/sort.hpp:461-467 | with one buffer of n/2+1 cells, the vector becomes `MergeSorted` of the input; an empty vector returns at once |
| MergeSorts.MergeSortRange | src/sort.hpp:469-476 | `merge_sort(lo, hi)` replaces arr[lo..hi] by its merge sort and changes nothing outside it, given a buffer longer than (hi-lo)/2 |
| MergeSorts.MergeRuns | src/sort.hpp:478-501 | `merge` replaces arr[lo..hi] by the merge of its two sorted runs, taking the left element on a tie, and changes nothing outside [lo, hi] |
| MergeSorts.CopyLeftRun | src/sort.hpp:481-485 | the left run arr[lo..mid] is copied into temp[0..mid-lo], which fits the buffer |
| MergeSorts.MergeSortedSorted | src/sort.hpp:469-501 | the merge-sort specification is sorted |
| MergeSorts.MergeSortedPermutation | src/sort.hpp:469-501 | the merge-sort specification is a permutation of its input |
| MergeSorts.MergeSortedStable | src/sort.hpp:469-501 | the merge-sort specification is stable |
| MergeSorts.MergeStable | src/sort.hpp:493-496 | merging keeps each equivalence class of the left run before that of the right run |
| MergeSorts.MergeSortedIsInsertionSorted | src/sort.hpp:429-501 | merge sort and insertion sort give the same result on every input |
| CountingSorts.CountingSort | src/sort.hpp:503-527 | with every element in [0, k], the vector becomes `CountingSorted` of the input in the direction `comp(0, 1)` selects; under `less<int>` or `greater<int>` a sorted input is left unchanged |
| CountingSorts.Histogram | src/sort.hpp:508-511 | count[v] becomes the number of occurrences of v, for every v in [0, k] |
| CountingSorts.PrefixOffsets | src/sort.hpp:513-518 | each counter becomes the number of elements of lower rank, visiting values upwards when ascending and downwards otherwise |
| CountingSorts.Place | src/sort.hpp:520-524 | every element goes to its value's next free offset, which yields `CountingSorted` |
| CountingSorts.CountingSortedPermutation | src/sort.hpp:503-527 | the counting-sort result is a permutation of the input |
| CountingSorts.CountingSortedOrdered | src/sort.hpp:513-524 | the result lists values in increasing rank, that is increasing when ascending and decreasing otherwise |
| CountingSorts.CountingSortedSortedLess | src/sort.hpp:503-527 | under `less<int>` the result is sorted |
| CountingSorts.CountingSortedSortedGreater | src/sort.hpp:503-527 | under `greater<int>` the result is sorted |
| CountingSorts.CountingSortedOfSorted | src/sort.hpp:503-527 | under `less<int>` or `greater<int>`, an input already sorted is its own counting sort |
| ShellSorts.ShellSort | src/sort.hpp:529-547 | a permutation, g-sorted for the last gap g, hence sorted when the last gap is 1; a sorted input or an empty gap list leaves the vector unchanged |
| ShellSorts.GappedPass | src/sort.hpp:535-545 | the pass for one gap leaves the vector gap-sorted and a permutation; a gap at least the size changes nothing |
| ShellSorts.InsertGapped | src/sort.hpp:537-544 | one gapped insertion extends the gap-sorted prefix by one position, touches nothing after i, and changes nothing when arr[i] was already in order |
| ShellSorts.GapOneSorted | src/sort.hpp:535-545 | being 1-sorted is the same as being sorted |
| QuickSorts.QuickSort | src/sort.hpp:549-552 | with a chooser that returns an index in [lo, hi), the vector ends sorted and a permutation of the input; a sorted input is left unchanged when equivalent elements are equal, while two equivalent elements alone are exchanged |
| QuickSorts.QuickSortRange | src/sort.hpp:554-563 | `quick_sort(lo, hi)` sorts arr[lo..hi] and keeps its multiset, without touching anything outside; ranges of at most one element return at once; a range of two equivalent elements is exchanged |
| QuickSorts.Partition | src/sort.hpp:565-582 | with the pivot taken from any position p of arr[lo..hi], the returned idx satisfies lo < idx <= hi + 1, and idx <= hi when p < hi; nothing in [lo, idx) is after the pivot and nothing in [idx, hi] is before it; only [lo, hi] is rearranged; a pivot at hi with everything else before it gives hi + 1; two elements equivalent to the pivot are exchanged |
| QuickSorts.SortedPairReordered | src/sort.hpp:549-582 | Quicksort with the middle pivot turns the sorted input [(1, 0), (1, 1)], compared by first component, into [(1, 1), (1, 0)] |
| QuickSorts.PivotAtEndRepeatsRange | src/sort.hpp:554-582 | with the pivot read from arr[hi], partition of [1, 2] returns 2, so `quick_sort(0, 1)` recurses on `quick_sort(0, 1)` again |
| QuickSorts.ScanUp | src/sort.hpp:569-571 | the left scan stops inside the range, at the first element not before the pivot |
| QuickSorts.ScanDown | src/sort.hpp:572-574 | the right scan stops inside the range, at the last element not after the pivot |
| QuickSorts.QuickSortStep | src/sort.hpp:558-562 | a partition followed by sorting both parts sorts the whole range |
| PivotStrategies.MiddleIndex | src/pivot-strategy/middle_pivot_strategy.hpp:18-20 | for lo <= hi the index lies in [lo, hi], is below hi when lo < hi, is the lower middle, and is lo when lo == hi |
| PivotStrategies.MiddlePivot | src/pivot-strategy/middle_pivot_strategy.hpp:15-20 | the pivot is an element of arr[lo..hi], read without changing the array, and is arr[lo] when lo == hi |
| GapStrategies.Log3 | src/gap-strategy/knuth_gap_strategy.cpp:4 | the exact floor of log3: 3^e <= x < 3^(e+1) |
| GapStrategies.KnuthSequence | src/gap-strategy/knuth_gap_strategy.cpp:5-11 | the k gaps, largest first, where gap i is (3^(k-i) - 1)/2 |
| GapStrategies.KnuthSequenceShape | src/gap-strategy/knuth_gap_strategy.cpp:7-11 | the last gap is 1, `ans[i] = 3*ans[i+1] + 1`, the gaps strictly decrease, all are at least 1, and ans[i] = (3^(k-i) - 1)/2 |
| GapStrategies.KnuthNumberClosedForm | src/gap-strategy/knuth_gap_strategy.hpp:16-17 | A(e) = 3 A(e-1) + 1 has the closed form (3^e - 1)/2 |
| GapStrategies.LargestGapBound | src/gap-strategy/knuth_gap_strategy.cpp:4-11 | for n >= 3 the largest gap is the largest Knuth number not above n/3 (floor) |
| GapStrategies.CommentDiffersAtTen | src/gap-strategy/knuth_gap_strategy.hpp:18-21 | for n = 10 the code returns [1], while the documented ceil(n/3) formula gives [4, 1] |
| GapStrategies.AsWrittenFailsExactlyBelowThree | src/gap-strategy/knuth_gap_strategy.cpp:4-8 | k = 0, and with it the write to `ans[k-1]` outside the vector, happens exactly when n < 3 |
| GapStrategies.FillGaps | src/gap-strategy/knuth_gap_strategy.cpp:5-11 | the fill loop over `ans(k)` produces `KnuthSequence(k)` |
| GapStrategies.GetGapsAsWritten | src/gap-strategy/knuth_gap_strategy.cpp:3-14 | `get_gaps` as written fails (None) exactly for n < 3, and otherwise returns the k Knuth numbers, largest first |
| GapStrategies.KnuthGaps | src/gap-strategy/knuth_gap_strategy.cpp:3-14 | the corrected strategy: non-empty for every n, ending in 1, every gap at least 1, strictly decreasing as the `GapStrategy` interface promises |
| GapStrategies.GetGaps | src/gap-strategy/knuth_gap_strategy.cpp:3-14 | the corrected method returns `KnuthGaps(n)`, which from n = 3 on is what the code returns |
| GapStrategies.CorrectedAgreesFromThree | src/gap-strategy/knuth_gap_strategy.cpp:3-14 | for n >= 3 the corrected strategy and the code agree |
| GapStrategies.LegacyGetGaps | Sorting/knuth_gap_strategy.cpp:4-14 | the `size_t` version returns what `get_gaps` returns for every n, including the out-of-range write for n < 3 (index k-1 wraps to SIZE_MAX) |
| Sorters.AlgorithmNamesDistinct | src/sort.hpp:323-354 | every algorithm reports a different name, none of them "Counting sort" |
| Sorters.ReportFor | src/sort.hpp:59-67 | the report is absent exactly when the recorded size is 0, and otherwise carries that size and the name |
| Sorters.Sorter.constructor | src/sort.hpp:46 | a new sorter has recorded size 0, so no report, and uses the corrected Knuth gaps (not `get_gaps` as written, which fails below 3 elements) and the middle pivot |
| Sorters.Sorter.Report | src/sort.hpp:59-67 | no report after an empty sort or before any sort; otherwise the algorithm's name |
| Sorters.Sorter.Sort | src/sort.hpp:50-55 | `sort()` runs the algorithm and sets `size_of_last_sort` to the size, leaving the strategies as they were; the vector ends a permutation, sorted (for Shellsort when the gaps end in 1), equal to the stable sort for insertion and merge sort, and unchanged when it has at most one element; a sorted input is left unchanged by every algorithm except Quicksort, and by Quicksort when equivalent elements are equal |
| Sorters.Sorter.SetGapStrategy | src/sort.hpp:268-270 | replaces the gap strategy and nothing else |
| Sorters.Sorter.SetPivotStrategy | src/sort.hpp:296-298 | replaces the pivot strategy and nothing else |
| Sorters.DefaultStrategiesValid | src/sort.hpp:256-282 | the default Knuth gaps are never negative and always end in 1, and the default middle pivot satisfies what partition needs |
| Sorters.CountingSorter.Sort | src/sort.hpp:226-248 | with every element in [0, k], the vector becomes its counting sort, a permutation, sorted under `less<int>` and `greater<int>`, and unchanged under those two when already sorted; the size is recorded |
| LegacySorts.LegacyInsertionSort | Sorting/sort.h:372-387 | the `size_t` insertion sort gives exactly the `src/` insertion sort's result |
| LegacySorts.LegacyInsertAt | Sorting/sort.h:376-386 | `j >= 0` always holds; the loop stops through `j < arr.size()` once j wraps to SIZE_MAX, and `arr[j+1]` then wraps to index 0, giving the same insertion |
| LegacySorts.LegacyBubbleSort | Sorting/sort.h:341-351 | sorted permutation; `arr.size() - 1` is computed only inside the outer loop, so it never wraps |
| LegacySorts.LegacyPrefixOffsets | Sorting/sort.h:443-448 | the descending loop with `size_t i` ends because `i < n` fails once i wraps past 0, and it leaves the same offsets as the `src/` loop |
| LegacySorts.LegacyCountingSort | Sorting/sort.h:433-457 | the `size_t` counting sort gives exactly the `src/` counting sort's result |
| LegacySorts.LegacyShellSort | Sorting/sort.h:459-464 | the empty Shellsort stub leaves the vector unchanged |
| LegacySorts.LegacySorter.Sort | Sorting/sort.h:43-48 | `sort()` records the size; every algorithm except the Shellsort stub leaves a sorted permutation, and the stub leaves the vector as it was; a sorted input is left unchanged |
| LegacySorts.LegacySorter.Report | Sorting/sort.h:52-59 | the report is suppressed exactly when the recorded size is 0 |
| LegacySorts.LegacyCountingSorter.Sort | Sorting/sort.h:433-457 | the counting sort of the earlier revision, with its size recorded; under `less<int>` or `greater<int>` a sorted input is left unchanged |

## Left out

- Wall-clock timing (`start`, `end`, `duration_cast`) and the text that `operator<<` writes. Only the recorded size and the condition for reporting are modelled.
- `STLSort`, `HeapSort` and `BogoSort` are not modelled. The first two only call the standard library. The third shuffles at random and has no termination bound.
- The drivers `src/main.cpp` and `Sorting/main.cpp` are not modelled. They do console I/O and random shuffling.
- The floating-point `log` in the gap count is replaced by an exact integer floor of log base 3. Rounding of `log(x)/log(3)` in `double` is not modelled.
- Fixed-width overflow is not modelled. This covers `int` indices on vectors longer than `INT_MAX`, `total` in counting sort, and `3*ans[i+1] + 1`. The integers are unbounded.
- Sorters.Sorter.Sort: Shellsort is proved sorted only when the strategy's last gap is 1. The Knuth strategy guarantees that for every size once corrected. A user strategy may not.
- Sorters.Sorter.SetGapStrategy: a strategy must not return negative gaps. The C++ interface promises gaps in decreasing order, which the model does not need.
- Sorters.Sorter.SetPivotStrategy: a pivot strategy is modelled as the index it reads the pivot from. The index must lie in [lo, hi) when lo < hi, which the middle pivot satisfies. A strategy that returns any element of the range (such as `arr[hi]`) is not covered. `Partition` takes a pivot from anywhere in [lo, hi], but with the pivot at hi it can return hi + 1. The recursion on `[lo, idx - 1]` then repeats the same range; see Findings.
- Sorters.CountingSorter.Sort: a bound k below -1 is excluded. The C++ code then asks for a vector of negative size. The earlier revision takes k as `size_t`.
- `shared_ptr` ownership of the strategies and the `Compare` template parameter are not modelled. They are a function-valued field and a comparator field.
- The earlier revision's selection sort (`Sorting/sort.h:304-316`), optimized selection sort (`Sorting/sort.h:318-339`), optimized bubble sort (`Sorting/sort.h:353-370`) and merge sort (`Sorting/sort.h:402-431`) are modelled by the `src/sort.hpp` methods and not repeated.
  - They are the same loops with unsigned counters that cannot go below 0.
  - The optimized sorts and merge sort return at once on an empty vector, so `n - 1` and `arr.size() - 1` never wrap.
  - The earlier `getPivot` (`Sorting/middle_pivot_strategy.h:14-16`) is the same expression as `PivotStrategies.MiddlePivot`.
- Compile defects of the earlier revision are not modelled:
  - `SelectionSort` declares a member of an undeclared type `GapsStrategy`.
  - `getGaps` returns `vector<size_t>` where `Sorting/gap_strategy.hpp` declares `vector<int>`.
- `src/gap-strategy/knuth_gap_strategy.hpp` declares `getGaps`, while the `.cpp` defines `get_gaps`, which is the name `ShellSort` calls. The model follows the `.cpp`.
- `src/gap-strategy/gap_strategy.hpp` is not part of this model.
- The header comment of the Knuth strategy bounds the largest gap by ceil(n/3). The code uses floor(n/3), and the model follows the code. `CommentDiffersAtTen` shows an input where the two differ.

## Findings

| source | as written | input that shows it | evidently intended | confidence | as-written member | corrected member |
|---|---|---|---|---|---|---|
| src/gap-strategy/knuth_gap_strategy.cpp:4-8 | for n < 3 the gap count k is 0, and `ans[k - 1] = 1` writes outside the empty vector (the earlier `size_t` revision writes at index SIZE_MAX) | n = 0, 1 or 2, for example Shellsort on a vector of 2 elements | at least one gap, so that the last gap is 1 for every size | not executed | GapStrategies.GetGapsAsWritten | GapStrategies.GetGaps |
| src/sort.hpp:554-582 | `quick_sort` recurses on [lo, idx - 1] and [idx, hi], and `partition` returns hi + 1 when the pivot is arr[hi] and everything else is before it. The `PivotStrategy` interface allows any element of [lo, hi] | a strategy returning arr[hi], on [1, 2] under `less<int>`: idx = 2, and `quick_sort(0, 1)` calls `quick_sort(0, 1)` without end | a pivot strategy that reads below hi on ranges of two or more elements, under which the recursion terminates and sorts | not executed | QuickSorts.PivotAtEndRepeatsRange | QuickSorts.QuickSortRange |
| src/sort.hpp:565-582 | `partition` exchanges elements equivalent to the pivot, so Quicksort does not leave every sorted input as it is | [(1, 0), (1, 1)] compared by first component, middle pivot: the result is [(1, 1), (1, 0)] | a sorted input is left unchanged, which holds when equivalent elements are equal | not executed | QuickSorts.SortedPairReordered | QuickSorts.QuickSort |

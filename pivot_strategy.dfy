/**
  `MiddlePivotStrategy::get_pivot` (src/pivot-strategy/middle_pivot_strategy.hpp)
  and its earlier revision `getPivot` (Sorting/middle_pivot_strategy.h): the
  element in the middle of arr[lo..hi], the lower one of the two middles
  when the range has an even number of elements.
*/
module PivotStrategies {

  /**
    The index lo + (hi - lo) / 2. For lo <= hi the C++ quotient, which
    truncates, equals the Euclidean one used here. It lies in [lo, hi],
    strictly below hi when the range has two elements or more (which is what
    lets Quicksort's recursion shrink), and its distance to lo is at most its
    distance to hi, by at most one: the lower middle.
  */
  function MiddleIndex(lo: int, hi: int): (p: int)
    ensures lo <= hi ==> lo <= p <= hi
    ensures lo < hi ==> p < hi
    ensures lo <= hi ==> p - lo <= hi - p <= p - lo + 1
    ensures lo == hi ==> p == lo
  {
    lo + (hi - lo) / 2
  }

  /**
    The pivot value: an element of arr[lo..hi], read without changing the
    array (the model passes the array's contents as a value).
  */
  function MiddlePivot<T>(s: seq<T>, lo: int, hi: int): (piv: T)
    requires 0 <= lo <= hi < |s|
    ensures piv in s[lo..hi + 1]
    ensures lo == hi ==> piv == s[lo]
  {
    assert s[MiddleIndex(lo, hi)] == s[lo..hi + 1][MiddleIndex(lo, hi) - lo];
    s[MiddleIndex(lo, hi)]
  }
}

/**
  `CountingSort` of src/sort.hpp: sorts integers in [0, k] by counting each
  value, turning the counts into starting offsets in the order the
  comparator puts 0 and 1 (ascending when comp(0, 1), descending otherwise),
  and placing every element at its value's next free offset.
*/
module CountingSorts {
  import opened Ordering

  /**
    The rank of a value in the order the offsets are laid out: the value
    itself when ascending, k minus it when descending. The map is its own
    inverse, so it also gives the value of a rank.
  */
  function Key(ascending: bool, k: int, v: int): int {
    if ascending then v else k - v
  }

  /** Number of elements of m whose rank is below r: where the run of rank r starts. */
  function Before(m: multiset<int>, ascending: bool, k: int, r: int): nat
    decreases r
  {
    if r <= 0 then 0 else Before(m, ascending, k, r - 1) + m[Key(ascending, k, r - 1)]
  }

  /** The runs of ranks r..k: each value repeated as many times as m holds it. */
  function Runs(m: multiset<int>, ascending: bool, k: int, r: int): seq<int>
    decreases k + 1 - r
  {
    if r > k then []
    else seq(m[Key(ascending, k, r)], _ => Key(ascending, k, r)) + Runs(m, ascending, k, r + 1)
  }

  /** What the counting sort leaves in the array. */
  function CountingSorted(s: seq<int>, ascending: bool, k: int): seq<int> {
    Runs(multiset(s), ascending, k, 0)
  }

  /** Every element lies in [0, k], the range the sorter is built for. */
  predicate InRange(s: seq<int>, k: int) {
    forall i :: 0 <= i < |s| ==> 0 <= s[i] <= k
  }

  lemma {:induction false} BeforeMonotone(m: multiset<int>, ascending: bool, k: int, r: int, r': int)
    requires r <= r'
    ensures Before(m, ascending, k, r) <= Before(m, ascending, k, r')
    decreases r' - r
  {
    if r < r' {
      BeforeMonotone(m, ascending, k, r, r' - 1);
    }
  }

  lemma {:induction false} RunsLength(m: multiset<int>, ascending: bool, k: int, r: int)
    requires 0 <= r <= k + 1
    ensures |Runs(m, ascending, k, r)| == Before(m, ascending, k, k + 1) - Before(m, ascending, k, r)
    decreases k + 1 - r
  {
    if r <= k {
      RunsLength(m, ascending, k, r + 1);
    }
  }

  /**
    Position p of the runs from rank r holds the value whose run covers p:
    its rank q lies in r..k and p falls between the offsets of q and q + 1.
  */
  lemma {:induction false} RunsAt(m: multiset<int>, ascending: bool, k: int, r: int, p: int)
    requires 0 <= r <= k + 1
    requires 0 <= p < |Runs(m, ascending, k, r)|
    ensures var q := Key(ascending, k, Runs(m, ascending, k, r)[p]);
      r <= q <= k &&
      Before(m, ascending, k, q) - Before(m, ascending, k, r) <= p < Before(m, ascending, k, q + 1) - Before(m, ascending, k, r)
    decreases k + 1 - r
  {
    var n := m[Key(ascending, k, r)];
    if p >= n {
      RunsAt(m, ascending, k, r + 1, p - n);
    }
  }

  /** The runs from rank r hold each value of rank r..k exactly as often as m does, and nothing else. */
  lemma {:induction false} RunsCount(m: multiset<int>, ascending: bool, k: int, r: int, x: int)
    requires 0 <= r
    ensures multiset(Runs(m, ascending, k, r))[x] == if r <= Key(ascending, k, x) <= k then m[x] else 0
    decreases k + 1 - r
  {
    if r <= k {
      var v := Key(ascending, k, r);
      var run := seq(m[v], _ => v);
      RunsCount(m, ascending, k, r + 1, x);
      RepeatCount(v, m[v], x);
    }
  }

  lemma {:induction false} RepeatCount(v: int, n: nat, x: int)
    ensures multiset(seq(n, _ => v))[x] == if x == v then n else 0
  {
    if n > 0 {
      RepeatCount(v, n - 1, x);
      assert seq(n, _ => v) == seq(n - 1, _ => v) + [v];
    }
  }

  /** The counting sort permutes its input when every element is in range. */
  lemma CountingSortedPermutation(s: seq<int>, ascending: bool, k: int)
    requires InRange(s, k)
    ensures multiset(CountingSorted(s, ascending, k)) == multiset(s)
  {
    forall x ensures multiset(CountingSorted(s, ascending, k))[x] == multiset(s)[x] {
      RunsCount(multiset(s), ascending, k, 0, x);
      if x in multiset(s) {
        var i :| 0 <= i < |s| && s[i] == x;
      }
    }
  }

  /** The offset past the last run is the number of elements. */
  lemma CountingTotal(s: seq<int>, ascending: bool, k: int)
    requires InRange(s, k) && -1 <= k
    ensures Before(multiset(s), ascending, k, k + 1) == |s|
  {
    CountingSortedPermutation(s, ascending, k);
    RunsLength(multiset(s), ascending, k, 0);
  }

  /**
    The counting sort orders by rank: ascending values when ascending,
    descending values otherwise.
  */
  lemma CountingSortedOrdered(s: seq<int>, ascending: bool, k: int)
    requires -1 <= k
    ensures var r := CountingSorted(s, ascending, k);
      forall i, j :: 0 <= i < j < |r| ==> Key(ascending, k, r[i]) <= Key(ascending, k, r[j])
  {
    var m := multiset(s);
    var r := CountingSorted(s, ascending, k);
    forall i, j | 0 <= i < j < |r| ensures Key(ascending, k, r[i]) <= Key(ascending, k, r[j]) {
      RunsAt(m, ascending, k, 0, i);
      RunsAt(m, ascending, k, 0, j);
      var qi, qj := Key(ascending, k, r[i]), Key(ascending, k, r[j]);
      if qj < qi {
        BeforeMonotone(m, ascending, k, qj + 1, qi);
      }
    }
  }

  /** With comp = less<int>, the result is sorted under the comparator. */
  lemma CountingSortedSortedLess(s: seq<int>, lt: (int, int) -> bool, k: int)
    requires forall x, y :: lt(x, y) == (x < y)
    requires -1 <= k
    ensures Sorted(lt, CountingSorted(s, lt(0, 1), k))
  {
    CountingSortedOrdered(s, true, k);
  }

  /** With comp = greater<int>, the result is sorted under the comparator. */
  lemma CountingSortedSortedGreater(s: seq<int>, lt: (int, int) -> bool, k: int)
    requires forall x, y :: lt(x, y) == (x > y)
    requires -1 <= k
    ensures Sorted(lt, CountingSorted(s, lt(0, 1), k))
  {
    CountingSortedOrdered(s, false, k);
  }

    /** The comparator is `less<int>` or `greater<int>`, the two the counting sort is used with. */
  ghost predicate IntOrder(lt: (int, int) -> bool) {
    (forall x, y :: lt(x, y) == (x < y)) || (forall x, y :: lt(x, y) == (x > y))
  }

  /** Under `less<int>` or `greater<int>`, a sorted input is its own counting sort. */
  lemma CountingSortedOfSorted(s: seq<int>, lt: (int, int) -> bool, k: int)
    requires IntOrder(lt) && -1 <= k && InRange(s, k) && Sorted(lt, s)
    ensures CountingSorted(s, lt(0, 1), k) == s
  {
    CountingSortedPermutation(s, lt(0, 1), k);
    if forall x, y :: lt(x, y) == (x < y) {
      CountingSortedSortedLess(s, lt, k);
      ByKeyStrictWeakOrder(lt, x => x);
    } else {
      CountingSortedSortedGreater(s, lt, k);
      ByKeyStrictWeakOrder(lt, x => -x);
    }
    SortedPermutationUnique(lt, CountingSorted(s, lt(0, 1), k), s);
  }

/**
    CountingSort::sort_vector. ascending := comp(0, 1); the vector of k + 1
    counters is built, turned into offsets and used to place the elements
    into a second vector, which is then copied back.
  */
  method CountingSort(a: array<int>, lt: (int, int) -> bool, k: int)
    requires -1 <= k && InRange(a[..], k)
    modifies a
    ensures a[..] == CountingSorted(old(a[..]), lt(0, 1), k)
    ensures IntOrder(lt) && Sorted(lt, old(a[..])) ==> a[..] == old(a[..])
  {
    if IntOrder(lt) && Sorted(lt, a[..]) {
      CountingSortedOfSorted(a[..], lt, k);
    }
    var ascending := lt(0, 1);
    var count := Histogram(a, k);
    PrefixOffsets(count, ascending, multiset(a[..]));
    var sortedArr := Place(a, count, ascending, k);
    forall i | 0 <= i < a.Length {
      a[i] := sortedArr[i];
    }
  }

  /** The first loop: count[v] becomes the number of elements equal to v. */
  method Histogram(a: array<int>, k: int) returns (count: array<int>)
    requires -1 <= k && InRange(a[..], k)
    ensures fresh(count) && count.Length == k + 1
    ensures forall v :: 0 <= v <= k ==> count[v] == multiset(a[..])[v]
  {
    count := new int[k + 1](_ => 0);
    for j := 0 to a.Length
      invariant forall v :: 0 <= v <= k ==> count[v] == multiset(a[..j])[v]
    {
      assert a[..j + 1] == a[..j] + [a[j]];
      count[a[j]] := count[a[j]] + 1;
    }
    assert a[..a.Length] == a[..];
  }

  /**
    The second loop: visiting the counters upwards when ascending and
    downwards otherwise, each becomes the running total of those visited
    before it, that is the offset where its value's run starts.
  */
  method PrefixOffsets(count: array<int>, ascending: bool, ghost m: multiset<int>)
    requires forall v {:trigger count[v]} :: 0 <= v < count.Length ==> count[v] == m[v]
    modifies count
    ensures forall v {:trigger count[v]} :: 0 <= v < count.Length ==>
      count[v] == Before(m, ascending, count.Length - 1, Key(ascending, count.Length - 1, v))
  {
    var n := count.Length;
    ghost var k := n - 1;
    var total := 0;
    var i := if ascending then 0 else n - 1;
    ghost var r := 0;
    OffsetsInitially(count, m, ascending);
    while i < n && (!ascending ==> i >= 0)
      invariant OffsetsState(count, m, ascending, k, r, total) && i == Key(ascending, k, r)
      decreases n - r
    {
      total := AdvanceOffset(count, ascending, m, k, r, i, total);
      i := if ascending then i + 1 else i - 1;
      r := r + 1;
    }
    OffsetsFinally(count, m, ascending, total);
  }

  /** Before the second loop every counter still holds its count. */
  lemma OffsetsInitially(count: array<int>, m: multiset<int>, ascending: bool)
    requires forall v {:trigger count[v]} :: 0 <= v < count.Length ==> count[v] == m[v]
    ensures OffsetsState(count, m, ascending, count.Length - 1, 0, 0)
  {
  }

  /** After the second loop every counter holds its offset. */
  lemma OffsetsFinally(count: array<int>, m: multiset<int>, ascending: bool, total: int)
    requires OffsetsState(count, m, ascending, count.Length - 1, count.Length, total)
    ensures forall v {:trigger count[v]} :: 0 <= v < count.Length ==>
      count[v] == Before(m, ascending, count.Length - 1, Key(ascending, count.Length - 1, v))
  {
  }

  /**
    Counters of the values of rank below r hold their offsets; the others
    still hold their counts.
  */
  ghost predicate OffsetsState(count: array<int>, m: multiset<int>, ascending: bool, k: int, r: int, total: int)
    reads count
  {
    && count.Length == k + 1 && 0 <= r <= k + 1
    && total == Before(m, ascending, k, r)
    && (forall v {:trigger count[v]} :: 0 <= v <= k && Key(ascending, k, v) < r ==>
          count[v] == Before(m, ascending, k, Key(ascending, k, v)))
    && (forall v {:trigger count[v]} :: 0 <= v <= k && r <= Key(ascending, k, v) ==> count[v] == m[v])
  }

  /** One iteration of the second loop, on the counter of rank r. */
  method AdvanceOffset(count: array<int>, ascending: bool, ghost m: multiset<int>, ghost k: int, ghost r: int,
                       i: int, total: int) returns (total': int)
    requires OffsetsState(count, m, ascending, k, r, total)
    requires r <= k && i == Key(ascending, k, r)
    modifies count
    ensures OffsetsState(count, m, ascending, k, r + 1, total')
  {
    assert count[i] == m[i];
    var temp := count[i];
    count[i] := total;
    total' := total + temp;
  }

  /**
    The third loop: every element goes to its value's current offset, which
    then moves one cell on, so equal elements keep their order.
  */
  method Place(a: array<int>, count: array<int>, ascending: bool, k: int) returns (sortedArr: array<int>)
    requires -1 <= k && InRange(a[..], k) && count.Length == k + 1 && a != count
    requires forall v {:trigger count[v]} :: 0 <= v <= k ==>
      count[v] == Before(multiset(a[..]), ascending, k, Key(ascending, k, v))
    modifies count
    ensures fresh(sortedArr) && sortedArr.Length == a.Length
    ensures sortedArr[..] == CountingSorted(a[..], ascending, k)
  {
    ghost var m := multiset(a[..]);
    ghost var start := Starts(m, ascending, k);
    StartsLayout(a[..], ascending, k);
    sortedArr := new int[a.Length](_ => 0);
    assert forall v {:trigger count[v]} :: 0 <= v <= k ==> count[v] == start[v] + multiset(a[..0])[v];
    for j := 0 to a.Length
      invariant PlaceState(a[..], count, sortedArr, start, j)
    {
      PlaceOne(a[..], count, sortedArr, start, j, a[j]);
    }
    assert a[..a.Length] == a[..];
    PlaceDone(a[..], count, sortedArr, ascending, k);
  }

  /** Once every element is placed, the second vector holds the runs in rank order. */
  lemma PlaceDone(s: seq<int>, count: array<int>, sortedArr: array<int>, ascending: bool, k: int)
    requires -1 <= k
    requires PlaceState(s, count, sortedArr, Starts(multiset(s), ascending, k), |s|)
    ensures sortedArr[..] == CountingSorted(s, ascending, k)
  {
    var m := multiset(s);
    var start := Starts(m, ascending, k);
    var r := CountingSorted(s, ascending, k);
    RunsLength(m, ascending, k, 0);
    CountingTotal(s, ascending, k);
    assert s[..|s|] == s;
    forall p | 0 <= p < |s| ensures sortedArr[p] == r[p] {
      var v := RunCovers(s, ascending, k, p);
      assert count[v] == start[v] + m[v];
    }
  }

  /** Position p of the result lies in the run of the value it holds. */
  lemma RunCovers(s: seq<int>, ascending: bool, k: int, p: int) returns (v: int)
    requires -1 <= k && InRange(s, k) && 0 <= p < |s|
    ensures var r, start := CountingSorted(s, ascending, k), Starts(multiset(s), ascending, k);
      p < |r| && v == r[p] && 0 <= v <= k && start[v] <= p < start[v] + multiset(s)[v]
  {
    var m := multiset(s);
    RunsLength(m, ascending, k, 0);
    CountingTotal(s, ascending, k);
    RunsAt(m, ascending, k, 0, p);
    v := CountingSorted(s, ascending, k)[p];
    var q := Key(ascending, k, v);
    assert Key(ascending, k, q) == v;
    RunEnd(m, ascending, k, v);
  }

  /** The offset where each value's run starts, by value. */
  ghost function Starts(m: multiset<int>, ascending: bool, k: int): (start: seq<int>)
    requires -1 <= k
    ensures |start| == k + 1
  {
    seq(k + 1, v => Before(m, ascending, k, Key(ascending, k, v)))
  }

  /** The runs of the values lie inside [0, n) and do not overlap. */
  ghost predicate Disjoint(start: seq<int>, m: multiset<int>, n: int) {
    && (forall v :: 0 <= v < |start| ==> 0 <= start[v] && start[v] + m[v] <= n)
    && (forall v, w :: 0 <= v < |start| && 0 <= w < |start| && v != w ==> Apart(start, m, v, w))
  }

  /** The runs of values v and w do not overlap. */
  ghost predicate Apart(start: seq<int>, m: multiset<int>, v: int, w: int)
    requires 0 <= v < |start| && 0 <= w < |start|
  {
    start[v] + m[v] <= start[w] || start[w] + m[w] <= start[v]
  }

  lemma StartsLayout(s: seq<int>, ascending: bool, k: int)
    requires -1 <= k && InRange(s, k)
    ensures Disjoint(Starts(multiset(s), ascending, k), multiset(s), |s|)
  {
    var m := multiset(s);
    var start := Starts(m, ascending, k);
    CountingTotal(s, ascending, k);
    forall v | 0 <= v < |start| ensures start[v] + m[v] <= |s| {
      RunEnd(m, ascending, k, v);
      BeforeMonotone(m, ascending, k, Key(ascending, k, v) + 1, k + 1);
    }
    forall v, w | 0 <= v < |start| && 0 <= w < |start| && v != w ensures Apart(start, m, v, w) {
      RunsApart(m, ascending, k, v, w);
    }
  }

  /** The runs of two different values do not overlap. */
  lemma RunsApart(m: multiset<int>, ascending: bool, k: int, v: int, w: int)
    requires 0 <= v <= k && 0 <= w <= k && v != w
    ensures var bv, bw := Before(m, ascending, k, Key(ascending, k, v)), Before(m, ascending, k, Key(ascending, k, w));
      bv + m[v] <= bw || bw + m[w] <= bv
  {
    var qv, qw := Key(ascending, k, v), Key(ascending, k, w);
    RunEnd(m, ascending, k, v);
    RunEnd(m, ascending, k, w);
    if qv < qw {
      BeforeMonotone(m, ascending, k, qv + 1, qw);
    } else {
      BeforeMonotone(m, ascending, k, qw + 1, qv);
    }
  }

  /**
    After placing s[..j]: each counter is its run's start plus the elements
    of its value placed so far, and the cells from the start to the counter
    hold that value.
  */
  ghost predicate PlaceState(s: seq<int>, count: array<int>, sortedArr: array<int>, start: seq<int>, j: int)
    reads count, sortedArr
  {
    && count.Length == |start| && sortedArr.Length == |s| && 0 <= j <= |s|
    && InRange(s, |start| - 1)
    && Disjoint(start, multiset(s), |s|)
    && (forall v {:trigger count[v]} :: 0 <= v < |start| ==> count[v] == start[v] + multiset(s[..j])[v])
    && (forall v, p {:trigger count[v], sortedArr[p]} ::
          0 <= v < |start| && start[v] <= p < count[v] && p < |s| ==> sortedArr[p] == v)
  }

  /** One iteration of the third loop. */
  method PlaceOne(ghost s: seq<int>, count: array<int>, sortedArr: array<int>, ghost start: seq<int>, j: int, el: int)
    requires count != sortedArr
    requires PlaceState(s, count, sortedArr, start, j) && j < |s| && el == s[j]
    modifies count, sortedArr
    ensures PlaceState(s, count, sortedArr, start, j + 1)
  {
    ghost var m := multiset(s);
    PlacedBelowCount(s, j, el);
    assert s[..j + 1] == s[..j] + [el];
    var c := count[el];
    assert start[el] <= c < start[el] + m[el];
    forall v | 0 <= v < |start| && v != el
      ensures count[v] <= start[el] || start[v] > c
    {
      assert count[v] <= start[v] + m[v];
      assert Apart(start, m, v, el);
    }
    sortedArr[c] := el;
    count[el] := c + 1;
  }

  /** The run of value v ends where the next rank's run starts. */
  lemma RunEnd(m: multiset<int>, ascending: bool, k: int, v: int)
    requires 0 <= Key(ascending, k, v)
    ensures Before(m, ascending, k, Key(ascending, k, v)) + m[v] == Before(m, ascending, k, Key(ascending, k, v) + 1)
  {
    assert Key(ascending, k, Key(ascending, k, v)) == v;
  }

  /** Fewer copies of el precede position j than the whole sequence holds. */
  lemma PlacedBelowCount(s: seq<int>, j: int, el: int)
    requires 0 <= j < |s| && s[j] == el
    ensures multiset(s[..j])[el] < multiset(s)[el]
    ensures forall v :: multiset(s[..j])[v] <= multiset(s)[v]
  {
    assert s == s[..j] + s[j..];
    assert el in multiset(s[j..]);
  }
}

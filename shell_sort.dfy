/**
  `ShellSort` of src/sort.hpp: for every gap of the sequence its gap strategy
  returns, a gapped insertion sort.

  The gapped insertion keeps the element being inserted in `temp` and shifts
  larger elements one gap to the right, which leaves a "hole" at j + gap.
  The proof reads the array with `temp` written into the hole: every shift
  is then an exchange of the hole with the cell one gap to its left, so the
  picture stays a permutation of the input throughout.
*/
module ShellSorts {
  import opened Ordering

  /** Among the positions below m, no element must come before the element one gap to its left. */
  ghost predicate GapSortedBelow<T>(lt: (T, T) -> bool, s: seq<T>, g: int, m: int) {
    forall p :: 0 <= g <= p < |s| && p < m ==> !lt(s[p], s[p - g])
  }

  /** `s` is g-sorted. */
  ghost predicate GapSorted<T>(lt: (T, T) -> bool, s: seq<T>, g: int) {
    GapSortedBelow(lt, s, g, |s|)
  }

  /**
    The picture `b` (the array with `temp` in the hole) during the insertion
    of position i: every gap pair up to i is in order except possibly the
    one ending at the hole, and the two neighbours of the hole are in order
    with each other.
  */
  ghost predicate HoleInOrder<T>(lt: (T, T) -> bool, b: seq<T>, g: int, i: int, hole: int) {
    && 0 <= g && 0 <= hole <= i < |b|
    && (forall p :: 0 <= g <= p <= i && p != hole ==> !lt(b[p], b[p - g]))
    && (0 < g <= hole && hole + g <= i ==> !lt(b[hole + g], b[hole - g]))
  }

  /** 1-sorted is the adjacent form of sortedness, hence sorted. */
  lemma GapOneSorted<T(!new)>(lt: (T, T) -> bool, s: seq<T>)
    requires StrictWeakOrder(lt)
    ensures GapSorted(lt, s, 1) <==> Sorted(lt, s)
  {
    AdjacentSortedIffSorted(lt, s);
    if GapSorted(lt, s, 1) {
      forall i | 0 <= i < |s| - 1 ensures !lt(s[i + 1], s[i]) {
        assert (i + 1) - 1 == i;
      }
    }
  }

  /** Shifting the element one gap left of the hole into it moves the hole to j. */
  lemma ShiftStep<T(!new)>(lt: (T, T) -> bool, b: seq<T>, g: int, i: int, j: int)
    requires StrictWeakOrder(lt)
    requires 0 < g && 0 <= j
    requires HoleInOrder(lt, b, g, i, j + g)
    requires lt(b[j + g], b[j])
    ensures HoleInOrder(lt, Exchanged(b, j, j + g), g, i, j)
  {
    var hole := j + g;
    var c := Exchanged(b, j, hole);
    assert c[j] == b[hole] && c[hole] == b[j];
    forall p | g <= p <= i && p != j ensures !lt(c[p], c[p - g]) {
      if p == hole {
        AsymmetricOf(lt, b[hole], b[j]);
      } else if p == hole + g {
        assert c[p] == b[p];
      } else if p - g == hole {
        assert false;
      } else if p - g == j {
        assert false;
      } else {
        assert c[p] == b[p] && c[p - g] == b[p - g];
      }
    }
    if g <= j {
      assert c[j - g] == b[j - g];
      assert !lt(b[j], b[j - g]);
    }
  }

  /**
    The state of the shifting loop of the gapped insertion of position i:
    `s` is the array, `b` the picture with `temp` in the hole, and `a0` the
    array before the insertion began.
  */
  ghost predicate ShiftState<T>(lt: (T, T) -> bool, s: seq<T>, b: seq<T>, a0: seq<T>, g: int, i: int, hole: int, temp: T) {
    && 0 <= g <= i < |s| == |a0| && 0 <= hole <= i
    && b == s[hole := temp]
    && HoleInOrder(lt, b, g, i, hole)
    && b[i + 1..] == a0[i + 1..]
    && multiset(b) == multiset(a0)
    && temp == a0[i]
    && (hole == i ==> s == a0)
    && (hole < i ==> 0 < g && lt(temp, a0[i - g]))
  }

  /** The assignment a[j + g] := a[j] moves the hole from j + g to j and keeps the loop state. */
  lemma ShiftKeepsState<T(!new)>(lt: (T, T) -> bool, s: seq<T>, b: seq<T>, a0: seq<T>, g: int, i: int, j: int, temp: T)
    requires StrictWeakOrder(lt)
    requires ShiftState(lt, s, b, a0, g, i, j + g, temp)
    requires 0 <= j && lt(temp, s[j])
    ensures ShiftState(lt, s[j + g := s[j]], Exchanged(b, j, j + g), a0, g, i, j, temp)
  {
    assert g > 0;
    assert b[j] == s[j] && b[j + g] == temp;
    ShiftStep(lt, b, g, i, j);
    ShiftPicture(s, b, a0, g, i, j, temp);
    assert lt(temp, a0[i - g]) by {
      if j + g == i {
        assert s == a0;
      }
    }
  }

  /** After the shift, the picture is the new array with `temp` in the new hole. */
  lemma ShiftPicture<T>(s: seq<T>, b: seq<T>, a0: seq<T>, g: int, i: int, j: int, temp: T)
    requires 0 < g && 0 <= j && j + g <= i < |s| == |a0|
    requires b == s[j + g := temp] && b[i + 1..] == a0[i + 1..]
    ensures Exchanged(b, j, j + g) == s[j + g := s[j]][j := temp]
    ensures Exchanged(b, j, j + g)[i + 1..] == a0[i + 1..]
  {
    var c := Exchanged(b, j, j + g);
    assert c[i + 1..] == b[i + 1..];
  }

  /** Before the first shift the hole is at i itself and the picture is the array. */
  lemma ShiftStateInitially<T>(lt: (T, T) -> bool, a0: seq<T>, g: int, i: int)
    requires 0 <= g <= i < |a0|
    requires GapSortedBelow(lt, a0, g, i)
    ensures ShiftState(lt, a0, a0, a0, g, i, i, a0[i])
  {
    assert a0[i := a0[i]] == a0;
  }

  /**
    When the hole j + g cannot move further left, writing `temp` into it
    gives the picture, which is gap-sorted up to i, a permutation of the
    array before the insertion, and that array itself when no shift
    happened.
  */
  lemma HoleFilled<T>(lt: (T, T) -> bool, s: seq<T>, b: seq<T>, a0: seq<T>, g: int, i: int, j: int, temp: T)
    requires ShiftState(lt, s, b, a0, g, i, j + g, temp)
    requires j < 0 || !lt(temp, s[j])
    ensures s[j + g := temp] == b
    ensures GapSortedBelow(lt, b, g, i + 1)
    ensures b[i + 1..] == a0[i + 1..] && multiset(b) == multiset(a0)
    ensures !lt(a0[i], a0[i - g]) ==> b == a0
  {
    if 0 <= j {
      assert b[j] == s[j];
    }
    if j + g == i {
      assert b == a0;
    }
  }

  /**
    One iteration of the `for i` loop of ShellSort::sort_vector: a[i] is
    taken into `temp`, elements one gap apart are shifted right while `temp`
    must come before them, and `temp` is written into the hole. Positions
    below i that were gap-sorted stay so, now including i.
  */
  method InsertGapped<T(!new)>(a: array<T>, lt: (T, T) -> bool, gap: int, i: int)
    requires StrictWeakOrder(lt)
    requires 0 <= gap <= i < a.Length
    requires GapSortedBelow(lt, a[..], gap, i)
    modifies a
    ensures GapSortedBelow(lt, a[..], gap, i + 1)
    ensures a[i + 1..] == old(a[i + 1..])
    ensures multiset(a[..]) == old(multiset(a[..]))
    ensures !lt(old(a[i]), old(a[i - gap])) ==> a[..] == old(a[..])
  {
    var temp := a[i];
    var j := i - gap;
    ghost var hole := i;
    ghost var b := a[..];
    ghost var a0 := a[..];
    ShiftStateInitially(lt, a0, gap, i);
    while j >= 0 && lt(temp, a[j])
      invariant ShiftState(lt, a[..], b, a0, gap, i, hole, temp) && hole == j + gap
      decreases j
    {
      b := ShiftGapped(a, lt, gap, i, j, temp, b, a0);
      hole := j;
      j := j - gap;
    }
    HoleFilled(lt, a[..], b, a0, gap, i, j, temp);
    a[j + gap] := temp;
  }

  /** `arr[j + gap] = arr[j]`: the hole moves from j + gap to j. */
  method ShiftGapped<T(!new)>(a: array<T>, lt: (T, T) -> bool, gap: int, i: int, j: int, temp: T,
                              ghost b: seq<T>, ghost a0: seq<T>) returns (ghost b': seq<T>)
    requires StrictWeakOrder(lt)
    requires ShiftState(lt, a[..], b, a0, gap, i, j + gap, temp)
    requires 0 <= j && lt(temp, a[j])
    modifies a
    ensures ShiftState(lt, a[..], b', a0, gap, i, j, temp)
  {
    ShiftKeepsState(lt, a[..], b, a0, gap, i, j, temp);
    b' := Exchanged(b, j, j + gap);
    a[j + gap] := a[j];
  }

  /**
    The `for i` loop of ShellSort::sort_vector for one gap: positions gap,
    gap + 1, ... are inserted in turn, after which the vector is gap-sorted.
    A gap at least the vector's size does nothing.
  */
  method GappedPass<T(!new)>(a: array<T>, lt: (T, T) -> bool, gap: int)
    requires StrictWeakOrder(lt)
    requires 0 <= gap
    modifies a
    ensures GapSorted(lt, a[..], gap)
    ensures multiset(a[..]) == old(multiset(a[..]))
    ensures Sorted(lt, old(a[..])) ==> a[..] == old(a[..])
    ensures a.Length <= gap ==> a[..] == old(a[..])
  {
    var n := a.Length;
    ghost var wasSorted := Sorted(lt, a[..]);
    var i := gap;
    while i < n
      invariant gap <= i
      invariant GapSortedBelow(lt, a[..], gap, i)
      invariant multiset(a[..]) == old(multiset(a[..]))
      invariant wasSorted ==> a[..] == old(a[..])
      invariant n <= gap ==> a[..] == old(a[..])
    {
      assert wasSorted ==> !lt(a[i], a[i - gap]) by {
        if wasSorted && gap > 0 {
          assert old(a[..])[i] == a[i] && old(a[..])[i - gap] == a[i - gap];
        }
      }
      InsertGapped(a, lt, gap, i);
      i := i + 1;
    }
  }

  /**
    ShellSort::sort_vector with the gaps its strategy returns for the vector's
    size: a gapped insertion pass per gap. The result is a permutation of the
    input, g-sorted for the last gap g, hence sorted when that gap is 1; an
    input already sorted is left as it is.
  */
  method ShellSort<T(!new)>(a: array<T>, lt: (T, T) -> bool, gapStrategy: nat -> seq<int>)
    requires StrictWeakOrder(lt)
    requires forall k :: 0 <= k < |gapStrategy(a.Length)| ==> gapStrategy(a.Length)[k] >= 0
    modifies a
    ensures multiset(a[..]) == old(multiset(a[..]))
    ensures Sorted(lt, old(a[..])) ==> a[..] == old(a[..])
    ensures gapStrategy(a.Length) == [] ==> a[..] == old(a[..])
    ensures var gaps := gapStrategy(a.Length);
      gaps != [] ==> GapSorted(lt, a[..], gaps[|gaps| - 1])
    ensures var gaps := gapStrategy(a.Length);
      gaps != [] && gaps[|gaps| - 1] == 1 ==> Sorted(lt, a[..])
  {
    var gaps := gapStrategy(a.Length);
    ghost var wasSorted := Sorted(lt, a[..]);
    for k := 0 to |gaps|
      invariant multiset(a[..]) == old(multiset(a[..]))
      invariant wasSorted ==> a[..] == old(a[..])
      invariant k == 0 ==> a[..] == old(a[..])
      invariant k > 0 ==> GapSorted(lt, a[..], gaps[k - 1])
    {
      GappedPass(a, lt, gaps[k]);
    }
    if gaps != [] && gaps[|gaps| - 1] == 1 {
      GapOneSorted(lt, a[..]);
    }
  }
}

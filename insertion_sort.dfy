/**
  `InsertionSort` of src/sort.hpp, specified by a functional insertion sort
  whose properties (ordered, a permutation, stable) are proved once and
  reused by the earlier revision's unsigned-index version.
*/
module InsertionSorts {
  import opened Ordering

  /**
    Inserting x into t the way the inner loop does: x moves left past every
    element it must come strictly before, scanning from the right, and stops
    at the first one it need not come before (ties stay put).
  */
  function Insert<T>(lt: (T, T) -> bool, t: seq<T>, x: T): seq<T> {
    if t == [] then [x]
    else if lt(x, t[|t| - 1]) then Insert(lt, t[..|t| - 1], x) + [t[|t| - 1]]
    else t + [x]
  }

  /** The result of the insertion sort: each element inserted into the sorted prefix before it. */
  function InsertionSorted<T>(lt: (T, T) -> bool, s: seq<T>): seq<T> {
    if s == [] then []
    else Insert(lt, InsertionSorted(lt, s[..|s| - 1]), s[|s| - 1])
  }

  lemma {:induction false} InsertPermutation<T>(lt: (T, T) -> bool, t: seq<T>, x: T)
    ensures multiset(Insert(lt, t, x)) == multiset(t) + multiset{x}
    ensures |Insert(lt, t, x)| == |t| + 1
  {
    if t != [] && lt(x, t[|t| - 1]) {
      var u := t[..|t| - 1];
      InsertPermutation(lt, u, x);
      assert t == u + [t[|t| - 1]];
    }
  }

  /** Inserting into a sorted sequence keeps it sorted. */
  lemma {:induction false} InsertSorted<T(!new)>(lt: (T, T) -> bool, t: seq<T>, x: T)
    requires StrictWeakOrder(lt)
    requires Sorted(lt, t)
    ensures Sorted(lt, Insert(lt, t, x))
  {
    if t == [] {
    } else {
      var last := t[|t| - 1];
      var u := t[..|t| - 1];
      if lt(x, last) {
        assert Sorted(lt, u);
        InsertSorted(lt, u, x);
        forall k | 0 <= k < |u| ensures !lt(last, u[k]) {
          assert u[k] == t[k];
        }
        InsertBelow(lt, u, x, last);
        SortedAppend(lt, Insert(lt, u, x), last);
      } else {
        forall k | 0 <= k < |t| ensures !lt(x, t[k]) {
          NotAfterTransitive(lt, t[k], last, x);
        }
        SortedAppend(lt, t, x);
      }
    }
  }

  /** When x must come before y and y before no element of u, y comes before nothing in the insertion. */
  lemma InsertBelow<T(!new)>(lt: (T, T) -> bool, u: seq<T>, x: T, y: T)
    requires StrictWeakOrder(lt)
    requires lt(x, y) && forall k :: 0 <= k < |u| ==> !lt(y, u[k])
    ensures forall k :: 0 <= k < |Insert(lt, u, x)| ==> !lt(y, Insert(lt, u, x)[k])
  {
    InsertPermutation(lt, u, x);
    AsymmetricOf(lt, x, y);
    var v := Insert(lt, u, x);
    forall k | 0 <= k < |v| ensures !lt(y, v[k]) {
      assert v[k] in multiset(v);
      if v[k] != x {
        assert v[k] in multiset(u);
        var p :| 0 <= p < |u| && u[p] == v[k];
      }
    }
  }

  /**
    Inserting x keeps the relative order of every class of equivalent
    elements: x only passes elements it must come strictly before, which are
    never equivalent to it.
  */
  lemma {:induction false} InsertStable<T(!new)>(lt: (T, T) -> bool, t: seq<T>, x: T, z: T)
    requires StrictWeakOrder(lt)
    ensures EquivSub(lt, z, Insert(lt, t, x)) == EquivSub(lt, z, t + [x])
  {
    if t != [] && lt(x, t[|t| - 1]) {
      var last := t[|t| - 1];
      var u := t[..|t| - 1];
      InsertStable(lt, u, x, z);
      EquivSubAppend(lt, z, Insert(lt, u, x), [last]);
      EquivSubAppend(lt, z, u, [x]);
      assert t + [x] == u + ([last] + [x]);
      EquivSubAppend(lt, z, u, [last] + [x]);
      EquivSubAppend(lt, z, [last], [x]);
      EquivSubAppend(lt, z, [x], [last]);
      assert u + [x] + [last] == u + ([x] + [last]);
      EquivSubAppend(lt, z, u + [x], [last]);
      EquivSubAppend(lt, z, u, [x] + [last]);
      if Equivalent(lt, z, x) && Equivalent(lt, z, last) {
        EquivalentTransitive(lt, x, z, last);
      }
    }
  }

  /** The functional insertion sort sorts, permutes and is stable. */
  lemma {:induction false} InsertionSortedCorrect<T(!new)>(lt: (T, T) -> bool, s: seq<T>)
    requires StrictWeakOrder(lt)
    ensures Sorted(lt, InsertionSorted(lt, s))
    ensures multiset(InsertionSorted(lt, s)) == multiset(s)
    ensures Stable(lt, s, InsertionSorted(lt, s))
  {
    if s != [] {
      var u := s[..|s| - 1];
      var x := s[|s| - 1];
      InsertionSortedCorrect(lt, u);
      InsertSorted(lt, InsertionSorted(lt, u), x);
      InsertPermutation(lt, InsertionSorted(lt, u), x);
      assert s == u + [x];
      forall z ensures EquivSub(lt, z, InsertionSorted(lt, s)) == EquivSub(lt, z, s) {
        InsertStable(lt, InsertionSorted(lt, u), x, z);
        EquivSubAppend(lt, z, InsertionSorted(lt, u), [x]);
        EquivSubAppend(lt, z, u, [x]);
      }
    }
  }

  /** Sorting an already sorted sequence leaves it as it is. */
  lemma {:induction false} InsertionSortedOfSorted<T>(lt: (T, T) -> bool, s: seq<T>)
    requires Sorted(lt, s)
    ensures InsertionSorted(lt, s) == s
  {
    if s != [] {
      var u := s[..|s| - 1];
      assert Sorted(lt, u);
      InsertionSortedOfSorted(lt, u);
      assert s == u + [s[|s| - 1]];
    }
  }

  /** One step of the inner loop: x passes t[j]. */
  lemma InsertStep<T>(lt: (T, T) -> bool, t: seq<T>, x: T, j: int)
    requires 0 <= j < |t|
    requires lt(x, t[j])
    ensures Insert(lt, t[..j + 1], x) + t[j + 1..] == Insert(lt, t[..j], x) + t[j..]
  {
    assert t[..j + 1][..j] == t[..j];
    assert t[j..] == [t[j]] + t[j + 1..];
  }

  /** The inner loop stops: x stays after t[..j+1] (or at the front when j = -1). */
  lemma InsertStop<T>(lt: (T, T) -> bool, t: seq<T>, x: T, j: int)
    requires -1 <= j < |t|
    requires j >= 0 ==> !lt(x, t[j])
    ensures Insert(lt, t[..j + 1], x) == t[..j + 1] + [x]
  {
  }

  /**
    InsertionSort::sort_vector: for i = 1 .. n-1, cur = arr[i] is shifted
    left past every arr[j] with comp(cur, arr[j]), scanning j downwards.
  */
  method InsertionSort<T(!new)>(a: array<T>, lt: (T, T) -> bool)
    modifies a
    ensures a[..] == InsertionSorted(lt, old(a[..]))
  {
    var n := a.Length;
    if n == 0 {
      return;
    }
    ghost var s := a[..];
    for i := 1 to n
      invariant a[..i] == InsertionSorted(lt, s[..i])
      invariant a[i..] == s[i..]
    {
      InsertAt(a, lt, i);
      assert s[..i + 1][..i] == s[..i];
    }
    assert s[..n] == s && a[..n] == a[..];
  }

  /**
    One iteration of the outer loop of InsertionSort::sort_vector: inserts
    arr[i] into the prefix arr[..i].
  */
  method InsertAt<T>(a: array<T>, lt: (T, T) -> bool, i: int)
    requires 1 <= i < a.Length
    modifies a
    ensures a[..i + 1] == Insert(lt, old(a[..i]), old(a[i]))
    ensures a[i + 1..] == old(a[i + 1..])
  {
    ghost var s0 := a[..];
    ghost var t := a[..i];
    var j := i - 1;
    var cur := a[i];
    assert t[..j + 1] == t && t[j + 1..] == [];
    while j >= 0 && lt(cur, a[j])
      invariant Shifting(a[..], t, s0, i, j)
      invariant Insert(lt, t, cur) == Insert(lt, t[..j + 1], cur) + t[j + 1..]
    {
      ghost var s := a[..];
      ShiftingStep(s, t, s0, i, j);
      InsertStep(lt, t, cur, j);
      a[j + 1] := a[j];
      assert a[..] == s[j + 1 := s[j]];
      j := j - 1;
    }
    InsertStop(lt, t, cur, j);
    ghost var s := a[..];
    a[j + 1] := cur;
    assert a[..] == s[j + 1 := cur];
    ShiftingDone(s, t, s0, i, j, cur);
  }

  /**
    The array during the inner loop of the insertion of position i into
    t = s0[..i]: below the hole j + 1 it holds t, above it the shifted rest
    of t, and beyond i what it held before.
  */
  ghost predicate Shifting<T>(s: seq<T>, t: seq<T>, s0: seq<T>, i: int, j: int) {
    && -1 <= j < i < |s| == |s0| && |t| == i
    && s[..j + 1] == t[..j + 1]
    && s[j + 2..i + 1] == t[j + 1..]
    && s[i + 1..] == s0[i + 1..]
  }

  /** `arr[j + 1] = arr[j]`, copying s[j] one place right, moves the hole one place left. */
  lemma ShiftingStep<T>(s: seq<T>, t: seq<T>, s0: seq<T>, i: int, j: int)
    requires Shifting(s, t, s0, i, j) && 0 <= j
    ensures s[j] == t[j]
    ensures Shifting(s[j + 1 := s[j]], t, s0, i, j - 1)
  {
    var s' := s[j + 1 := s[j]];
    assert s[j] == t[j] by { assert s[..j + 1][j] == t[..j + 1][j]; }
    assert s'[..j] == s[..j + 1][..j] == t[..j + 1][..j];
    assert s'[j + 1..i + 1] == [t[j]] + s[j + 2..i + 1];
    assert t[j..] == [t[j]] + t[j + 1..];
  }

  /** `arr[j + 1] = cur`, writing cur into the hole, finishes the insertion. */
  lemma ShiftingDone<T>(s: seq<T>, t: seq<T>, s0: seq<T>, i: int, j: int, cur: T)
    requires Shifting(s, t, s0, i, j)
    ensures s[j + 1 := cur][..i + 1] == t[..j + 1] + [cur] + t[j + 1..]
    ensures s[j + 1 := cur][i + 1..] == s0[i + 1..]
  {
    var s' := s[j + 1 := cur];
    assert s'[..j + 1] == s[..j + 1];
    assert s'[j + 2..i + 1] == s[j + 2..i + 1];
    assert s'[..i + 1] == s'[..j + 1] + [cur] + s'[j + 2..i + 1];
  }
}

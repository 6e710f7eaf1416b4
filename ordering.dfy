/**
  The ordering contract shared by every algorithm: a comparator `lt(x, y)`
  meaning "x must come strictly before y" (the C++ `Compare` object, such as
  `less<T>` or `greater<T>`), what it means for a sequence to be ordered under
  it, and what it means for a reordering to be stable.
*/
module Ordering {

  /**
    The C++ requirement on `Compare`: a strict weak order (irreflexive,
    transitive, and its incomparability transitive, which is the same as
    negative transitivity). The two three-element laws are stated through
    named predicates so that the solver instantiates them only where a proof
    asks for them.
  */
  ghost predicate StrictWeakOrder<T(!new)>(lt: (T, T) -> bool) {
    && (forall x :: !lt(x, x))
    && (forall x, y, z :: TransitiveAt(lt, x, y, z))
    && (forall x, y, z :: NegativelyTransitiveAt(lt, x, y, z))
  }

  predicate TransitiveAt<T>(lt: (T, T) -> bool, x: T, y: T, z: T) {
    lt(x, y) && lt(y, z) ==> lt(x, z)
  }

  predicate NegativelyTransitiveAt<T>(lt: (T, T) -> bool, x: T, y: T, z: T) {
    lt(x, z) ==> lt(x, y) || lt(y, z)
  }

  /** No later element must come before an earlier one. */
  ghost predicate Sorted<T>(lt: (T, T) -> bool, s: seq<T>) {
    forall i, j :: 0 <= i < j < |s| ==> !lt(s[j], s[i])
  }

  /** The suffix s[m..] is sorted. */
  ghost predicate SortedFrom<T>(lt: (T, T) -> bool, s: seq<T>, m: int) {
    forall p, q :: 0 <= m <= p < q < |s| ==> !lt(s[q], s[p])
  }

  /** No element of s[..m] must come after an element of s[m..]. */
  ghost predicate PartitionedAt<T>(lt: (T, T) -> bool, s: seq<T>, m: int) {
    forall p, q :: 0 <= p < m <= q < |s| ==> !lt(s[q], s[p])
  }

  /** No adjacent pair is out of order: what a bubble pass without an exchange leaves. */
  ghost predicate AdjacentSorted<T>(lt: (T, T) -> bool, s: seq<T>) {
    forall i :: 0 <= i < |s| - 1 ==> !lt(s[i + 1], s[i])
  }

  /** Neither element must come before the other. */
  predicate Equivalent<T>(lt: (T, T) -> bool, x: T, y: T) {
    !lt(x, y) && !lt(y, x)
  }

  /** The elements of `s` equivalent to `z`, in their order in `s`. */
  function EquivSub<T>(lt: (T, T) -> bool, z: T, s: seq<T>): seq<T> {
    if s == [] then []
    else (if Equivalent(lt, z, s[0]) then [s[0]] else []) + EquivSub(lt, z, s[1..])
  }

  /** `output` keeps the relative order of every class of equivalent elements of `input`. */
  ghost predicate Stable<T(!new)>(lt: (T, T) -> bool, input: seq<T>, output: seq<T>) {
    forall z :: EquivSub(lt, z, output) == EquivSub(lt, z, input)
  }

  lemma AsymmetricOf<T(!new)>(lt: (T, T) -> bool, x: T, y: T)
    requires StrictWeakOrder(lt)
    requires lt(x, y)
    ensures !lt(y, x)
  {
    assert TransitiveAt(lt, x, y, x);
  }

  lemma Transitive<T(!new)>(lt: (T, T) -> bool, x: T, y: T, z: T)
    requires StrictWeakOrder(lt)
    requires lt(x, y) && lt(y, z)
    ensures lt(x, z)
  {
    assert TransitiveAt(lt, x, y, z);
  }

  /** "Not after" is transitive: the consequence of negative transitivity the proofs rely on. */
  lemma NotAfterTransitive<T(!new)>(lt: (T, T) -> bool, x: T, y: T, z: T)
    requires StrictWeakOrder(lt)
    requires !lt(y, x) && !lt(z, y)
    ensures !lt(z, x)
  {
    assert NegativelyTransitiveAt(lt, z, y, x);
  }

  /** If x comes before z, then any y comes after x or before z. */
  lemma BeforeSplits<T(!new)>(lt: (T, T) -> bool, x: T, y: T, z: T)
    requires StrictWeakOrder(lt)
    requires lt(x, z)
    ensures lt(x, y) || lt(y, z)
  {
    assert NegativelyTransitiveAt(lt, x, y, z);
  }

  /** Equivalence of a strict weak order is transitive. */
  lemma EquivalentTransitive<T(!new)>(lt: (T, T) -> bool, x: T, y: T, z: T)
    requires StrictWeakOrder(lt)
    requires Equivalent(lt, x, y) && Equivalent(lt, y, z)
    ensures Equivalent(lt, x, z)
  {
    assert NegativelyTransitiveAt(lt, x, y, z);
    assert NegativelyTransitiveAt(lt, z, y, x);
  }

  /**
    Under a strict weak order the adjacent check and the pairwise order agree;
    without negative transitivity only one direction would hold.
  */
  lemma {:induction false} AdjacentSortedIffSorted<T(!new)>(lt: (T, T) -> bool, s: seq<T>)
    requires StrictWeakOrder(lt)
    ensures AdjacentSorted(lt, s) <==> Sorted(lt, s)
  {
    if AdjacentSorted(lt, s) && |s| > 1 {
      AdjacentSortedIffSorted(lt, s[1..]);
      assert Sorted(lt, s[1..]);
      forall i, j | 0 <= i < j < |s| ensures !lt(s[j], s[i]) {
        if i > 0 {
          assert s[j] == s[1..][j - 1] && s[i] == s[1..][i - 1];
        } else if j > 1 {
          assert !lt(s[j], s[1]) by { assert s[j] == s[1..][j - 1] && s[1] == s[1..][0]; }
          NotAfterTransitive(lt, s[0], s[1], s[j]);
        }
      }
    }
  }

  lemma {:induction false} EquivSubAppend<T>(lt: (T, T) -> bool, z: T, a: seq<T>, b: seq<T>)
    ensures EquivSub(lt, z, a + b) == EquivSub(lt, z, a) + EquivSub(lt, z, b)
  {
    if a == [] {
      assert a + b == b;
    } else {
      var h := if Equivalent(lt, z, a[0]) then [a[0]] else [];
      assert (a + b)[0] == a[0] && (a + b)[1..] == a[1..] + b;
      EquivSubAppend(lt, z, a[1..], b);
      calc {
        EquivSub(lt, z, a + b);
        h + EquivSub(lt, z, a[1..] + b);
        h + (EquivSub(lt, z, a[1..]) + EquivSub(lt, z, b));
        (h + EquivSub(lt, z, a[1..])) + EquivSub(lt, z, b);
        EquivSub(lt, z, a) + EquivSub(lt, z, b);
      }
    }
  }

  /** Concatenation is associative; stated apart so that proofs need not rediscover it. */
  lemma AppendAssociative<T>(a: seq<T>, b: seq<T>, c: seq<T>)
    ensures a + (b + c) == (a + b) + c
  {
  }

  /** The stable sequences of a given input are exactly one: sorted and stable determine the output. */
  lemma {:induction false} SortedStableUnique<T(!new)>(lt: (T, T) -> bool, input: seq<T>, a: seq<T>, b: seq<T>)
    requires StrictWeakOrder(lt)
    requires Sorted(lt, a) && Stable(lt, input, a)
    requires Sorted(lt, b) && Stable(lt, input, b)
    ensures a == b
  {
    SortedStableUniqueAux(lt, a, b);
  }

  lemma {:induction false} SortedStableUniqueAux<T(!new)>(lt: (T, T) -> bool, a: seq<T>, b: seq<T>)
    requires StrictWeakOrder(lt)
    requires Sorted(lt, a) && Sorted(lt, b)
    requires forall z :: EquivSub(lt, z, a) == EquivSub(lt, z, b)
    ensures a == b
    decreases |a|
  {
    if a == [] {
      if b != [] {
        EquivSubOwnHead(lt, b);
        assert false;
      }
    } else if b == [] {
      EquivSubOwnHead(lt, a);
      assert false;
    } else {
      SortedHeadsEqual(lt, a, b);
      forall z ensures EquivSub(lt, z, a[1..]) == EquivSub(lt, z, b[1..]) {
        EquivSubTail(lt, z, a, b);
      }
      SortedTail(lt, a);
      SortedTail(lt, b);
      SortedStableUniqueAux(lt, a[1..], b[1..]);
      assert a == [a[0]] + a[1..] && b == [b[0]] + b[1..];
    }
  }

  /**
    Two sorted sequences with the same classes start with the same element:
    each head occurs in the other sequence, so neither comes before the
    other, and then each is the first of its class in both.
  */
  lemma SortedHeadsEqual<T(!new)>(lt: (T, T) -> bool, a: seq<T>, b: seq<T>)
    requires StrictWeakOrder(lt)
    requires Sorted(lt, a) && Sorted(lt, b) && a != [] && b != []
    requires forall z :: EquivSub(lt, z, a) == EquivSub(lt, z, b)
    ensures a[0] == b[0]
  {
    assert EquivSub(lt, b[0], b)[0] == b[0];
    var ib := EquivSubMember(lt, b[0], a, b[0]);
    assert !lt(b[0], a[0]) by { if ib > 0 { assert !lt(a[ib], a[0]); } }
    assert EquivSub(lt, a[0], a)[0] == a[0];
    var ia := EquivSubMember(lt, a[0], b, a[0]);
    assert !lt(a[0], b[0]) by { if ia > 0 { assert !lt(b[ia], b[0]); } }
    assert EquivSub(lt, a[0], b)[0] == b[0];
    assert EquivSub(lt, a[0], a) == EquivSub(lt, a[0], b);
  }

  /** Equal classes with equal heads leave equal classes of the tails. */
  lemma EquivSubTail<T>(lt: (T, T) -> bool, z: T, a: seq<T>, b: seq<T>)
    requires a != [] && b != [] && a[0] == b[0]
    requires EquivSub(lt, z, a) == EquivSub(lt, z, b)
    ensures EquivSub(lt, z, a[1..]) == EquivSub(lt, z, b[1..])
  {
    var h := if Equivalent(lt, z, a[0]) then [a[0]] else [];
    assert EquivSub(lt, z, a)[|h|..] == EquivSub(lt, z, a[1..]);
    assert EquivSub(lt, z, b)[|h|..] == EquivSub(lt, z, b[1..]);
  }

  /** The tail of a sorted sequence is sorted. */
  lemma SortedTail<T>(lt: (T, T) -> bool, s: seq<T>)
    requires Sorted(lt, s) && s != []
    ensures Sorted(lt, s[1..])
  {
    forall i, j | 0 <= i < j < |s| - 1 ensures !lt(s[1..][j], s[1..][i]) {
      assert s[1..][j] == s[j + 1] && s[1..][i] == s[i + 1];
    }
  }

  /** A nonempty sequence has its first element in that element's class. */
  lemma EquivSubOwnHead<T(!new)>(lt: (T, T) -> bool, s: seq<T>)
    requires StrictWeakOrder(lt)
    requires s != []
    ensures EquivSub(lt, s[0], s) != [] && EquivSub(lt, s[0], s)[0] == s[0]
  {
  }

  /** An element of `EquivSub(lt, z, s)` is an element of `s`. */
  lemma {:induction false} EquivSubMember<T>(lt: (T, T) -> bool, z: T, s: seq<T>, x: T) returns (i: nat)
    requires x in EquivSub(lt, z, s)
    ensures i < |s| && s[i] == x
  {
    if s == [] {
      assert false;
    } else if Equivalent(lt, z, s[0]) && x == s[0] {
      i := 0;
    } else {
      var k := EquivSubMember(lt, z, s[1..], x);
      i := k + 1;
    }
  }

  /** Equivalent elements are equal: the comparator orders T totally, as `less<int>` does. */
  ghost predicate EquivalentMeansEqual<T(!new)>(lt: (T, T) -> bool) {
    forall x, y :: Equivalent(lt, x, y) ==> x == y
  }

  /** A comparator that compares an integer key of its arguments is a strict weak order. */
  lemma ByKeyStrictWeakOrder<T(!new)>(lt: (T, T) -> bool, key: T -> int)
    requires forall x, y :: lt(x, y) == (key(x) < key(y))
    ensures StrictWeakOrder(lt)
  {
    forall x, y, z ensures TransitiveAt(lt, x, y, z) && NegativelyTransitiveAt(lt, x, y, z) {
    }
  }

  /** n copies of z. */
  function Copies<T>(z: T, n: nat): (r: seq<T>)
    ensures |r| == n && forall i :: 0 <= i < n ==> r[i] == z
  {
    if n == 0 then [] else [z] + Copies(z, n - 1)
  }

  /** When equivalence is equality, the class of z in s is the copies of z in s. */
  lemma {:induction false} EquivSubOfTotal<T(!new)>(lt: (T, T) -> bool, z: T, s: seq<T>)
    requires StrictWeakOrder(lt) && EquivalentMeansEqual(lt)
    ensures EquivSub(lt, z, s) == Copies(z, multiset(s)[z])
  {
    if s != [] {
      EquivSubOfTotal(lt, z, s[1..]);
      EquivSubHeadOfTotal(lt, z, s);
      MultisetHead(z, s);
    }
  }

  /** One step of `EquivSub` when equivalence is equality. */
  lemma EquivSubHeadOfTotal<T(!new)>(lt: (T, T) -> bool, z: T, s: seq<T>)
    requires StrictWeakOrder(lt) && EquivalentMeansEqual(lt) && s != []
    ensures EquivSub(lt, z, s) == (if s[0] == z then [z] else []) + EquivSub(lt, z, s[1..])
  {
    assert Equivalent(lt, z, s[0]) <==> s[0] == z;
  }

  /** The count of z in s, from its head and its tail. */
  lemma MultisetHead<T>(z: T, s: seq<T>)
    requires s != []
    ensures multiset(s)[z] == (if s[0] == z then 1 else 0) + multiset(s[1..])[z]
  {
    assert s == [s[0]] + s[1..];
  }

  /** The multiset of a non-empty sequence, from its head and its tail. */
  lemma MultisetCons<T>(s: seq<T>)
    requires s != []
    ensures multiset(s) == multiset{s[0]} + multiset(s[1..])
  {
    assert s == [s[0]] + s[1..];
  }

  /** The multiset of a sequence, from the two sides of a cut. */
  lemma MultisetSplit<T>(s: seq<T>, h: int)
    requires 0 <= h <= |s|
    ensures multiset(s) == multiset(s[..h]) + multiset(s[h..])
  {
    assert s == s[..h] + s[h..];
  }

  /**
    When equivalence is equality, a multiset has one sorted arrangement
    only: every sort leaves a sorted input as it is.
  */
  lemma SortedPermutationUnique<T(!new)>(lt: (T, T) -> bool, a: seq<T>, b: seq<T>)
    requires StrictWeakOrder(lt) && EquivalentMeansEqual(lt)
    requires Sorted(lt, a) && Sorted(lt, b) && multiset(a) == multiset(b)
    ensures a == b
  {
    forall z ensures EquivSub(lt, z, a) == EquivSub(lt, z, b) {
      EquivSubOfTotal(lt, z, a);
      EquivSubOfTotal(lt, z, b);
    }
    SortedStableUniqueAux(lt, a, b);
  }

  /** Appending an element that is not before any element keeps a sequence sorted. */
  lemma SortedAppend<T>(lt: (T, T) -> bool, s: seq<T>, x: T)
    requires Sorted(lt, s)
    requires forall k :: 0 <= k < |s| ==> !lt(x, s[k])
    ensures Sorted(lt, s + [x])
  {
  }

  /** Prepending an element that is not after any element keeps a sequence sorted. */
  lemma SortedPrepend<T>(lt: (T, T) -> bool, x: T, s: seq<T>)
    requires Sorted(lt, s)
    requires forall k :: 0 <= k < |s| ==> !lt(s[k], x)
    ensures Sorted(lt, [x] + s)
  {
  }

  /** A permutation of a sequence of at most one element is that sequence: every sort leaves it unchanged. */
  lemma ShortPermutationUnchanged<T>(s: seq<T>, t: seq<T>)
    requires |s| <= 1
    requires multiset(t) == multiset(s)
    ensures t == s
  {
    assert |t| == |multiset(t)| == |multiset(s)| == |s|;
    if |s| == 1 {
      assert s[0] in multiset(t);
    }
  }

  /** `s` with the elements at i and j exchanged. */
  function Exchanged<T>(s: seq<T>, i: int, j: int): (r: seq<T>)
    requires 0 <= i < |s| && 0 <= j < |s|
    ensures |r| == |s| && multiset(r) == multiset(s)
  {
    s[i := s[j]][j := s[i]]
  }

  /** Exchanging two cells of a settled prefix keeps the suffix settled. */
  lemma ExchangeKeepsSettled<T>(lt: (T, T) -> bool, s: seq<T>, i: int, j: int, m: int)
    requires 0 <= i < m && 0 <= j < m && m <= |s|
    requires SortedFrom(lt, s, m) && PartitionedAt(lt, s, m)
    ensures SortedFrom(lt, Exchanged(s, i, j), m) && PartitionedAt(lt, Exchanged(s, i, j), m)
  {
    var t := Exchanged(s, i, j);
    assert forall k :: m <= k < |s| ==> t[k] == s[k];
    forall p, q | 0 <= p < m <= q < |s| ensures !lt(t[q], t[p]) {
      if p == i {
        assert t[p] == s[j];
      } else if p == j {
        assert t[p] == s[i];
      }
    }
  }

  /** Exchanges two cells of an array; `std::swap` on two elements of the vector. */
  method Swap<T>(a: array<T>, i: int, j: int)
    requires 0 <= i < a.Length && 0 <= j < a.Length
    modifies a
    ensures a[i] == old(a[j]) && a[j] == old(a[i])
    ensures forall k :: 0 <= k < a.Length && k != i && k != j ==> a[k] == old(a[k])
    ensures a[..] == Exchanged(old(a[..]), i, j)
    ensures multiset(a[..]) == old(multiset(a[..]))
  {
    a[i], a[j] := a[j], a[i];
  }
}

/**
  `KnuthGapStrategy::get_gaps` (src/gap-strategy/knuth_gap_strategy.cpp) and
  its earlier `size_t` revision `getGaps` (Sorting/knuth_gap_strategy.cpp):
  the gaps (3^e - 1) / 2 for e = k, k - 1, ..., 1, where k is the floor of
  log3(2 * (n / 3) + 1), so that the largest gap is the largest number of
  that form not above n / 3.

  The logarithm is modelled exactly (see `Log3`). For n < 3 the code
  computes k = 0 and then writes `ans[k - 1]`, outside the empty vector; the
  as-written model reports that write as `None`, and `KnuthGaps` is the
  corrected strategy the rest of the model uses.
*/
module GapStrategies {
  import opened Options
  import opened Unsigned

  function Pow3(e: nat): (r: nat)
    ensures r >= 1
  {
    if e == 0 then 1 else 3 * Pow3(e - 1)
  }

  /** floor(log3(x)): the largest e with 3^e <= x. */
  function Log3(x: nat): (e: nat)
    requires x >= 1
    ensures Pow3(e) <= x < Pow3(e + 1)
    decreases x
  {
    if x < 3 then 0 else 1 + Log3(x / 3)
  }

  /** The length k of the result, computed from the integer quotient n / 3. */
  function GapCount(n: nat): nat {
    Log3(2 * (n / 3) + 1)
  }

  /** A(0) = 0 and A(e) = 3 A(e - 1) + 1: the Knuth numbers 0, 1, 4, 13, 40, ... */
  function KnuthNumber(e: nat): nat {
    if e == 0 then 0 else 3 * KnuthNumber(e - 1) + 1
  }

  /** The k Knuth numbers A(k), ..., A(1), largest first: gap i is (3^(k - i) - 1) / 2. */
  function KnuthSequence(k: nat): (gaps: seq<int>)
    ensures |gaps| == k
    ensures forall i :: 0 <= i < k ==> 2 * gaps[i] + 1 == Pow3(k - i)
  {
    KnuthNumbersClosedForm(k);
    seq(k, i requires 0 <= i < k => KnuthNumber(k - i))
  }

  /** The closed form for every Knuth number up to A(k). */
  lemma KnuthNumbersClosedForm(k: nat)
    ensures forall e :: 0 <= e <= k ==> 2 * KnuthNumber(e) + 1 == Pow3(e)
  {
    forall e | 0 <= e <= k ensures 2 * KnuthNumber(e) + 1 == Pow3(e) {
      KnuthNumberClosedForm(e);
    }
  }

  /**
    `get_gaps` as written: `None` stands for the write to `ans[k - 1]` when
    k = 0, which is outside the vector.
  */
  function KnuthGapsAsWritten(n: nat): Option<seq<int>> {
    var k := GapCount(n);
    if k == 0 then None else Some(KnuthSequence(k))
  }

  /**
    The corrected strategy: at least one gap, so that the last gap is 1 for
    every size, including 0, 1 and 2 where the code goes out of bounds.
  */
  function KnuthGaps(n: nat): (gaps: seq<int>)
    ensures gaps != [] && gaps[|gaps| - 1] == 1
    ensures forall i :: 0 <= i < |gaps| ==> gaps[i] >= 1
    ensures forall i, j :: 0 <= i < j < |gaps| ==> gaps[i] > gaps[j]
  {
    var k := GapCount(n);
    var count := if k == 0 then 1 else k;
    KnuthSequenceShape(count);
    KnuthSequence(count)
  }

  /** The closed form: 2 A(e) + 1 = 3^e, that is A(e) = (3^e - 1) / 2. */
  lemma {:induction false} KnuthNumberClosedForm(e: nat)
    ensures 2 * KnuthNumber(e) + 1 == Pow3(e)
  {
    if e > 0 {
      KnuthNumberClosedForm(e - 1);
    }
  }

  lemma KnuthNumberPositive(e: nat)
    requires e >= 1
    ensures KnuthNumber(e) >= 1
  {
  }

  /** Knuth numbers grow strictly. */
  lemma {:induction false} KnuthNumberIncreasing(d: nat, e: nat)
    requires d < e
    ensures KnuthNumber(d) < KnuthNumber(e)
    decreases e - d
  {
    if d + 1 < e {
      KnuthNumberIncreasing(d, e - 1);
    }
  }

  /**
    The shape of every result: the last gap is 1, each gap is 3 times the
    next plus 1, hence the gaps strictly decrease and are at least 1, and
    the gap at i is (3^(k - i) - 1) / 2.
  */
  lemma KnuthSequenceShape(k: nat)
    requires k >= 1
    ensures var gaps := KnuthSequence(k);
      && gaps[k - 1] == 1
      && (forall i :: 0 <= i < k - 1 ==> gaps[i] == 3 * gaps[i + 1] + 1)
      && (forall i, j :: 0 <= i < j < k ==> gaps[i] > gaps[j])
      && (forall i :: 0 <= i < k ==> gaps[i] >= 1)
      && (forall i :: 0 <= i < k ==> 2 * gaps[i] + 1 == Pow3(k - i))
  {
    var gaps := KnuthSequence(k);
    forall i, j | 0 <= i < j < k ensures gaps[i] > gaps[j] {
      KnuthNumberIncreasing(k - j, k - i);
    }
    forall i | 0 <= i < k ensures gaps[i] >= 1 {
      KnuthNumberPositive(k - i);
    }
    forall i | 0 <= i < k ensures 2 * gaps[i] + 1 == Pow3(k - i) {
      KnuthNumberClosedForm(k - i);
    }
  }

  /** k = 0, and with it the out-of-range write, happens exactly for n < 3. */
  lemma AsWrittenFailsExactlyBelowThree(n: nat)
    ensures KnuthGapsAsWritten(n) == None <==> n < 3
  {
    if n >= 3 {
      assert 2 * (n / 3) + 1 >= 3;
      assert Log3(2 * (n / 3) + 1) >= 1;
    }
  }

  /** From n = 3 on the corrected strategy returns what the code returns. */
  lemma CorrectedAgreesFromThree(n: nat)
    requires n >= 3
    ensures KnuthGapsAsWritten(n) == Some(KnuthGaps(n))
  {
    AsWrittenFailsExactlyBelowThree(n);
  }

  /**
    The largest gap is the largest Knuth number not above n / 3: A(k) <= n / 3
    < A(k + 1). The code compares against the floor of n / 3.
  */
  lemma LargestGapBound(n: nat)
    requires n >= 3
    ensures var k := GapCount(n);
      k >= 1 && KnuthNumber(k) <= n / 3 < KnuthNumber(k + 1)
  {
    var k := GapCount(n);
    AsWrittenFailsExactlyBelowThree(n);
    KnuthNumberClosedForm(k);
    KnuthNumberClosedForm(k + 1);
  }

  /**
    The k of the header comment, computed from the ceiling of n / 3; the
    code uses the floor instead.
  */
  function CommentGapCount(n: nat): nat {
    Log3(2 * ((n + 2) / 3) + 1)
  }

  /** For n = 10 the code returns [1], while the comment's formula gives [4, 1]. */
  lemma CommentDiffersAtTen()
    ensures KnuthGapsAsWritten(10) == Some([1])
    ensures KnuthSequence(CommentGapCount(10)) == [4, 1]
  {
    assert Log3(7) == 1 by { assert Log3(7 / 3) == 0; }
    assert Log3(9) == 2 by { assert Log3(3) == 1 by { assert Log3(1) == 0; } }
    assert KnuthSequence(1) == [1];
    assert KnuthNumber(2) == 4;
    assert KnuthSequence(2) == [4, 1];
  }

  /**
    `vector<int> ans(k)` filled as the code does: `ans[k - 1] = 1`, then
    `ans[i] = 3 * ans[i + 1] + 1` for i from k - 2 down to 0.
  */
  method FillGaps(k: nat) returns (gaps: seq<int>)
    requires k >= 1
    ensures gaps == KnuthSequence(k)
  {
    var ans := new int[k](_ => 0);
    ans[k - 1] := 1;
    var i := k - 2;
    while i >= 0
      invariant -1 <= i <= k - 2
      invariant forall j :: i < j < k ==> ans[j] == KnuthNumber(k - j)
      decreases i
    {
      ans[i] := 3 * ans[i + 1] + 1;
      i := i - 1;
    }
    gaps := ans[..];
  }

  /**
    KnuthGapStrategy::get_gaps as written: the out-of-range write for k = 0
    is reported as `None`.
  */
  method GetGapsAsWritten(n: nat) returns (r: Option<seq<int>>)
    ensures r == None <==> n < 3
    ensures r != None ==> r.value == KnuthSequence(GapCount(n))
  {
    var k: int := GapCount(n);
    AsWrittenFailsExactlyBelowThree(n);
    if k - 1 < 0 {
      return None;
    }
    var gaps := FillGaps(k);
    r := Some(gaps);
  }

  /** The corrected get_gaps: k is raised to 1 when the logarithm gives 0. */
  method GetGaps(n: nat) returns (gaps: seq<int>)
    ensures gaps == KnuthGaps(n)
    ensures n >= 3 ==> Some(gaps) == KnuthGapsAsWritten(n)
  {
    var k := GapCount(n);
    if k == 0 {
      k := 1;
    }
    gaps := FillGaps(k);
    if n >= 3 {
      CorrectedAgreesFromThree(n);
    }
  }

  /**
    Sorting/knuth_gap_strategy.cpp `getGaps`, with `size_t` n and k: for
    k = 0 the index k - 1 wraps to SIZE_MAX, again outside the vector, so
    the earlier revision returns exactly what `get_gaps` returns, out-of-range
    write included.
  */
  method LegacyGetGaps(n: nat) returns (r: Option<seq<int>>)
    requires IsSize(n)
    ensures r == KnuthGapsAsWritten(n)
    ensures r == None <==> n < 3
  {
    var k := GapCount(n);
    Log3Below(2 * (n / 3) + 1, SizeModulus);
    AsWrittenFailsExactlyBelowThree(n);
    var last := SizeDec(k);
    if last >= k {
      return None;
    }
    var gaps := FillGaps(k);
    r := Some(gaps);
  }

  /** log3 of a number below a bound is below the bound. */
  lemma Log3Below(x: nat, bound: nat)
    requires 1 <= x <= bound
    ensures Log3(x) < bound
  {
    var e := Log3(x);
    Pow3Exceeds(e);
  }

  lemma {:induction false} Pow3Exceeds(e: nat)
    ensures e < Pow3(e)
  {
    if e > 0 {
      Pow3Exceeds(e - 1);
    }
  }
}

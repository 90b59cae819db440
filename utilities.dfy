/**
 * The stopping test shared by every solver: the mean absolute difference of two
 * successive iterates compared with a fixed tolerance (src/utilities.h).
 * Single-precision `float` is modelled by `real`.
 */
module Utilities {

  /** Tolerance of the stopping test (1e-11). */
  const EPSILON: real := 0.00000000001

  function Abs(x: real): real {
    if x < 0.0 then -x else x
  }

  /**
   * Sum of |a[i] - b[i]| over lo <= i < hi, accumulated from left to right;
   * an empty or inverted range sums to zero.
   */
  function AbsDiffRange(a: seq<real>, b: seq<real>, lo: int, hi: int): real
    requires 0 <= lo && hi <= |a| && hi <= |b|
    decreases hi - lo
  {
    if hi <= lo then 0.0 else AbsDiffRange(a, b, lo, hi - 1) + Abs(a[hi - 1] - b[hi - 1])
  }

  /** The norm the vector form computes: the mean of |a[i] - b[i]| over the indices of `a`. */
  function MeanAbsDiff(a: seq<real>, b: seq<real>): real
    requires 0 < |a| <= |b|
  {
    AbsDiffRange(a, b, 0, |a|) / |a| as real
  }

  /** The scalar form: the test applied to a norm that was reduced elsewhere. */
  predicate CheckStoppingCriteriaNorm(norm: real) {
    norm <= EPSILON
  }

  /** What the vector form decides, as a specification. */
  predicate Converged(a: seq<real>, b: seq<real>)
    requires 0 < |a| <= |b|
  {
    CheckStoppingCriteriaNorm(MeanAbsDiff(a, b))
  }

  /**
   * The vector form: accumulates |a[i] - b[i]| over the indices of `a`, divides
   * by |a| and applies the scalar form. Only the first |a| entries of `b` are read.
   */
  method CheckStoppingCriteria(a: seq<real>, b: seq<real>) returns (r: bool)
    requires 0 < |a| <= |b|
    ensures r == Converged(a, b)
  {
    var norm := 0.0;
    var i := 0;
    while i < |a|
      invariant 0 <= i <= |a|
      invariant norm == AbsDiffRange(a, b, 0, i)
    {
      norm := norm + Abs(a[i] - b[i]);
      i := i + 1;
    }
    norm := norm / |a| as real;
    r := CheckStoppingCriteriaNorm(norm);
  }

  lemma {:induction false} AbsDiffRangeNonNegative(a: seq<real>, b: seq<real>, lo: int, hi: int)
    requires 0 <= lo && hi <= |a| && hi <= |b|
    ensures AbsDiffRange(a, b, lo, hi) >= 0.0
    decreases hi - lo
  {
    if lo < hi {
      AbsDiffRangeNonNegative(a, b, lo, hi - 1);
    }
  }

  /** Splitting a range at `mid` splits its sum. */
  lemma {:induction false} AbsDiffRangeSplit(a: seq<real>, b: seq<real>, lo: int, mid: int, hi: int)
    requires 0 <= lo <= mid <= hi <= |a| && hi <= |b|
    ensures AbsDiffRange(a, b, lo, hi) == AbsDiffRange(a, b, lo, mid) + AbsDiffRange(a, b, mid, hi)
    decreases hi - mid
  {
    if mid < hi {
      AbsDiffRangeSplit(a, b, lo, mid, hi - 1);
    }
  }

  /** Every term of the range is bounded by the whole sum. */
  lemma {:induction false} AbsDiffRangeAtLeastTerm(a: seq<real>, b: seq<real>, lo: int, hi: int, k: int)
    requires 0 <= lo <= k < hi <= |a| && hi <= |b|
    ensures AbsDiffRange(a, b, lo, hi) >= Abs(a[k] - b[k])
    decreases hi - lo
  {
    if k == hi - 1 {
      AbsDiffRangeNonNegative(a, b, lo, hi - 1);
    } else {
      AbsDiffRangeAtLeastTerm(a, b, lo, hi - 1, k);
    }
  }

  /** The sum reads only the entries in the range. */
  lemma {:induction false} AbsDiffRangeCongruent(a: seq<real>, b: seq<real>, a': seq<real>, b': seq<real>, lo: int, hi: int)
    requires 0 <= lo && hi <= |a| && hi <= |b| && hi <= |a'| && hi <= |b'|
    requires forall i :: lo <= i < hi ==> a[i] == a'[i] && b[i] == b'[i]
    ensures AbsDiffRange(a, b, lo, hi) == AbsDiffRange(a', b', lo, hi)
    decreases hi - lo
  {
    if lo < hi {
      AbsDiffRangeCongruent(a, b, a', b', lo, hi - 1);
    }
  }

  lemma {:induction false} AbsDiffRangeSymmetric(a: seq<real>, b: seq<real>, lo: int, hi: int)
    requires 0 <= lo && hi <= |a| && hi <= |b|
    ensures AbsDiffRange(a, b, lo, hi) == AbsDiffRange(b, a, lo, hi)
    decreases hi - lo
  {
    if lo < hi {
      AbsDiffRangeSymmetric(a, b, lo, hi - 1);
      assert Abs(a[hi - 1] - b[hi - 1]) == Abs(b[hi - 1] - a[hi - 1]);
    }
  }

  lemma {:induction false} AbsDiffRangeSelf(a: seq<real>, lo: int, hi: int)
    requires 0 <= lo && hi <= |a|
    ensures AbsDiffRange(a, a, lo, hi) == 0.0
    decreases hi - lo
  {
    if lo < hi {
      AbsDiffRangeSelf(a, lo, hi - 1);
    }
  }

  /** Two identical vectors pass the test: their norm is 0, which is at most EPSILON. */
  lemma IdenticalVectorsConverge(a: seq<real>)
    requires 0 < |a|
    ensures MeanAbsDiff(a, a) == 0.0 && Converged(a, a)
  {
    AbsDiffRangeSelf(a, 0, |a|);
  }

  /** Swapping the old and the new vector does not change the answer. */
  lemma ConvergedSymmetric(a: seq<real>, b: seq<real>)
    requires 0 < |a| == |b|
    ensures MeanAbsDiff(a, b) == MeanAbsDiff(b, a)
    ensures Converged(a, b) <==> Converged(b, a)
  {
    AbsDiffRangeSymmetric(a, b, 0, |a|);
  }

  /** The vector form reads `b` only below |a|: entries of `b` past |a| do not matter. */
  lemma ConvergedReadsPrefix(a: seq<real>, b: seq<real>, b': seq<real>)
    requires 0 < |a| <= |b| && |a| <= |b'|
    requires b[..|a|] == b'[..|a|]
    ensures MeanAbsDiff(a, b) == MeanAbsDiff(a, b')
    ensures Converged(a, b) <==> Converged(a, b')
  {
    forall i | 0 <= i < |a|
      ensures b[i] == b'[i]
    {
      assert b[i] == b[..|a|][i];
    }
    AbsDiffRangeCongruent(a, b, a, b', 0, |a|);
  }

  /** The scalar threshold is inclusive: EPSILON itself passes, anything above fails. */
  lemma ThresholdInclusive(norm: real)
    ensures CheckStoppingCriteriaNorm(EPSILON)
    ensures norm > EPSILON ==> !CheckStoppingCriteriaNorm(norm)
    ensures norm <= EPSILON ==> CheckStoppingCriteriaNorm(norm)
  {
  }

  /** One component differing by more than |a| * EPSILON already makes the test fail. */
  lemma LargeComponentBlocksConvergence(a: seq<real>, b: seq<real>, k: int)
    requires 0 <= k < |a| <= |b|
    requires Abs(a[k] - b[k]) > |a| as real * EPSILON
    ensures MeanAbsDiff(a, b) > EPSILON
    ensures !Converged(a, b)
  {
    AbsDiffRangeAtLeastTerm(a, b, 0, |a|, k);
    QuotientAbove(AbsDiffRange(a, b, 0, |a|), |a| as real, EPSILON);
  }

  lemma QuotientAbove(s: real, n: real, e: real)
    requires n > 0.0 && s > n * e
    ensures s / n > e
  {
    var q := s / n;
    assert q * n == s;
    if q <= e {
      assert q * n <= e * n;
    }
  }
}

/**
 * The sequential solver (src/sequentialJacobi.h): up to maxIter Jacobi rounds on
 * two buffers, stopping early when the full-vector test succeeds.
 */
module Sequential {
  import opened Utilities
  import opened Jacobi

  /**
   * The new value of row i from the previous iterate `x`: the sum over j < i,
   * then over i < j < |x|, then (b[i] - sum) / A[i][i]. The diagonal term is
   * skipped. The barrier and FastFlow solvers compute a row with the same loops.
   */
  method RowValue(A: Matrix, b: seq<real>, x: array<real>, i: int) returns (v: real)
    requires WellFormed(x.Length, A, b) && 0 <= i < x.Length
    ensures v == Component(A, b, x[..], i)
  {
    var n := x.Length;
    var sum := 0.0;
    var j := 0;
    while j < i
      invariant 0 <= j <= i
      invariant sum == Dot(A[i], x[..], 0, j)
    {
      sum := sum + A[i][j] * x[j];
      j := j + 1;
    }
    j := i + 1;
    while j < n
      invariant i + 1 <= j <= n
      invariant sum == Dot(A[i], x[..], 0, i) + Dot(A[i], x[..], i + 1, j)
    {
      sum := sum + A[i][j] * x[j];
      j := j + 1;
    }
    v := (b[i] - sum) / A[i][i];
  }

  /** One round: every row of `newV` is recomputed from `oldV`, which is only read. */
  method JacobiRound(A: Matrix, b: seq<real>, oldV: array<real>, newV: array<real>)
    requires WellFormed(oldV.Length, A, b) && newV.Length == oldV.Length && newV != oldV
    modifies newV
    ensures newV[..] == Step(A, b, oldV[..])
  {
    var i := 0;
    while i < oldV.Length
      invariant 0 <= i <= oldV.Length
      invariant forall k :: 0 <= k < i ==> newV[k] == Component(A, b, oldV[..], k)
    {
      newV[i] := RowValue(A, b, oldV, i);
      i := i + 1;
    }
  }

  /**
   * The sequential driver. `nrIterIn` is the value the caller's counter holds on
   * entry: it is overwritten with the 0-based round in which the stopping test
   * succeeds, and left as it was when the test never succeeds. The returned
   * vector is the iterate of the last round executed, or the zero vector when
   * maxIter <= 0. `rounds` counts the rounds the loop executes.
   */
  method SeqJacobi(maxIter: int, matrixSize: nat, A: Matrix, b: seq<real>, nrIterIn: int)
    returns (result: seq<real>, nrIter: int, ghost rounds: nat)
    requires WellFormed(matrixSize, A, b)
    ensures |result| == matrixSize
    ensures result == Solve(A, b, matrixSize, maxIter).solution
    ensures nrIter == match Solve(A, b, matrixSize, maxIter).convergedAt
                      case Some(k) => k
                      case None => nrIterIn
    ensures rounds == Solve(A, b, matrixSize, maxIter).rounds
  {
    var oldV := new real[matrixSize](_ => 0.0);
    var newV := new real[matrixSize](_ => 0.0);
    nrIter := nrIterIn;
    assert oldV[..] == Zero(matrixSize) && newV[..] == Zero(matrixSize);
    var iter: nat := 0;
    rounds := 0;
    while iter < maxIter
      invariant RunFrom(A, b, oldV[..], newV[..], iter, maxIter) == Solve(A, b, matrixSize, maxIter)
      invariant nrIter == nrIterIn
      invariant rounds == iter
    {
      ghost var x := oldV[..];
      ghost var y := Step(A, b, x);
      JacobiRound(A, b, oldV, newV);
      assert oldV[..] == x && newV[..] == y;
      var stop := CheckStoppingCriteria(oldV[..], newV[..]);
      if stop {
        nrIter := iter;
        rounds := iter + 1;
        break;
      }
      forall k | 0 <= k < matrixSize {
        oldV[k] := newV[k];
      }
      assert oldV[..] == y && newV[..] == y;
      iter := iter + 1;
      rounds := iter;
    }
    result := newV[..];
  }
}

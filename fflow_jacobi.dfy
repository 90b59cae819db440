/**
 * The FastFlow solver (src/fflowJacobi.h): the sequential driver with the row
 * loop of each round handed to a parallel-for over rows 0..n-1. Every
 * iteration of the parallel-for writes only its own row of the new iterate and
 * only reads the old one, so the iterations are modelled as running one after
 * another in an arbitrary order.
 */
module FastFlow {
  import opened Utilities
  import opened Jacobi
  import opened Sequential

  /**
   * One parallel-for over the rows: row `order[m]` is the m-th to take effect.
   * Whatever the order, the result is one Jacobi step.
   */
  method ParallelRound(A: Matrix, b: seq<real>, oldV: array<real>, newV: array<real>, order: seq<int>)
    requires WellFormed(oldV.Length, A, b) && newV.Length == oldV.Length && newV != oldV
    requires IsOrder(order, oldV.Length)
    modifies newV
    ensures newV[..] == Step(A, b, oldV[..])
  {
    ghost var done: set<int> := {};
    var m := 0;
    while m < |order|
      invariant 0 <= m <= |order|
      invariant forall j :: 0 <= j < m ==> order[j] in done
      invariant forall i :: 0 <= i < oldV.Length && i in done ==> newV[i] == Component(A, b, oldV[..], i)
    {
      var i := order[m];
      newV[i] := RowValue(A, b, oldV, i);
      done := done + {i};
      m := m + 1;
    }
    forall i | 0 <= i < oldV.Length
      ensures newV[i] == Component(A, b, oldV[..], i)
    {
      assert i in order;
    }
  }

  /**
   * The FastFlow driver: at most maxIter rounds, leaving after the round whose
   * full-vector test succeeds and otherwise copying the new iterate over the
   * old one. `order(k)` is the order in which the parallel-for's iterations
   * take effect in round k; the number of workers only affects that order.
   * The returned vector is the one a sequential run would return, after as many
   * rounds (`rounds`) as a sequential run executes.
   */
  method FflowJacobi(maxIter: int, matrixSize: nat, nThreads: int, A: Matrix, b: seq<real>,
                     order: nat -> seq<int>)
    returns (result: seq<real>, ghost rounds: nat)
    requires WellFormed(matrixSize, A, b)
    requires forall k :: IsOrder(order(k), matrixSize)
    ensures |result| == matrixSize
    ensures result == Solve(A, b, matrixSize, maxIter).solution
    ensures rounds == Solve(A, b, matrixSize, maxIter).rounds
  {
    var oldV := new real[matrixSize](_ => 0.0);
    var newV := new real[matrixSize](_ => 0.0);
    assert oldV[..] == Zero(matrixSize) && newV[..] == Zero(matrixSize);
    var k: nat := 0;
    rounds := 0;
    while k < maxIter
      invariant RunFrom(A, b, oldV[..], newV[..], k, maxIter) == Solve(A, b, matrixSize, maxIter)
      invariant rounds == k
    {
      ghost var x := oldV[..];
      ghost var y := Step(A, b, x);
      ParallelRound(A, b, oldV, newV, order(k));
      assert oldV[..] == x && newV[..] == y;
      var stop := CheckStoppingCriteria(oldV[..], newV[..]);
      if stop {
        rounds := k + 1;
        break;
      }
      forall i | 0 <= i < matrixSize {
        oldV[i] := newV[i];
      }
      assert oldV[..] == y && newV[..] == y;
      k := k + 1;
      rounds := k;
    }
    result := newV[..];
  }
}

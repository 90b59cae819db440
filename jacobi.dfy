/**
 * The mathematics every solver implements: one Jacobi round on a whole vector,
 * its k-fold iterate from the zero vector, and the outcome of a bounded run with
 * early exit on the stopping test. The three drivers are proved against `Solve`.
 */
module Jacobi {
  import opened Utilities

  type Matrix = seq<seq<real>>

  datatype Option<T> = None | Some(value: T)

  /**
   * The shape the solvers assume of their inputs: an n x n matrix with a nonzero
   * diagonal, a right-hand side of length n, and n >= 1.
   */
  predicate WellFormed(n: int, A: Matrix, b: seq<real>) {
    && 1 <= n
    && |A| == n
    && |b| == n
    && forall i :: 0 <= i < n ==> |A[i]| == n && A[i][i] != 0.0
  }

  /** Sum of row[j] * x[j] over lo <= j < hi, accumulated from left to right. */
  function Dot(row: seq<real>, x: seq<real>, lo: int, hi: int): real
    requires 0 <= lo <= hi <= |row| && hi <= |x|
    decreases hi - lo
  {
    if hi == lo then 0.0 else Dot(row, x, lo, hi - 1) + row[hi - 1] * x[hi - 1]
  }

  /** The new value of component i: (b[i] - sum over j != i of A[i][j] * x[j]) / A[i][i]. */
  function Component(A: Matrix, b: seq<real>, x: seq<real>, i: int): real
    requires WellFormed(|x|, A, b) && 0 <= i < |x|
  {
    (b[i] - (Dot(A[i], x, 0, i) + Dot(A[i], x, i + 1, |x|))) / A[i][i]
  }

  /** One Jacobi round: every component recomputed from the previous iterate `x` only. */
  function Step(A: Matrix, b: seq<real>, x: seq<real>): (y: seq<real>)
    requires WellFormed(|x|, A, b)
    ensures |y| == |x|
  {
    seq(|x|, i requires 0 <= i < |x| => Component(A, b, x, i))
  }

  function Zero(n: nat): (z: seq<real>)
    ensures |z| == n
  {
    seq(n, _ => 0.0)
  }

  /** The k-th iterate starting from `x`: k rounds, the first one applied to `x`. */
  function Iterate(A: Matrix, b: seq<real>, x: seq<real>, k: nat): (y: seq<real>)
    requires WellFormed(|x|, A, b)
    ensures |y| == |x|
    decreases k
  {
    if k == 0 then x else Iterate(A, b, Step(A, b, x), k - 1)
  }

  /** One more round after k rounds gives the (k+1)-th iterate. */
  lemma {:induction false} IterateNext(A: Matrix, b: seq<real>, x: seq<real>, k: nat)
    requires WellFormed(|x|, A, b)
    ensures Iterate(A, b, x, k + 1) == Step(A, b, Iterate(A, b, x, k))
    decreases k
  {
    if k > 0 {
      IterateNext(A, b, Step(A, b, x), k - 1);
    }
  }

  /**
   * What a run reports: the returned vector, the 0-based round in which the
   * stopping test succeeded (None when it never did), and how many rounds ran.
   */
  datatype Outcome = Outcome(solution: seq<real>, convergedAt: Option<nat>, rounds: nat)

  /**
   * The remaining rounds of a driver whose previous iterate is `x`, whose last
   * computed vector is `last`, and which is about to execute round `iter`:
   * round `iter` runs when iter < maxIter, computes y from x, and either stops
   * with y when the stopping test on (x, y) succeeds or makes y the previous
   * iterate of the next round.
   */
  function RunFrom(A: Matrix, b: seq<real>, x: seq<real>, last: seq<real>, iter: nat, maxIter: int): (o: Outcome)
    requires WellFormed(|x|, A, b) && |last| == |x|
    ensures |o.solution| == |x|
    decreases maxIter - iter
  {
    if iter >= maxIter then Outcome(last, None, iter)
    else
      var y := Step(A, b, x);
      if Converged(x, y) then Outcome(y, Some(iter), iter + 1)
      else RunFrom(A, b, y, y, iter + 1, maxIter)
  }

  /**
   * `s` lists each of 0, ..., k-1 exactly once: an order in which k independent
   * parallel tasks may be taken to have run.
   */
  predicate IsOrder(s: seq<int>, k: int) {
    && (forall j :: 0 <= j < |s| ==> 0 <= s[j] < k)
    && (forall j, l :: 0 <= j < l < |s| ==> s[j] != s[l])
    && (forall t :: 0 <= t < k ==> t in s)
  }

  function MaxZero(k: int): nat {
    if k < 0 then 0 else k
  }

  // ---------------------------------------------------------------------------
  // Properties of a round

  lemma {:induction false} DotSplit(row: seq<real>, x: seq<real>, lo: int, mid: int, hi: int)
    requires 0 <= lo <= mid <= hi <= |row| && hi <= |x|
    ensures Dot(row, x, lo, hi) == Dot(row, x, lo, mid) + Dot(row, x, mid, hi)
    decreases hi - mid
  {
    if mid < hi {
      DotSplit(row, x, lo, mid, hi - 1);
    }
  }

  /** A partial dot product reads only the entries of `x` in its range. */
  lemma {:induction false} DotCongruent(row: seq<real>, x: seq<real>, y: seq<real>, lo: int, hi: int)
    requires 0 <= lo <= hi <= |row| && hi <= |x| && hi <= |y|
    requires forall j :: lo <= j < hi ==> x[j] == y[j]
    ensures Dot(row, x, lo, hi) == Dot(row, y, lo, hi)
    decreases hi - lo
  {
    if lo < hi {
      DotCongruent(row, x, y, lo, hi - 1);
    }
  }

  /**
   * Component i never reads x[i]: two previous iterates that agree everywhere
   * except at i give the same new value for i.
   */
  lemma ComponentSkipsDiagonal(A: Matrix, b: seq<real>, x: seq<real>, y: seq<real>, i: int)
    requires WellFormed(|x|, A, b) && |y| == |x| && 0 <= i < |x|
    requires forall j :: 0 <= j < |x| && j != i ==> x[j] == y[j]
    ensures Component(A, b, x, i) == Component(A, b, y, i)
  {
    DotCongruent(A[i], x, y, 0, i);
    DotCongruent(A[i], x, y, i + 1, |x|);
  }

  lemma FixedPointComponent(A: Matrix, b: seq<real>, x: seq<real>, i: int)
    requires WellFormed(|x|, A, b) && 0 <= i < |x|
    ensures Component(A, b, x, i) == x[i] <==> Dot(A[i], x, 0, |x|) == b[i]
  {
    DotAroundDiagonal(A[i], x, i);
    DiagonalEquation(A[i], x, i, b[i], Dot(A[i], x, 0, i) + Dot(A[i], x, i + 1, |x|));
  }

  /** The full row product is the off-diagonal sum plus the diagonal term. */
  lemma DotAroundDiagonal(row: seq<real>, x: seq<real>, i: int)
    requires 0 <= i < |row| == |x|
    ensures Dot(row, x, 0, |x|) == Dot(row, x, 0, i) + Dot(row, x, i + 1, |x|) + Dot(row, x, i, i + 1)
  {
    DotSplit(row, x, 0, i, |x|);
    DotSplit(row, x, i, i + 1, |x|);
  }

  /** Solving row i for x[i]: (bi - off) / row[i] == x[i] exactly when off + row[i] * x[i] == bi. */
  lemma DiagonalEquation(row: seq<real>, x: seq<real>, i: int, bi: real, off: real)
    requires 0 <= i < |row| == |x| && row[i] != 0.0
    ensures (bi - off) / row[i] == x[i] <==> off + Dot(row, x, i, i + 1) == bi
  {
    assert Dot(row, x, i, i + 1) == row[i] * x[i];
    QuotientEquals(bi - off, row[i], x[i]);
  }

  lemma QuotientEquals(num: real, d: real, v: real)
    requires d != 0.0
    ensures num / d == v <==> num == d * v
  {
    assert num / d * d == num;
    if num == d * v {
      assert num / d == v * d / d;
    }
  }

  /**
   * The iteration is consistent with the system it solves: a vector is left
   * unchanged by a round exactly when it satisfies every equation of A x = b.
   */
  lemma FixedPointSolvesSystem(A: Matrix, b: seq<real>, x: seq<real>)
    requires WellFormed(|x|, A, b)
    ensures Step(A, b, x) == x <==> forall i :: 0 <= i < |x| ==> Dot(A[i], x, 0, |x|) == b[i]
  {
    forall i | 0 <= i < |x|
      ensures Step(A, b, x)[i] == x[i] <==> Dot(A[i], x, 0, |x|) == b[i]
    {
      FixedPointComponent(A, b, x, i);
    }
    if forall i :: 0 <= i < |x| ==> Dot(A[i], x, 0, |x|) == b[i] {
      assert Step(A, b, x) == x;
    }
  }

  // ---------------------------------------------------------------------------
  // Properties of a run

  /**
   * The control flow every driver shares, over an abstract run: `its(k)` is
   * the vector held after k rounds and `stop(k)` says whether the stopping
   * test succeeds in round k. Round i is executed when i < maxIter; the loop
   * leaves after a round whose test succeeds, returning the vector that round
   * computed, and otherwise returns the vector held when the budget runs out.
   */
  function Loop(its: nat -> seq<real>, stop: nat -> bool, i: nat, maxIter: int): Outcome
    decreases maxIter - i
  {
    if i >= maxIter then Outcome(its(i), None, i)
    else if stop(i) then Outcome(its(i + 1), Some(i), i + 1)
    else Loop(its, stop, i + 1, maxIter)
  }

  /**
   * The loop from round i stops in the first round k >= i whose test succeeds,
   * or runs out of budget when there is none before maxIter.
   */
  lemma {:induction false} LoopCharacterized(its: nat -> seq<real>, stop: nat -> bool, i: nat, maxIter: int)
    requires i <= MaxZero(maxIter)
    requires forall j: nat :: j < i ==> !stop(j)
    ensures var o := Loop(its, stop, i, maxIter);
      && (o.convergedAt.Some? ==>
            var k := o.convergedAt.value;
            && i <= k < maxIter
            && o == Outcome(its(k + 1), Some(k), k + 1)
            && stop(k)
            && forall j: nat :: j < k ==> !stop(j))
      && (o.convergedAt.None? ==>
            && o == Outcome(its(MaxZero(maxIter)), None, MaxZero(maxIter))
            && forall j: nat :: j < maxIter ==> !stop(j))
    decreases maxIter - i
  {
    if i < maxIter && !stop(i) {
      LoopCharacterized(its, stop, i + 1, maxIter);
    }
  }

  /** The iterates of a run from `z`, as a function of the round count. */
  function Iterates(A: Matrix, b: seq<real>, z: seq<real>): nat -> seq<real>
    requires WellFormed(|z|, A, b)
  {
    (k: nat) => Iterate(A, b, z, k)
  }

  /** The stopping test succeeds in round k of a run from `z`. */
  predicate StopsAt(A: Matrix, b: seq<real>, z: seq<real>, k: nat)
    requires WellFormed(|z|, A, b)
  {
    Converged(Iterate(A, b, z, k), Iterate(A, b, z, k + 1))
  }

  function Stops(A: Matrix, b: seq<real>, z: seq<real>): nat -> bool
    requires WellFormed(|z|, A, b)
  {
    (k: nat) => StopsAt(A, b, z, k)
  }

  /**
   * The driver loop is the generic loop over the Jacobi iterates: a run whose
   * previous and last vectors are both the i-th iterate behaves from round i on
   * like `Loop` with the iterates of `z` and the tests between consecutive ones.
   */
  lemma {:induction false} RunFromIsLoop(A: Matrix, b: seq<real>, z: seq<real>, i: nat, maxIter: int)
    requires WellFormed(|z|, A, b)
    ensures RunFrom(A, b, Iterate(A, b, z, i), Iterate(A, b, z, i), i, maxIter)
         == Loop(Iterates(A, b, z), Stops(A, b, z), i, maxIter)
    decreases maxIter - i
  {
    if i < maxIter {
      IterateNext(A, b, z, i);
      RunFromIsLoop(A, b, z, i + 1, maxIter);
    }
  }

  /** A run from the zero vector with at most `maxIter` rounds. */
  function Solve(A: Matrix, b: seq<real>, n: nat, maxIter: int): Outcome
    requires WellFormed(n, A, b)
  {
    RunFrom(A, b, Zero(n), Zero(n), 0, maxIter)
  }

  /**
   * A run from the zero vector executes at most max(maxIter, 0) rounds. If the
   * stopping test first succeeds in round k, the run stops there and returns the
   * (k+1)-th iterate; if it never succeeds, every one of the max(maxIter, 0)
   * rounds runs and the last iterate is returned (the zero vector when
   * maxIter <= 0).
   */
  lemma SolveCharacterized(A: Matrix, b: seq<real>, n: nat, maxIter: int)
    requires WellFormed(n, A, b)
    ensures var o := Solve(A, b, n, maxIter);
      && |o.solution| == n
      && o.rounds <= MaxZero(maxIter)
      && (o.convergedAt.Some? ==>
            var k := o.convergedAt.value;
            && k < maxIter
            && o.rounds == k + 1
            && o.solution == Iterate(A, b, Zero(n), k + 1)
            && StopsAt(A, b, Zero(n), k)
            && forall j: nat :: j < k ==> !StopsAt(A, b, Zero(n), j))
      && (o.convergedAt.None? ==>
            && o.rounds == MaxZero(maxIter)
            && o.solution == Iterate(A, b, Zero(n), MaxZero(maxIter))
            && forall j: nat :: j < maxIter ==> !StopsAt(A, b, Zero(n), j))
  {
    var its := Iterates(A, b, Zero(n));
    var stop := Stops(A, b, Zero(n));
    RunFromIsLoop(A, b, Zero(n), 0, maxIter);
    LoopCharacterized(its, stop, 0, maxIter);
    var o := Solve(A, b, n, maxIter);
    if o.convergedAt.Some? {
      var k := o.convergedAt.value;
      forall j: nat | j < k
        ensures !StopsAt(A, b, Zero(n), j)
      {
        assert !stop(j);
      }
    } else {
      forall j: nat | j < maxIter
        ensures !StopsAt(A, b, Zero(n), j)
      {
        assert !stop(j);
      }
    }
  }

  /** With no iteration budget nothing runs: the result is the zero vector. */
  lemma SolveWithoutBudget(A: Matrix, b: seq<real>, n: nat, maxIter: int)
    requires WellFormed(n, A, b) && maxIter <= 0
    ensures Solve(A, b, n, maxIter) == Outcome(Zero(n), None, 0)
  {
  }
}

/**
 * The barrier solver (src/parallelJacobi.h). The rows are cut into one
 * contiguous chunk per thread; in every round each thread recomputes its rows
 * from the shared previous iterate and accumulates its share of the norm, and
 * the barrier's completion step reduces the shares, applies the scalar stopping
 * test and either stops every thread or copies the new iterate over the old.
 *
 * Threads are modelled by their effect: within a round the threads touch
 * disjoint rows of the new iterate and disjoint entries of the norm array, and
 * only read the old iterate, so a round is the threads' chunks run one after
 * another in an arbitrary order, followed by the completion step.
 */
module Barrier {
  import opened Utilities
  import opened Jacobi
  import opened Sequential

  function Min(x: int, y: int): int {
    if x < y then x else y
  }

  /** Rows per thread: n / p rounded up. */
  function ChunkSize(n: int, p: int): (c: int)
    requires n >= 0 && p >= 1
    ensures c >= 0 && c * p >= n && (c - 1) * p < n
  {
    if n % p == 0 then n / p else n / p + 1
  }

  /** First row of thread t's chunk. Past the last row for trailing threads. */
  function ChunkLo(n: int, p: int, t: int): int
    requires n >= 0 && p >= 1
  {
    t * ChunkSize(n, p)
  }

  /** One past the last row of thread t's chunk, clamped to n. */
  function ChunkHi(n: int, p: int, t: int): int
    requires n >= 0 && p >= 1
  {
    Min((t + 1) * ChunkSize(n, p), n)
  }

  /**
   * The bounds handed to the threads when they are spawned: the lower bound
   * starts at 0 and the upper at the chunk size, and each advances by the chunk
   * size; only the upper bound is clamped to n.
   */
  method Partition(n: int, p: int) returns (bounds: seq<(int, int)>)
    requires n >= 1 && p >= 1
    ensures |bounds| == p
    ensures forall t :: 0 <= t < p ==> bounds[t] == (ChunkLo(n, p, t), ChunkHi(n, p, t))
  {
    var c := ChunkSize(n, p);
    var up := c;
    var lo := 0;
    bounds := [];
    var t := 0;
    while t < p
      invariant 0 <= t <= p && |bounds| == t
      invariant lo == t * c && up == (t + 1) * c
      invariant forall u :: 0 <= u < t ==> bounds[u] == (ChunkLo(n, p, u), ChunkHi(n, p, u))
    {
      bounds := bounds + [(lo, Min(up, n))];
      lo := up;
      up := up + c;
      t := t + 1;
    }
  }

  /** The thread whose chunk contains row i. */
  function Owner(n: int, p: int, i: int): int
    requires n >= 1 && p >= 1
  {
    i / ChunkSize(n, p)
  }

  lemma MulMonotone(x: int, y: int, c: int)
    requires x <= y && c >= 0
    ensures x * c <= y * c
  {
    assert y * c - x * c == (y - x) * c;
  }

  /** The quotient i / c is the one t with t * c <= i < (t + 1) * c. */
  lemma DivUnique(i: int, c: int, t: int)
    requires i >= 0 && c >= 1
    ensures t * c <= i < (t + 1) * c <==> t == i / c
  {
    var q := i / c;
    assert q * c + i % c == i;
    assert q * c <= i < (q + 1) * c;
    if t < q {
      MulMonotone(t + 1, q, c);
    } else if t > q {
      MulMonotone(q + 1, t, c);
    }
  }

  /**
   * Every row lies in exactly one chunk: row i belongs to thread t precisely
   * when t is its owner, and the owner is one of the p threads.
   */
  lemma ChunkOwner(n: int, p: int, t: int, i: int)
    requires n >= 1 && p >= 1 && 0 <= t && 0 <= i < n
    ensures ChunkLo(n, p, t) <= i < ChunkHi(n, p, t) <==> t == Owner(n, p, i)
    ensures 0 <= Owner(n, p, i) < p
  {
    var c := ChunkSize(n, p);
    assert c >= 1;
    DivUnique(i, c, t);
    var q := i / c;
    DivUnique(i, c, q);
    if q >= p {
      MulMonotone(p, q, c);
    }
  }

  /**
   * The shape of thread t's range: it ends at or before n and holds at most a
   * chunk's worth of rows; it is nonempty exactly when it starts before n, and
   * a trailing range that starts at or past n is empty or inverted.
   */
  lemma ChunkShape(n: int, p: int, t: int)
    requires n >= 1 && p >= 1 && t >= 0
    ensures ChunkHi(n, p, t) <= n
    ensures ChunkHi(n, p, t) - ChunkLo(n, p, t) <= ChunkSize(n, p)
    ensures ChunkLo(n, p, t) < ChunkHi(n, p, t) <==> ChunkLo(n, p, t) < n
  {
    var c := ChunkSize(n, p);
    assert c >= 1;
    assert (t + 1) * c == t * c + c;
  }

  /** No row is written by two threads. */
  lemma ChunksDisjoint(n: int, p: int, t: int, u: int, i: int)
    requires n >= 1 && p >= 1 && 0 <= t < u && 0 <= i < n
    ensures !(ChunkLo(n, p, t) <= i < ChunkHi(n, p, t) && ChunkLo(n, p, u) <= i < ChunkHi(n, p, u))
  {
    ChunkOwner(n, p, t, i);
    ChunkOwner(n, p, u, i);
  }

  /** Every row is written by some thread. */
  lemma ChunksCover(n: int, p: int, i: int)
    requires n >= 1 && p >= 1 && 0 <= i < n
    ensures exists t :: 0 <= t < p && ChunkLo(n, p, t) <= i < ChunkHi(n, p, t)
  {
    ChunkOwner(n, p, Owner(n, p, i), i);
  }

  /** Sum of s[0], ..., s[k-1], accumulated from left to right. */
  function Total(s: seq<real>, k: int): real
    requires 0 <= k <= |s|
  {
    if k == 0 then 0.0 else Total(s, k - 1) + s[k - 1]
  }

  /** The first k chunk norms add up to the norm of the rows those chunks cover. */
  lemma {:induction false} ChunkTotal(x: seq<real>, y: seq<real>, norms: seq<real>, n: int, p: int, k: int)
    requires n >= 1 && p >= 1 && |x| == n && |y| == n && |norms| == p && 0 <= k <= p
    requires forall t :: 0 <= t < p ==> norms[t] == AbsDiffRange(x, y, ChunkLo(n, p, t), ChunkHi(n, p, t))
    ensures Total(norms, k) == AbsDiffRange(x, y, 0, Min(k * ChunkSize(n, p), n))
  {
    if k > 0 {
      ChunkTotal(x, y, norms, n, p, k - 1);
      var c := ChunkSize(n, p);
      var lo := (k - 1) * c;
      assert lo == ChunkLo(n, p, k - 1) && Min(k * c, n) == ChunkHi(n, p, k - 1);
      MulMonotone(k - 1, k, c);
      if lo < n {
        AbsDiffRangeSplit(x, y, 0, lo, Min(k * c, n));
      }
    }
  }

  /**
   * The reduction in the barrier's completion step agrees with the vector form
   * of the test: the chunk norms summed in thread order and divided by n are
   * the mean absolute difference, so the scalar test succeeds exactly when the
   * two iterates have converged.
   */
  lemma ReducedNormIsMean(x: seq<real>, y: seq<real>, norms: seq<real>, n: int, p: int)
    requires n >= 1 && p >= 1 && |x| == n && |y| == n && |norms| == p
    requires forall t :: 0 <= t < p ==> norms[t] == AbsDiffRange(x, y, ChunkLo(n, p, t), ChunkHi(n, p, t))
    ensures Total(norms, p) / n as real == MeanAbsDiff(x, y)
    ensures CheckStoppingCriteriaNorm(Total(norms, p) / n as real) <==> Converged(x, y)
  {
    var c := ChunkSize(n, p);
    assert p * c >= n;
    ChunkTotal(x, y, norms, n, p, p);
    var total := Total(norms, p);
    assert total == AbsDiffRange(x, y, 0, |x|);
  }

  /**
   * The state the worker lambda and the barrier callback share by reference:
   * the two iterates, the per-thread norms, the reduced norm and the round
   * counter, together with the inputs and the chunk bounds every thread gets.
   */
  class BarrierSolver {
    const A: Matrix
    const b: seq<real>
    const n: nat
    const p: nat
    const bounds: seq<(int, int)>
    const oldV: array<real>
    const newV: array<real>
    const norm: array<real>
    var sumNorm: real
    var nrIter: int

    ghost predicate Valid()
      reads this
    {
      && WellFormed(n, A, b) && p >= 1
      && oldV.Length == n && newV.Length == n && norm.Length == p
      && oldV != newV && norm != oldV && norm != newV
      && |bounds| == p
      && forall t :: 0 <= t < p ==> bounds[t] == (ChunkLo(n, p, t), ChunkHi(n, p, t))
    }

    /** Between rounds every partial norm and the reduced norm are zero. */
    ghost predicate Idle()
      reads this, norm
    {
      sumNorm == 0.0 && forall t :: 0 <= t < norm.Length ==> norm[t] == 0.0
    }

    constructor (A: Matrix, b: seq<real>, n: nat, p: nat, maxIter: int, bounds: seq<(int, int)>)
      requires WellFormed(n, A, b) && p >= 1 && |bounds| == p
      requires forall t :: 0 <= t < p ==> bounds[t] == (ChunkLo(n, p, t), ChunkHi(n, p, t))
      ensures Valid() && Idle()
      ensures this.A == A && this.b == b && this.n == n && this.p == p && nrIter == maxIter
      ensures oldV[..] == Zero(n) && newV[..] == Zero(n)
      ensures fresh(oldV) && fresh(newV) && fresh(norm)
    {
      this.A := A;
      this.b := b;
      this.n := n;
      this.p := p;
      this.bounds := bounds;
      oldV := new real[n](_ => 0.0);
      newV := new real[n](_ => 0.0);
      norm := new real[p](_ => 0.0);
      sumNorm := 0.0;
      nrIter := maxIter;
      new;
      assert oldV[..] == Zero(n) && newV[..] == Zero(n);
    }

    /**
     * What thread t does in one round: rows lo <= i < hi are recomputed from the
     * old iterate and |old[i] - new[i]| is added to the thread's own norm entry.
     * An inverted range (a trailing thread whose chunk starts past the last row)
     * does nothing.
     */
    method Compute(lo: int, hi: int, t: int)
      requires Valid() && 0 <= lo && hi <= n && 0 <= t < p
      modifies newV, norm
      ensures forall i :: 0 <= i < n ==>
        newV[i] == if lo <= i < hi then Component(A, b, oldV[..], i) else old(newV[i])
      ensures norm[t] == old(norm[t]) + AbsDiffRange(oldV[..], Step(A, b, oldV[..]), lo, hi)
      ensures forall u :: 0 <= u < p && u != t ==> norm[u] == old(norm[u])
    {
      ghost var x := oldV[..];
      ghost var y := Step(A, b, x);
      var i := lo;
      while i < hi
        invariant lo <= i && (i <= hi || i == lo)
        invariant oldV[..] == x
        invariant forall k :: 0 <= k < n ==> newV[k] == if lo <= k < i then y[k] else old(newV[k])
        invariant norm[t] == old(norm[t]) + AbsDiffRange(x, y, lo, Min(i, hi))
        invariant forall u :: 0 <= u < p && u != t ==> norm[u] == old(norm[u])
      {
        newV[i] := RowValue(A, b, oldV, i);
        norm[t] := norm[t] + Abs(oldV[i] - newV[i]);
        i := i + 1;
      }
    }

    /**
     * Thread t's pass over the chunk it was spawned with: exactly the rows it
     * owns are recomputed, and its norm entry grows by the norm of its chunk.
     */
    method ThreadRound(t: int)
      requires Valid() && 0 <= t < p
      modifies newV, norm
      ensures forall i :: 0 <= i < n ==>
        newV[i] == if Owner(n, p, i) == t then Step(A, b, oldV[..])[i] else old(newV[i])
      ensures norm[t] == old(norm[t]) + AbsDiffRange(oldV[..], Step(A, b, oldV[..]), ChunkLo(n, p, t), ChunkHi(n, p, t))
      ensures forall u :: 0 <= u < p && u != t ==> norm[u] == old(norm[u])
    {
      forall i | 0 <= i < n
        ensures ChunkLo(n, p, t) <= i < ChunkHi(n, p, t) <==> Owner(n, p, i) == t
      {
        ChunkOwner(n, p, t, i);
      }
      Compute(bounds[t].0, bounds[t].1, t);
    }

    /**
     * The barrier's completion step, run once per round after all threads have
     * arrived: the partial norms are added into the reduced norm in thread order
     * and cleared, the sum is divided by n and given to the scalar test. On
     * success the round counter drops to 0; otherwise it is decremented, the new
     * iterate is copied over the old one and the reduced norm is cleared.
     */
    method Callback()
      requires Valid()
      modifies this, norm, oldV
      ensures Valid()
      ensures forall t :: 0 <= t < p ==> norm[t] == 0.0
      ensures newV[..] == old(newV[..])
      ensures var reduced := (old(sumNorm) + Total(old(norm[..]), p)) / n as real;
        if CheckStoppingCriteriaNorm(reduced) then
          nrIter == 0 && sumNorm == reduced && oldV[..] == old(oldV[..])
        else
          nrIter == old(nrIter) - 1 && sumNorm == 0.0 && oldV[..] == newV[..]
    {
      var i := 0;
      while i < p
        modifies this, norm
        invariant 0 <= i <= p
        invariant sumNorm == old(sumNorm) + Total(old(norm[..]), i)
        invariant forall t :: 0 <= t < p ==> norm[t] == if t < i then 0.0 else old(norm[t])
        invariant nrIter == old(nrIter)
      {
        sumNorm := sumNorm + norm[i];
        norm[i] := 0.0;
        i := i + 1;
      }
      sumNorm := sumNorm / n as real;
      if CheckStoppingCriteriaNorm(sumNorm) {
        nrIter := 0;
      } else {
        nrIter := nrIter - 1;
        forall k | 0 <= k < n {
          oldV[k] := newV[k];
        }
        sumNorm := 0.0;
      }
    }

    /**
     * The compute phase of one round: every thread runs its chunk, in the order
     * `s`. Afterwards the new iterate is one Jacobi step from the old one and
     * each thread's norm entry holds the norm of its own chunk.
     */
    method Workers(s: seq<int>)
      requires Valid() && Idle() && IsOrder(s, p)
      modifies newV, norm
      ensures newV[..] == Step(A, b, oldV[..])
      ensures forall t :: 0 <= t < p ==>
        norm[t] == AbsDiffRange(oldV[..], newV[..], ChunkLo(n, p, t), ChunkHi(n, p, t))
    {
      ghost var x := oldV[..];
      ghost var y := Step(A, b, x);
      ghost var done: set<int> := {};
      var m := 0;
      while m < |s|
        invariant 0 <= m <= |s|
        invariant oldV[..] == x
        invariant forall j :: 0 <= j < m ==> s[j] in done
        invariant forall j :: m <= j < |s| ==> s[j] !in done
        invariant forall i :: 0 <= i < n && Owner(n, p, i) in done ==> newV[i] == y[i]
        invariant forall t :: 0 <= t < p ==>
          norm[t] == if t in done then AbsDiffRange(x, y, ChunkLo(n, p, t), ChunkHi(n, p, t)) else 0.0
      {
        var t := s[m];
        ThreadRound(t);
        done := done + {t};
        m := m + 1;
      }
      forall t | 0 <= t < p
        ensures t in done
      {
        assert t in s;
      }
      forall i | 0 <= i < n
        ensures newV[i] == y[i]
      {
        ChunkOwner(n, p, 0, i);
      }
      assert newV[..] == y;
    }

    /**
     * One barrier phase: the compute phase followed by the completion step. The
     * round computes one Jacobi step and stops the solver exactly when the
     * vector form of the test would.
     */
    method Round(s: seq<int>)
      requires Valid() && Idle() && IsOrder(s, p)
      modifies this, newV, norm, oldV
      ensures Valid()
      ensures newV[..] == Step(A, b, old(oldV[..]))
      ensures forall t :: 0 <= t < p ==> norm[t] == 0.0
      ensures if Converged(old(oldV[..]), newV[..]) then
          nrIter == 0 && oldV[..] == old(oldV[..]) && sumNorm == MeanAbsDiff(old(oldV[..]), newV[..])
        else
          nrIter == old(nrIter) - 1 && oldV[..] == newV[..] && Idle()
    {
      Workers(s);
      ReducedNormIsMean(oldV[..], newV[..], norm[..], n, p);
      Callback();
    }
  }

  /**
   * The barrier driver: spawns `nThreads` workers on the chunk bounds and runs
   * rounds while the shared counter, which starts at maxIter, is positive.
   * `schedule(r)` is the order in which the workers' chunks take effect in
   * round r. The returned vector is the one a sequential run would return, and
   * `rounds` counts the barrier phases run, as many as a sequential run executes.
   */
  method ParallelJacobi(maxIter: int, matrixSize: nat, nThreads: nat, A: Matrix, b: seq<real>,
                        schedule: nat -> seq<int>)
    returns (result: seq<real>, ghost rounds: nat)
    requires WellFormed(matrixSize, A, b) && nThreads >= 1
    requires forall r :: IsOrder(schedule(r), nThreads)
    ensures |result| == matrixSize
    ensures result == Solve(A, b, matrixSize, maxIter).solution
    ensures rounds == Solve(A, b, matrixSize, maxIter).rounds
  {
    var bounds := Partition(matrixSize, nThreads);
    var solver := new BarrierSolver(A, b, matrixSize, nThreads, maxIter, bounds);
    if maxIter <= 0 {
      SolveWithoutBudget(A, b, matrixSize, maxIter);
    }
    var round: nat := 0;
    while solver.nrIter > 0
      invariant solver.Valid() && fresh(solver.oldV) && fresh(solver.newV) && fresh(solver.norm)
      invariant solver.A == A && solver.b == b && solver.n == matrixSize && solver.p == nThreads
      invariant solver.nrIter > 0 ==>
        && solver.Idle()
        && solver.nrIter == maxIter - round
        && RunFrom(A, b, solver.oldV[..], solver.newV[..], round, maxIter) == Solve(A, b, matrixSize, maxIter)
      invariant solver.nrIter <= 0 ==>
        && solver.newV[..] == Solve(A, b, matrixSize, maxIter).solution
        && round == Solve(A, b, matrixSize, maxIter).rounds
      decreases solver.nrIter
    {
      ghost var x := solver.oldV[..];
      ghost var y := Step(A, b, x);
      solver.Round(schedule(round));
      assert solver.newV[..] == y;
      round := round + 1;
    }
    result := solver.newV[..];
    rounds := round;
  }

  /**
   * The pinned barrier driver. It differs from `ParallelJacobi` only in each
   * worker first asking the operating system to bind it to CPU t, which
   * changes where the threads run and not what they compute.
   */
  method ParallelJacobiPinned(maxIter: int, matrixSize: nat, nThreads: nat, A: Matrix, b: seq<real>,
                              schedule: nat -> seq<int>)
    returns (result: seq<real>, ghost rounds: nat)
    requires WellFormed(matrixSize, A, b) && nThreads >= 1
    requires forall r :: IsOrder(schedule(r), nThreads)
    ensures |result| == matrixSize
    ensures result == Solve(A, b, matrixSize, maxIter).solution
    ensures rounds == Solve(A, b, matrixSize, maxIter).rounds
  {
    result, rounds := ParallelJacobi(maxIter, matrixSize, nThreads, A, b, schedule);
  }
}

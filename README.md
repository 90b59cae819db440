# Jacobi linear solver — a verified model

This project models the computational core of a C++ Jacobi solver for a linear
system `A x = b`. The solver has four drivers:

- a sequential one;
- two barrier-threaded ones, one of which pins each worker to a CPU;
- one built on FastFlow's parallel-for.

All four start from the zero vector and run up to `maxIter` rounds. In each
round every row is recomputed as
`new[i] = (b[i] - Σ_{j≠i} A[i][j]·old[j]) / A[i][i]`. After the round a
stopping test runs: the mean absolute difference of the old and new vectors is
compared with `EPSILON = 1e-11`. The drivers stop after the first round whose
test succeeds; otherwise they copy the new vector over the old one and run the
next round.

Single-precision `float` is modelled by `real`.

Threads are modelled by their effect:

- In a barrier round, every worker writes only the rows of its own chunk and
  its own entry of the partial-norm array, and only reads the old vector. A
  round is therefore the workers' chunks taking effect one after another, in
  an order chosen by the caller (any permutation of the threads), followed by
  the barrier's completion step.
- FastFlow's parallel-for is treated the same way: its iterations take effect
  one after another, in any permutation of the rows.

The drivers take these orders as a parameter, one per round.

Modules:

- `Utilities` (utilities.dfy): the stopping test, in both of its forms.
- `Jacobi` (jacobi.dfy): the mathematics the drivers share. It defines:
  - `Step`, one round on a whole vector;
  - `Iterate`, its k-fold application;
  - `RunFrom` and `Solve`, the outcome of the bounded loop with early exit;
  - `Loop`, a generic bounded loop with early exit over an abstract run.

  `Solve` is proved equal to `Loop` over the iterates of the zero vector, and
  the drivers are proved against `Solve`.
- `Sequential` (sequential_jacobi.dfy): the row computation, one round on two
  arrays, and the sequential driver.
- `Barrier` (parallel_jacobi.dfy) contains:
  - the chunk partition and its arithmetic;
  - a class `BarrierSolver` holding the state the worker lambda and the barrier
    callback share by reference: both vectors, the partial norms, the reduced
    norm and the round counter;
  - the two barrier drivers.
- `FastFlow` (fflow_jacobi.dfy): the parallel-for round and the FastFlow
  driver.

Every driver is proved to return `Solve(A, b, n, maxIter).solution`. So all
four drivers return the same vector for the same inputs, whatever the thread
or iteration order.

## Model

| member | source | states |
|---|---|---|
| Utilities.CheckStoppingCriteriaNorm | src/utilities.h:103-105 | the scalar form: a norm passes when it is at most EPSILON. Its partner is the vector form: `CheckStoppingCriteria` and `Barrier.ReducedNormIsMean` prove that both forms decide alike on the mean difference |
| Utilities.CheckStoppingCriteria | src/utilities.h:76-83 | the vector form sums \|a[i]-b[i]\| over the indices of `a` and divides by \|a\|. It answers exactly `Converged(a, b)`: the scalar form applied to that mean |
| Utilities.ThresholdInclusive | src/utilities.h:103-105 | the scalar threshold is inclusive: EPSILON itself passes, and a norm passes exactly when it is at most EPSILON. This only unfolds the bare comparison; the agreement with the vector form is the real property |
| Utilities.IdenticalVectorsConverge | src/utilities.h:76-83 | two identical vectors have mean difference 0 and pass the test |
| Utilities.ConvergedSymmetric | src/utilities.h:78-79 | swapping the old and new vector gives the same norm and the same answer |
| Utilities.ConvergedReadsPrefix | src/utilities.h:78-80 | only the entries of `b` below \|a\| are read: two `b`s agreeing there give the same norm and answer |
| Utilities.LargeComponentBlocksConvergence | src/utilities.h:78-82 | one component differing by more than \|a\|·EPSILON makes the mean exceed EPSILON and the test fail |
| Jacobi.Component | src/sequentialJacobi.h:41-48 | row i's new value: b[i] minus the off-diagonal products, divided by the diagonal entry |
| Jacobi.Step | src/sequentialJacobi.h:41-49 | one round on a whole vector: every row recomputed from the same previous vector. The result has the input's length |
| Jacobi.ComponentSkipsDiagonal | src/sequentialJacobi.h:41-48 | the new value of row i never reads old[i]: previous iterates that differ only at i give the same new value |
| Jacobi.FixedPointSolvesSystem | src/sequentialJacobi.h:41-48 | a round leaves a vector unchanged exactly when it satisfies every equation of A x = b (both directions) |
| Jacobi.Iterate | src/sequentialJacobi.h:40-57 | the vector held after k rounds without early exit, starting from `x` |
| Jacobi.IterateNext | src/sequentialJacobi.h:56-57 | after k rounds the previous iterate is the k-fold step from the start, and one more round gives the (k+1)-fold step |
| Jacobi.RunFrom | src/sequentialJacobi.h:40-60 | the driver loop returns a vector of the same length as the iterates |
| Jacobi.LoopCharacterized | src/sequentialJacobi.h:40-58 | a bounded loop with early exit stops in the first round whose test succeeds, returning that round's vector and round count; with no such round below maxIter it runs max(maxIter, 0) rounds and returns the vector it last held |
| Jacobi.RunFromIsLoop | src/sequentialJacobi.h:40-58 | the driver loop, started from the i-th iterate, equals the generic loop over the iterates and the tests between consecutive ones |
| Jacobi.Solve | src/sequentialJacobi.h:33-60 | the outcome of a run from the zero vector with at most maxIter rounds: the returned vector, the 0-based round whose test succeeded (if any) and the number of rounds run. Every driver is proved against it |
| Jacobi.SolveCharacterized | src/sequentialJacobi.h:33-60 | a run from zero has length n and runs at most max(maxIter, 0) rounds. If the test first succeeds in round k (k < maxIter), the run returns the (k+1)-th iterate after k+1 rounds, and no earlier round's test succeeded. Otherwise no round below maxIter succeeds, and the run returns the max(maxIter, 0)-th iterate |
| Jacobi.SolveWithoutBudget | src/sequentialJacobi.h:33-40 | with maxIter <= 0 nothing runs: the zero vector, no convergence round, 0 rounds |
| Sequential.RowValue | src/sequentialJacobi.h:41-48 | the two inner loops and the division give row i's Jacobi value from the old vector |
| Sequential.JacobiRound | src/sequentialJacobi.h:41-49 | after the row loop the new array is one Jacobi step of the old one, which is left unchanged |
| Sequential.SeqJacobi | src/sequentialJacobi.h:31-61 | returns a vector of length matrixSize, equal to the run's result. The iteration counter receives the 0-based round in which the test succeeded; when no round succeeds it keeps the caller's value. The rounds the loop executes equal `Solve(...).rounds`, so at most max(maxIter, 0) rounds run (by `SolveCharacterized`) |
| Barrier.ChunkSize | src/parallelJacobi.h:116 | the chunk size is the ceiling of matrixSize / n_threads: p chunks cover n rows and one row fewer per chunk would not |
| Barrier.ChunkLo | src/parallelJacobi.h:118-130 | thread t's lower bound: t chunks past row 0, never clamped to n |
| Barrier.ChunkHi | src/parallelJacobi.h:118-130 | thread t's upper bound: (t+1) chunks past row 0, clamped to n |
| Barrier.Owner | src/parallelJacobi.h:116-130 | the thread whose range holds row i: i divided by the chunk size (see `ChunkOwner`) |
| Barrier.Partition | src/parallelJacobi.h:118-131 | the spawn loop hands thread t the bounds (t·chunk, min((t+1)·chunk, n)) |
| Barrier.ChunkShape | src/parallelJacobi.h:128-130 | every range ends at or before n and holds at most one chunk of rows; a range is nonempty exactly when it starts before n, so trailing ranges are empty or inverted |
| Barrier.ChunkOwner | src/parallelJacobi.h:126-131 | row i lies in thread t's range exactly when t is i / chunk, and that thread is one of the n_threads |
| Barrier.ChunksDisjoint | src/parallelJacobi.h:126-131 | no row lies in the ranges of two different threads |
| Barrier.ChunksCover | src/parallelJacobi.h:126-131 | every row lies in the range of some thread |
| Barrier.ChunkTotal | src/parallelJacobi.h:97-107 | the first k per-thread norms add up to the norm of the rows those chunks cover |
| Barrier.ReducedNormIsMean | src/parallelJacobi.h:78-83 | the per-thread norms added in thread order and divided by n are the mean absolute difference, so the scalar test in the callback decides exactly as the vector form would |
| Barrier.BarrierSolver.constructor | src/parallelJacobi.h:68-73 | both vectors start at zero, the partial norms and the reduced norm at 0, the counter at maxIter |
| Barrier.BarrierSolver.Compute | src/parallelJacobi.h:97-108 | a thread's pass over [lo, hi) sets exactly those rows to their Jacobi values. Its own norm entry grows by the norm of those rows; other entries and rows are unchanged. An inverted range does nothing |
| Barrier.BarrierSolver.ThreadRound | src/parallelJacobi.h:94-110 | thread t, on the bounds it was spawned with, recomputes exactly the rows it owns |
| Barrier.BarrierSolver.Workers | src/parallelJacobi.h:94-112 | after every thread's pass, in any order, the new vector is one Jacobi step of the old one and each norm entry is the norm of its thread's chunk |
| Barrier.BarrierSolver.Callback | src/parallelJacobi.h:76-91 | the partial norms are added into the reduced norm and cleared, and the sum is divided by n. If the test succeeds, the counter becomes 0 and the old vector is kept. Otherwise the counter drops by one, the new vector is copied over the old one and the reduced norm is cleared |
| Barrier.BarrierSolver.Round | src/parallelJacobi.h:76-112 | one barrier phase computes one Jacobi step and leaves every partial norm at 0. It stops the solver exactly when the vector-form test on the two vectors succeeds: the counter becomes 0, the old vector is kept and the reduced norm holds the mean difference. Otherwise the counter drops by one, the new vector becomes the old and the reduced norm is 0 |
| Barrier.ParallelJacobi | src/parallelJacobi.h:66-138 | for any thread order in each round, returns a vector of length matrixSize equal to the run's result (the zero vector when maxIter <= 0). The barrier phases it runs equal `Solve(...).rounds`, so at most max(maxIter, 0) |
| Barrier.ParallelJacobiPinned | src/parallelJacobi.h:140-223 | the pinned driver returns the same vector, after the same number of phases, as the unpinned one |
| FastFlow.ParallelRound | src/fflowJacobi.h:45-53 | whatever the order of the parallel-for's iterations, the new array is one Jacobi step of the old one |
| FastFlow.FflowJacobi | src/fflowJacobi.h:32-64 | for any iteration order in each round, returns a vector of length matrixSize equal to the run's result. The rounds it executes equal `Solve(...).rounds`, so at most max(maxIter, 0) |

## Left out

- Threads, the `std::barrier` and the joins are concurrency. A round is modelled as the workers' chunks taking effect one after another in a caller-chosen order, followed by the completion step. This is sound because the workers write disjoint rows and disjoint norm entries and only read the old vector.
- Barrier.ParallelJacobiPinned: does not model the CPU affinity request (`pthread_setaffinity_np`, src/parallelJacobi.h:172-180). That is an operating-system call, and so is its error message. The request also reads the thread handle, which the spawning loop may not have stored yet.
- `computingOverhead` (src/parallelJacobi.h:225-253) only spawns, joins and times empty threads.
- Timing: `utimer` and the `time` out-parameter of every driver are wall-clock I/O and are not modelled.
- FastFlow's `ParallelFor` is a foreign library. The model keeps only its contract: the body runs once for each row in [0, n), in some order. The worker count only affects that order, so `nThreads` is otherwise unused.
- Floating-point rounding: `float` and `double` are modelled by `real`.
  - The barrier solver sums the partial norms in a different order than the vector form. The two sums are equal only in exact arithmetic.
  - That Jacobi converges for diagonally dominant matrices is not modelled.
- `EPSILON` is a fixed constant in the code; the tolerance is not a parameter of any driver, so no property relating two tolerances is stated.
- `matrixGenerator` and `RHSVectorGenerator` use `rand()`. Printing, `speedup`, `efficiency`, `scalability` and the two `main` programs (argument parsing, console output) are not part of this model.
- The code has no error results. The conditions it relies on are preconditions in the model: a nonzero diagonal, an n×n matrix with n >= 1 (with n = 0 the stopping test would divide 0 by 0), a right-hand side of length n, and, for the two barrier drivers, at least one thread (they divide by the thread count). The FastFlow driver puts no condition on its worker count.
- When no round converges, the sequential driver does not write `*nrIter`; the model returns the caller's value unchanged.
- The chunk lower bound is not clamped, so trailing ranges may be empty or inverted (n = 5 and 4 threads: the chunk size is 2 and thread 3 gets [6, 5)); a thread with such a range computes nothing and contributes 0 to the norm.

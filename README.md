# SLAESolver core in Dafny

A model of the numerical core of SLAESolver, a small desktop tool with two
jobs. It finds a root of a user-entered equation f(x) = 0 on a bracket
[a, b], by bisection or by the chord (false position) method. It solves a
system of linear equations A x = b, by Gaussian elimination with partial
pivoting or by Gauss-Seidel iteration. A registry keyed by the
lower-cased class name holds the linear solvers and lists them as
(id, display name) choices.

Every solver keeps the shape it has in the source.

- `RootFinding.RootFinder` and `Slae.SLAESolver` are classes. Their
  history is the field that the algorithms update in place.
- The subclass methods `find_root` and `solve` are methods over those
  objects. Each has its `while` loops, loop invariants and early exits.
- Gaussian elimination works in place on `array2`/`array` copies of A
  and b.
- Gauss-Seidel overwrites `x[i]` in place within a sweep and appends a
  copy of `x` to the solver's history after every sweep.
- The registry is a class holding a map and its insertion order.

Each method is proved against a specification on values. The properties
the source promises are then proved about that specification:

- `Bisection.Finished` and `Chord.Finished` describe a run as a chain of
  pass records and one final record.
- For Gauss, any returned x solves A x = b. A zero pivot means A x = 0
  has a nonzero solution.
- For Seidel, `Sweep`, `KthIterate`, `StopsAfter` and `Ran` describe the
  run, alongside the per-component sweep equations.
- For the registry, the contracts speak of `Lower`, `Title`, `Inserted`
  and `Choices`.

Numbers are exact reals. The user's equation is an abstract total function
`f: real -> real`.

### The identity system takes two sweeps

Gauss-Seidel on an identity matrix stops after the second sweep, not the
first. The first sweep moves x from the zero vector to b. Its change is
the largest |b[k]|, and with the default tolerance 1e-6 and a b such as
[1, 1, 1] that change is not below the tolerance. The second sweep
changes nothing, so the loop stops there, returns b and leaves two
entries in the history. `Zeidel.IdentityStopsAfterTwo` proves this for
every identity system whose b has some component with |b[k]| >= tol,
every positive tolerance and every bound maxIter >= 2.

## Model

| member | source | states |
|---|---|---|
| RootFinding.RootFinder.constructor | methods/root_finder.py:7-19 | stores the function, the tolerance (default 1e-6) and the iteration bound (default 100); the history starts empty |
| RootFinding.RootFinder.CheckInterval | methods/root_finder.py:46-48 | true exactly when f has strictly opposite signs at the two ends; a zero of f at either end is rejected |
| RootFinding.RootFinder.CheckIntervalSymmetric | methods/root_finder.py:48 | the sign test does not depend on the order of the ends |
| RootFinding.Narrow | methods/bisection_method.py:44-47 | the kept half is [a, p] or [p, b] and still brackets the sign change; with p strictly inside, exactly one end moves and the new bracket nests in the old one with the same orientation (also the chord method's rule, methods/chord_method.py:48-51) |
| Bisection.ChainExtend | methods/bisection_method.py:28-37 | appending a pass record for the current bracket keeps the history a valid chain of passes |
| Bisection.Advance | methods/bisection_method.py:44-47 | after a pass with no exact root, the kept half is the next bracket of the chain and keeps the sign change |
| Bisection.FinishedAtRoot | methods/bisection_method.py:40-41 | on the exact-root break, the final record repeats the last pass and the result is a finished run |
| Bisection.FinishedAtExit | methods/bisection_method.py:52-71 | on the width or bound exit, the final record reports the current bracket and the result is a finished run |
| Bisection.ChainWidth | methods/bisection_method.py:26-47 | the bracket of pass k is (b0 - a0) / 2^k wide: every narrowing halves the width |
| Bisection.ChainNested | methods/bisection_method.py:44-47 | every bracket lies inside [a0, b0] and keeps its orientation |
| Bisection.PassFacts | methods/bisection_method.py:28-37 | the bracket of pass k keeps the sign change, is (b0 - a0) / 2^k wide and lies inside [a0, b0] |
| Bisection.NarrowedFacts | methods/bisection_method.py:44-49 | the half kept after pass k keeps the sign change, is (b0 - a0) / 2^(k+1) wide and lies inside [a0, b0] |
| Bisection.FinishedFacts | methods/bisection_method.py:52-71 | the final bracket keeps the sign change and is (b0 - a0) / 2^n wide after n narrowings; the tolerance is its width; the root is its midpoint, inside it and inside [a0, b0]; after an exact-root exit f(root) == 0 |
| Bisection.FinishedWithoutPasses | methods/bisection_method.py:24-63 | an initial bracket no wider than the tolerance (a0 > b0 included when tol >= 0) runs no pass: the history is one record, iter 0, for [a0, b0] |
| Bisection.FindRoot | methods/bisection_method.py:6-71 | fails exactly when the interval check fails, with both end values and an empty history; otherwise returns a finished run whose history is the finder's |
| Bisection.Iterate | methods/bisection_method.py:22-71 | the loop and final record: the result is a finished run, and iterations <= maxIter, the history length and the exit conditions are as Finished states |
| Chord.ChordPoint | methods/chord_method.py:26 | while f(a) and f(b) have opposite signs the denominator is nonzero, the chord through the end points vanishes at the point, and the point lies strictly inside the bracket |
| Chord.ChainExtend | methods/chord_method.py:32-41 | appending a pass record for the current state keeps the history a valid chain of passes |
| Chord.Advance | methods/chord_method.py:48-56 | after a pass with no exact root, the kept bracket is the chain's next bracket, keeps the sign change, and the pass's chord point becomes the previous approximation |
| Chord.FinishedAtRoot | methods/chord_method.py:44-45 | on the exact-root break, the final record repeats the last pass and the result is a finished run |
| Chord.FinishedAtExit | methods/chord_method.py:60-77 | on the delta or bound exit, the final record reports the current state and the result is a finished run |
| Chord.ChainNested | methods/chord_method.py:48-54 | every bracket lies inside [a0, b0] and keeps its orientation, and its chord point lies strictly inside it |
| Chord.NarrowedFacts | methods/chord_method.py:48-51 | the bracket kept after pass k lies inside [a0, b0] |
| Chord.FinishedFacts | methods/chord_method.py:60-77 | the final bracket keeps the sign change and lies inside [a0, b0]; the root is its chord point, strictly inside it and inside [a0, b0]; the tolerance is the distance from the root to the approximation before it; after an exact-root exit f(root) == 0 |
| Chord.FinishedWithoutPasses | methods/chord_method.py:23-31 | when the first chord point is within the tolerance of a0 no pass runs; the first delta is measured against a0 |
| Chord.FindRoot | methods/chord_method.py:6-77 | fails exactly when the interval check fails, with both end values and an empty history; otherwise returns a finished run whose history is the finder's |
| Chord.Iterate | methods/chord_method.py:22-77 | the loop and final record: the result is a finished run, and iterations <= maxIter, the history length and the exit conditions are as Finished states |
| Slae.SLAESolver.constructor | methods/slae_solver.py:4-9 | stores A and b themselves, the tolerance (default 1e-6) and the bound (default 100), with an empty history |
| Gauss.SwapImplies | methods/gauss_method.py:12-13 | exchanging two equations gains no solution: every solution of the swapped system solves the original one |
| Gauss.SwapPreserves | methods/gauss_method.py:12-13 | exchanging two equations loses no solution: every solution of the original system solves the swapped one |
| Gauss.SubtractImplies | methods/gauss_method.py:16-18 | subtracting a multiple of one equation from another gains no solution: every solution of the new system solves the original one |
| Gauss.SubtractPreserves | methods/gauss_method.py:16-18 | subtracting a multiple of one equation from another loses no solution: every solution of the original system solves the new one |
| Gauss.ArgMaxAbs | methods/gauss_method.py:11 | the pivot row is the first index of a largest absolute value |
| Gauss.FirstLargestUnique | methods/gauss_method.py:11 | being the first index of a largest absolute value holds of exactly one index, the one ArgMaxAbs returns |
| Gauss.SwapRows | methods/gauss_method.py:12-13 | rows i and p of A and entries i and p of b are exchanged and nothing else moves |
| Gauss.SubtractScaled | methods/gauss_method.py:17 | row j becomes row j minus ratio times row i in the columns from i on; other rows and earlier columns are untouched |
| Gauss.SubtractRow | methods/gauss_method.py:16-18 | with ratio = A[j][i] / A[i][i], row j and b[j] drop ratio times row i and b[i]; A[j][i] becomes zero; every other row is untouched |
| Gauss.BackSubstitutionRow | methods/gauss_method.py:22 | once x[k] is chosen from the already solved components, row k of the triangular system holds |
| Gauss.BackSubstitute | methods/gauss_method.py:20-22 | on an upper-triangular matrix with a nonzero diagonal, the x filled from the bottom up has length n and solves the eliminated system |
| Gauss.EliminateBelow | methods/gauss_method.py:15-18 | column i becomes zero below row i; rows up to i are untouched; every solution of the new system, and every solution of the new homogeneous system, solves the old one |
| Gauss.EliminationStep | methods/gauss_method.py:11-18 | the returned row p is the first row from i down with the largest abs(M[p][i]), and it becomes row i (with v[p]); a zero pivot is reported exactly when A[i][i] == 0, and then the column is zero from row i down; otherwise column i is cleared below the pivot; earlier rows are untouched, and every solution of the new system (with v or with zero on the right) solves the old one, so no solution is gained |
| Gauss.NullVector | methods/gauss_method.py:11-16 | a zero pivot column gives a solution of A x = 0 with x[i] == 1, so A is singular |
| Gauss.Solve | methods/gauss_method.py:7-23 | works on copies and leaves A, b and the history untouched; a returned x solves A x = b for the original A and b; a failure is a zero pivot at some step below n, and then A is singular |
| Zeidel.CheckDominance | methods/zeidel_method.py:17-22 | the warning is raised exactly when some row is not strictly dominated by its diagonal entry |
| Zeidel.FirstZeroDiagonal | methods/zeidel_method.py:12-14 | finds the first row with a zero diagonal entry, or none exactly when the whole diagonal is nonzero |
| Zeidel.ComponentEquation | methods/zeidel_method.py:30 | the computed component is the one value satisfying A[i][i] x[i] == b[i] - s1 - s2 |
| Zeidel.SweepComponent | methods/zeidel_method.py:27-30 | component k of the sweep is computed from the sweep's own earlier components and the old vector's later ones |
| Zeidel.SweepSatisfies | methods/zeidel_method.py:26-30 | the sweep satisfies every row's sweep equation: new components to the left of the diagonal, old ones to the right |
| Zeidel.SweepUnique | methods/zeidel_method.py:26-30 | with a nonzero diagonal, any vector satisfying the sweep equations is the sweep |
| Zeidel.RowEquation | methods/zeidel_method.py:28-30 | row i's sweep equation against one vector on both sides is row i of A x = b |
| Zeidel.FixedPointIffSolution | methods/zeidel_method.py:26-30 | a vector is left unchanged by a sweep exactly when it solves A x = b |
| Zeidel.SweepInPlace | methods/zeidel_method.py:26-30 | overwriting x[i] in index order with a copy of the old x leaves exactly the sweep of the old vector |
| Zeidel.MaxAbsDiff | methods/zeidel_method.py:32 | the infinity norm of x - y: no component differs by more, and some component differs by exactly that much |
| Zeidel.StopsAfterUnique | methods/zeidel_method.py:25-33 | the stopping rule fixes exactly one sweep count |
| Zeidel.IdentitySweep | methods/zeidel_method.py:26-30 | on the identity matrix a sweep from any vector gives b |
| Zeidel.IdentityStopsAfterTwo | methods/zeidel_method.py:24-33 | on the identity, with 0 < tol <= abs(b[k]) for some k and maxIter >= 2, the loop stops after the second sweep and not after the first, returning b |
| Zeidel.RanFacts | methods/zeidel_method.py:24-34 | after a run, at most maxIter entries were appended; the result is the last appended entry when maxIter >= 1 and the zero vector otherwise; every entry satisfies the sweep equations against the one before it, the zero vector before the first |
| Zeidel.RanWhenConverged | methods/zeidel_method.py:32-33 | stopping because sweep k + 1 passed the test, after k sweeps that did not, is the run the stopping rule describes |
| Zeidel.RanWhenExhausted | methods/zeidel_method.py:25 | stopping after maxIter sweeps that all failed the test (or none, when maxIter <= 0) is the run the stopping rule describes |
| Zeidel.Solve | methods/zeidel_method.py:7-34 | a zero diagonal entry fails first, at the first such row, with the history untouched and no warning; otherwise the warning flag is set exactly when A is not strictly diagonally dominant, and the sweeps run; A and b are only read |
| Zeidel.Iterations | methods/zeidel_method.py:24-34 | with n == 0 one empty sweep is appended and the norm of the empty change fails (nothing happens when maxIter < 1); with n > 0 the result and the history are the run the stopping rule describes |
| Zeidel.Step | methods/zeidel_method.py:26-33 | one pass: x advances to the next iterate, exactly that iterate is appended to the history, and the test passes exactly when that sweep converged |
| Zeidel.Converge | methods/zeidel_method.py:24-34 | from the zero vector: sweeps appended one by one until the first sweep whose change is below the tolerance, or maxIter sweeps; the history keeps the entries it had before |
| Registry.Lower | utils/method_register.py:10 | lower-cases every letter, keeps every letter a letter, and leaves everything else alone |
| Registry.LowerIdempotent | utils/method_register.py:10 | lower-casing a key again changes nothing |
| Registry.SameKeyIffSameLetters | utils/method_register.py:10 | two class names collide on one key exactly when they differ only in letter case |
| Registry.Title | utils/method_register.py:19 | the first letter of each run of letters becomes upper case and the others lower case; non-letters stay as they are |
| Registry.TitleIgnoresCase | utils/method_register.py:19 | the title of a key equals the title of the class name it came from |
| Registry.TitleIdempotent | utils/method_register.py:19 | title-casing twice is title-casing once |
| Registry.Inserted | utils/method_register.py:10 | a new key goes last, an existing key keeps its place, earlier keys do not move, the count grows only for a new key, and no key repeats |
| Registry.Choices | utils/method_register.py:19 | one (key, name) pair per key in insertion order; the name is display_name or the title-cased key; every key listed once |
| Registry.SLAEMethodRegistry.constructor | utils/method_register.py:4 | the registry starts empty |
| Registry.SLAEMethodRegistry.GetMethod | utils/method_register.py:14-15 | the stored class exactly when id is a key, None otherwise |
| Registry.SLAEMethodRegistry.Register | utils/method_register.py:6-11 | refuses a class not derived from SLAESolver with a TypeError and no change; otherwise stores it under its lower-cased name, overwriting any class there, keeps the key order free of repeats, returns the class, makes get_method of its key return it, and changes no other lookup |
| Registry.SLAEMethodRegistry.GetMethodChoices | utils/method_register.py:17-19 | one pair per registered key in insertion order, each key once, named by display_name or the title-cased key |
| Registry.RegisteredKeys | main.py:8-9 | the two solver classes register under gaussmethod and zeidelmethod |
| Registry.RegisteredChoices | main.py:8-9 | after the two registrations get_method_choices lists Gauss then Seidel, each under its display name |
| Registry.RegisterBoth | main.py:8-9 | registering GaussMethod and then ZeidelMethod into the empty registry leaves both, in that order, under their lower-cased ids |

## Left out

- The tkinter windows, forms, tables and plots (gui/), including the `np.polyfit` trend line: user interface and floating-point curve fitting.
- Equation parsing with `eval` and the interface's own looser sign check: f is an abstract total `real -> real`, and exceptions raised inside f are not modelled.
- main.py beyond its two `register` calls. As written, main.py imports `SLAESolverApp` from gui/app_window.py, which defines only `RootFindingApp`, so the import fails before the registrations run. No interface file calls `get_method_choices`. The Registry.Registered* and Registry.RegisterBoth members therefore describe the two `register` calls on an empty registry, not a running program.
- Floating-point rounding, inf and NaN: all arithmetic is over exact reals, and integers are unbounded.
- Bisection.FindRoot / Chord.FindRoot: the ValueError becomes a `NoSignChange` failure carrying both ends and both function values; the message text is not modelled.
- Chord.ChordPoint: requires the sign change, which every call site has; the source's division by a zero f(b) - f(a) cannot occur there and is not modelled.
- Gauss.Solve: the source divides by a zero pivot and returns inf/NaN entries; the model stops with a `ZeroPivot` failure at the first zero pivot instead and proves the matrix singular there.
- Gauss.Solve: does not prove the converse, that a successful run implies A is nonsingular (uniqueness of the solution).
- Gauss.EliminationStep / Gauss.EliminateBelow: carry only the direction Solve needs, new system to old. That each row operation also keeps every old solution is proved per operation (Gauss.SwapPreserves, Gauss.SubtractPreserves) but not threaded through a whole step.
- Zeidel.Solve: the printed dominance warning is the returned flag `warned`; the ValueError for a zero diagonal entry is a `ZeroDiagonal` failure carrying the row, without the message text.
- Zeidel.Iterations: numpy refuses the infinity norm of an empty vector; for n == 0 this is the `EmptyNorm` failure after the first empty sweep is appended.
- Registry.Lower / Registry.Title: only the ASCII letters A-Z and a-z are cased; Python's Unicode-wide case mapping is not modelled.
- Registry.Register: `issubclass(method_class, SLAESolver)` is the class's `isSolver` flag and `getattr(..., "display_name", ...)` is its `displayName` option; Python's class objects and attribute lookup are not modelled.
- The registry's class-level dictionary is one `SLAEMethodRegistry` object; sharing it across the program is left to the caller.

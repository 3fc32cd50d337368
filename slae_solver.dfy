/** The state shared by the linear-system solvers (class SLAESolver): the
    matrix A and right-hand side b, held by reference; the tolerance and
    iteration bound; and the history of intermediate solution vectors. */
module Slae {

  /** The tolerance a solver gets when its caller names none. */
  const DefaultTol: real := 0.000001

  /** The iteration bound a solver gets when its caller names none. */
  const DefaultMaxIter: int := 100

  /** Why a solve stops without a solution. ZeroPivot: Gaussian elimination
      met a zero pivot at step i, where the source divides by it.
      ZeroDiagonal: the Seidel solver's guard found A[i][i] == 0.
      EmptyNorm: the Seidel solver's convergence test took the maximum of an
      empty vector, which numpy refuses. */
  datatype SolveError = ZeroPivot(step: nat) | ZeroDiagonal(row: nat) | EmptyNorm

  class SLAESolver {
    const A: array2<real>
    const b: array<real>
    const tol: real
    const maxIter: int
    var history: seq<seq<real>>

    /** Stores A and b themselves, not copies; starts with an empty history. */
    constructor (A: array2<real>, b: array<real>, tol: real := DefaultTol, maxIter: int := DefaultMaxIter)
      ensures this.A == A && this.b == b
      ensures this.tol == tol && this.maxIter == maxIter
      ensures history == []
    {
      this.A := A;
      this.b := b;
      this.tol := tol;
      this.maxIter := maxIter;
      history := [];
    }

    /** A is square and b has one entry per row: the shape both solvers
        index by. */
    predicate IsSquareSystem()
    {
      A.Length0 == A.Length1 == b.Length
    }
  }
}

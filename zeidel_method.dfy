/** ZeidelMethod.solve: Gauss-Seidel iteration. A guard against a zero
    diagonal entry, an advisory check for strict diagonal dominance, then
    sweeps from the zero vector that overwrite x[i] in index order, each
    appending a copy of x to the solver's history, until the largest change
    of a component falls below the tolerance or the iteration bound is
    reached. */
module Zeidel {
  import opened Wrappers
  import opened Numbers
  import opened Matrices
  import opened Slae

  // ---------------------------------------------------------------------
  // The advisory dominance check

  /** |row[j]| summed over j < hi, j != i, left to right. */
  function OffDiagonalRange(row: seq<real>, i: nat, hi: nat): (s: real)
    requires hi <= |row|
    ensures s >= 0.0
  {
    if hi == 0 then 0.0
    else OffDiagonalRange(row, i, hi - 1) + (if hi - 1 == i then 0.0 else Abs(row[hi - 1]))
  }

  /** The sum of the absolute values of row's entries off the diagonal
      position i. */
  function OffDiagonalSum(row: seq<real>, i: nat): real
  {
    OffDiagonalRange(row, i, |row|)
  }

  /** Row i of a matrix is strictly dominated by its diagonal entry. */
  predicate DominantRow(row: seq<real>, i: nat)
    requires i < |row|
  {
    Abs(row[i]) > OffDiagonalSum(row, i)
  }

  predicate StrictlyDominant(M: seq<seq<real>>)
  {
    forall i :: 0 <= i < |M| ==> i < |M[i]| && DominantRow(M[i], i)
  }

  /** Scans the rows in order and stops at the first that is not strictly
      dominated by its diagonal entry; the result says whether the warning
      is printed. */
  method CheckDominance(A: array2<real>) returns (warned: bool)
    requires A.Length0 == A.Length1
    ensures warned <==> !StrictlyDominant(Rows(A))
  {
    var n := A.Length0;
    var i := 0;
    while i < n
      invariant 0 <= i <= n
      invariant forall k :: 0 <= k < i ==> DominantRow(Row(A, k), k)
    {
      var diag := Abs(A[i, i]);
      var offDiagSum := OffDiagonalSum(Row(A, i), i);
      if diag <= offDiagSum {
        assert !DominantRow(Rows(A)[i], i);
        return true;
      }
      i := i + 1;
    }
    return false;
  }

  // ---------------------------------------------------------------------
  // The zero-diagonal guard

  predicate NonzeroDiagonal(M: seq<seq<real>>)
  {
    forall i :: 0 <= i < |M| && i < |M[i]| ==> M[i][i] != 0.0
  }

  /** The first row whose diagonal entry is zero, if there is one. */
  method FirstZeroDiagonal(A: array2<real>) returns (r: Option<nat>)
    requires A.Length0 == A.Length1
    ensures r.None? <==> NonzeroDiagonal(Rows(A))
    ensures r.Some? ==> && r.value < A.Length0 && A[r.value, r.value] == 0.0
                        && forall i :: 0 <= i < r.value ==> A[i, i] != 0.0
  {
    var n := A.Length0;
    var i := 0;
    while i < n
      invariant 0 <= i <= n
      invariant forall k :: 0 <= k < i ==> A[k, k] != 0.0
    {
      if A[i, i] == 0.0 {
        assert Rows(A)[i][i] == 0.0;
        return Some(i);
      }
      i := i + 1;
    }
    return None;
  }

  // ---------------------------------------------------------------------
  // One sweep

  /** M is square and v has one entry per row. */
  predicate IsSystem(M: seq<seq<real>>, v: seq<real>)
  {
    |M| == |v| && forall r :: 0 <= r < |M| ==> |M[r]| == |v|
  }

  /** The value the sweep gives a component with diagonal entry d and
      right-hand side vi, once s1, the part of the row's dot product below
      the diagonal, and s2, the part above it, are known. */
  function Component(d: real, vi: real, s1: real, s2: real): real
    requires d != 0.0
  {
    (vi - s1 - s2) / d
  }

  /** xi is the component exactly when d * xi == vi - s1 - s2. */
  lemma ComponentEquation(d: real, vi: real, s1: real, s2: real, xi: real)
    requires d != 0.0
    ensures xi == Component(d, vi, s1, s2) <==> d * xi == vi - s1 - s2
  {
    QuotientIff(vi - s1 - s2, d, xi);
  }

  /** The first i components of the sweep from xOld: component k uses the
      components already computed for indices below k and xOld above k. */
  function SweepPrefix(M: seq<seq<real>>, v: seq<real>, xOld: seq<real>, i: nat): (p: seq<real>)
    requires IsSystem(M, v) && NonzeroDiagonal(M) && |xOld| == |v| && i <= |v|
    ensures |p| == i
  {
    if i == 0 then []
    else
      var p := SweepPrefix(M, v, xOld, i - 1);
      var k := i - 1;
      p + [Component(M[k][k], v[k], DotRange(M[k], p, 0, k), DotRange(M[k], xOld, k + 1, |v|))]
  }

  /** The vector one Gauss-Seidel sweep computes from xOld. */
  function Sweep(M: seq<seq<real>>, v: seq<real>, xOld: seq<real>): seq<real>
    requires IsSystem(M, v) && NonzeroDiagonal(M) && |xOld| == |v|
  {
    SweepPrefix(M, v, xOld, |v|)
  }

  /** x satisfies every row's sweep equation against xOld:
      M[i][i] x[i] = v[i] - sum_{j<i} M[i][j] x[j] - sum_{j>i} M[i][j] xOld[j]. */
  predicate IsSweep(M: seq<seq<real>>, v: seq<real>, xOld: seq<real>, x: seq<real>)
    requires IsSystem(M, v) && |xOld| == |v| && |x| == |v|
  {
    forall i :: 0 <= i < |v| ==>
      M[i][i] * x[i] == v[i] - DotRange(M[i], x, 0, i) - DotRange(M[i], xOld, i + 1, |v|)
  }

  /** A longer prefix extends a shorter one. */
  lemma {:induction false} PrefixStable(M: seq<seq<real>>, v: seq<real>, xOld: seq<real>, r: nat, i: nat)
    requires IsSystem(M, v) && NonzeroDiagonal(M) && |xOld| == |v| && r <= i <= |v|
    ensures SweepPrefix(M, v, xOld, i)[..r] == SweepPrefix(M, v, xOld, r)
    decreases i
  {
    if r < i {
      PrefixStable(M, v, xOld, r, i - 1);
      var p := SweepPrefix(M, v, xOld, i - 1);
      assert SweepPrefix(M, v, xOld, i)[..i - 1] == p;
      assert SweepPrefix(M, v, xOld, i)[..r] == p[..r];
    }
  }

  /** Component k of the sweep, in terms of the sweep itself. */
  lemma SweepComponent(M: seq<seq<real>>, v: seq<real>, xOld: seq<real>, k: nat)
    requires IsSystem(M, v) && NonzeroDiagonal(M) && |xOld| == |v| && k < |v|
    ensures var x := Sweep(M, v, xOld);
            x[k] == Component(M[k][k], v[k], DotRange(M[k], x, 0, k), DotRange(M[k], xOld, k + 1, |v|))
  {
    var n := |v|;
    var x := Sweep(M, v, xOld);
    var p := SweepPrefix(M, v, xOld, k);
    PrefixStable(M, v, xOld, k + 1, n);
    assert x[k] == SweepPrefix(M, v, xOld, k + 1)[k];
    PrefixStable(M, v, xOld, k, n);
    DotRangeCongruent(M[k], M[k], p, x, 0, k);
  }

  /** The sweep satisfies every row's sweep equation. */
  lemma SweepSatisfies(M: seq<seq<real>>, v: seq<real>, xOld: seq<real>)
    requires IsSystem(M, v) && NonzeroDiagonal(M) && |xOld| == |v|
    ensures IsSweep(M, v, xOld, Sweep(M, v, xOld))
  {
    var x := Sweep(M, v, xOld);
    forall i | 0 <= i < |v|
      ensures M[i][i] * x[i] == v[i] - DotRange(M[i], x, 0, i) - DotRange(M[i], xOld, i + 1, |v|)
    {
      SweepComponent(M, v, xOld, i);
      ComponentEquation(M[i][i], v[i], DotRange(M[i], x, 0, i), DotRange(M[i], xOld, i + 1, |v|), x[i]);
    }
  }

  /** With a nonzero diagonal the sweep equations determine the sweep: any
      x that satisfies them is the sweep. */
  lemma SweepUnique(M: seq<seq<real>>, v: seq<real>, xOld: seq<real>, x: seq<real>)
    requires IsSystem(M, v) && NonzeroDiagonal(M) && |xOld| == |v| && |x| == |v|
    requires IsSweep(M, v, xOld, x)
    ensures x == Sweep(M, v, xOld)
  {
    var n := |v|;
    var i := 0;
    while i < n
      invariant 0 <= i <= n
      invariant x[..i] == SweepPrefix(M, v, xOld, i)
    {
      var p := SweepPrefix(M, v, xOld, i);
      ComponentEquation(M[i][i], v[i], DotRange(M[i], x, 0, i), DotRange(M[i], xOld, i + 1, n), x[i]);
      DotRangeCongruent(M[i], M[i], x, p, 0, i);
      assert x[..i + 1] == x[..i] + [x[i]];
      i := i + 1;
    }
    assert x[..n] == x;
  }

  /** Row i's sweep equation against x itself is row i of M x = v. */
  lemma RowEquation(row: seq<real>, x: seq<real>, i: nat, target: real)
    requires |row| == |x| && i < |x|
    ensures Dot(row, x) == target <==>
            row[i] * x[i] == target - DotRange(row, x, 0, i) - DotRange(row, x, i + 1, |x|)
  {
    DotRangeSplit(row, x, 0, i, |x|);
    DotRangeSplit(row, x, i, i + 1, |x|);
    DotRangeSingle(row, x, i);
  }

  /** With a nonzero diagonal, x is left unchanged by a sweep exactly when
      it solves M x = v: the solutions are the fixed points of the
      iteration. */
  lemma FixedPointIffSolution(M: seq<seq<real>>, v: seq<real>, x: seq<real>)
    requires IsSystem(M, v) && NonzeroDiagonal(M) && |x| == |v|
    ensures Sweep(M, v, x) == x <==> Solves(M, v, x)
  {
    forall i | 0 <= i < |v|
      ensures Dot(M[i], x) == v[i] <==>
              M[i][i] * x[i] == v[i] - DotRange(M[i], x, 0, i) - DotRange(M[i], x, i + 1, |v|)
    {
      RowEquation(M[i], x, i, v[i]);
    }
    if Sweep(M, v, x) == x {
      SweepSatisfies(M, v, x);
    }
    if Solves(M, v, x) {
      SweepUnique(M, v, x, x);
    }
  }

  /** Overwriting index i of a prefix followed by the rest of xOld extends
      the prefix by one. */
  lemma ExtendPrefix(p: seq<real>, xOld: seq<real>, i: nat, val: real)
    requires |p| == i < |xOld|
    ensures (p + xOld[i..])[i := val] == (p + [val]) + xOld[i + 1..]
  {
  }

  /** Overwrites x[i] for i = 0, 1, ... with the value the sweep equation
      gives, using the x[j] already overwritten for j < i and xOld, the copy
      taken before the sweep, for j > i. */
  method SweepInPlace(A: array2<real>, b: array<real>, x: array<real>, xOld: seq<real>)
    requires A.Length0 == A.Length1 == b.Length == x.Length && x != b
    requires NonzeroDiagonal(Rows(A)) && x[..] == xOld
    modifies x
    ensures x[..] == Sweep(Rows(A), b[..], xOld)
  {
    ghost var M, v := Rows(A), b[..];
    var n := b.Length;
    var i := 0;
    while i < n
      invariant 0 <= i <= n
      invariant x[..] == SweepPrefix(M, v, xOld, i) + xOld[i..]
    {
      ghost var p := SweepPrefix(M, v, xOld, i);
      var s1 := DotRange(Row(A, i), x[..], 0, i);
      var s2 := DotRange(Row(A, i), xOld, i + 1, n);
      assert Row(A, i) == M[i] && b[i] == v[i] && A[i, i] == M[i][i];
      DotRangeCongruent(M[i], M[i], x[..], p, 0, i);
      assert s1 == DotRange(M[i], p, 0, i) && s2 == DotRange(M[i], xOld, i + 1, n);
      var val := Component(A[i, i], b[i], s1, s2);
      assert SweepPrefix(M, v, xOld, i + 1) == p + [val];
      ghost var before := x[..];
      x[i] := val;
      assert x[..] == before[i := val];
      ExtendPrefix(p, xOld, i, val);
      i := i + 1;
    }
    assert xOld[n..] == [];
  }

  // ---------------------------------------------------------------------
  // The iteration

  /** The vector after k sweeps from the zero vector. */
  function KthIterate(M: seq<seq<real>>, v: seq<real>, k: nat): (x: seq<real>)
    requires IsSystem(M, v) && NonzeroDiagonal(M)
    ensures |x| == |v|
  {
    if k == 0 then Zeros(|v|) else Sweep(M, v, KthIterate(M, v, k - 1))
  }

  /** The history entries k sweeps append: the vectors after sweeps 1..k. */
  function Iterates(M: seq<seq<real>>, v: seq<real>, k: nat): (h: seq<seq<real>>)
    requires IsSystem(M, v) && NonzeroDiagonal(M)
    ensures |h| == k && forall j :: 0 <= j < k ==> h[j] == KthIterate(M, v, j + 1)
  {
    if k == 0 then [] else Iterates(M, v, k - 1) + [KthIterate(M, v, k)]
  }

  /** The infinity norm of x - y: the largest |x[k] - y[k]|. */
  function MaxAbsDiff(x: seq<real>, y: seq<real>): (d: real)
    requires |x| == |y| > 0
    ensures forall k :: 0 <= k < |x| ==> Abs(x[k] - y[k]) <= d
    ensures exists k :: 0 <= k < |x| && d == Abs(x[k] - y[k])
  {
    var last := Abs(x[|x| - 1] - y[|y| - 1]);
    if |x| == 1 then last
    else
      var rest := MaxAbsDiff(x[..|x| - 1], y[..|y| - 1]);
      if last > rest then last else rest
  }

  /** A vector differs from itself by nothing. */
  lemma MaxAbsDiffSelf(x: seq<real>)
    requires |x| > 0
    ensures MaxAbsDiff(x, x) == 0.0
  {
    var d := MaxAbsDiff(x, x);
    var k :| 0 <= k < |x| && d == Abs(x[k] - x[k]);
  }

  /** The convergence test after sweep j + 1 passes: the change it made is
      below the tolerance in every component. */
  predicate Converged(M: seq<seq<real>>, v: seq<real>, tol: real, j: nat)
    requires IsSystem(M, v) && NonzeroDiagonal(M) && |v| > 0
  {
    MaxAbsDiff(KthIterate(M, v, j + 1), KthIterate(M, v, j)) < tol
  }

  /** None of the first k sweeps passed the convergence test. */
  predicate NoneConverged(M: seq<seq<real>>, v: seq<real>, tol: real, k: nat)
    requires IsSystem(M, v) && NonzeroDiagonal(M) && |v| > 0
  {
    forall j :: 0 <= j < k ==> !Converged(M, v, tol, j)
  }

  /** K sweeps is when the loop stops: none if the bound allows none,
      otherwise at the first sweep whose test passes, or after maxIter
      sweeps. */
  predicate StopsAfter(M: seq<seq<real>>, v: seq<real>, tol: real, maxIter: int, K: nat)
    requires IsSystem(M, v) && NonzeroDiagonal(M) && |v| > 0
  {
    || (K == 0 && maxIter <= 0)
    || (&& 1 <= K <= maxIter
        && NoneConverged(M, v, tol, K - 1)
        && (K < maxIter ==> Converged(M, v, tol, K - 1)))
  }

  /** The stopping rule picks exactly one sweep count. */
  lemma StopsAfterUnique(M: seq<seq<real>>, v: seq<real>, tol: real, maxIter: int, K1: nat, K2: nat)
    requires IsSystem(M, v) && NonzeroDiagonal(M) && |v| > 0
    requires StopsAfter(M, v, tol, maxIter, K1) && StopsAfter(M, v, tol, maxIter, K2)
    ensures K1 == K2
  {
  }

  /** The identity matrix of order n. */
  function Identity(n: nat): (I: seq<seq<real>>)
    ensures |I| == n
    ensures forall r :: 0 <= r < n ==> |I[r]| == n
    ensures forall r, c :: 0 <= r < n && 0 <= c < n ==> I[r][c] == if r == c then 1.0 else 0.0
  {
    seq(n, r => seq(n, c => if r == c then 1.0 else 0.0))
  }

  /** On the identity a sweep from any vector gives the right-hand side. */
  lemma IdentitySweep(v: seq<real>, xOld: seq<real>)
    requires |xOld| == |v|
    ensures Sweep(Identity(|v|), v, xOld) == v
  {
    var I := Identity(|v|);
    forall i | 0 <= i < |v|
      ensures I[i][i] * v[i] == v[i] - DotRange(I[i], v, 0, i) - DotRange(I[i], xOld, i + 1, |v|)
    {
      DotRangeZeroRow(I[i], v, 0, i);
      DotRangeZeroRow(I[i], xOld, i + 1, |v|);
    }
    SweepUnique(I, v, xOld, v);
  }

  /** On the identity the first and the second sweep both give v. */
  lemma IdentityIterates(v: seq<real>)
    ensures KthIterate(Identity(|v|), v, 1) == v && KthIterate(Identity(|v|), v, 2) == v
  {
    IdentitySweep(v, Zeros(|v|));
    IdentitySweep(v, v);
  }

  /** On the identity the first sweep moves x from zero to v, so its test
      fails when some component of v is at least tol in size. */
  lemma IdentityFirstSweepRejected(v: seq<real>, tol: real, k: nat)
    requires k < |v| && Abs(v[k]) >= tol
    ensures !Converged(Identity(|v|), v, tol, 0)
  {
    var I := Identity(|v|);
    IdentityIterates(v);
    assert Abs(KthIterate(I, v, 1)[k] - KthIterate(I, v, 0)[k]) >= tol;
  }

  /** On the identity the second sweep changes nothing, so its test passes
      for every tol > 0. */
  lemma IdentitySecondSweepAccepted(v: seq<real>, tol: real)
    requires |v| > 0 && 0.0 < tol
    ensures Converged(Identity(|v|), v, tol, 1)
  {
    IdentityIterates(v);
    MaxAbsDiffSelf(v);
  }

  /** On the identity, with tol > 0, a right-hand side with a component at
      least tol in size and room for two sweeps, the loop stops after the
      second sweep and never after the first: the first sweep moves x from
      zero to v, which the test rejects, and the second changes nothing. */
  lemma IdentityStopsAfterTwo(v: seq<real>, tol: real, maxIter: int)
    requires |v| > 0 && 0.0 < tol && maxIter >= 2
    requires exists k :: 0 <= k < |v| && Abs(v[k]) >= tol
    ensures StopsAfter(Identity(|v|), v, tol, maxIter, 2)
    ensures !StopsAfter(Identity(|v|), v, tol, maxIter, 1)
    ensures KthIterate(Identity(|v|), v, 2) == v
  {
    var I := Identity(|v|);
    IdentityIterates(v);
    var k :| 0 <= k < |v| && Abs(v[k]) >= tol;
    IdentityFirstSweepRejected(v, tol, k);
    IdentitySecondSweepAccepted(v, tol);
    assert NoneConverged(I, v, tol, 1);
  }

  /** What solve leaves behind when the diagonal is nonzero and n > 0: K
      sweeps as the stopping rule says, the history extended by their
      vectors, and the last of them (the zero vector when K == 0) as the
      result. */
  ghost predicate Ran(M: seq<seq<real>>, v: seq<real>, tol: real, maxIter: int,
                      before: seq<seq<real>>, after: seq<seq<real>>, x: seq<real>)
    requires IsSystem(M, v) && NonzeroDiagonal(M) && |v| > 0
  {
    var K := |after| - |before|;
    && K >= 0
    && StopsAfter(M, v, tol, maxIter, K)
    && after == before + Iterates(M, v, K)
    && x == KthIterate(M, v, K)
  }

  /** History entry j, of those after before, satisfies the sweep equations
      against the entry before it, or against the zero vector if it is the
      first. */
  predicate SweptEntry(M: seq<seq<real>>, v: seq<real>, before: seq<seq<real>>, after: seq<seq<real>>, j: nat)
    requires IsSystem(M, v) && |before| <= j < |after|
  {
    var prev := if j == |before| then Zeros(|v|) else after[j - 1];
    |after[j]| == |v| && |prev| == |v| && IsSweep(M, v, prev, after[j])
  }

  /** The result is the last history entry whenever a sweep ran, each entry
      satisfies the sweep equations against the one before it (the zero
      vector before the first), and no more than maxIter entries are
      added. */
  lemma RanFacts(M: seq<seq<real>>, v: seq<real>, tol: real, maxIter: int,
                 before: seq<seq<real>>, after: seq<seq<real>>, x: seq<real>)
    requires IsSystem(M, v) && NonzeroDiagonal(M) && |v| > 0
    requires Ran(M, v, tol, maxIter, before, after, x)
    ensures |before| <= |after| && |after| - |before| <= (if maxIter < 0 then 0 else maxIter)
    ensures maxIter >= 1 ==> |after| > |before| && x == after[|after| - 1]
    ensures maxIter <= 0 ==> x == Zeros(|v|)
    ensures forall j :: |before| <= j < |after| ==> SweptEntry(M, v, before, after, j)
  {
    var K := |after| - |before|;
    forall j | |before| <= j < |after| ensures SweptEntry(M, v, before, after, j) {
      var k := j - |before|;
      assert after[j] == Iterates(M, v, K)[k] == KthIterate(M, v, k + 1);
      if j > |before| {
        assert after[j - 1] == Iterates(M, v, K)[k - 1] == KthIterate(M, v, k);
      }
      SweepSatisfies(M, v, KthIterate(M, v, k));
    }
    if maxIter >= 1 {
      assert after[|after| - 1] == Iterates(M, v, K)[K - 1];
    }
  }

  /** The loop stops at sweep k + 1 because its test passes. */
  lemma RanWhenConverged(M: seq<seq<real>>, v: seq<real>, tol: real, maxIter: int,
                         before: seq<seq<real>>, after: seq<seq<real>>, x: seq<real>, k: nat)
    requires IsSystem(M, v) && NonzeroDiagonal(M) && |v| > 0
    requires k < maxIter
    requires NoneConverged(M, v, tol, k)
    requires Converged(M, v, tol, k)
    requires after == before + Iterates(M, v, k + 1) && x == KthIterate(M, v, k + 1)
    ensures Ran(M, v, tol, maxIter, before, after, x)
  {
    assert |after| - |before| == k + 1;
  }

  /** The loop stops after k sweeps because the bound is reached. */
  lemma RanWhenExhausted(M: seq<seq<real>>, v: seq<real>, tol: real, maxIter: int,
                         before: seq<seq<real>>, after: seq<seq<real>>, x: seq<real>, k: nat)
    requires IsSystem(M, v) && NonzeroDiagonal(M) && |v| > 0
    requires k >= maxIter && (k == 0 || k == maxIter)
    requires NoneConverged(M, v, tol, k)
    requires after == before + Iterates(M, v, k) && x == KthIterate(M, v, k)
    ensures Ran(M, v, tol, maxIter, before, after, x)
  {
    assert |after| - |before| == k;
  }

  /** solve. A zero diagonal entry fails before anything else, with the
      first such row and the history untouched. Otherwise the dominance
      flag is set exactly when some row is not strictly dominated, and the
      sweeps run as Iterations describes. A and b are only read. */
  method Solve(s: SLAESolver) returns (r: Result<seq<real>, SolveError>, warned: bool)
    requires s.IsSquareSystem()
    modifies s`history
    ensures !NonzeroDiagonal(Rows(s.A)) ==>
              && r.Failure? && r.error.ZeroDiagonal?
              && r.error.row < s.b.Length && s.A[r.error.row, r.error.row] == 0.0
              && (forall i :: 0 <= i < r.error.row ==> s.A[i, i] != 0.0)
              && s.history == old(s.history) && !warned
    ensures NonzeroDiagonal(Rows(s.A)) ==> (warned <==> !StrictlyDominant(Rows(s.A)))
    ensures NonzeroDiagonal(Rows(s.A)) && s.b.Length == 0 ==>
              if s.maxIter >= 1 then r == Failure(EmptyNorm) && s.history == old(s.history) + [[]]
              else r == Success([]) && s.history == old(s.history)
    ensures NonzeroDiagonal(Rows(s.A)) && s.b.Length > 0 ==>
              r.Success? && Ran(Rows(s.A), s.b[..], s.tol, s.maxIter, old(s.history), s.history, r.value)
  {
    var zero := FirstZeroDiagonal(s.A);
    if zero.Some? {
      return Failure(ZeroDiagonal(zero.value)), false;
    }
    warned := CheckDominance(s.A);
    r := Iterations(s);
  }

  /** The sweep loop of solve, from the zero vector, on a system whose
      diagonal is nonzero. For n == 0 the first pass appends the empty
      vector and then fails computing the norm of the empty change; for
      n > 0 the run is the one Converge describes. */
  method Iterations(s: SLAESolver) returns (r: Result<seq<real>, SolveError>)
    requires s.IsSquareSystem() && NonzeroDiagonal(Rows(s.A))
    modifies s`history
    ensures s.b.Length == 0 ==>
              if s.maxIter >= 1 then r == Failure(EmptyNorm) && s.history == old(s.history) + [[]]
              else r == Success([]) && s.history == old(s.history)
    ensures s.b.Length > 0 ==>
              r.Success? && Ran(Rows(s.A), s.b[..], s.tol, s.maxIter, old(s.history), s.history, r.value)
  {
    if s.b.Length == 0 {
      if s.maxIter < 1 {
        return Success([]);
      }
      var x := new real[0];
      SweepInPlace(s.A, s.b, x, x[..]);
      s.history := s.history + [x[..]];
      assert x[..] == [];
      return Failure(EmptyNorm);
    }
    assert IsSystem(Rows(s.A), s.b[..]);
    r := Converge(s, Rows(s.A), s.b[..]);
  }

  /** One pass of the loop for n > 0: sweep x in place, record it, and
      test the change against the tolerance. */
  method Step(s: SLAESolver, x: array<real>, ghost M: seq<seq<real>>, ghost v: seq<real>, ghost k: nat)
    returns (converged: bool)
    requires s.IsSquareSystem() && NonzeroDiagonal(Rows(s.A)) && s.b.Length > 0
    requires M == Rows(s.A) && v == s.b[..]
    requires x.Length == s.b.Length && x != s.b && x[..] == KthIterate(M, v, k)
    modifies x, s`history
    ensures x[..] == KthIterate(M, v, k + 1)
    ensures s.history == old(s.history) + [KthIterate(M, v, k + 1)]
    ensures converged <==> Converged(M, v, s.tol, k)
  {
    var xOld := x[..];
    SweepInPlace(s.A, s.b, x, xOld);
    s.history := s.history + [x[..]];
    converged := MaxAbsDiff(x[..], xOld) < s.tol;
  }

  /** The sweep loop for n > 0: sweeps from the zero vector until the
      change of one sweep is below the tolerance in every component or
      maxIter sweeps have run, recording every vector in the history. */
  method Converge(s: SLAESolver, ghost M: seq<seq<real>>, ghost v: seq<real>)
    returns (r: Result<seq<real>, SolveError>)
    requires s.IsSquareSystem() && NonzeroDiagonal(Rows(s.A)) && s.b.Length > 0
    requires M == Rows(s.A) && v == s.b[..] && IsSystem(M, v)
    modifies s`history
    ensures r.Success? && Ran(M, v, s.tol, s.maxIter, old(s.history), s.history, r.value)
  {
    var n := s.b.Length;
    var x := new real[n](_ => 0.0);
    assert x[..] == Zeros(n);
    var k := 0;
    while k < s.maxIter
      invariant 0 <= k && (k == 0 || k <= s.maxIter)
      invariant x[..] == KthIterate(M, v, k)
      invariant s.history == old(s.history) + Iterates(M, v, k)
      invariant NoneConverged(M, v, s.tol, k)
      decreases s.maxIter - k
    {
      var converged := Step(s, x, M, v, k);
      assert s.history == old(s.history) + Iterates(M, v, k + 1);
      if converged {
        RanWhenConverged(M, v, s.tol, s.maxIter, old(s.history), s.history, x[..], k);
        return Success(x[..]);
      }
      assert NoneConverged(M, v, s.tol, k + 1);
      k := k + 1;
    }
    RanWhenExhausted(M, v, s.tol, s.maxIter, old(s.history), s.history, x[..], k);
    return Success(x[..]);
  }
}

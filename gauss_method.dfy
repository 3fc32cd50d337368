/** GaussMethod.solve: forward elimination with partial pivoting on copies
    of A and b, then back-substitution. */
module Gauss {
  import opened Wrappers
  import opened Numbers
  import opened Matrices
  import opened Slae

  /** s with the entries at i and j exchanged. */
  function Swap<T>(s: seq<T>, i: nat, j: nat): (r: seq<T>)
    requires i < |s| && j < |s|
    ensures |r| == |s| && r[i] == s[j] && r[j] == s[i]
    ensures forall k :: 0 <= k < |s| && k != i && k != j ==> r[k] == s[k]
  {
    s[i := s[j]][j := s[i]]
  }

  /** M with row j replaced by row j minus t times row i. */
  function Subtract(M: seq<seq<real>>, j: nat, i: nat, t: real): (R: seq<seq<real>>)
    requires i < |M| && j < |M| && |M[j]| == |M[i]|
    ensures |R| == |M| && |R[j]| == |M[j]|
    ensures forall k :: 0 <= k < |M[j]| ==> R[j][k] == M[j][k] - t * M[i][k]
    ensures forall r :: 0 <= r < |M| && r != j ==> R[r] == M[r]
  {
    M[j := seq(|M[j]|, k requires 0 <= k < |M[j]| => M[j][k] - t * M[i][k])]
  }

  /** Every solution of M1 x = v1 solves M2 x = v2. */
  ghost predicate Implies(M1: seq<seq<real>>, v1: seq<real>, M2: seq<seq<real>>, v2: seq<real>)
  {
    forall x :: Solves(M1, v1, x) ==> Solves(M2, v2, x)
  }

  lemma ImpliesTransitive(M1: seq<seq<real>>, v1: seq<real>, M2: seq<seq<real>>, v2: seq<real>,
                          M3: seq<seq<real>>, v3: seq<real>)
    requires Implies(M1, v1, M2, v2) && Implies(M2, v2, M3, v3)
    ensures Implies(M1, v1, M3, v3)
  {
  }

  /** Exchanging two equations of a system loses no solution. */
  lemma SwapImplies(M: seq<seq<real>>, v: seq<real>, i: nat, p: nat)
    requires |M| == |v| && i < |M| && p < |M|
    ensures Implies(Swap(M, i, p), Swap(v, i, p), M, v)
  {
    var M', v' := Swap(M, i, p), Swap(v, i, p);
    forall x | Solves(M', v', x) ensures Solves(M, v, x) {
      forall r | 0 <= r < |M| ensures |M[r]| == |x| && Dot(M[r], x) == v[r] {
        var r' := if r == i then p else if r == p then i else r;
        assert M'[r'] == M[r] && v'[r'] == v[r];
      }
    }
  }

  /** Subtracting a multiple of equation i from equation j loses no
      solution. */
  lemma SubtractImplies(M: seq<seq<real>>, v: seq<real>, j: nat, i: nat, t: real)
    requires |M| == |v| && i < |M| && j < |M| && i != j && |M[j]| == |M[i]|
    ensures Implies(Subtract(M, j, i, t), v[j := v[j] - t * v[i]], M, v)
  {
    var M', v' := Subtract(M, j, i, t), v[j := v[j] - t * v[i]];
    forall x | Solves(M', v', x) ensures Solves(M, v, x) {
      assert M'[i] == M[i];
      DotRangeLinear(M[j], M[i], t, M'[j], x, 0, |x|);
      forall r | 0 <= r < |M| ensures |M[r]| == |x| && Dot(M[r], x) == v[r] {
        if r != j { assert M'[r] == M[r]; }
      }
    }
  }

  /** Swapping twice gives back the system. */
  lemma SwapTwice<T>(s: seq<T>, i: nat, p: nat)
    requires i < |s| && p < |s|
    ensures Swap(Swap(s, i, p), i, p) == s
  {
  }

  /** Exchanging two equations also gains no solution: every solution of
      the system solves the swapped one, since a second swap undoes the
      first. */
  lemma SwapPreserves(M: seq<seq<real>>, v: seq<real>, i: nat, p: nat)
    requires |M| == |v| && i < |M| && p < |M|
    ensures Implies(M, v, Swap(M, i, p), Swap(v, i, p))
  {
    SwapImplies(Swap(M, i, p), Swap(v, i, p), i, p);
    SwapTwice(M, i, p);
    SwapTwice(v, i, p);
  }

  /** Adding back t times equation i undoes subtracting it. */
  lemma SubtractUndone(M: seq<seq<real>>, j: nat, i: nat, t: real)
    requires i < |M| && j < |M| && i != j && |M[j]| == |M[i]|
    ensures Subtract(Subtract(M, j, i, t), j, i, -t) == M
  {
    var S := Subtract(M, j, i, t);
    var R := Subtract(S, j, i, -t);
    assert S[i] == M[i];
    assert R[j] == M[j];
    forall r | 0 <= r < |M| ensures R[r] == M[r] {
    }
  }

  /** Subtracting a multiple of equation i from equation j keeps every
      solution: every solution of the system solves the new one. */
  lemma SubtractPreserves(M: seq<seq<real>>, v: seq<real>, j: nat, i: nat, t: real)
    requires |M| == |v| && i < |M| && j < |M| && i != j && |M[j]| == |M[i]|
    ensures Implies(M, v, Subtract(M, j, i, t), v[j := v[j] - t * v[i]])
  {
    var S, w := Subtract(M, j, i, t), v[j := v[j] - t * v[i]];
    SubtractImplies(S, w, j, i, -t);
    SubtractUndone(M, j, i, t);
    assert (-t) * w[i] == -(t * v[i]);
    assert w[j := w[j] - (-t) * w[i]] == v;
  }

  /** The first index of a largest absolute value in s, the row that
      np.argmax(abs(s)) picks. */
  function ArgMaxAbs(s: seq<real>): (k: nat)
    requires |s| > 0
    ensures k < |s|
    ensures forall j :: 0 <= j < |s| ==> Abs(s[j]) <= Abs(s[k])
    ensures forall j :: 0 <= j < k ==> Abs(s[j]) < Abs(s[k])
  {
    if |s| == 1 then 0
    else
      var k := ArgMaxAbs(s[..|s| - 1]);
      if Abs(s[|s| - 1]) > Abs(s[k]) then |s| - 1 else k
  }

  /** k is the first index of a largest absolute value in s. */
  ghost predicate FirstLargest(s: seq<real>, k: nat)
  {
    k < |s| && (forall j :: 0 <= j < |s| ==> Abs(s[j]) <= Abs(s[k]))
    && forall j :: 0 <= j < k ==> Abs(s[j]) < Abs(s[k])
  }

  /** Only one index is the first of a largest absolute value, so the
      property picks exactly the row np.argmax picks. */
  lemma FirstLargestUnique(s: seq<real>, k: nat)
    requires |s| > 0
    ensures FirstLargest(s, k) <==> k == ArgMaxAbs(s)
  {
  }

  /** Column c of M from row lo down. */
  function ColumnFrom(M: array2<real>, c: nat, lo: nat): (s: seq<real>)
    reads M
    requires c < M.Length1 && lo <= M.Length0
    ensures |s| == M.Length0 - lo && forall k :: 0 <= k < |s| ==> s[k] == M[lo + k, c]
  {
    seq(M.Length0 - lo, k requires 0 <= k < M.Length0 - lo reads M => M[lo + k, c])
  }

  /** Exchanges rows i and p of M and entries i and p of v; nothing else
      moves. */
  method SwapRows(M: array2<real>, v: array<real>, i: nat, p: nat)
    requires i < M.Length0 && p < M.Length0 && M.Length0 == v.Length
    modifies M, v
    ensures forall r, c :: 0 <= r < M.Length0 && 0 <= c < M.Length1 ==>
              M[r, c] == old(M[if r == i then p else if r == p then i else r, c])
    ensures Rows(M) == Swap(old(Rows(M)), i, p)
    ensures v[..] == Swap(old(v[..]), i, p)
  {
    var c := 0;
    while c < M.Length1
      invariant 0 <= c <= M.Length1
      invariant forall r, k :: 0 <= r < M.Length0 && 0 <= k < M.Length1 ==>
                  M[r, k] == old(M[if k < c && r == i then p else if k < c && r == p then i else r, k])
      invariant v[..] == old(v[..])
    {
      var t := M[i, c];
      M[i, c] := M[p, c];
      M[p, c] := t;
      c := c + 1;
    }
    var t := v[i];
    v[i] := v[p];
    v[p] := t;
    RowsOfEntries(M, Swap(old(Rows(M)), i, p));
  }

  /** Subtracts ratio times row i from row j in the columns from i on;
      every other entry stays. */
  method SubtractScaled(M: array2<real>, i: nat, j: nat, ratio: real)
    requires M.Length0 == M.Length1 && i < M.Length0 && j < M.Length0 && i != j
    modifies M
    ensures forall r, c :: 0 <= r < M.Length0 && 0 <= c < M.Length1 ==>
              M[r, c] == (if r == j && i <= c then old(M[j, c]) - ratio * old(M[i, c]) else old(M[r, c]))
  {
    var n := M.Length0;
    var k := i;
    while k < n
      invariant i <= k <= n
      invariant forall r, c :: 0 <= r < n && 0 <= c < n ==>
                  M[r, c] == (if r == j && i <= c < k then old(M[j, c]) - ratio * old(M[i, c]) else old(M[r, c]))
    {
      M[j, k] := M[j, k] - ratio * M[i, k];
      k := k + 1;
    }
  }

  /** Where rows i and j are zero left of column i, subtracting in the
      columns from i on is subtracting the whole row. */
  lemma SubtractedRows(M: array2<real>, M0: seq<seq<real>>, i: nat, j: nat, ratio: real)
    requires |M0| == M.Length0 == M.Length1 && i < |M0| && j < |M0|
    requires forall r :: 0 <= r < |M0| ==> |M0[r]| == M.Length1
    requires forall c :: 0 <= c < i ==> M0[i][c] == 0.0 && M0[j][c] == 0.0
    requires forall r, c :: 0 <= r < M.Length0 && 0 <= c < M.Length1 ==>
               M[r, c] == (if r == j && i <= c then M0[j][c] - ratio * M0[i][c] else M0[r][c])
    ensures Rows(M) == Subtract(M0, j, i, ratio)
  {
    var S := Subtract(M0, j, i, ratio);
    forall r, c | 0 <= r < M.Length0 && 0 <= c < M.Length1 ensures S[r][c] == M[r, c] {
      if r == j && c < i {
        assert M0[j][c] - ratio * M0[i][c] == 0.0;
      }
    }
    RowsOfEntries(M, S);
  }

  /** Subtracts ratio = M[j][i] / M[i][i] times row i from row j, in the
      columns from i on, and the same multiple of v[i] from v[j]. Row i is
      zero left of column i and so is row j, so this is the whole-row
      operation, and it makes M[j][i] zero. */
  method SubtractRow(M: array2<real>, v: array<real>, i: nat, j: nat)
    requires M.Length0 == M.Length1 == v.Length && i < j < M.Length0
    requires M[i, i] != 0.0
    requires forall c :: 0 <= c < i ==> M[i, c] == 0.0 && M[j, c] == 0.0
    modifies M, v
    ensures var t := old(M[j, i]) / old(M[i, i]);
            && Rows(M) == Subtract(old(Rows(M)), j, i, t)
            && v[..] == old(v[..])[j := old(v[j]) - t * old(v[i])]
    ensures forall r, c :: 0 <= r < M.Length0 && r != j && 0 <= c < M.Length1 ==> M[r, c] == old(M[r, c])
    ensures forall c :: 0 <= c <= i ==> M[j, c] == 0.0
  {
    ghost var M0, v0 := Rows(M), v[..];
    var ratio := M[j, i] / M[i, i];
    CancelDivision(M[j, i], M[i, i]);
    SubtractScaled(M, i, j, ratio);
    SubtractedRows(M, M0, i, j, ratio);
    v[j] := v[j] - ratio * v[i];
  }

  /** After x[k] := val, the term of index k alone is row[k] * val. */
  lemma UpdatedTerm(row: seq<real>, y: seq<real>, k: nat, val: real)
    requires |row| == |y| && k < |row|
    ensures DotRange(row, y[k := val], k, k + 1) == row[k] * val
  {
    var y' := y[k := val];
    assert y'[k] == val;
    DotRangeSingle(row, y', k);
  }

  /** Row k of an upper-triangular system: once the diagonal entry times
      val and the rest of the row make target, putting val at index k makes
      the whole row's dot product equal target. */
  lemma BackSubstitutionRow(row: seq<real>, y: seq<real>, k: nat, val: real, target: real)
    requires |row| == |y| && k < |row|
    requires forall c :: 0 <= c < k ==> row[c] == 0.0
    requires row[k] * val + DotRange(row, y, k + 1, |row|) == target
    ensures Dot(row, y[k := val]) == target
  {
    var n := |row|;
    var y' := y[k := val];
    DotRangeSplit(row, y', 0, k, n);
    DotRangeZeroRow(row, y', 0, k);
    DotRangeSplit(row, y', k, k + 1, n);
    UpdatedTerm(row, y, k, val);
    DotRangeCongruent(row, row, y', y, k + 1, n);
  }

  /** Solves an upper-triangular system with a nonzero diagonal from the
      last row up. */
  method BackSubstitute(M: array2<real>, v: array<real>) returns (x: seq<real>)
    requires M.Length0 == M.Length1 == v.Length
    requires forall p, q :: 0 <= q < p < M.Length0 ==> M[p, q] == 0.0
    requires forall q :: 0 <= q < M.Length0 ==> M[q, q] != 0.0
    ensures |x| == v.Length && Solves(Rows(M), v[..], x)
  {
    var n := v.Length;
    var y := new real[n](_ => 0.0);
    var k := n;
    while k > 0
      invariant 0 <= k <= n
      invariant forall p :: k <= p < n ==> Dot(Row(M, p), y[..]) == v[p]
    {
      k := k - 1;
      ghost var before := y[..];
      var val := (v[k] - DotRange(Row(M, k), y[..], k + 1, n)) / M[k, k];
      y[k] := val;
      assert y[..] == before[k := val];
      forall p | k <= p < n ensures Dot(Row(M, p), y[..]) == v[p] {
        if p == k {
          CancelDivision(v[k] - DotRange(Row(M, k), before, k + 1, n), M[k, k]);
          BackSubstitutionRow(Row(M, k), before, k, val, v[k]);
        } else {
          DotRangeUpdate(Row(M, p), before, 0, n, k, val);
        }
      }
    }
    x := y[..];
  }

  /** Rows of M below the diagonal are zero in the columns left of c. */
  ghost predicate ZeroBelowDiagonal(M: array2<real>, c: nat)
    reads M
  {
    forall p, q :: 0 <= q < c && q < p < M.Length0 && q < M.Length1 ==> M[p, q] == 0.0
  }

  /** M x = 0 has a solution other than x = 0. */
  ghost predicate Singular(M: seq<seq<real>>)
  {
    exists y :: |y| == |M| && y != Zeros(|M|) && Solves(M, Zeros(|M|), y)
  }

  lemma SwapZeros(n: nat, i: nat, p: nat)
    requires i < n && p < n
    ensures Swap(Zeros(n), i, p) == Zeros(n)
  {
  }

  lemma SubtractZeros(n: nat, j: nat, i: nat, t: real)
    requires i < n && j < n
    ensures Zeros(n)[j := Zeros(n)[j] - t * Zeros(n)[i]] == Zeros(n)
  {
    assert Zeros(n)[j] - t * Zeros(n)[i] == 0.0;
  }

  /** A row subtraction keeps both "every solution solves the original
      system" facts, with right-hand side v and with zero. */
  lemma SubtractKeepsImplies(M: seq<seq<real>>, v: seq<real>, j: nat, i: nat, t: real,
                             M0: seq<seq<real>>, v0: seq<real>)
    requires |M| == |v| && i < |M| && j < |M| && i != j && |M[j]| == |M[i]|
    requires Implies(M, v, M0, v0) && Implies(M, Zeros(|v|), M0, Zeros(|v|))
    ensures Implies(Subtract(M, j, i, t), v[j := v[j] - t * v[i]], M0, v0)
    ensures Implies(Subtract(M, j, i, t), Zeros(|v|), M0, Zeros(|v|))
  {
    var n := |v|;
    SubtractImplies(M, v, j, i, t);
    SubtractImplies(M, Zeros(n), j, i, t);
    SubtractZeros(n, j, i, t);
  }

  /** Clears column i below the pivot row i by subtracting multiples of
      row i, one row after another; the zeros left of column i stay, the
      pivot rows stay, and every solution of the new system, with the
      right-hand side v or with zero, solves the old one. */
  method EliminateBelow(M: array2<real>, v: array<real>, i: nat)
    requires M.Length0 == M.Length1 == v.Length && i < M.Length0
    requires M[i, i] != 0.0
    requires ZeroBelowDiagonal(M, i)
    modifies M, v
    ensures ZeroBelowDiagonal(M, i + 1)
    ensures forall p, q :: 0 <= p <= i && 0 <= q < M.Length1 ==> M[p, q] == old(M[p, q])
    ensures forall p :: 0 <= p <= i ==> v[p] == old(v[p])
    ensures Implies(Rows(M), v[..], old(Rows(M)), old(v[..]))
    ensures Implies(Rows(M), Zeros(v.Length), old(Rows(M)), Zeros(v.Length))
  {
    var n := M.Length0;
    var j := i + 1;
    while j < n
      invariant i + 1 <= j <= n
      invariant ZeroBelowDiagonal(M, i)
      invariant forall p :: i < p < j ==> M[p, i] == 0.0
      invariant forall p, q :: 0 <= p <= i && 0 <= q < n ==> M[p, q] == old(M[p, q])
      invariant forall p :: 0 <= p <= i ==> v[p] == old(v[p])
      invariant Implies(Rows(M), v[..], old(Rows(M)), old(v[..]))
      invariant Implies(Rows(M), Zeros(n), old(Rows(M)), Zeros(n))
    {
      ghost var M2, v2 := Rows(M), v[..];
      ghost var t := M[j, i] / M[i, i];
      SubtractRow(M, v, i, j);
      assert Rows(M) == Subtract(M2, j, i, t);
      assert v.Length == |v2|;
      assert v[j] == v2[j] - t * v2[i];
      assert forall k :: 0 <= k < n && k != j ==> v[k] == v2[k];
      assert v[..] == v2[j := v2[j] - t * v2[i]];
      SubtractKeepsImplies(M2, v2, j, i, t, old(Rows(M)), old(v[..]));
      j := j + 1;
    }
  }

  /** Step i of forward elimination: bring the row p with the largest
      |M[p][i]|, p >= i (the first such row), up to row i, then, unless
      that pivot is zero, clear column i below it. A zero pivot means
      column i is zero from row i down. */
  method EliminationStep(M: array2<real>, v: array<real>, i: nat) returns (p: nat, zeroPivot: bool)
    requires M.Length0 == M.Length1 == v.Length && i < M.Length0
    requires ZeroBelowDiagonal(M, i)
    modifies M, v
    ensures i <= p && FirstLargest(old(ColumnFrom(M, i, i)), p - i)
    ensures Row(M, i) == old(Row(M, p)) && v[i] == old(v[p])
    ensures forall p, q :: 0 <= p < i && 0 <= q < M.Length1 ==> M[p, q] == old(M[p, q])
    ensures ZeroBelowDiagonal(M, i)
    ensures zeroPivot <==> M[i, i] == 0.0
    ensures zeroPivot ==> forall p :: i <= p < M.Length0 ==> M[p, i] == 0.0
    ensures !zeroPivot ==> ZeroBelowDiagonal(M, i + 1)
    ensures Implies(Rows(M), v[..], old(Rows(M)), old(v[..]))
    ensures Implies(Rows(M), Zeros(v.Length), old(Rows(M)), Zeros(v.Length))
  {
    var n := v.Length;
    ghost var col := ColumnFrom(M, i, i);
    p := i + ArgMaxAbs(ColumnFrom(M, i, i));
    ghost var M1, v1 := Rows(M), v[..];
    SwapRows(M, v, i, p);
    SwapImplies(M1, v1, i, p);
    SwapImplies(M1, Zeros(n), i, p);
    SwapZeros(n, i, p);
    zeroPivot := M[i, i] == 0.0;
    if zeroPivot {
      forall q | i <= q < n ensures M[q, i] == 0.0 {
        var q' := if q == i then p else if q == p then i else q;
        assert M[q, i] == col[q' - i] && Abs(col[q' - i]) <= Abs(col[p - i]);
      }
    } else {
      ghost var M2, v2 := Rows(M), v[..];
      EliminateBelow(M, v, i);
      ImpliesTransitive(Rows(M), v[..], M2, v2, M1, v1);
      ImpliesTransitive(Rows(M), Zeros(n), M2, Zeros(n), M1, Zeros(n));
    }
  }

  /** Rows p >= i of a matrix that is zero below the diagonal left of
      column i and zero in column i from row i down vanish against any y
      that is zero after index i. */
  lemma LowerRowVanishes(M: array2<real>, y: seq<real>, i: nat, p: nat)
    requires M.Length0 == M.Length1 == |y| && i <= p < M.Length0
    requires ZeroBelowDiagonal(M, i)
    requires M[p, i] == 0.0
    requires forall q :: i < q < |y| ==> y[q] == 0.0
    ensures Dot(Row(M, p), y) == 0.0
  {
    var n, row := |y|, Row(M, p);
    DotRangeSplit(row, y, 0, i, n);
    DotRangeZeroRow(row, y, 0, i + 1);
    DotRangeSplit(row, y, 0, i + 1, n);
    DotRangeZeroVector(row, y, i + 1, n);
  }

  /** When column i is zero from row i down, rows above i being upper
      triangular with a nonzero diagonal, the system M x = 0 has a
      solution with x[i] = 1: back-substitute from row i - 1 up with zeros
      after index i. */
  ghost method NullVector(M: array2<real>, i: nat) returns (y: seq<real>)
    requires M.Length0 == M.Length1 && i < M.Length0
    requires ZeroBelowDiagonal(M, i)
    requires forall q :: 0 <= q < i ==> M[q, q] != 0.0
    requires forall p :: i <= p < M.Length0 ==> M[p, i] == 0.0
    ensures |y| == M.Length0 && y[i] == 1.0 && Solves(Rows(M), Zeros(M.Length0), y)
  {
    var n := M.Length0;
    y := Zeros(n)[i := 1.0];
    var k := i;
    while k > 0
      invariant 0 <= k <= i
      invariant |y| == n && y[i] == 1.0 && forall q :: i < q < n ==> y[q] == 0.0
      invariant forall p :: k <= p < i ==> Dot(Row(M, p), y) == 0.0
    {
      k := k - 1;
      var before := y;
      var val := (0.0 - DotRange(Row(M, k), y, k + 1, n)) / M[k, k];
      y := y[k := val];
      forall p | k <= p < i ensures Dot(Row(M, p), y) == 0.0 {
        if p == k {
          CancelDivision(0.0 - DotRange(Row(M, k), before, k + 1, n), M[k, k]);
          BackSubstitutionRow(Row(M, k), before, k, val, 0.0);
        } else {
          DotRangeUpdate(Row(M, p), before, 0, n, k, val);
        }
      }
    }
    forall p | 0 <= p < n ensures Dot(Rows(M)[p], y) == Zeros(n)[p] {
      if i <= p {
        LowerRowVanishes(M, y, i, p);
      }
    }
  }

  /** One step of Solve's elimination loop: EliminationStep, with the
      loop's facts carried from step i to step i + 1 (or, at a zero pivot,
      to the zero column below row i). */
  method ForwardStep(M: array2<real>, v: array<real>, i: nat, ghost A0: seq<seq<real>>, ghost b0: seq<real>)
    returns (zeroPivot: bool)
    requires M.Length0 == M.Length1 == v.Length == |b0| && i < M.Length0
    requires ZeroBelowDiagonal(M, i)
    requires forall q :: 0 <= q < i ==> M[q, q] != 0.0
    requires Implies(Rows(M), v[..], A0, b0)
    requires Implies(Rows(M), Zeros(v.Length), A0, Zeros(v.Length))
    modifies M, v
    ensures ZeroBelowDiagonal(M, i)
    ensures forall q :: 0 <= q < i ==> M[q, q] != 0.0
    ensures zeroPivot ==> forall p :: i <= p < M.Length0 ==> M[p, i] == 0.0
    ensures !zeroPivot ==> ZeroBelowDiagonal(M, i + 1) && M[i, i] != 0.0
    ensures Implies(Rows(M), v[..], A0, b0)
    ensures Implies(Rows(M), Zeros(v.Length), A0, Zeros(v.Length))
  {
    var n := v.Length;
    ghost var M1, v1 := Rows(M), v[..];
    var _, z := EliminationStep(M, v, i);
    zeroPivot := z;
    ImpliesTransitive(Rows(M), v[..], M1, v1, A0, b0);
    ImpliesTransitive(Rows(M), Zeros(n), M1, Zeros(n), A0, Zeros(n));
  }

  /** On success the returned x solves A x = b for the solver's own A and b,
      which are left as they were; the history is not touched. The solve
      fails only where elimination meets a zero pivot, and then A is
      singular. */
  method Solve(s: SLAESolver) returns (r: Result<seq<real>, SolveError>)
    requires s.IsSquareSystem()
    ensures r.Success? ==> |r.value| == s.b.Length && Solves(Rows(s.A), s.b[..], r.value)
    ensures r.Failure? ==> r.error.ZeroPivot? && r.error.step < s.b.Length && Singular(Rows(s.A))
  {
    var n := s.b.Length;
    var M := new real[n, n]((p, q) requires 0 <= p < n && 0 <= q < n reads s.A => s.A[p, q]);
    var v := new real[n](p requires 0 <= p < n reads s.b => s.b[p]);
    ghost var A0, b0 := Rows(s.A), s.b[..];
    RowsOfEntries(M, A0);
    assert v[..] == b0;
    var i := 0;
    while i < n
      invariant 0 <= i <= n
      invariant ZeroBelowDiagonal(M, i)
      invariant forall q :: 0 <= q < i ==> M[q, q] != 0.0
      invariant Implies(Rows(M), v[..], A0, b0)
      invariant Implies(Rows(M), Zeros(n), A0, Zeros(n))
    {
      var zeroPivot := ForwardStep(M, v, i, A0, b0);
      if zeroPivot {
        ghost var y := NullVector(M, i);
        assert y[i] != Zeros(n)[i];
        return Failure(ZeroPivot(i));
      }
      i := i + 1;
    }
    var x := BackSubstitute(M, v);
    return Success(x);
  }
}

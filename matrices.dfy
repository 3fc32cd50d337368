/** Exact linear algebra over the matrices and vectors the solvers read:
    rows of a two-dimensional array as sequences, partial dot products
    summed left to right, and what it means for a vector to solve a system. */
module Matrices {

  /** Row r of M. */
  function Row(M: array2<real>, r: nat): (s: seq<real>)
    reads M
    requires r < M.Length0
    ensures |s| == M.Length1 && forall c :: 0 <= c < M.Length1 ==> s[c] == M[r, c]
  {
    seq(M.Length1, c requires 0 <= c < M.Length1 reads M => M[r, c])
  }

  /** The rows of M, top to bottom. */
  function Rows(M: array2<real>): (s: seq<seq<real>>)
    reads M
    ensures |s| == M.Length0 && forall r :: 0 <= r < M.Length0 ==> s[r] == Row(M, r)
  {
    seq(M.Length0, r requires 0 <= r < M.Length0 reads M => Row(M, r))
  }

  /** Two arrays holding the same entries have the same rows. */
  lemma RowsOfEntries(M: array2<real>, S: seq<seq<real>>)
    requires |S| == M.Length0
    requires forall r :: 0 <= r < |S| ==> |S[r]| == M.Length1
    requires forall r, c :: 0 <= r < M.Length0 && 0 <= c < M.Length1 ==> S[r][c] == M[r, c]
    ensures Rows(M) == S
  {
    forall r | 0 <= r < M.Length0 ensures Rows(M)[r] == S[r] {
      assert Row(M, r) == S[r];
    }
  }

  /** The zero vector of length n. */
  function Zeros(n: nat): (z: seq<real>)
    ensures |z| == n && forall k :: 0 <= k < n ==> z[k] == 0.0
  {
    seq(n, _ => 0.0)
  }

  /** row[lo] * x[lo] + ... + row[hi - 1] * x[hi - 1], summed left to right. */
  function DotRange(row: seq<real>, x: seq<real>, lo: nat, hi: nat): real
    requires lo <= hi <= |row| && hi <= |x|
    decreases hi - lo
  {
    if lo == hi then 0.0 else DotRange(row, x, lo, hi - 1) + row[hi - 1] * x[hi - 1]
  }

  function Dot(row: seq<real>, x: seq<real>): real
    requires |row| == |x|
  {
    DotRange(row, x, 0, |row|)
  }

  /** x solves the system M x = v. */
  ghost predicate Solves(M: seq<seq<real>>, v: seq<real>, x: seq<real>)
  {
    |M| == |v| && forall r :: 0 <= r < |M| ==> |M[r]| == |x| && Dot(M[r], x) == v[r]
  }

  /** A partial dot product over one index is that index's product. */
  lemma DotRangeSingle(row: seq<real>, x: seq<real>, k: nat)
    requires k < |row| && k < |x|
    ensures DotRange(row, x, k, k + 1) == row[k] * x[k]
  {
    assert DotRange(row, x, k, k + 1) == DotRange(row, x, k, k) + row[k] * x[k];
  }

  /** A partial dot product splits at any middle index. */
  lemma {:induction false} DotRangeSplit(row: seq<real>, x: seq<real>, lo: nat, mid: nat, hi: nat)
    requires lo <= mid <= hi <= |row| && hi <= |x|
    ensures DotRange(row, x, lo, hi) == DotRange(row, x, lo, mid) + DotRange(row, x, mid, hi)
    decreases hi - mid
  {
    if mid < hi {
      DotRangeSplit(row, x, lo, mid, hi - 1);
    }
  }

  /** A partial dot product reads only the entries in its range. */
  lemma {:induction false} DotRangeCongruent(row: seq<real>, row': seq<real>, x: seq<real>, x': seq<real>, lo: nat, hi: nat)
    requires lo <= hi <= |row| && hi <= |x| && hi <= |row'| && hi <= |x'|
    requires forall k :: lo <= k < hi ==> row[k] == row'[k] && x[k] == x'[k]
    ensures DotRange(row, x, lo, hi) == DotRange(row', x', lo, hi)
    decreases hi - lo
  {
    if lo < hi {
      DotRangeCongruent(row, row', x, x', lo, hi - 1);
    }
  }

  /** A partial dot product over a range where the row is zero vanishes. */
  lemma {:induction false} DotRangeZeroRow(row: seq<real>, x: seq<real>, lo: nat, hi: nat)
    requires lo <= hi <= |row| && hi <= |x|
    requires forall k :: lo <= k < hi ==> row[k] == 0.0
    ensures DotRange(row, x, lo, hi) == 0.0
    decreases hi - lo
  {
    if lo < hi {
      DotRangeZeroRow(row, x, lo, hi - 1);
    }
  }

  /** A partial dot product over a range where x is zero vanishes. */
  lemma {:induction false} DotRangeZeroVector(row: seq<real>, x: seq<real>, lo: nat, hi: nat)
    requires lo <= hi <= |row| && hi <= |x|
    requires forall k :: lo <= k < hi ==> x[k] == 0.0
    ensures DotRange(row, x, lo, hi) == 0.0
    decreases hi - lo
  {
    if lo < hi {
      DotRangeZeroVector(row, x, lo, hi - 1);
    }
  }

  /** Changing one component of x changes the dot product by the matching
      entry of the row times the change. */
  lemma {:induction false} DotRangeUpdate(row: seq<real>, x: seq<real>, lo: nat, hi: nat, k: nat, val: real)
    requires lo <= hi <= |row| && hi <= |x| && k < |x|
    ensures DotRange(row, x[k := val], lo, hi) ==
            DotRange(row, x, lo, hi) + (if lo <= k < hi then row[k] * (val - x[k]) else 0.0)
    decreases hi - lo
  {
    if lo < hi {
      DotRangeUpdate(row, x, lo, hi - 1, k, val);
    }
  }

  /** The dot product is linear in the row: (a - t c) . x == a . x - t (c . x). */
  lemma {:induction false} DotRangeLinear(a: seq<real>, c: seq<real>, t: real, d: seq<real>, x: seq<real>, lo: nat, hi: nat)
    requires |a| == |c| == |d| && lo <= hi <= |a| && hi <= |x|
    requires forall k :: 0 <= k < |a| ==> d[k] == a[k] - t * c[k]
    ensures DotRange(d, x, lo, hi) == DotRange(a, x, lo, hi) - t * DotRange(c, x, lo, hi)
    decreases hi - lo
  {
    if lo < hi {
      DotRangeLinear(a, c, t, d, x, lo, hi - 1);
    }
  }
}

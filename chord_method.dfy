/** ChordMethod.find_root: false position. Replace an end of the bracket by
    the point where the chord through (a, f(a)) and (b, f(b)) crosses zero,
    until successive chord points are within the tolerance, the iteration
    bound is reached or a chord point is an exact root, recording every pass
    and then the final state. */
module Chord {
  import opened Wrappers
  import opened Numbers
  import opened RootFinding

  /** The chord point of [a, b]. While f(a) and f(b) have opposite signs its
      denominator f(b) - f(a) is nonzero, the chord through the two end
      points vanishes at it, and it lies strictly inside the bracket. */
  function ChordPoint(f: real -> real, a: real, b: real): (x: real)
    requires f(a) * f(b) < 0.0
    ensures f(a) * (b - x) + f(b) * (x - a) == 0.0
    ensures StrictlyBetween(x, a, b)
  {
    var fa, fb := f(a), f(b);
    assert fb - fa != 0.0;
    var t := fa / (fa - fb);
    assert 0.0 < t < 1.0 by {
      if fa < 0.0 { assert fa - fb < fa; } else { assert fa - fb > fa; }
    }
    assert a - (fa * (b - a)) / (fb - fa) == a + t * (b - a);
    a - (fa * (b - a)) / (fb - fa)
  }

  /** rec describes the state at bracket [rec.a, rec.b]: the bracket still
      has the sign change, x is its chord point, and the function values at
      the ends and at x are recorded. */
  predicate Reports(f: real -> real, rec: Record)
  {
    && rec.ChordRecord?
    && f(rec.a) * f(rec.b) < 0.0
    && rec.x == ChordPoint(f, rec.a, rec.b)
    && rec.fa == f(rec.a) && rec.fb == f(rec.b) && rec.fx == f(rec.x)
  }

  /** rec is what pass k of the loop appends, with prev the approximation
      before it: the state before narrowing, whose delta, the distance from
      prev to the chord point, still exceeds the tolerance. */
  predicate IsPass(f: real -> real, tol: real, k: int, prev: real, rec: Record)
  {
    Reports(f, rec) && rec.iter == k && rec.delta == Abs(rec.x - prev) && rec.delta > tol
  }

  /** The approximation pass n measures its delta against: a0 itself for the
      first pass, the previous pass's chord point afterwards. */
  function Previous(a0: real, h: seq<Record>, n: nat): real
    requires n <= |h| && (n > 0 ==> h[n - 1].ChordRecord?)
  {
    if n == 0 then a0 else h[n - 1].x
  }

  /** The records of the loop passes: pass 0 reports [a0, b0], and every pass
      but the last met no exact root and hands the next pass the bracket
      that Narrow keeps around its chord point. */
  predicate Chain(f: real -> real, tol: real, a0: real, b0: real, h: seq<Record>)
  {
    && (forall k :: 0 <= k < |h| ==> h[k].ChordRecord?)
    && (forall k :: 0 <= k < |h| ==> IsPass(f, tol, k, Previous(a0, h, k), h[k]))
    && (|h| > 0 ==> h[0].a == a0 && h[0].b == b0)
    && (forall k :: 0 <= k < |h| - 1 ==>
          h[k].fx != 0.0 && (h[k + 1].a, h[k + 1].b) == Narrow(f, h[k].a, h[k].b, h[k].x))
  }

  /** The bracket after the first n passes of a chain, none of which met an
      exact root. */
  function Bracket(f: real -> real, tol: real, a0: real, b0: real, h: seq<Record>, n: nat): (real, real)
    requires Chain(f, tol, a0, b0, h) && n <= |h| && (n > 0 ==> h[n - 1].fx != 0.0)
  {
    if n == 0 then (a0, b0) else Narrow(f, h[n - 1].a, h[n - 1].b, h[n - 1].x)
  }

  /** res is what find_root returns from [a0, b0] once the interval check has
      passed: the pass records, then one final record; the loop stopped
      either at an exact root (the final record repeats that pass, and the
      history is two longer than the count of narrowings) or because the
      last delta was within the tolerance or the bound was reached (the
      final record reports the bracket left by the last narrowing and its
      chord point). The root is the final chord point and the reached
      accuracy the final delta. */
  predicate Finished(f: real -> real, tol: real, maxIter: int, a0: real, b0: real, res: RootResult)
  {
    var h, n := res.history, res.iterations;
    && 0 <= n && |h| >= 1
    && Chain(f, tol, a0, b0, h[..|h| - 1])
    && var last := h[|h| - 1];
    && Reports(f, last) && last.iter == n
    && res.root == last.x && res.fValue == f(last.x) && res.tolerance == last.delta
    && ( || (|h| == n + 2 && n < maxIter && h[n].fx == 0.0 && last == h[n])
         || (&& |h| == n + 1 && (n == 0 || n <= maxIter)
             && (n > 0 ==> h[n - 1].fx != 0.0)
             && (last.a, last.b) == Bracket(f, tol, a0, b0, h[..n], n)
             && last.delta == Abs(last.x - Previous(a0, h, n))
             && (last.delta <= tol || n >= maxIter)))
  }

  lemma ChainExtend(f: real -> real, tol: real, a0: real, b0: real, h: seq<Record>, rec: Record)
    requires Chain(f, tol, a0, b0, h) && rec.ChordRecord? && IsPass(f, tol, |h|, Previous(a0, h, |h|), rec)
    requires |h| > 0 ==> h[|h| - 1].fx != 0.0
    requires (rec.a, rec.b) == Bracket(f, tol, a0, b0, h, |h|)
    ensures Chain(f, tol, a0, b0, h + [rec])
  {
    var h' := h + [rec];
    forall k | 0 <= k < |h'| ensures h'[k].ChordRecord? && IsPass(f, tol, k, Previous(a0, h', k), h'[k]) {
      if k < |h| {
        assert h'[k] == h[k];
        assert Previous(a0, h', k) == Previous(a0, h, k);
      }
    }
  }

  /** After a pass without an exact root, the narrowed bracket is the
      chain's bracket and the pass's chord point is the next Previous. */
  lemma Advance(f: real -> real, tol: real, a0: real, b0: real, h: seq<Record>, a: real, b: real)
    requires Chain(f, tol, a0, b0, h) && |h| > 0 && h[|h| - 1].fx != 0.0
    requires (a, b) == Narrow(f, h[|h| - 1].a, h[|h| - 1].b, h[|h| - 1].x)
    ensures (a, b) == Bracket(f, tol, a0, b0, h, |h|) && f(a) * f(b) < 0.0
    ensures h[|h| - 1].x == Previous(a0, h, |h|)
  {
    assert IsPass(f, tol, |h| - 1, Previous(a0, h, |h| - 1), h[|h| - 1]);
  }

  /** The exact-root exit: the final record repeats pass n. */
  lemma FinishedAtRoot(f: real -> real, tol: real, maxIter: int, a0: real, b0: real, passes: seq<Record>, n: nat,
                       res: RootResult)
    requires Chain(f, tol, a0, b0, passes) && |passes| == n + 1 && n < maxIter && passes[n].fx == 0.0
    requires res == RootResult(passes[n].x, n, f(passes[n].x), passes[n].delta, passes + [passes[n]])
    ensures Finished(f, tol, maxIter, a0, b0, res)
  {
    var h := passes + [passes[n]];
    assert h[..|h| - 1] == passes;
    assert IsPass(f, tol, n, Previous(a0, passes, n), passes[n]);
  }

  /** The normal exit from bracket [a, b] after n narrowings, with chord
      point x at distance delta from the approximation before it. */
  lemma FinishedAtExit(f: real -> real, tol: real, maxIter: int, a0: real, b0: real, passes: seq<Record>, n: nat,
                       a: real, b: real, x: real, delta: real, res: RootResult)
    requires Chain(f, tol, a0, b0, passes) && |passes| == n && (n == 0 || n <= maxIter)
    requires n > 0 ==> passes[n - 1].fx != 0.0
    requires (a, b) == Bracket(f, tol, a0, b0, passes, n) && f(a) * f(b) < 0.0
    requires x == ChordPoint(f, a, b) && delta == Abs(x - Previous(a0, passes, n))
    requires delta <= tol || n >= maxIter
    requires res == RootResult(x, n, f(x), delta, passes + [ChordRecord(n, a, b, x, f(a), f(b), f(x), delta)])
    ensures Finished(f, tol, maxIter, a0, b0, res)
  {
    var h := res.history;
    assert h[..|h| - 1] == passes;
    assert h[..n] == passes;
    assert Previous(a0, h, n) == Previous(a0, passes, n);
  }

  /** Every bracket of a chain nests in [a0, b0], keeps its orientation, and
      holds its chord point strictly inside. */
  lemma {:induction false} ChainNested(f: real -> real, tol: real, a0: real, b0: real, h: seq<Record>, k: nat)
    requires Chain(f, tol, a0, b0, h) && k < |h|
    ensures Between(h[k].a, a0, b0) && Between(h[k].b, a0, b0)
    ensures (a0 < b0 ==> h[k].a < h[k].b) && (b0 < a0 ==> h[k].b < h[k].a)
    ensures StrictlyBetween(h[k].x, h[k].a, h[k].b)
  {
    assert IsPass(f, tol, k, Previous(a0, h, k), h[k]);
    if k > 0 {
      ChainNested(f, tol, a0, b0, h, k - 1);
      assert IsPass(f, tol, k - 1, Previous(a0, h, k - 1), h[k - 1]);
    }
  }

  /** The facts FinishedFacts states about a final state with bracket [a, b]
      inside [a0, b0] and approximation x. */
  predicate FinalStateFacts(f: real -> real, a0: real, b0: real, a: real, b: real, x: real)
  {
    && f(a) * f(b) < 0.0
    && Between(a, a0, b0) && Between(b, a0, b0)
    && StrictlyBetween(x, a, b) && StrictlyBetween(x, a0, b0)
  }

  /** The bracket kept after pass k lies inside [a0, b0]. For the last pass
      that bracket is in no record of the chain, so ChainNested alone does
      not state it; FinishedFacts needs it for the final record. */
  lemma NarrowedFacts(f: real -> real, tol: real, a0: real, b0: real, h: seq<Record>, k: nat)
    requires Chain(f, tol, a0, b0, h) && k < |h| && h[k].fx != 0.0
    ensures var p := h[k];
            var r := Narrow(f, p.a, p.b, p.x);
            Between(r.0, a0, b0) && Between(r.1, a0, b0)
  {
    ChainNested(f, tol, a0, b0, h, k);
  }

  /** What find_root promises about its result: the final bracket still
      brackets the sign change and nests in [a0, b0], the root is its chord
      point and lies strictly inside both, the reached accuracy is the
      distance from the root to the approximation before it, and after an
      exact-root exit the function vanishes at the root. */
  lemma FinishedFacts(f: real -> real, tol: real, maxIter: int, a0: real, b0: real, res: RootResult)
    requires f(a0) * f(b0) < 0.0
    requires Finished(f, tol, maxIter, a0, b0, res)
    ensures var h := res.history;
            var last := h[|h| - 1];
            && FinalStateFacts(f, a0, b0, last.a, last.b, res.root)
            && res.iterations < |h|
            && res.tolerance == Abs(res.root - Previous(a0, h, res.iterations))
            && (|h| == res.iterations + 2 ==> f(res.root) == 0.0)
  {
    var h, n := res.history, res.iterations;
    var passes := h[..|h| - 1];
    var last := h[|h| - 1];
    if |h| == n + 2 {
      assert passes[n] == h[n];
      ChainNested(f, tol, a0, b0, passes, n);
      assert IsPass(f, tol, n, Previous(a0, passes, n), passes[n]);
      assert Previous(a0, passes, n) == Previous(a0, h, n);
    } else if n == 0 {
      assert (last.a, last.b) == (a0, b0);
    } else {
      assert h[..n] == passes;
      NarrowedFacts(f, tol, a0, b0, passes, n - 1);
    }
  }

  /** When the first chord point is already within the tolerance of a0, no
      pass runs and the history is the final record alone, whose delta is
      measured against a0. */
  lemma FinishedWithoutPasses(f: real -> real, tol: real, maxIter: int, a0: real, b0: real, res: RootResult)
    requires f(a0) * f(b0) < 0.0 && Abs(ChordPoint(f, a0, b0) - a0) <= tol
    requires Finished(f, tol, maxIter, a0, b0, res)
    ensures |res.history| == 1 && res.iterations == 0 && res.history[0].iter == 0
    ensures res.root == ChordPoint(f, a0, b0) && res.tolerance == Abs(res.root - a0)
  {
  }

  /** find_root: an interval without a sign change fails with both end
      values and an empty history; otherwise the passes run and the result
      is Finished, its history being the finder's. */
  method FindRoot(finder: RootFinder, a0: real, b0: real) returns (r: Result<RootResult, FindError>)
    modifies finder`history
    ensures r.Failure? <==> !finder.CheckInterval(a0, b0)
    ensures r.Failure? ==> finder.history == [] && r.error == NoSignChange(a0, finder.f(a0), b0, finder.f(b0))
    ensures r.Success? ==>
              && r.value.history == finder.history
              && Finished(finder.f, finder.tolerance, finder.maxIter, a0, b0, r.value)
  {
    finder.history := [];
    if !finder.CheckInterval(a0, b0) {
      return Failure(NoSignChange(a0, finder.f(a0), b0, finder.f(b0)));
    }
    var res := Iterate(finder, a0, b0);
    return Success(res);
  }

  /** The loop of find_root and its final record, from an empty history and
      a bracket with a sign change. */
  method Iterate(finder: RootFinder, a0: real, b0: real) returns (res: RootResult)
    requires finder.f(a0) * finder.f(b0) < 0.0 && finder.history == []
    modifies finder`history
    ensures res.history == finder.history
    ensures Finished(finder.f, finder.tolerance, finder.maxIter, a0, b0, res)
  {
    var f, tol, maxIter := finder.f, finder.tolerance, finder.maxIter;
    var a, b := a0, b0;
    var iterations := 0;
    var xPrev := a;
    var x := ChordPoint(f, a, b);
    var delta := Abs(x - xPrev);
    while delta > tol && iterations < maxIter
      invariant 0 <= iterations && (iterations == 0 || iterations <= maxIter)
      invariant |finder.history| == iterations
      invariant Chain(f, tol, a0, b0, finder.history)
      invariant iterations > 0 ==> finder.history[iterations - 1].fx != 0.0
      invariant (a, b) == Bracket(f, tol, a0, b0, finder.history, iterations)
      invariant f(a) * f(b) < 0.0
      invariant x == ChordPoint(f, a, b)
      invariant xPrev == Previous(a0, finder.history, iterations)
      invariant delta == Abs(x - xPrev)
      decreases maxIter - iterations
    {
      var rec := ChordRecord(iterations, a, b, x, f(a), f(b), f(x), delta);
      ChainExtend(f, tol, a0, b0, finder.history, rec);
      finder.history := finder.history + [rec];
      if f(x) == 0.0 {
        // break, then the final record, which repeats this pass's record
        ghost var passes := finder.history;
        finder.history := finder.history + [rec];
        res := RootResult(x, iterations, f(x), delta, finder.history);
        FinishedAtRoot(f, tol, maxIter, a0, b0, passes, iterations, res);
        return;
      }
      if f(x) * f(a) < 0.0 {
        b := x;
      } else {
        a := x;
      }
      Advance(f, tol, a0, b0, finder.history, a, b);
      xPrev := x;
      x := ChordPoint(f, a, b);
      delta := Abs(x - xPrev);
      iterations := iterations + 1;
    }
    ghost var passes := finder.history;
    finder.history := finder.history + [ChordRecord(iterations, a, b, x, f(a), f(b), f(x), delta)];
    res := RootResult(x, iterations, f(x), delta, finder.history);
    FinishedAtExit(f, tol, maxIter, a0, b0, passes, iterations, a, b, x, delta, res);
  }
}

/** BisectionMethod.find_root: halve the bracket [a, b] until it is no wider
    than the tolerance, the iteration bound is reached or the midpoint is an
    exact root, recording every pass and then the final bracket. */
module Bisection {
  import opened Wrappers
  import opened Numbers
  import opened RootFinding

  /** rec describes the bracket [rec.a, rec.b]: its midpoint, the function
      values at the ends and at the midpoint, and its width. */
  predicate Reports(f: real -> real, rec: Record)
  {
    && rec.BisectionRecord?
    && rec.c == (rec.a + rec.b) / 2.0
    && rec.fa == f(rec.a) && rec.fb == f(rec.b) && rec.fc == f(rec.c)
    && rec.interval == rec.b - rec.a
  }

  /** rec is what pass k of the loop appends: the bracket before narrowing,
      which still brackets the sign change and is wider than the tolerance. */
  predicate IsPass(f: real -> real, tol: real, k: int, rec: Record)
  {
    Reports(f, rec) && rec.iter == k && rec.interval > tol && f(rec.a) * f(rec.b) < 0.0
  }

  /** The records of the loop passes: pass 0 reports [a0, b0], and every pass
      but the last met no exact root and hands the next pass the half that
      Narrow keeps. */
  predicate Chain(f: real -> real, tol: real, a0: real, b0: real, h: seq<Record>)
  {
    && (forall k :: 0 <= k < |h| ==> IsPass(f, tol, k, h[k]))
    && (|h| > 0 ==> h[0].a == a0 && h[0].b == b0)
    && (forall k :: 0 <= k < |h| - 1 ==>
          h[k].fc != 0.0 && (h[k + 1].a, h[k + 1].b) == Narrow(f, h[k].a, h[k].b, h[k].c))
  }

  /** The bracket after the first n passes of a chain, none of which met an
      exact root. */
  function Bracket(f: real -> real, tol: real, a0: real, b0: real, h: seq<Record>, n: nat): (real, real)
    requires Chain(f, tol, a0, b0, h) && n <= |h| && (n > 0 ==> h[n - 1].fc != 0.0)
  {
    if n == 0 then (a0, b0) else Narrow(f, h[n - 1].a, h[n - 1].b, h[n - 1].c)
  }

  /** res is what find_root returns from [a0, b0] once the interval check has
      passed: the pass records, then one final record; the loop stopped
      either at an exact root (the final record repeats that pass, and the
      history is two longer than the count of narrowings) or because the
      bracket was no wider than the tolerance or the bound was reached (the
      final record reports the bracket left by the last narrowing). The
      root is the final midpoint and the reached accuracy the final width. */
  predicate Finished(f: real -> real, tol: real, maxIter: int, a0: real, b0: real, res: RootResult)
  {
    var h, n := res.history, res.iterations;
    && 0 <= n && |h| >= 1
    && Chain(f, tol, a0, b0, h[..|h| - 1])
    && var last := h[|h| - 1];
    && Reports(f, last) && last.iter == n
    && res.root == last.c && res.fValue == f(last.c) && res.tolerance == last.interval
    && ( || (|h| == n + 2 && n < maxIter && h[n].fc == 0.0 && last == h[n])
         || (&& |h| == n + 1 && (n == 0 || n <= maxIter)
             && (n > 0 ==> h[n - 1].fc != 0.0)
             && (last.a, last.b) == Bracket(f, tol, a0, b0, h[..n], n)
             && (last.interval <= tol || n >= maxIter)))
  }

  lemma ChainExtend(f: real -> real, tol: real, a0: real, b0: real, h: seq<Record>, rec: Record)
    requires Chain(f, tol, a0, b0, h) && IsPass(f, tol, |h|, rec)
    requires |h| > 0 ==> h[|h| - 1].fc != 0.0
    requires (rec.a, rec.b) == Bracket(f, tol, a0, b0, h, |h|)
    ensures Chain(f, tol, a0, b0, h + [rec])
  {
    var h' := h + [rec];
    forall k | 0 <= k < |h'| ensures IsPass(f, tol, k, h'[k]) {
      if k < |h| { assert h'[k] == h[k]; }
    }
  }

  /** After a pass without an exact root, the kept half is the chain's
      bracket and still brackets the sign change. */
  lemma Advance(f: real -> real, tol: real, a0: real, b0: real, h: seq<Record>, a: real, b: real)
    requires Chain(f, tol, a0, b0, h) && |h| > 0 && h[|h| - 1].fc != 0.0
    requires (a, b) == Narrow(f, h[|h| - 1].a, h[|h| - 1].b, h[|h| - 1].c)
    ensures (a, b) == Bracket(f, tol, a0, b0, h, |h|) && f(a) * f(b) < 0.0
  {
    assert IsPass(f, tol, |h| - 1, h[|h| - 1]);
  }

  /** The exact-root exit: the final record repeats pass n. */
  lemma FinishedAtRoot(f: real -> real, tol: real, maxIter: int, a0: real, b0: real, passes: seq<Record>, n: nat,
                       res: RootResult)
    requires Chain(f, tol, a0, b0, passes) && |passes| == n + 1 && n < maxIter && passes[n].fc == 0.0
    requires res == RootResult(passes[n].c, n, f(passes[n].c), passes[n].interval, passes + [passes[n]])
    ensures Finished(f, tol, maxIter, a0, b0, res)
  {
    var h := passes + [passes[n]];
    assert h[..|h| - 1] == passes;
  }

  /** The normal exit from bracket [a, b] after n narrowings. */
  lemma FinishedAtExit(f: real -> real, tol: real, maxIter: int, a0: real, b0: real, passes: seq<Record>, n: nat,
                       a: real, b: real, res: RootResult)
    requires Chain(f, tol, a0, b0, passes) && |passes| == n && (n == 0 || n <= maxIter)
    requires n > 0 ==> passes[n - 1].fc != 0.0
    requires (a, b) == Bracket(f, tol, a0, b0, passes, n)
    requires b - a <= tol || n >= maxIter
    requires var c := (a + b) / 2.0;
             res == RootResult(c, n, f(c), b - a, passes + [BisectionRecord(n, a, b, c, f(a), f(b), f(c), b - a)])
    ensures Finished(f, tol, maxIter, a0, b0, res)
  {
    var h := res.history;
    assert h[..|h| - 1] == passes;
    assert h[..n] == passes;
  }

  /** Each pass halves the bracket: the bracket of pass k is 2^k times
      narrower than [a0, b0]. */
  lemma {:induction false} ChainWidth(f: real -> real, tol: real, a0: real, b0: real, h: seq<Record>, k: nat)
    requires Chain(f, tol, a0, b0, h) && k < |h|
    ensures h[k].interval == (b0 - a0) / Pow2(k)
  {
    if k > 0 {
      ChainWidth(f, tol, a0, b0, h, k - 1);
      var p := h[k - 1];
      assert IsPass(f, tol, k - 1, p) && IsPass(f, tol, k, h[k]);
      assert h[k].interval == p.interval / 2.0;
      HalfQuotient(b0 - a0, Pow2(k - 1));
    }
  }

  /** Every bracket of a chain nests in [a0, b0] and still brackets the sign
      change. */
  lemma {:induction false} ChainNested(f: real -> real, tol: real, a0: real, b0: real, h: seq<Record>, k: nat)
    requires Chain(f, tol, a0, b0, h) && k < |h|
    ensures Between(h[k].a, a0, b0) && Between(h[k].b, a0, b0)
    ensures (a0 < b0 ==> h[k].a < h[k].b) && (b0 < a0 ==> h[k].b < h[k].a)
  {
    if k > 0 {
      ChainNested(f, tol, a0, b0, h, k - 1);
      var p := h[k - 1];
      assert IsPass(f, tol, k - 1, p);
      assert StrictlyBetween(p.c, p.a, p.b);
    }
  }

  /** The facts FinishedFacts states, for a final bracket [a, b] reached by
      n narrowings that keep the sign change inside [a0, b0]. */
  predicate FinalBracketFacts(f: real -> real, a0: real, b0: real, a: real, b: real, n: nat)
  {
    && f(a) * f(b) < 0.0
    && b - a == (b0 - a0) / Pow2(n)
    && Between(a, a0, b0) && Between(b, a0, b0)
  }

  lemma PassFacts(f: real -> real, tol: real, a0: real, b0: real, h: seq<Record>, k: nat)
    requires Chain(f, tol, a0, b0, h) && k < |h|
    ensures FinalBracketFacts(f, a0, b0, h[k].a, h[k].b, k)
  {
    ChainWidth(f, tol, a0, b0, h, k);
    ChainNested(f, tol, a0, b0, h, k);
    assert IsPass(f, tol, k, h[k]);
  }

  lemma NarrowedFacts(f: real -> real, tol: real, a0: real, b0: real, h: seq<Record>, k: nat)
    requires Chain(f, tol, a0, b0, h) && k < |h| && h[k].fc != 0.0
    ensures var p := h[k];
            FinalBracketFacts(f, a0, b0, Narrow(f, p.a, p.b, p.c).0, Narrow(f, p.a, p.b, p.c).1, k + 1)
  {
    var p := h[k];
    PassFacts(f, tol, a0, b0, h, k);
    assert IsPass(f, tol, k, p);
    assert StrictlyBetween(p.c, p.a, p.b);
    var r := Narrow(f, p.a, p.b, p.c);
    assert r.1 - r.0 == (p.b - p.a) / 2.0;
  }

  /** What find_root promises about its result: the final bracket still
      brackets the sign change, it is 2^n times narrower than [a0, b0] after
      n narrowings, its width is the reported accuracy, the root is its
      midpoint and so lies in both it and [a0, b0], and after an exact-root
      exit the function vanishes at the root. */
  lemma FinishedFacts(f: real -> real, tol: real, maxIter: int, a0: real, b0: real, res: RootResult)
    requires f(a0) * f(b0) < 0.0
    requires Finished(f, tol, maxIter, a0, b0, res)
    ensures var last := res.history[|res.history| - 1];
            && FinalBracketFacts(f, a0, b0, last.a, last.b, res.iterations)
            && res.tolerance == last.b - last.a
            && Between(res.root, last.a, last.b) && Between(res.root, a0, b0)
            && (|res.history| == res.iterations + 2 ==> f(res.root) == 0.0)
  {
    var h, n := res.history, res.iterations;
    var passes := h[..|h| - 1];
    var last := h[|h| - 1];
    if |h| == n + 2 {
      assert passes[n] == h[n];
      PassFacts(f, tol, a0, b0, passes, n);
    } else if n == 0 {
      assert (last.a, last.b) == (a0, b0);
    } else {
      assert h[..n] == passes;
      NarrowedFacts(f, tol, a0, b0, passes, n - 1);
    }
  }

  /** When [a0, b0] is already no wider than the tolerance (in particular when
      a0 > b0 and tol >= 0), no pass runs and the history is the final record
      alone. */
  lemma FinishedWithoutPasses(f: real -> real, tol: real, maxIter: int, a0: real, b0: real, res: RootResult)
    requires Finished(f, tol, maxIter, a0, b0, res) && b0 - a0 <= tol
    ensures |res.history| == 1 && res.iterations == 0 && res.history[0].iter == 0
    ensures res.history[0].a == a0 && res.history[0].b == b0
  {
  }

  /** find_root: an interval without a sign change fails with both end
      values and an empty history; otherwise the passes run and the result
      is Finished, its history being the finder's. */
  method FindRoot(finder: RootFinder, a0: real, b0: real) returns (r: Result<RootResult, FindError>)
    modifies finder`history
    ensures r.Failure? <==> !finder.CheckInterval(a0, b0)
    ensures r.Failure? ==> finder.history == [] && r.error == NoSignChange(a0, finder.f(a0), b0, finder.f(b0))
    ensures r.Success? ==>
              && r.value.history == finder.history
              && Finished(finder.f, finder.tolerance, finder.maxIter, a0, b0, r.value)
  {
    finder.history := [];
    if !finder.CheckInterval(a0, b0) {
      return Failure(NoSignChange(a0, finder.f(a0), b0, finder.f(b0)));
    }
    var res := Iterate(finder, a0, b0);
    return Success(res);
  }

  /** The loop of find_root and its final record, from an empty history and
      a bracket with a sign change. */
  method Iterate(finder: RootFinder, a0: real, b0: real) returns (res: RootResult)
    requires finder.f(a0) * finder.f(b0) < 0.0 && finder.history == []
    modifies finder`history
    ensures res.history == finder.history
    ensures Finished(finder.f, finder.tolerance, finder.maxIter, a0, b0, res)
  {
    var f, tol, maxIter := finder.f, finder.tolerance, finder.maxIter;
    var a, b := a0, b0;
    var iterations := 0;
    while b - a > tol && iterations < maxIter
      invariant 0 <= iterations && (iterations == 0 || iterations <= maxIter)
      invariant |finder.history| == iterations
      invariant Chain(f, tol, a0, b0, finder.history)
      invariant iterations > 0 ==> finder.history[iterations - 1].fc != 0.0
      invariant (a, b) == Bracket(f, tol, a0, b0, finder.history, iterations)
      invariant f(a) * f(b) < 0.0
      decreases maxIter - iterations
    {
      var c := (a + b) / 2.0;
      var rec := BisectionRecord(iterations, a, b, c, f(a), f(b), f(c), b - a);
      ChainExtend(f, tol, a0, b0, finder.history, rec);
      finder.history := finder.history + [rec];
      if f(c) == 0.0 {
        // break, then the final record, which repeats this pass's record
        ghost var passes := finder.history;
        finder.history := finder.history + [rec];
        res := RootResult(c, iterations, f(c), b - a, finder.history);
        FinishedAtRoot(f, tol, maxIter, a0, b0, passes, iterations, res);
        return;
      }
      if f(c) * f(a) < 0.0 {
        b := c;
      } else {
        a := c;
      }
      Advance(f, tol, a0, b0, finder.history, a, b);
      iterations := iterations + 1;
    }
    ghost var passes := finder.history;
    var c := (a + b) / 2.0;
    finder.history := finder.history + [BisectionRecord(iterations, a, b, c, f(a), f(b), f(c), b - a)];
    res := RootResult(c, iterations, f(c), b - a, finder.history);
    FinishedAtExit(f, tol, maxIter, a0, b0, passes, iterations, a, b, res);
  }
}

/** The state shared by the bracketed root finders (class RootFinder): the
    equation, the requested accuracy, the iteration bound and the history of
    iteration records; the sign-change test both finders start with; and the
    endpoint-replacement rule both finders narrow their bracket by. */
module RootFinding {
  import opened Numbers

  /** The accuracy a finder gets when its caller names none. */
  const DefaultTolerance: real := 0.000001

  /** The iteration bound a finder gets when its caller names none. */
  const DefaultMaxIter: int := 100

  /** One entry of a finder's history. Bisection records the midpoint c and
      the bracket width; the chord method records the chord point x and the
      distance to the previous approximation. */
  datatype Record =
    | BisectionRecord(iter: int, a: real, b: real, c: real, fa: real, fb: real, fc: real, interval: real)
    | ChordRecord(iter: int, a: real, b: real, x: real, fa: real, fb: real, fx: real, delta: real)

  /** What find_root returns: the approximation, the number of completed
      narrowings, the function value there, the accuracy actually reached and
      the history. */
  datatype RootResult = RootResult(root: real, iterations: int, fValue: real, tolerance: real, history: seq<Record>)

  /** The ValueError raised when f does not change sign between the endpoints;
      its message quotes both endpoints and both function values. */
  datatype FindError = NoSignChange(a: real, fa: real, b: real, fb: real)

  class RootFinder {
    const f: real -> real
    const tolerance: real
    const maxIter: int
    var history: seq<Record>

    constructor (f: real -> real, tol: real := DefaultTolerance, maxIter: int := DefaultMaxIter)
      ensures this.f == f && tolerance == tol && this.maxIter == maxIter
      ensures history == []
    {
      this.f := f;
      tolerance := tol;
      this.maxIter := maxIter;
      history := [];
    }

    /** The interval brackets a root: f has strictly opposite signs at its
        ends. A root exactly at an end is therefore rejected. */
    function CheckInterval(a: real, b: real): (ok: bool)
      ensures ok <==> (f(a) < 0.0 < f(b) || f(b) < 0.0 < f(a))
      ensures f(a) == 0.0 || f(b) == 0.0 ==> !ok
    {
      f(a) * f(b) < 0.0
    }

    lemma CheckIntervalSymmetric(a: real, b: real)
      ensures CheckInterval(a, b) == CheckInterval(b, a)
    {
    }
  }

  /** The endpoint-replacement rule of both finders: with the new point p,
      keep [a, p] when f(p) and f(a) have opposite signs, and [p, b]
      otherwise. The kept half still brackets the sign change, and when p
      lies strictly inside, exactly one endpoint moves and the new bracket
      nests in the old one. */
  function Narrow(f: real -> real, a: real, b: real, p: real): (r: (real, real))
    requires f(a) * f(b) < 0.0 && f(p) != 0.0
    ensures (r.0 == a && r.1 == p) || (r.0 == p && r.1 == b)
    ensures f(r.0) * f(r.1) < 0.0
    ensures StrictlyBetween(p, a, b) ==>
              (r.0 == a) != (r.1 == b) && Between(r.0, a, b) && Between(r.1, a, b) &&
              (a < b ==> r.0 < r.1) && (b < a ==> r.1 < r.0)
  {
    if f(p) * f(a) < 0.0 then (a, p) else (p, b)
  }
}

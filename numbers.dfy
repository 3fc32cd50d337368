/** Small facts about exact real numbers shared by the numerical methods. */
module Numbers {

  function Abs(x: real): (r: real)
    ensures r >= 0.0 && (r == x || r == -x)
  {
    if x < 0.0 then -x else x
  }

  /** x lies strictly between the two ends, whichever way round they are given. */
  predicate StrictlyBetween(x: real, a: real, b: real)
  {
    (a < x < b) || (b < x < a)
  }

  /** x lies between the two ends, inclusive, whichever way round they are given. */
  predicate Between(x: real, a: real, b: real)
  {
    (a <= x <= b) || (b <= x <= a)
  }

  /** 2^k as a real. */
  function Pow2(k: nat): (p: real)
    ensures p >= 1.0
  {
    if k == 0 then 1.0 else 2.0 * Pow2(k - 1)
  }

  /** Multiplying a quotient back by its nonzero divisor gives the dividend. */
  lemma CancelDivision(a: real, d: real)
    requires d != 0.0
    ensures d * (a / d) == a
  {
  }

  /** The quotient is the only y with d * y == a. */
  lemma QuotientUnique(a: real, d: real, y: real)
    requires d != 0.0 && d * y == a
    ensures y == a / d
  {
  }

  /** y is the quotient a / d exactly when d * y == a. */
  lemma QuotientIff(a: real, d: real, y: real)
    requires d != 0.0
    ensures y == a / d <==> d * y == a
  {
    CancelDivision(a, d);
    if d * y == a {
      QuotientUnique(a, d, y);
    }
  }

  /** Halving a quotient doubles its divisor. */
  lemma HalfQuotient(w: real, p: real)
    requires p != 0.0
    ensures (w / p) / 2.0 == w / (2.0 * p)
  {
    var q := w / p;
    CancelDivision(w, p);
    assert (2.0 * p) * (q / 2.0) == p * q;
    QuotientUnique(w, 2.0 * p, q / 2.0);
  }
}

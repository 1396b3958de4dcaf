/** Divisibility facts used by the period proof of the random generator. */
module Divisibility {

  ghost predicate Divides(d: nat, n: nat)
  {
    exists k: nat :: n == d * k
  }

  ghost predicate Prime(p: nat)
  {
    p > 1 && forall d: nat :: Divides(d, p) ==> d == 1 || d == p
  }

  lemma DividesCombination(g: nat, b: nat, q: nat, r: nat)
    requires Divides(g, b) && Divides(g, r)
    ensures Divides(g, q * b + r)
  {
    var k: nat :| b == g * k;
    var l: nat :| r == g * l;
    assert q * (g * k) + g * l == g * (q * k + l);
  }

  lemma SubstituteRemainder(a: int, b: int, q: int, u: int, v: int)
    ensures u * b + v * (a - q * b) == v * a + (u - v * q) * b
  {
    assert v * (a - q * b) == v * a - v * (q * b);
    assert v * (q * b) == (v * q) * b;
    assert (u - v * q) * b == u * b - (v * q) * b;
  }

  /** Euclid's algorithm with coefficients. */
  lemma {:induction false} Bezout(a: nat, b: nat) returns (g: nat, u: int, v: int)
    requires 0 < a
    ensures 0 < g && g == u * a + v * b && Divides(g, a) && Divides(g, b)
    decreases b
  {
    if b == 0 {
      g, u, v := a, 1, 0;
      assert a == g * 1 && b == g * 0;
    } else {
      var q, r := a / b, a % b;
      var s, t;
      g, s, t := Bezout(b, r);
      u, v := t, s - t * q;
      SubstituteRemainder(a, b, q, s, t);
      DividesCombination(g, b, q, r);
    }
  }

  lemma ScaleBezout(n: int, e: int, p: int, u: int, v: int, t: int)
    requires u * e + v * p == 1 && p * n == e * t
    ensures n == e * (n * u + v * t)
  {
    assert n * (u * e) == e * (n * u);
    assert n * (v * p) == v * (p * n);
    assert v * (e * t) == e * (v * t);
    assert n == n * (u * e + v * p) == n * (u * e) + n * (v * p);
  }

  /** A prime factor that does not divide e can be cancelled from a multiple of e. */
  lemma CancelPrime(e: nat, p: nat, n: nat)
    requires Prime(p) && !Divides(p, e) && 0 < e && Divides(e, p * n)
    ensures Divides(e, n)
  {
    var g, u, v := Bezout(e, p);
    assert g == 1;
    var t: nat :| p * n == e * t;
    ScaleBezout(n, e, p, u, v, t);
    FactorNonNegative(e, n * u + v * t);
  }

  lemma FactorNonNegative(e: nat, k: int)
    requires 0 < e && 0 <= e * k
    ensures 0 <= k
  {
    if k < 0 { MulOrder(e, k, -1); }
  }

  lemma OneMore(n: int, q: int)
    ensures n * (q + 1) == n * q + n
  {}

  lemma MulOrder(e: nat, a: int, b: int)
    requires a <= b
    ensures e * a <= e * b
  {}

  /** Trial division up to the square root decides primality. */
  lemma PrimeByTrialDivision(p: nat, limit: nat)
    requires 1 < p < limit * limit
    requires forall d: nat :: 1 < d < limit ==> !Divides(d, p)
    ensures Prime(p)
  {
    forall d: nat | Divides(d, p) ensures d == 1 || d == p {
      var k: nat :| p == d * k;
      assert p == k * d && Divides(k, p);
      if d >= limit && k >= limit {
        MulOrder(d, limit, k);
        MulOrder(limit, limit, d);
        assert false;
      }
      assert d != 0 && k != 0;
    }
  }
}

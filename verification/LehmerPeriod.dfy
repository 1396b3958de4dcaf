/** The generator has full period: its 2147483646 states form one cycle. */
module LehmerPeriod {
  import opened Divisibility
  import opened Lehmer
  import opened LehmerJumps

  // PERIOD == 2 * 3 * 3 * 7 * 11 * 31 * 151 * 331
  const PRIME_FACTORS: set<nat> := {2, 3, 7, 11, 31, 151, 331}

  lemma FactorsArePrime()
    ensures Prime(2) && Prime(3) && Prime(7) && Prime(11) && Prime(31) && Prime(151) && Prime(331)
  {
    PrimeByTrialDivision(2, 2);
    PrimeByTrialDivision(3, 2);
    PrimeByTrialDivision(7, 3);
    PrimeByTrialDivision(11, 4);
    PrimeByTrialDivision(31, 6);
    NoSmallDivisor(151, 13);
    PrimeByTrialDivision(151, 13);
    NoSmallDivisor(331, 19);
    PrimeByTrialDivision(331, 19);
  }

  lemma NoSmallDivisor(p: nat, limit: nat)
    requires (p == 151 && limit == 13) || (p == 331 && limit == 19)
    ensures forall d: nat :: 1 < d < limit ==> !Divides(d, p)
  {
    forall d: nat | 1 < d < limit ensures !Divides(d, p) {
      if Divides(d, p) {
        var k: nat :| p == d * k;
        assert false;
      }
    }
  }

  lemma IdentityDifference(a: nat, b: nat)
    requires a <= b && Multiplies(a, 1) && Multiplies(b, 1)
    ensures Multiplies(b - a, 1)
  {
    forall s: int ensures After(s % MODULUS, b - a) == 1 * s % MODULUS {
      AfterAdds(s % MODULUS, a, b - a);
      assert After(s % MODULUS, a) == 1 * s % MODULUS;
      assert After(s % MODULUS, b) == 1 * s % MODULUS;
    }
  }

  lemma {:induction false} IdentityGcd(a: nat, b: nat) returns (g: nat)
    requires 0 < a && 0 < b && Multiplies(a, 1) && Multiplies(b, 1)
    ensures 0 < g && Multiplies(g, 1) && Divides(g, a) && Divides(g, b)
    decreases a + b
  {
    if a == b {
      g := a;
      assert a == g * 1;
    } else if a < b {
      IdentityDifference(a, b);
      g := IdentityGcd(a, b - a);
      DividesCombination(g, a, 1, b - a);
    } else {
      IdentityDifference(b, a);
      g := IdentityGcd(a - b, b);
      DividesCombination(g, b, 1, a - b);
    }
  }

  lemma {:induction false} IdentityMultiple(g: nat, k: nat)
    requires Multiplies(g, 1)
    ensures Multiplies(g * k, 1)
  {
    if k == 0 {
      assert g * k == 0;
      assert Multiplies(0, 1);
    } else {
      IdentityMultiple(g, k - 1);
      MultipliesSum(g * (k - 1), 1, g, 1, 1);
      assert g * k == g * (k - 1) + g;
    }
  }

  lemma CofactorMultiple(g: nat, e: nat, p: nat, n: nat)
    requires 0 < p && n * p == g * e && Divides(p, e)
    ensures Divides(g, n)
  {
    var k: nat :| e == p * k;
    assert n * p == g * (p * k) == (g * k) * p;
    assert n == g * k;
  }

  /** A proper divisor of the period still divides the period with one prime factor taken out. */
  lemma ProperDivisorMissesAPrime(g: nat)
    requires 0 < g < PERIOD && Divides(g, PERIOD)
    ensures exists p: nat :: p in PRIME_FACTORS && Divides(g, PERIOD / p)
  {
    var e: nat :| PERIOD == g * e;
    assert e > 1;
    FactorsArePrime();
    if p: nat :| p in PRIME_FACTORS && Divides(p, e) {
      assert PERIOD / p * p == PERIOD;
      CofactorMultiple(g, e, p, PERIOD / p);
    } else {
      assert PERIOD == e * g && Divides(e, PERIOD);
      CancelPrime(e, 2, 1073741823);
      CancelPrime(e, 3, 357913941);
      CancelPrime(e, 3, 119304647);
      CancelPrime(e, 7, 17043521);
      CancelPrime(e, 11, 1549411);
      CancelPrime(e, 31, 49981);
      CancelPrime(e, 151, 331);
      assert false;
    }
  }

  lemma NoIdentityBeforeAPrimeIsMissing(p: nat)
    requires p in PRIME_FACTORS
    ensures !Multiplies(PERIOD / p, 1)
  {
    JumpsToPeriod();
    JumpToPeriodOver11();
    JumpToPeriodOver31();
    JumpToPeriodOver151();
    JumpToPeriodOver331();
    if Multiplies(PERIOD / p, 1) {
      var h := if p == 2 then 2147483646 else if p == 3 then 634005911 else if p == 7 then 1752599774
        else if p == 11 then 219454379 else if p == 31 then 64 else if p == 151 then 556613938 else 1627574666;
      MultiplierIsUnique(PERIOD / p, h, 1);
      assert false;
    }
  }

  /** No jump shorter than the period is the identity. */
  lemma PeriodIsLeast(k: nat)
    requires 0 < k < PERIOD
    ensures !Multiplies(k, 1)
  {
    if Multiplies(k, 1) {
      JumpsToPeriod();
      var g := IdentityGcd(k, PERIOD);
      var c: nat :| k == g * c;
      assert c > 0;
      assert g <= k;
      ProperDivisorMissesAPrime(g);
      var p: nat :| p in PRIME_FACTORS && Divides(g, PERIOD / p);
      var m: nat :| PERIOD / p == g * m;
      IdentityMultiple(g, m);
      NoIdentityBeforeAPrimeIsMissing(p);
    }
  }

  /** The states met in the first n calls from seed 1. */
  ghost function Orbit(n: nat): set<int>
  {
    set k | 0 <= k < n :: After(1, k)
  }

  lemma AfterOneMultiplies(s: int, k: nat, h: int)
    requires IsSeed(s) && Multiplies(k, h)
    ensures After(s, k) == h * s % MODULUS
  {
    hide After;
    SeedIsReduced(s);
    assert After(s % MODULUS, k) == h * s % MODULUS;
  }

  lemma SeedIsReduced(s: int)
    requires IsSeed(s)
    ensures s % MODULUS == s
  {}

  /** Every jump multiplies by the state it takes seed 1 to. */
  lemma {:induction false} EveryJumpMultiplies(k: nat)
    ensures Multiplies(k, After(1, k))
  {
    if k > 0 {
      EveryJumpMultiplies(k - 1);
      MultipliesOne();
      MultipliesSum(k - 1, After(1, k - 1), 1, MULTIPLIER, After(1, k));
    }
  }

  lemma OrbitHasNoRepeats(i: nat, j: nat)
    requires i < j < PERIOD
    ensures After(1, i) != After(1, j)
  {
    if After(1, i) == After(1, j) {
      EveryJumpMultiplies(j - i);
      AfterAdds(1, j - i, i);
      AfterKeepsSeeds(1, j - i);
      AfterIsInjective(1, After(1, j - i), i);
      PeriodIsLeast(j - i);
    }
  }

  lemma {:induction false} OrbitSize(n: nat)
    requires n <= PERIOD
    ensures |Orbit(n)| == n
  {
    if n > 0 {
      OrbitSize(n - 1);
      assert Orbit(n) == Orbit(n - 1) + {After(1, n - 1)};
      forall k | 0 <= k < n - 1 ensures After(1, k) != After(1, n - 1) {
        OrbitHasNoRepeats(k, n - 1);
      }
    }
  }

  ghost function Seeds(n: nat): set<int>
  {
    set s: int | 1 <= s <= n && IsSeed(s)
  }

  lemma {:induction false} SeedsSize(n: nat)
    requires n <= PERIOD
    ensures |Seeds(n)| == n
  {
    if n > 0 {
      SeedsSize(n - 1);
      assert Seeds(n) == Seeds(n - 1) + {n};
    }
  }

  lemma SubsetOfEqualSize<T>(a: set<T>, b: set<T>)
    requires a <= b && |a| == |b|
    ensures a == b
  {
    assert b == a + (b - a);
    assert |b| == |a| + |b - a|;
  }

  /** Counting: the period is as long as there are seeds, so the orbit of 1 misses none. */
  lemma OrbitReaches(t: int)
    requires IsSeed(t)
    ensures exists k: nat :: k < PERIOD && After(1, k) == t
  {
    OrbitSize(PERIOD);
    SeedsSize(PERIOD);
    forall k: nat | k < PERIOD ensures After(1, k) in Seeds(PERIOD) {
      AfterKeepsSeeds(1, k);
    }
    SubsetOfEqualSize(Orbit(PERIOD), Seeds(PERIOD));
    assert t in Orbit(PERIOD);
  }

  /** A seed comes back exactly after the multiples of 2147483646 calls: the least period is m - 1. */
  lemma LeastPeriod(s: int, k: nat)
    requires IsSeed(s)
    ensures After(s, k) == s <==> k % PERIOD == 0
  {
    JumpsToPeriod();
    var q, r := k / PERIOD, k % PERIOD;
    IdentityMultiple(PERIOD, q);
    AfterOneMultiplies(s, PERIOD * q, 1);
    AfterAdds(s, PERIOD * q, r);
    assert After(s, k) == After(s, r);
    if r > 0 {
      OrbitReaches(s);
      var i: nat :| i < PERIOD && After(1, i) == s;
      AfterAdds(1, i, r);
      AfterAdds(1, r, i);
      if After(s, r) == s {
        AfterKeepsSeeds(1, r);
        AfterIsInjective(1, After(1, r), i);
        EveryJumpMultiplies(r);
        PeriodIsLeast(r);
      }
    }
  }

  lemma VisitsEverySeed(s: int, t: int)
    requires IsSeed(s) && IsSeed(t)
    ensures exists k: nat :: 1 <= k <= PERIOD && After(s, k) == t
  {
    OrbitReaches(s);
    OrbitReaches(t);
    var i: nat :| i < PERIOD && After(1, i) == s;
    var j: nat :| j < PERIOD && After(1, j) == t;
    var k := if i < j then j - i else j + PERIOD - i;
    LeastPeriod(1, PERIOD);
    AfterAdds(1, PERIOD, j);
    AfterAdds(1, i, k);
    assert After(s, k) == t;
  }

  /** Within one period no state is met twice, from any seed. */
  lemma VisitsOnce(s: int, i: nat, j: nat)
    requires IsSeed(s) && 1 <= i < j <= PERIOD
    ensures After(s, i) != After(s, j)
  {
    AfterKeepsSeeds(s, i);
    AfterAdds(s, i, j - i);
    LeastPeriod(After(s, i), j - i);
  }
}

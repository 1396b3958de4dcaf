/** The Lehmer generator of lib.c as mathematics: one step, k steps, and the algebra of jumping ahead. */
module Lehmer {
  const MODULUS: int := 2147483647
  const MULTIPLIER: int := 48271
  const STREAMS: int := 256
  const A256: int := 22925
  const DEFAULT_SEED: int := 123456789
  const FALLBACK_SEED: int := 10086
  const CHECK: int := 399268537
  const JUMP: nat := 8367782
  const PERIOD: nat := 2147483646

  predicate IsSeed(s: int)
  {
    1 <= s < MODULUS
  }

  /** The true product modulo m, computed without regard to the width of a machine word. */
  function Step(s: int): int
  {
    MULTIPLIER * s % MODULUS
  }

  /** The state k calls of Random after state s. */
  function After(s: int, k: nat): int
    decreases k, s
  {
    if k == 0 then s else Step(After(s, k - 1))
  }

  // 48271 * 1899818559 == 42704 * MODULUS + 1, so a step can be undone.
  lemma StepIsReversible(s: int)
    ensures 1899818559 * Step(s) % MODULUS == s % MODULUS
  {
    var q, r := MULTIPLIER * s / MODULUS, Step(s);
    assert MULTIPLIER * s == MODULUS * q + r;
    assert 1899818559 * r == MODULUS * (42704 * s - 1899818559 * q) + s;
    ModulusDropsOut(42704 * s - 1899818559 * q, s);
  }

  lemma StepKeepsSeeds(s: int)
    requires IsSeed(s)
    ensures IsSeed(Step(s))
  {
    StepIsReversible(s);
  }

  lemma StepIsInjective(s: int, t: int)
    requires IsSeed(s) && IsSeed(t) && Step(s) == Step(t)
    ensures s == t
  {
    StepIsReversible(s);
    StepIsReversible(t);
  }

  lemma {:induction false} AfterKeepsSeeds(s: int, k: nat)
    requires IsSeed(s)
    ensures IsSeed(After(s, k))
  {
    if k > 0 {
      AfterKeepsSeeds(s, k - 1);
      StepKeepsSeeds(After(s, k - 1));
    }
  }

  lemma {:induction false} AfterIsInjective(s: int, t: int, k: nat)
    requires IsSeed(s) && IsSeed(t) && After(s, k) == After(t, k)
    ensures s == t
  {
    if k > 0 {
      AfterKeepsSeeds(s, k - 1);
      AfterKeepsSeeds(t, k - 1);
      StepIsInjective(After(s, k - 1), After(t, k - 1));
      AfterIsInjective(s, t, k - 1);
    }
  }

  lemma {:induction false} AfterAdds(s: int, j: nat, k: nat)
    ensures After(s, j + k) == After(After(s, j), k)
  {
    if k > 0 {
      AfterAdds(s, j, k - 1);
    }
  }

  /** Taking k steps multiplies the state by h. */
  ghost predicate Multiplies(k: nat, h: int)
  {
    forall s: int :: After(s % MODULUS, k) == h * s % MODULUS
  }

  lemma StepOfRemainder(s: int)
    ensures Step(s % MODULUS) == MULTIPLIER * s % MODULUS
  {
    var q, r := s / MODULUS, s % MODULUS;
    assert MULTIPLIER * s == MODULUS * (MULTIPLIER * q) + MULTIPLIER * r;
    ModulusDropsOut(MULTIPLIER * q, MULTIPLIER * r);
  }

  lemma AfterOne(s: int)
    ensures After(s, 1) == Step(s)
  {
    assert After(s, 0) == s;
  }

  lemma MultipliesOne()
    ensures Multiplies(1, MULTIPLIER)
  {
    hide Step, After;
    forall s: int ensures After(s % MODULUS, 1) == MULTIPLIER * s % MODULUS {
      AfterOne(s % MODULUS);
      StepOfRemainder(s);
    }
  }

  lemma ModulusDropsOut(k: int, x: int)
    ensures (MODULUS * k + x) % MODULUS == x % MODULUS
  {}

  lemma ProductOfMultipliers(a: int, b: int, c: int, s: int)
    requires a * b % MODULUS == c
    ensures b * (a * s) % MODULUS == c * s % MODULUS
  {
    var q := a * b / MODULUS;
    calc {
      b * (a * s);
      (a * b) * s;
      (MODULUS * q + c) * s;
      MODULUS * (q * s) + c * s;
    }
    ModulusDropsOut(q * s, c * s);
  }

  lemma MultipliesSum(i: nat, a: int, j: nat, b: int, c: int)
    requires Multiplies(i, a) && Multiplies(j, b) && a * b % MODULUS == c
    ensures Multiplies(i + j, c)
  {
    forall s: int ensures After(s % MODULUS, i + j) == c * s % MODULUS {
      AfterAdds(s % MODULUS, i, j);
      var m := a * s;
      assert After(m % MODULUS, j) == b * m % MODULUS;
      ProductOfMultipliers(a, b, c, s);
    }
  }

  lemma MultiplierIsUnique(k: nat, h: int, g: int)
    requires Multiplies(k, h) && Multiplies(k, g)
    ensures h % MODULUS == g % MODULUS
  {
    var s := 1;
    assert After(s % MODULUS, k) == h * s % MODULUS == g * s % MODULUS;
  }
}

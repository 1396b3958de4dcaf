/** The multi-stream generator of lib.c: 256 seeds updated in place, in 32-bit signed arithmetic. */
module Generator {
  import opened Machine
  import opened Lehmer
  import opened LehmerJumps
  import opened LehmerPeriod

  /** The seed PutSeed stores for an argument x. */
  function Normalise(x: int): (s: int)
  {
    if x > 0 && x % MODULUS != 0 then x % MODULUS else FALLBACK_SEED
  }

  lemma NormaliseGivesSeeds(x: int)
    ensures IsSeed(Normalise(x))
    ensures IsSeed(x) ==> Normalise(x) == x
    ensures x <= 0 || x == 2147483647 ==> Normalise(x) == 10086
  {}

  /** What PlantSeeds leaves in the table: stream j starts j jumps after stream 0. */
  function Planted(x: int, j: nat): int
  {
    After(Normalise(x), j * JUMP)
  }

  ghost predicate IsPlanted(table: seq<int32>, x: int)
  {
    |table| == STREAMS && forall j :: 0 <= j < STREAMS ==> table[j] as int == Planted(x, j)
  }

  // The multiplier of the stream table is invertible: 22925 * 130394645 == 1392 * MODULUS + 1.
  lemma JumpMultiplierKeepsSeeds(s: int)
    requires IsSeed(s)
    ensures IsSeed(A256 * s % MODULUS)
  {
    var q := A256 * s / MODULUS;
    assert 130394645 * (A256 * s % MODULUS) == MODULUS * (1392 * s - 130394645 * q) + s;
  }

  /** A product that differs from a multiple of m by less than m, and is none itself. */
  lemma RemainderFromDifference(product: int, a: int, d: int)
    requires product == MODULUS * a + d && -MODULUS < d < MODULUS && product % MODULUS != 0
    ensures product % MODULUS == if d > 0 then d else d + MODULUS
  {
    ModulusDropsOut(a, d);
  }

  /** Schrage's decomposition: both products of one draw fit a signed word, and their difference, lifted by m
      when it is not positive, is the true product modulo m. */
  lemma SchrageStep(s: int)
    requires IsSeed(s)
    ensures var q, r := MODULUS / MULTIPLIER, MODULUS % MULTIPLIER;
            var high, low := MULTIPLIER * (s % q), r * (s / q);
            && 0 <= high < MODULUS && 0 <= low < MODULUS
            && Step(s) == (if high - low > 0 then high - low else high - low + MODULUS)
  {
    StepKeepsSeeds(s);
    var a, b := s / 44488, s % 44488;
    assert s == 44488 * a + b;
    assert MULTIPLIER * s == MODULUS * a + (MULTIPLIER * b - 3399 * a);
    RemainderFromDifference(MULTIPLIER * s, a, MULTIPLIER * b - 3399 * a);
  }

  lemma SchrageJump(s: int)
    requires IsSeed(s)
    ensures var q, r := MODULUS / A256, MODULUS % A256;
            var high, low := A256 * (s % q), r * (s / q);
            && 0 <= high < MODULUS && 0 <= low < MODULUS
            && A256 * s % MODULUS == (if high - low > 0 then high - low else high - low + MODULUS)
  {
    JumpMultiplierKeepsSeeds(s);
    var a, b := s / 93674, s % 93674;
    assert s == 93674 * a + b;
    assert A256 * s == MODULUS * a + (A256 * b - 7197 * a);
    RemainderFromDifference(A256 * s, a, A256 * b - 7197 * a);
  }

  lemma OpenUnitInterval(s: int)
    requires IsSeed(s)
    ensures 0.0 < s as real / MODULUS as real < 1.0
  {}

  /** One multiplication by 22925 is 8,367,782 calls of Random. */
  lemma NextStream(x: int, j: nat)
    ensures A256 * Planted(x, j) % MODULUS == Planted(x, j + 1)
  {
    NormaliseGivesSeeds(x);
    AfterKeepsSeeds(Normalise(x), j * JUMP);
    JumpBetweenStreams();
    AfterOneMultiplies(Planted(x, j), JUMP, A256);
    AfterAdds(Normalise(x), j * JUMP, JUMP);
  }

  /** The streams do not overlap: 8,367,782 draws from one never meet a state of another. */
  lemma StreamsAreDisjoint(x: int, i: nat, j: nat, a: nat, b: nat)
    requires i < j < STREAMS && 1 <= a <= JUMP && 1 <= b <= JUMP
    ensures After(Planted(x, i), a) != After(Planted(x, j), b)
  {
    NormaliseGivesSeeds(x);
    AfterAdds(Normalise(x), i * JUMP, a);
    AfterAdds(Normalise(x), j * JUMP, b);
    VisitsOnce(Normalise(x), i * JUMP + a, j * JUMP + b);
  }

  lemma NothingDrawn()
    ensures Multiplies(0, 1)
  {}

  lemma OneMoreDraw(i: nat, s: int)
    requires Multiplies(i, s)
    ensures Multiplies(i + 1, Step(s))
  {
    MultipliesOne();
    MultipliesSum(i, s, 1, MULTIPLIER, Step(s));
  }

  class Rng {
    const seed: array<int32>
    var stream: nat
    var initialized: bool

    ghost predicate Shape()
      reads this
    {
      seed.Length == STREAMS && stream < STREAMS
    }

    ghost predicate Valid()
      reads this, seed
    {
      && Shape()
      && IsSeed(seed[0] as int)
      && (if initialized then forall j :: 0 <= j < STREAMS ==> IsSeed(seed[j] as int) else stream == 0)
    }

    /** The state the next draw starts from. */
    function State(): int
      requires Shape()
      reads this, seed
    {
      seed[stream] as int
    }

    constructor ()
      ensures Valid() && fresh(seed) && seed.Length == 256
      ensures stream == 0 && !initialized && State() == 123456789
    {
      seed := new int32[STREAMS](j => if j == 0 then DEFAULT_SEED as int32 else 0);
      stream := 0;
      initialized := false;
    }

    /** One draw. Every intermediate value is an int32, and the result is the new state over m. */
    method Random() returns (u: real)
      requires Valid()
      modifies seed
      ensures Valid()
      ensures State() == Step(old(State()))
      ensures forall j :: 0 <= j < STREAMS && j != stream ==> seed[j] == old(seed[j])
      ensures u == State() as real / MODULUS as real
      ensures 0.0 < u < 1.0
    {
      SchrageStep(State());
      StepKeepsSeeds(State());
      var q: int32 := 2147483647 / 48271;
      var r: int32 := 2147483647 % 48271;
      var t: int32 := 48271 * (seed[stream] % q) - r * (seed[stream] / q);
      if t > 0 {
        seed[stream] := t;
      } else {
        seed[stream] := t + 2147483647;
      }
      OpenUnitInterval(State());
      u := seed[stream] as real / MODULUS as real;
    }

    method PlantSeeds(x: int32)
      requires Shape()
      modifies this, seed
      ensures Valid() && initialized && stream == old(stream)
      ensures IsPlanted(seed[..], x as int)
      decreases 1
    {
      var q: int32 := 2147483647 / 22925;
      var r: int32 := 2147483647 % 22925;
      initialized := true;
      var s := stream;
      SelectStream(0);
      PutSeed(x);
      stream := s;
      NormaliseGivesSeeds(x as int);
      for j := 1 to STREAMS
        invariant Shape() && initialized && stream == s
        invariant forall i :: 0 <= i < j ==> seed[i] as int == Planted(x as int, i) && IsSeed(seed[i] as int)
      {
        SchrageJump(seed[j - 1] as int);
        JumpMultiplierKeepsSeeds(seed[j - 1] as int);
        NextStream(x as int, j - 1);
        var y: int32 := 22925 * (seed[j - 1] % q) - r * (seed[j - 1] / q);
        if y > 0 {
          seed[j] := y;
        } else {
          seed[j] := y + 2147483647;
        }
      }
    }

    method PutSeed(x: int32)
      requires Shape()
      modifies seed
      ensures State() == Normalise(x as int)
      ensures forall j :: 0 <= j < STREAMS && j != stream ==> seed[j] == old(seed[j])
    {
      var y := x;
      if y > 0 {
        y := y % 2147483647;
      }
      if y < 0 {
        y := 10086 % 2147483647;
      }
      if y == 0 {
        y := 10086 % 2147483647;
      }
      seed[stream] := y;
    }

    method GetSeed() returns (x: int32)
      requires Shape()
      ensures x as int == State()
    {
      x := seed[stream];
    }

    /** Selecting any stream but 0 of an unplanted table plants the default seeds first. */
    method SelectStream(index: int32)
      requires Shape()
      modifies this, seed
      ensures Shape() && stream == index as int % 256
      ensures old(Valid()) ==> Valid()
      ensures initialized == (old(initialized) || stream != 0)
      ensures old(initialized) || stream == 0 ==> seed[..] == old(seed[..])
      ensures !old(initialized) && stream != 0 ==> IsPlanted(seed[..], DEFAULT_SEED)
      decreases if initialized then 0 else 2
    {
      stream := Unsigned(index as int) % STREAMS;
      if !initialized && stream != 0 {
        PlantSeeds(DEFAULT_SEED as int32);
      }
    }

    /** The library's own check of the implementation, which it passes. */
    method TestRandom() returns (ok: bool)
      requires Valid()
      modifies this, seed
      ensures Valid()
      ensures ok
    {
      hide Planted, Multiplies, Step;
      SelectStream(0);
      PutSeed(1);
      NothingDrawn();
      var i := 0;
      while i < 10000
        invariant 0 <= i <= 10000 && Valid() && stream == 0
        invariant Multiplies(i, State())
      {
        OneMoreDraw(i, State());
        var u := Random();
        i := i + 1;
      }
      var x := GetSeed();
      JumpOfTest();
      MultiplierIsUnique(i, State(), CHECK);
      ok := x as int == CHECK;
      SelectStream(1);
      x := PlantAndGet(1);
      ok := ok && x as int == A256;
    }

    /** The last two calls of TestRandom: plant the table and read the selected stream's seed. */
    method PlantAndGet(x: int32) returns (y: int32)
      requires Shape() && stream == 1
      modifies this, seed
      ensures Valid() && y as int == A256 * Normalise(x as int) % MODULUS
    {
      PlantSeeds(x);
      y := GetSeed();
      assert y == seed[..][1];
      NextStream(x as int, 0);
    }
  }
}

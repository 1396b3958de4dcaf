/** The draw behind the lottery policy: a ticket number from the generator's state, and how often each
    ticket holder wins over the generator's period. */
module Lottery {
  import opened Divisibility
  import opened Lehmer
  import opened LehmerPeriod

  const NUMBERS: int := 10000

  /** The integer get_winner takes a ticket from: Random() * 10000, truncated. */
  function Number(s: int): int
  {
    NUMBERS * s / MODULUS
  }

  lemma NumberIsTruncatedDraw(s: int)
    requires IsSeed(s)
    ensures (s as real / MODULUS as real * 10000.0).Floor == Number(s)
    ensures 0 <= Number(s) < NUMBERS
  {
    var n := Number(s);
    var x := s as real / MODULUS as real * 10000.0;
    assert x * MODULUS as real == (NUMBERS * s) as real;
    assert n as real <= x < (n + 1) as real;
  }

  /** The process that wins with state s. */
  function Winner(tickets: seq<int>, s: int): int
    requires |tickets| > 0
  {
    tickets[Number(s) % |tickets|]
  }

  /** How many of the first k draws from state s process p wins. */
  function Wins(tickets: seq<int>, p: int, s: int, k: nat): nat
    requires |tickets| > 0
  {
    if k == 0 then 0
    else Wins(tickets, p, s, k - 1) + (if Winner(tickets, After(s, k)) == p then 1 else 0)
  }

  /** How many of the numbers below v belong to p. */
  function NumbersHeld(tickets: seq<int>, p: int, v: nat): nat
    requires |tickets| > 0
  {
    if v == 0 then 0
    else NumbersHeld(tickets, p, v - 1) + (if tickets[(v - 1) % |tickets|] == p then 1 else 0)
  }

  function TicketsHeld(tickets: seq<int>, p: int): nat
  {
    if tickets == [] then 0
    else TicketsHeld(tickets[..|tickets| - 1], p) + (if tickets[|tickets| - 1] == p then 1 else 0)
  }

  // --- Over a period, the draws are the seeds -------------------------------------------------------

  ghost function WinningStates(tickets: seq<int>, p: int, s: int, k: nat): set<int>
    requires |tickets| > 0
  {
    set j | 1 <= j <= k && Winner(tickets, After(s, j)) == p :: After(s, j)
  }

  lemma {:induction false} WinsCountStates(tickets: seq<int>, p: int, s: int, k: nat)
    requires |tickets| > 0 && IsSeed(s) && k <= PERIOD
    ensures Wins(tickets, p, s, k) == |WinningStates(tickets, p, s, k)|
  {
    if k > 0 {
      WinsCountStates(tickets, p, s, k - 1);
      var before := WinningStates(tickets, p, s, k - 1);
      if Winner(tickets, After(s, k)) == p {
        assert WinningStates(tickets, p, s, k) == before + {After(s, k)};
        forall j | 1 <= j <= k - 1 ensures After(s, j) != After(s, k) {
          VisitsOnce(s, j, k);
        }
      } else {
        assert WinningStates(tickets, p, s, k) == before;
      }
    }
  }

  /** The seeds whose number is below v and belongs to p. */
  ghost function WinningSeeds(tickets: seq<int>, p: int, v: int): set<int>
    requires |tickets| > 0
  {
    set t: int | 1 <= t < MODULUS && Number(t) < v && Winner(tickets, t) == p
  }

  lemma PeriodDrawsEverySeed(tickets: seq<int>, p: int, s: int)
    requires |tickets| > 0 && IsSeed(s)
    ensures WinningStates(tickets, p, s, PERIOD) == WinningSeeds(tickets, p, NUMBERS)
  {
    var states, seeds := WinningStates(tickets, p, s, PERIOD), WinningSeeds(tickets, p, NUMBERS);
    forall t | t in states ensures t in seeds {
      var j :| 1 <= j <= PERIOD && Winner(tickets, After(s, j)) == p && t == After(s, j);
      AfterKeepsSeeds(s, j);
    }
    forall t | t in seeds ensures t in states {
      VisitsEverySeed(s, t);
      var j: nat :| 1 <= j <= PERIOD && After(s, j) == t;
    }
  }

  // --- Each number is drawn by 214748 or 214749 seeds -----------------------------------------------

  ghost function SeedsOf(v: int): set<int>
  {
    set t: int | 1 <= t < MODULUS && Number(t) == v
  }

  ghost function SeedsBetween(lo: int, hi: int): set<int>
  {
    set t: int | lo <= t < hi && IsSeed(t)
  }

  lemma {:induction false} SeedsBetweenSize(lo: int, hi: int)
    requires 1 <= lo <= hi <= MODULUS
    ensures |SeedsBetween(lo, hi)| == hi - lo
    decreases hi - lo
  {
    if lo == hi {
      assert SeedsBetween(lo, hi) == {};
    } else {
      SeedsBetweenSize(lo, hi - 1);
      assert SeedsBetween(lo, hi) == SeedsBetween(lo, hi - 1) + {hi - 1};
    }
  }

  lemma SeedsOfSize(v: int)
    requires 0 <= v < NUMBERS
    ensures 214748 <= |SeedsOf(v)| <= 214749
  {
    var lo := if v == 0 then 1 else (v * MODULUS + NUMBERS - 1) / NUMBERS;
    var hi := ((v + 1) * MODULUS + NUMBERS - 1) / NUMBERS;
    forall t: int | 1 <= t < MODULUS ensures Number(t) == v <==> lo <= t < hi {
      assert Number(t) == v <==> v * MODULUS <= NUMBERS * t < (v + 1) * MODULUS;
    }
    assert SeedsOf(v) == SeedsBetween(lo, hi);
    SeedsBetweenSize(lo, hi);
  }

  /** Number v - 1 adds its seeds, when it belongs to p, to those below. */
  lemma NumberAddsSeeds(tickets: seq<int>, p: int, v: nat)
    requires |tickets| > 0 && 0 < v
    ensures WinningSeeds(tickets, p, v - 1) !! SeedsOf(v - 1)
    ensures WinningSeeds(tickets, p, v)
         == WinningSeeds(tickets, p, v - 1) + if tickets[(v - 1) % |tickets|] == p then SeedsOf(v - 1) else {}
  {
    hide Number;
  }

  lemma {:induction false} WinningSeedsSize(tickets: seq<int>, p: int, v: nat)
    requires |tickets| > 0 && v <= NUMBERS
    ensures 214748 * NumbersHeld(tickets, p, v) <= |WinningSeeds(tickets, p, v)|
                                                <= 214749 * NumbersHeld(tickets, p, v)
  {
    if v == 0 {
      assert WinningSeeds(tickets, p, 0) == {};
    } else {
      WinningSeedsSize(tickets, p, v - 1);
      NumberAddsSeeds(tickets, p, v);
      SeedsOfSize(v - 1);
    }
  }

  // --- A holder of c tickets out of n holds about c * 10000 / n numbers -----------------------------

  lemma QuotientIsUnique(v: nat, n: nat, q: nat, r: nat)
    requires v == n * q + r && r < n
    ensures v / n == q && v % n == r
  {
    var k := v / n - q;
    assert n * k == r - v % n;
    if k >= 1 {
      MulOrder(n, 1, k);
      assert false;
    } else if k <= -1 {
      MulOrder(n, k, -1);
      assert false;
    }
  }

  lemma LongerPrefix(tickets: seq<int>, p: int, r: nat)
    requires r < |tickets|
    ensures TicketsHeld(tickets[..r + 1], p)
         == TicketsHeld(tickets[..r], p) + (if tickets[r] == p then 1 else 0)
  {
    assert tickets[..r + 1][..r] == tickets[..r];
  }

  /** The numbers run through the tickets q times and then once more up to ticket r. */
  lemma {:induction false} NumbersHeldExactly(tickets: seq<int>, p: int, q: nat, r: nat)
    requires 0 < |tickets| && r <= |tickets|
    ensures 0 <= |tickets| * q
    ensures NumbersHeld(tickets, p, |tickets| * q + r)
         == TicketsHeld(tickets, p) * q + TicketsHeld(tickets[..r], p)
    decreases q, r
  {
    var n, c := |tickets|, TicketsHeld(tickets, p);
    assert TicketsHeld(tickets[..0], p) == 0;
    if r > 0 {
      NumbersHeldExactly(tickets, p, q, r - 1);
      LongerPrefix(tickets, p, r - 1);
      QuotientIsUnique(n * q + r - 1, n, q, r - 1);
    } else if q > 0 {
      NumbersHeldExactly(tickets, p, q - 1, n);
      assert tickets[..n] == tickets;
      OneMore(n, q - 1);
      OneMore(c, q - 1);
    } else {
      assert n * q == 0 && c * q == 0;
    }
  }

  lemma {:induction false} PrefixHoldsNoMore(tickets: seq<int>, p: int, i: nat)
    requires i <= |tickets|
    ensures TicketsHeld(tickets[..i], p) <= TicketsHeld(tickets, p)
    decreases |tickets|
  {
    var n := |tickets|;
    if i < n {
      PrefixHoldsNoMore(tickets[..n - 1], p, i);
      assert tickets[..n - 1][..i] == tickets[..i];
    } else {
      assert tickets[..i] == tickets;
    }
  }

  /** Over one full period from any seed, with the tickets fixed, a process that holds c of the n tickets wins
      between c * floor(10000 / n) * 214748 and c * ceil(10000 / n) * 214749 draws. */
  lemma LotteryIsProportional(tickets: seq<int>, p: int, s: int)
    requires |tickets| > 0 && IsSeed(s)
    ensures var n, c := |tickets|, TicketsHeld(tickets, p);
            c * (NUMBERS / n) * 214748 <= Wins(tickets, p, s, PERIOD) <= c * ((NUMBERS + n - 1) / n) * 214749
  {
    WinsCountStates(tickets, p, s, PERIOD);
    PeriodDrawsEverySeed(tickets, p, s);
    WinningSeedsSize(tickets, p, NUMBERS);
    NumbersHeldBounds(tickets, p);
  }

  lemma RoundedUp(v: nat, n: nat)
    requires 0 < n
    ensures (v + n - 1) / n == (if v % n == 0 then v / n else v / n + 1)
  {
    var q, r := v / n, v % n;
    if r == 0 {
      QuotientIsUnique(v + n - 1, n, q, n - 1);
    } else {
      OneMore(n, q);
      QuotientIsUnique(v + n - 1, n, q + 1, r - 1);
    }
  }

  lemma QuotientAndRemainder(v: nat, n: nat)
    requires 0 < n
    ensures v == n * (v / n) + v % n && 0 <= v / n && 0 <= v % n < n
  {}

  lemma NumbersHeldBounds(tickets: seq<int>, p: int)
    requires |tickets| > 0
    ensures var n, c := |tickets|, TicketsHeld(tickets, p);
            c * (NUMBERS / n) <= NumbersHeld(tickets, p, NUMBERS) <= c * ((NUMBERS + n - 1) / n)
  {
    var n, c := |tickets|, TicketsHeld(tickets, p);
    var q, r := NUMBERS / n, NUMBERS % n;
    assert TicketsHeld(tickets[..0], p) == 0;
    QuotientAndRemainder(NUMBERS, n);
    NumbersHeldExactly(tickets, p, q, r);
    PrefixHoldsNoMore(tickets, p, r);
    RoundedUp(NUMBERS, n);
    OneMore(c, q);
  }

  lemma FirstSeedOfNumber(w: int) returns (t: int)
    requires 0 <= w < NUMBERS
    ensures IsSeed(t) && Number(t) == w
  {
    t := if w == 0 then 1 else (w * MODULUS + NUMBERS - 1) / NUMBERS;
  }

  /** Every ticket is drawn within one period, from any seed. */
  lemma EveryTicketIsDrawn(n: int, w: int, s: int)
    requires 0 <= w < n <= NUMBERS && IsSeed(s)
    ensures exists k: nat :: 1 <= k <= PERIOD && Number(After(s, k)) % n == w
  {
    var t := FirstSeedOfNumber(w);
    VisitsEverySeed(s, t);
    var k: nat :| 1 <= k <= PERIOD && After(s, k) == t;
    QuotientIsUnique(w, n, 0, w);
  }

  lemma {:induction false} NumberedTickets(n: nat, w: int)
    requires 0 <= w
    ensures TicketsHeld(seq(n, i => i), w) == (if w < n then 1 else 0)
  {
    if n > 0 {
      NumberedTickets(n - 1, w);
      assert seq(n, i => i)[..n - 1] == seq(n - 1, i => i);
    }
  }

  /** Each single ticket of n wins close to its share: the case of n holders with one ticket each. */
  lemma EachTicketIsUniform(n: nat, w: nat, s: int)
    requires w < n && IsSeed(s)
    ensures NUMBERS / n * 214748 <= Wins(seq(n, i => i), w, s, PERIOD) <= (NUMBERS + n - 1) / n * 214749
  {
    NumberedTickets(n, w);
    LotteryIsProportional(seq(n, i => i), w, s);
  }
}

/** Taking turns: the cyclic searches the scheduling policies make, and the exactness of weighted turns. */
module Turns {
  import opened Divisibility

  /** How many slots a cyclic search starting at slot start passes before slot to. */
  function Offset(n: nat, start: nat, to: nat): (d: int)
    requires start < n && to < n
    ensures 0 <= d < n
  {
    if to >= start then to - start else to + n - start
  }

  function Succ(n: nat, slot: nat): (s: nat)
    requires slot < n
    ensures s < n
  {
    if slot + 1 == n then 0 else slot + 1
  }

  lemma SuccIsModular(n: nat, slot: nat)
    requires slot < n
    ensures (slot + 1) % n == Succ(n, slot)
  {}

  /** The cyclic search from start over the ready slots ends at slot to. */
  ghost predicate First(ready: seq<bool>, start: nat, to: nat)
    requires start < |ready|
  {
    && to < |ready| && ready[to]
    && forall q: nat :: q < |ready| && ready[q] ==> Offset(|ready|, start, to) <= Offset(|ready|, start, q)
  }

  lemma FirstIsUnique(ready: seq<bool>, start: nat, a: nat, b: nat)
    requires start < |ready| && First(ready, start, a) && First(ready, start, b)
    ensures a == b
  {}

  lemma {:induction false} FirstExists(ready: seq<bool>, start: nat, r: nat)
    requires start < |ready| && r < |ready| && ready[r]
    ensures exists to: nat :: First(ready, start, to)
    decreases Offset(|ready|, start, r)
  {
    if q: nat :| q < |ready| && ready[q] && Offset(|ready|, start, q) < Offset(|ready|, start, r) {
      FirstExists(ready, start, q);
    } else {
      assert First(ready, start, r);
    }
  }

  /** How many decisions may pass before slot p has its turn, when slot 0 never does. */
  function Wait(n: nat, current: nat, p: nat): (d: int)
    requires 1 <= current < n && 1 <= p < n
    ensures 1 <= d <= n - 1
  {
    if p > current then p - current else p + n - 1 - current
  }

  /** A round-robin decision picks p or brings its turn nearer, whichever other slots are ready. */
  lemma WaitShrinks(ready: seq<bool>, current: nat, next: nat, p: nat)
    requires 1 <= current < |ready| && 1 <= p < |ready| && ready[p] && !ready[0]
    requires First(ready, Succ(|ready|, current), next)
    ensures 1 <= next && (next == p || Wait(|ready|, next, p) < Wait(|ready|, current, p))
  {
    var n := |ready|;
    assert Offset(n, Succ(n, current), next) <= Offset(n, Succ(n, current), p);
  }

  // --- Weighted turns --------------------------------------------------------------------------------

  /** Slot current has had used of its turns. */
  datatype Turn = Turn(current: nat, used: nat)

  function Positive(weights: seq<nat>): seq<bool>
  {
    seq(|weights|, i requires 0 <= i < |weights| => weights[i] > 0)
  }

  /** The next turn stays with a slot that has turns left, and otherwise goes to the next slot with any. */
  ghost predicate Advance(weights: seq<nat>, t: Turn, t': Turn)
    requires t.current < |weights|
  {
    if t.used < weights[t.current] then t' == Turn(t.current, t.used + 1)
    else First(Positive(weights), Succ(|weights|, t.current), t'.current) && t'.used == 1
  }

  /** The total weight of the slots below slot i. */
  function WeightBelow(weights: seq<nat>, i: nat): nat
    requires i <= |weights|
  {
    if i == 0 then 0 else WeightBelow(weights, i - 1) + weights[i - 1]
  }

  function Total(weights: seq<nat>): nat
  {
    WeightBelow(weights, |weights|)
  }

  lemma {:induction false} WeightBelowGrows(weights: seq<nat>, i: nat, j: nat)
    requires i <= j <= |weights|
    ensures WeightBelow(weights, i) <= WeightBelow(weights, j)
    ensures (forall q :: i <= q < j ==> weights[q] == 0) ==> WeightBelow(weights, i) == WeightBelow(weights, j)
    decreases j - i
  {
    if i < j {
      WeightBelowGrows(weights, i, j - 1);
    }
  }

  /** How far through the lap a turn is. */
  function Position(weights: seq<nat>, t: Turn): nat
    requires t.current < |weights|
  {
    WeightBelow(weights, t.current)
    + (if t.used < weights[t.current] then t.used else weights[t.current])
  }

  /** How many of the first y turns of a lap are slot i's. */
  function Due(weights: seq<nat>, i: nat, y: nat): nat
    requires i < |weights|
  {
    var below := WeightBelow(weights, i);
    if y <= below then 0 else if y <= below + weights[i] then y - below else weights[i]
  }

  /** k advances lead from start to t, passing the end of the lap the given number of times, and slot i got
      picks of them. */
  ghost predicate Counted(weights: seq<nat>, i: nat, start: Turn, t: Turn, laps: nat, k: nat, picks: nat)
    requires i < |weights| && start.current < |weights| && t.current < |weights|
  {
    && k == Total(weights) * laps + Position(weights, t) - Position(weights, start)
    && picks == weights[i] * laps + Due(weights, i, Position(weights, t)) - Due(weights, i, Position(weights, start))
  }

  lemma PositionMoves(weights: seq<nat>, t: Turn, t': Turn)
    requires t.current < |weights| && Advance(weights, t, t')
    ensures t'.current < |weights| && 1 <= t'.used <= weights[t'.current]
    ensures if Position(weights, t) == Total(weights) then Position(weights, t') == 1
            else Position(weights, t') == Position(weights, t) + 1
  {
    var c, c' := t.current, t'.current;
    WeightBelowGrows(weights, c + 1, |weights|);
    if t.used < weights[c] {
    } else {
      assert Positive(weights)[c'];
      forall q: nat | q < |weights| && weights[q] > 0
        ensures Offset(|weights|, Succ(|weights|, c), c') <= Offset(|weights|, Succ(|weights|, c), q)
      {
        assert Positive(weights)[q];
      }
      if c' > c {
        WeightBelowGrows(weights, c + 1, c');
        WeightBelowGrows(weights, c' + 1, |weights|);
      } else {
        WeightBelowGrows(weights, 0, c');
      }
    }
  }

  /** Advances before slot i has its turn again. */
  function TurnDelay(weights: seq<nat>, t: Turn, i: nat): int
    requires t.current < |weights| && i < |weights|
  {
    if t.current == i then 0
    else if Position(weights, t) <= WeightBelow(weights, i) then WeightBelow(weights, i) + 1 - Position(weights, t)
    else Total(weights) - Position(weights, t) + WeightBelow(weights, i) + 1
  }

  /** The slot has used at least one turn and at most its weight. */
  predicate InTurn(weights: seq<nat>, t: Turn)
  {
    t.current < |weights| && 1 <= t.used <= weights[t.current]
  }

  lemma TurnDelayIsBounded(weights: seq<nat>, t: Turn, i: nat)
    requires InTurn(weights, t) && i < |weights| && weights[i] > 0
    ensures 0 <= TurnDelay(weights, t, i) < Total(weights)
    ensures t.current != i ==> 0 < TurnDelay(weights, t, i)
  {
    WeightBelowGrows(weights, i + 1, |weights|);
    WeightBelowGrows(weights, t.current + 1, |weights|);
    if t.current < i {
      WeightBelowGrows(weights, t.current + 1, i);
    } else if i < t.current {
      WeightBelowGrows(weights, i + 1, t.current);
    }
  }

  /** An advance from another slot brings the turn of a slot of positive weight nearer. */
  lemma TurnDelayShrinks(weights: seq<nat>, t: Turn, t': Turn, i: nat)
    requires t.current < |weights| && (InTurn(weights, t) || weights[t.current] == 0)
    requires Advance(weights, t, t') && i < |weights| && weights[i] > 0 && t.current != i
    ensures InTurn(weights, t') && TurnDelay(weights, t', i) < TurnDelay(weights, t, i)
  {
    hide Advance;
    PositionMoves(weights, t, t');
    WeightBelowGrows(weights, t.current + 1, |weights|);
    WeightBelowGrows(weights, i + 1, |weights|);
    if t.current < i {
      WeightBelowGrows(weights, t.current + 1, i);
    } else {
      WeightBelowGrows(weights, i + 1, t.current);
    }
    if t'.current < i {
      WeightBelowGrows(weights, t'.current + 1, i);
    } else if i < t'.current {
      WeightBelowGrows(weights, i + 1, t'.current);
    }
  }

  lemma {:induction false} WeightBelowWithout(weights: seq<nat>, c: nat, j: nat)
    requires c < |weights| && j <= |weights|
    ensures WeightBelow(weights[c := 0], j) == WeightBelow(weights, j) - (if c < j then weights[c] else 0)
  {
    if j > 0 {
      WeightBelowWithout(weights, c, j - 1);
    }
  }

  /** When the slot whose turn it is drops out, no other slot's turn is put off. */
  lemma DropOutHelps(weights: seq<nat>, t: Turn, i: nat)
    requires InTurn(weights, t) && i < |weights| && weights[i] > 0 && t.current != i
    ensures TurnDelay(weights[t.current := 0], t, i) <= TurnDelay(weights, t, i)
    ensures Total(weights[t.current := 0]) <= Total(weights)
  {
    var c := t.current;
    WeightBelowWithout(weights, c, i);
    WeightBelowWithout(weights, c, c);
    WeightBelowWithout(weights, c, |weights|);
    WeightBelowGrows(weights, c + 1, |weights|);
    if c < i {
      WeightBelowGrows(weights, c + 1, i);
    } else {
      WeightBelowGrows(weights, i + 1, c);
    }
  }

  lemma DueMoves(weights: seq<nat>, i: nat, t': Turn)
    requires i < |weights| && t'.current < |weights| && 1 <= t'.used <= weights[t'.current]
    ensures var y := Position(weights, t');
            Due(weights, i, y) == Due(weights, i, y - 1) + (if t'.current == i then 1 else 0)
  {
    var c := t'.current;
    if i < c {
      WeightBelowGrows(weights, i + 1, c);
    } else if c < i {
      WeightBelowGrows(weights, c + 1, i);
    }
  }

  lemma CountAdvance(weights: seq<nat>, i: nat, start: Turn, t: Turn, t': Turn, laps: nat, k: nat, picks: nat)
    returns (laps': nat)
    requires i < |weights| && start.current < |weights| && t.current < |weights| && t'.current < |weights|
    requires Advance(weights, t, t') && Counted(weights, i, start, t, laps, k, picks)
    ensures Counted(weights, i, start, t', laps', k + 1, picks + (if t'.current == i then 1 else 0))
    ensures 1 <= Position(weights, t') <= Total(weights)
  {
    PositionMoves(weights, t, t');
    DueMoves(weights, i, t');
    WeightBelowGrows(weights, i + 1, |weights|);
    WeightBelowGrows(weights, t'.current + 1, |weights|);
    assert 1 <= Position(weights, t') <= Total(weights);
    if Position(weights, t) == Total(weights) {
      laps' := laps + 1;
      OneMore(Total(weights), laps);
      OneMore(weights[i], laps);
    } else {
      laps' := laps;
    }
  }

  /** After as many advances as the total weight, every slot has had exactly its weight of them. */
  lemma WindowIsExact(weights: seq<nat>, i: nat, start: Turn, t: Turn, laps: nat, picks: nat)
    requires i < |weights| && start.current < |weights| && t.current < |weights|
    requires Counted(weights, i, start, t, laps, Total(weights), picks)
    requires 1 <= Position(weights, t)
    ensures picks == weights[i]
  {
    var s := Total(weights);
    WeightBelowGrows(weights, i + 1, |weights|);
    WeightBelowGrows(weights, start.current + 1, |weights|);
    WeightBelowGrows(weights, t.current + 1, |weights|);
    WithinOneLap(s, laps, Position(weights, start), Position(weights, t));
    WithinOneLap(weights[i], laps, 0, 0);
  }

  /** A window of s turns passes the end of the lap once, or it is the lap itself. */
  lemma WithinOneLap(s: nat, laps: nat, from: nat, to: nat)
    ensures laps == 0 ==> s * laps == 0
    ensures laps == 1 ==> s * laps == s
    ensures s == s * laps + to - from && from <= s && 1 <= to ==> laps <= 1
  {
    if laps >= 2 {
      MulOrder(s, 2, laps);
    }
  }

  // --- Runs of turns ---------------------------------------------------------------------------------

  /** decided[k] tells whether the move from current[k] to current[k + 1] was a decision. */
  function Decisions(decided: seq<bool>): nat
  {
    if decided == [] then 0
    else Decisions(decided[..|decided| - 1]) + (if decided[|decided| - 1] then 1 else 0)
  }

  /** How many of the decisions pick slot i. */
  function Picks(current: seq<nat>, decided: seq<bool>, i: nat): nat
    requires |current| == |decided| + 1
  {
    var n := |decided|;
    if n == 0 then 0
    else Picks(current[..n], decided[..n - 1], i) + (if decided[n - 1] && current[n] == i then 1 else 0)
  }

  /** A decision advances the turn, and anything else leaves it. */
  ghost predicate TurnMove(weights: seq<nat>, t: Turn, decided: bool, t': Turn)
    requires t.current < |weights|
  {
    if decided then Advance(weights, t, t') else t' == t
  }

  ghost predicate TurnRun(weights: seq<nat>, current: seq<nat>, used: seq<nat>, decided: seq<bool>)
  {
    && |current| == |used| == |decided| + 1
    && (forall k :: 0 <= k < |current| ==> current[k] < |weights|)
    && forall k :: 0 <= k < |decided| ==>
         TurnMove(weights, Turn(current[k], used[k]), decided[k], Turn(current[k + 1], used[k + 1]))
  }

  lemma {:induction false} RunIsCounted(weights: seq<nat>, current: seq<nat>, used: seq<nat>, decided: seq<bool>, i: nat)
    returns (laps: nat)
    requires TurnRun(weights, current, used, decided) && i < |weights|
    ensures var start, end := Turn(current[0], used[0]), Turn(current[|decided|], used[|decided|]);
            && Counted(weights, i, start, end, laps, Decisions(decided), Picks(current, decided, i))
            && (0 < Decisions(decided) ==> 1 <= Position(weights, end))
    decreases |decided|
  {
    var n := |decided|;
    if n == 0 {
      laps := 0;
    } else {
      laps := RunIsCounted(weights, current[..n], used[..n], decided[..n - 1], i);
      if decided[n - 1] {
        laps := CountAdvance(weights, i, Turn(current[0], used[0]), Turn(current[n - 1], used[n - 1]),
                             Turn(current[n], used[n]), laps, Decisions(decided[..n - 1]),
                             Picks(current[..n], decided[..n - 1], i));
      }
    }
  }

  /** Any window of as many decisions as the weights add up to picks every slot exactly its weight of times. */
  lemma TurnsAreExact(weights: seq<nat>, current: seq<nat>, used: seq<nat>, decided: seq<bool>, i: nat)
    requires TurnRun(weights, current, used, decided) && i < |weights|
    requires Decisions(decided) == Total(weights)
    ensures Picks(current, decided, i) == weights[i]
  {
    var laps := RunIsCounted(weights, current, used, decided, i);
    var n := |decided|;
    if 0 < Decisions(decided) {
      WindowIsExact(weights, i, Turn(current[0], used[0]), Turn(current[n], used[n]), laps, Picks(current, decided, i));
    } else {
      WeightBelowGrows(weights, 0, |weights|);
      WeightBelowGrows(weights, 0, i);
      WeightBelowGrows(weights, i + 1, |weights|);
      NoDecisionNoPick(current, decided, i);
    }
  }

  lemma {:induction false} NoDecisionNoPick(current: seq<nat>, decided: seq<bool>, i: nat)
    requires |current| == |decided| + 1 && Decisions(decided) == 0
    ensures Picks(current, decided, i) == 0
    decreases |decided|
  {
    if decided != [] {
      NoDecisionNoPick(current[..|decided|], decided[..|decided| - 1], i);
    }
  }

  ghost predicate RoundRobinMove(n: nat, current: nat, ready: seq<bool>, decided: bool, next: nat)
    requires current < n
  {
    if decided then |ready| == n && !ready[0] && First(ready, Succ(n, current), next) else next == current
  }

  /** ready[k] are the slots a decision after current[k] chooses from in round-robin order. */
  ghost predicate RoundRobinRun(n: nat, current: seq<nat>, ready: seq<seq<bool>>, decided: seq<bool>)
  {
    && 1 < n && |current| == |decided| + 1 && |ready| == |decided|
    && (forall k :: 0 <= k < |current| ==> 1 <= current[k] < n)
    && forall k :: 0 <= k < |decided| ==>
         RoundRobinMove(n, current[k], ready[k], decided[k], current[k + 1])
  }

  /** While slot p stays ready and unpicked, every decision brings its turn nearer. */
  lemma {:induction false} WaitIsBounded(n: nat, current: seq<nat>, ready: seq<seq<bool>>, decided: seq<bool>, p: nat)
    requires RoundRobinRun(n, current, ready, decided) && 1 <= p < n
    requires forall k :: 0 <= k < |decided| && decided[k] ==> p < |ready[k]| && ready[k][p]
    requires Picks(current, decided, p) == 0
    ensures Wait(n, current[|decided|], p) + Decisions(decided) <= Wait(n, current[0], p)
    decreases |decided|
  {
    hide First, Wait, Succ;
    var m := |decided|;
    if m > 0 {
      WaitIsBounded(n, current[..m], ready[..m - 1], decided[..m - 1], p);
      if decided[m - 1] {
        WaitShrinks(ready[m - 1], current[m - 1], current[m], p);
      }
    }
  }
}

/** Whole runs with the clock interrupt masked: a process keeps the processor until it yields or exits. */
module Cooperative {
  import opened Divisibility
  import opened Turns
  import opened Applications
  import opened LockRelease
  import opened Lottery

  predicate AllExited(s: Shared)
  {
    forall i :: 0 <= i < |s.apps| ==> s.apps[i].pc.Exited?
  }

  /** schedule() under policies 0 and 1, as far as they resume an application. */
  ghost predicate Picks(policy: int, s: Shared, current: nat, next: nat)
    requires current < |s.apps|
  {
    if policy == 0 then First(ReadySlots(s), Succ(|s.apps| + 1, current + 1), next + 1)
    else next == if s.apps[current].pc.Exited? then current + 1 else current
  }

  /** One step of the running application, and the decision its sys_yield or sys_exit leads to. Once all have
      exited there is nothing left to pick. */
  ghost predicate CoopStep(policy: int, c: Config, s: Shared, current: nat, s': Shared, next: nat)
    requires |s.apps| == |c.chars|
  {
    && current < |s.apps| && AppStep(c, s, current, s')
    && if GivesUp(s.apps[current]) then AllExited(s') || Picks(policy, s', current, next) else next == current
  }

  // --- The lock is free whenever the kernel schedules ------------------------------------------------

  /** Only the running application can be in the critical section, and it never finds the lock taken. */
  predicate OthersOutside(s: Shared, current: nat)
  {
    forall i :: 0 <= i < |s.apps| ==>
      && (i != current ==> !Critical(s.apps[i]) && !s.apps[i].pc.SwapTest?)
      && (s.apps[i].pc.SwapTest? ==> s.apps[i].reg == 0)
  }

  lemma LockIsFreeAtSchedule(c: Config, s: Shared, current: nat)
    requires Invariant(c, s) && OthersOutside(s, current) && current < |s.apps| && GivesUp(s.apps[current])
    ensures s.lock == 0
  {}

  /** Kept by every step and every decision, whatever process the policy picks. */
  lemma StaysOutside(c: Config, s: Shared, current: nat, s': Shared, next: nat)
    requires Invariant(c, s) && OthersOutside(s, current) && current < |s.apps|
    requires AppStep(c, s, current, s') && (GivesUp(s.apps[current]) || next == current)
    ensures Invariant(c, s') && OthersOutside(s', next)
  {
    StepKeepsInvariant(c, s, current, s');
    if s.apps[current].pc.Swap? {
      assert s.lock == 0;
    }
    forall i | 0 <= i < |s.apps| && i != current ensures s'.apps[i] == s.apps[i] {}
  }

  // --- Work left -------------------------------------------------------------------------------------

  /** The steps of r rounds: with the spinlock eight each, with sys_print two. */
  function RoundSteps(c: Config, r: int): int
  {
    if c.syncMethod == 1 then 8 * r else 2 * r
  }

  function Work(c: Config, a: App): int
  {
    RoundSteps(c, c.rounds - a.rounds) +
    match a.pc
    case SetPriority => 5
    case SetShare => 4
    case GetTicket => 3
    case LoopTest => 2
    case Swap => 1
    case SwapTest => 0
    case Load => -1
    case Store => -2
    case CellStored => -3
    case CursorStored => -3
    case Release => -4
    case Yield => -5
    case Print => 1
    case Exit => 1
    case Exited => 0
  }

  function TotalWork(c: Config, apps: seq<App>): int
  {
    if apps == [] then 0 else TotalWork(c, apps[..|apps| - 1]) + Work(c, apps[|apps| - 1])
  }

  lemma {:induction false} WorkAfterUpdate(c: Config, apps: seq<App>, p: nat, a: App)
    requires p < |apps|
    ensures TotalWork(c, apps[p := a]) == TotalWork(c, apps) - Work(c, apps[p]) + Work(c, a)
    decreases |apps|
  {
    var n := |apps|;
    if p == n - 1 {
      assert apps[p := a][..n - 1] == apps[..n - 1];
    } else {
      WorkAfterUpdate(c, apps[..n - 1], p, a);
      assert apps[p := a][..n - 1] == apps[..n - 1][p := a];
    }
  }

  lemma {:induction false} FreshWork(c: Config, n: nat)
    ensures TotalWork(c, seq(n, p => App(SetPriority, 0, 0))) == n * (RoundSteps(c, c.rounds) + 5)
  {
    if n > 0 {
      FreshWork(c, n - 1);
      assert seq(n, p => App(SetPriority, 0, 0))[..n - 1] == seq(n - 1, p => App(SetPriority, 0, 0));
    }
  }

  lemma {:induction false} NoWorkMeansExited(c: Config, s: Shared, n: nat)
    requires n <= |s.apps| == |c.chars|
    requires forall i :: 0 <= i < |s.apps| ==> PointInvariant(c, s, i)
    ensures 0 <= TotalWork(c, s.apps[..n])
    ensures TotalWork(c, s.apps[..n]) == 0 ==> forall i :: 0 <= i < n ==> s.apps[i].pc.Exited?
  {
    if n > 0 {
      NoWorkMeansExited(c, s, n - 1);
      assert s.apps[..n][..n - 1] == s.apps[..n - 1];
      assert PointInvariant(c, s, n - 1);
    }
  }

  lemma StepDoesWork(c: Config, s: Shared, current: nat, s': Shared)
    requires Invariant(c, s) && OthersOutside(s, current)
    requires AppStep(c, s, current, s')
    ensures TotalWork(c, s'.apps) == TotalWork(c, s.apps) - 1
  {
    hide TotalWork, CellsMatch, MutualExclusion;
    assert PointInvariant(c, s, current);
    assert Work(c, s'.apps[current]) == Work(c, s.apps[current]) - 1;
    WorkAfterUpdate(c, s.apps, current, s'.apps[current]);
  }

  // --- Round robin: rounds in turn -------------------------------------------------------------------

  /** In round r the applications before the running one have had their turn and those after it have not. */
  ghost predicate RoundRobinShape(c: Config, s: Shared, current: nat)
    requires |s.apps| == |c.chars|
  {
    current < |s.apps| &&
    var a := s.apps[current];
    && !a.pc.Exited?
    && (forall i :: 0 <= i < current ==>
          if a.rounds < c.rounds then s.apps[i].pc.LoopTest? && s.apps[i].rounds == a.rounds + 1 else s.apps[i].pc.Exited?)
    && (forall i :: current < i < |s.apps| ==>
          s.apps[i].rounds == a.rounds && if a.rounds == 0 then s.apps[i].pc.SetPriority? else s.apps[i].pc.LoopTest?)
    && Frontier(s) == |s.apps| * a.rounds + (if a.rounds < c.rounds then current else 0) + (Printed(a) - a.rounds)
  }

  /** First come, first served: the applications before the running one are done and those after it not begun. */
  ghost predicate FirstComeShape(c: Config, s: Shared, current: nat)
    requires |s.apps| == |c.chars|
  {
    current < |s.apps| &&
    var a := s.apps[current];
    && !a.pc.Exited?
    && (forall i :: 0 <= i < current ==> s.apps[i].pc.Exited?)
    && (forall i :: current < i < |s.apps| ==> s.apps[i].rounds == 0 && s.apps[i].pc.SetPriority?)
    && Frontier(s) == c.rounds * current + Printed(a)
  }

  ghost predicate Shape(policy: int, c: Config, s: Shared, current: nat)
    requires |s.apps| == |c.chars|
  {
    if policy == 0 then RoundRobinShape(c, s, current) else FirstComeShape(c, s, current)
  }

  /** The application whose character a complete run leaves in cell k. */
  function Owner(policy: int, c: Config, k: nat): nat
    requires 0 < |c.chars| && 0 < c.rounds
  {
    if policy == 0 then k % |c.chars| else k / c.rounds
  }

  ghost predicate Layout(policy: int, c: Config, s: Shared)
  {
    forall k :: 0 <= k < Frontier(s) ==>
      && 0 < |c.chars| && 0 < c.rounds && Owner(policy, c, k) < |c.chars|
      && k in s.cells && s.cells[k] == c.chars[Owner(policy, c, k)]
  }

  lemma FrontierBelongsToCurrent(policy: int, c: Config, s: Shared, current: nat)
    requires |s.apps| == |c.chars| && Shape(policy, c, s, current)
    requires Printed(s.apps[current]) == s.apps[current].rounds < c.rounds
    ensures 0 <= Frontier(s) && Owner(policy, c, Frontier(s)) == current
  {
    var a := s.apps[current];
    if policy == 0 {
      MulOrder(|s.apps|, 0, a.rounds);
      QuotientIsUnique(Frontier(s), |s.apps|, a.rounds, current);
    } else {
      MulOrder(c.rounds, 0, current);
      QuotientIsUnique(Frontier(s), c.rounds, current, a.rounds);
    }
  }

  lemma StepKeepsLayout(policy: int, c: Config, s: Shared, current: nat, s': Shared)
    requires Invariant(c, s) && c.syncMethod == 1 && Shape(policy, c, s, current) && Layout(policy, c, s)
    requires AppStep(c, s, current, s')
    ensures Layout(policy, c, s')
    ensures Frontier(s') == Frontier(s) + Printed(s'.apps[current]) - Printed(s.apps[current])
  {
    hide Shape, MutualExclusion, CellsMatch, TotalPrinted;
    assert PointInvariant(c, s, current);
    FrontierMove(c, s, current, s' == Next(c, s, current, true));
    if Printed(s.apps[current]) == s.apps[current].rounds < c.rounds {
      FrontierBelongsToCurrent(policy, c, s, current);
    }
  }

  lemma InnerStepKeepsShape(policy: int, c: Config, s: Shared, current: nat, s': Shared)
    requires Invariant(c, s) && c.syncMethod == 1 && Shape(policy, c, s, current) && Layout(policy, c, s)
    requires AppStep(c, s, current, s') && !GivesUp(s.apps[current])
    ensures Shape(policy, c, s', current)
  {
    hide Layout, MutualExclusion, CellsMatch, TotalPrinted;
    assert PointInvariant(c, s, current);
    StepKeepsLayout(policy, c, s, current, s');
    assert s'.apps[current].rounds == s.apps[current].rounds;
    assert forall i :: 0 <= i < |s.apps| && i != current ==> s'.apps[i] == s.apps[i];
  }

  lemma PickIsNextReady(s: Shared, current: nat, next: nat, q: nat)
    requires current < |s.apps| && Picks(0, s, current, next) && q < |s.apps| && !s.apps[q].pc.Exited?
    requires q == if current + 1 < |s.apps| then current + 1 else 0
    ensures next == q
  {
    assert ReadySlots(s)[q + 1];
    assert !ReadySlots(s)[0];
  }

  lemma YieldKeepsRoundRobin(c: Config, s: Shared, current: nat, s': Shared, next: nat)
    requires Invariant(c, s) && c.syncMethod == 1 && Shape(0, c, s, current) && Layout(0, c, s)
    requires CoopStep(0, c, s, current, s', next) && s.apps[current].pc.Yield?
    ensures Shape(0, c, s', next)
  {
    hide Layout, MutualExclusion, CellsMatch, TotalPrinted;
    var n, r := |s.apps|, s.apps[current].rounds;
    assert PointInvariant(c, s, current);
    StepKeepsLayout(0, c, s, current, s');
    assert forall i :: 0 <= i < n && i != current ==> s'.apps[i] == s.apps[i];
    assert s'.apps[current].pc.LoopTest? && s'.apps[current].rounds == r + 1;
    PickIsNextReady(s', current, next, if current + 1 < n then current + 1 else 0);
    if current + 1 == n {
      OneMore(n, r);
      assert s'.apps[0].rounds == r + 1;
      assert Frontier(s') == n * s'.apps[0].rounds;
    }
  }

  lemma ExitKeepsRoundRobin(c: Config, s: Shared, current: nat, s': Shared, next: nat)
    requires Invariant(c, s) && c.syncMethod == 1 && Shape(0, c, s, current) && Layout(0, c, s)
    requires CoopStep(0, c, s, current, s', next) && s.apps[current].pc.Exit?
    ensures AllExited(s') || Shape(0, c, s', next)
  {
    hide Layout, MutualExclusion, CellsMatch, TotalPrinted;
    assert PointInvariant(c, s, current);
    StepKeepsLayout(0, c, s, current, s');
    assert forall i :: 0 <= i < |s.apps| && i != current ==> s'.apps[i] == s.apps[i];
    if current + 1 == |s.apps| {
      assert AllExited(s');
    } else {
      assert !s'.apps[current + 1].pc.Exited?;
      PickIsNextReady(s', current, next, current + 1);
    }
  }

  lemma DecisionKeepsFirstCome(c: Config, s: Shared, current: nat, s': Shared, next: nat)
    requires Invariant(c, s) && c.syncMethod == 1 && Shape(1, c, s, current) && Layout(1, c, s)
    requires CoopStep(1, c, s, current, s', next) && GivesUp(s.apps[current])
    ensures AllExited(s') || Shape(1, c, s', next)
  {
    hide Layout, MutualExclusion, CellsMatch, TotalPrinted;
    var a := s.apps[current];
    assert PointInvariant(c, s, current);
    StepKeepsLayout(1, c, s, current, s');
    assert forall i :: 0 <= i < |s.apps| && i != current ==> s'.apps[i] == s.apps[i];
    if a.pc.Exit? {
      assert c.rounds * (current + 1) == c.rounds * current + c.rounds;
      if current + 1 == |s.apps| {
        assert AllExited(s');
      }
    }
  }

  // --- Whole runs ------------------------------------------------------------------------------------

  ghost predicate CoopInvariant(policy: int, c: Config, s: Shared, current: nat)
  {
    && Invariant(c, s) && c.syncMethod == 1
    && OthersOutside(s, current)
    && Layout(policy, c, s)
    && (AllExited(s) || Shape(policy, c, s, current))
  }

  lemma CoopStepKeepsInvariant(policy: int, c: Config, s: Shared, current: nat, s': Shared, next: nat)
    requires policy == 0 || policy == 1
    requires CoopInvariant(policy, c, s, current) && CoopStep(policy, c, s, current, s', next)
    ensures CoopInvariant(policy, c, s', next)
    ensures TotalWork(c, s'.apps) == TotalWork(c, s.apps) - 1
  {
    StaysOutside(c, s, current, s', next);
    StepDoesWork(c, s, current, s');
    StepKeepsLayout(policy, c, s, current, s');
    if !GivesUp(s.apps[current]) {
      InnerStepKeepsShape(policy, c, s, current, s');
    } else if policy == 0 {
      if s.apps[current].pc.Yield? {
        YieldKeepsRoundRobin(c, s, current, s', next);
      } else {
        ExitKeepsRoundRobin(c, s, current, s', next);
      }
    } else {
      DecisionKeepsFirstCome(c, s, current, s', next);
    }
  }

  /** The last application is about to exit. */
  predicate AtLastExit(s: Shared, p: int)
  {
    && 0 <= p < |s.apps| && s.apps[p].pc.Exit?
    && forall i :: 0 <= i < |s.apps| && i != p ==> s.apps[i].pc.Exited?
  }

  /** Before the last exit the screen is complete. */
  lemma ScreenAtLastExit(policy: int, c: Config, s: Shared, current: nat)
    requires (policy == 0 || policy == 1) && CoopInvariant(policy, c, s, current) && AtLastExit(s, current)
    ensures Frontier(s) == s.cursor == |c.chars| * c.rounds
  {
    hide Layout, OthersOutside;
    assert PointInvariant(c, s, current);
    assert !CursorAhead(s);
    if policy == 1 {
      assert current == |c.chars| - 1;
      OneMore(c.rounds, current);
    }
  }

  ghost predicate CooperativeRun(policy: int, c: Config, run: seq<Shared>, current: seq<nat>)
  {
    && 0 < |run| == |current| && run[0] == Start(c) && current[0] == 0
    && (forall k :: 0 <= k < |run| ==> |run[k].apps| == |c.chars|)
    && forall k :: 0 <= k < |run| - 1 ==> CoopStep(policy, c, run[k], current[k], run[k + 1], current[k + 1])
  }

  /** The steps all applications take together. */
  function RunLength(c: Config): nat
  {
    |c.chars| * (RoundSteps(c, c.rounds) + 5)
  }

  lemma {:induction false} CooperativeRunsKeepInvariant(policy: int, c: Config, run: seq<Shared>, current: seq<nat>, k: nat)
    requires (policy == 0 || policy == 1) && ValidConfig(c) && c.syncMethod == 1 && 0 < |c.chars|
    requires CooperativeRun(policy, c, run, current) && k < |run|
    ensures CoopInvariant(policy, c, run[k], current[k])
    ensures TotalWork(c, run[k].apps) == RunLength(c) - k
  {
    if k == 0 {
      StartEstablishesInvariant(c);
      FreshWork(c, |c.chars|);
      FreshTotal(|c.chars|);
    } else {
      CooperativeRunsKeepInvariant(policy, c, run, current, k - 1);
      assert CoopStep(policy, c, run[k - 1], current[k - 1], run[k - 1 + 1], current[k - 1 + 1]);
      CoopStepKeepsInvariant(policy, c, run[k - 1], current[k - 1], run[k], current[k]);
    }
  }

  ghost predicate CanStep(policy: int, c: Config, s: Shared, current: nat)
    requires |s.apps| == |c.chars|
  {
    exists s', next: nat :: CoopStep(policy, c, s, current, s', next)
  }

  lemma RunningCanStep(policy: int, c: Config, s: Shared, current: nat)
    requires (policy == 0 || policy == 1) && CoopInvariant(policy, c, s, current) && !AllExited(s)
    ensures CanStep(policy, c, s, current)
  {
    var s' := Next(c, s, current, true);
    assert AppStep(c, s, current, s');
    if !GivesUp(s.apps[current]) {
      assert CoopStep(policy, c, s, current, s', current);
    } else if AllExited(s') {
      assert CoopStep(policy, c, s, current, s', 0);
    } else if policy == 0 {
      var i :| 0 <= i < |s'.apps| && !s'.apps[i].pc.Exited?;
      assert ReadySlots(s')[i + 1] && !ReadySlots(s')[0];
      FirstExists(ReadySlots(s'), Succ(|s.apps| + 1, current + 1), i + 1);
      var to: nat :| First(ReadySlots(s'), Succ(|s.apps| + 1, current + 1), to);
      assert CoopStep(policy, c, s, current, s', to - 1);
    } else {
      assert CoopStep(policy, c, s, current, s', if s'.apps[current].pc.Exited? then current + 1 else current);
    }
  }

  lemma ExitedExactlyWithoutWork(c: Config, s: Shared)
    requires Invariant(c, s)
    ensures 0 <= TotalWork(c, s.apps)
    ensures TotalWork(c, s.apps) == 0 <==> AllExited(s)
  {
    assert s.apps[..|s.apps|] == s.apps;
    NoWorkMeansExited(c, s, |s.apps|);
    if AllExited(s) {
      forall i | 0 <= i < |s.apps| ensures s.apps[i].rounds == c.rounds {
        assert PointInvariant(c, s, i);
      }
      NothingLeft(c, s.apps);
    }
  }

  /** One step of work is left exactly before the last exit. */
  lemma LastExitIsLastWork(c: Config, s: Shared, current: nat)
    requires Invariant(c, s) && OthersOutside(s, current)
    requires current < |s.apps| && !s.apps[current].pc.Exited?
    ensures TotalWork(c, s.apps) == 1 <==> AtLastExit(s, current)
  {
    hide OthersOutside, TotalWork;
    var s' := Next(c, s, current, true);
    StepKeepsInvariant(c, s, current, s');
    StepDoesWork(c, s, current, s');
    ExitedExactlyWithoutWork(c, s');
    assert forall i :: 0 <= i < |s.apps| && i != current ==> s'.apps[i] == s.apps[i];
  }

  /** No run gets stuck before all have exited, and none goes on longer than RunLength. */
  lemma RunsComplete(policy: int, c: Config, run: seq<Shared>, current: seq<nat>)
    requires (policy == 0 || policy == 1) && ValidConfig(c) && c.syncMethod == 1 && 0 < |c.chars|
    requires CooperativeRun(policy, c, run, current)
    ensures |run| <= RunLength(c) + 1
    ensures |run| == RunLength(c) + 1 <==> AllExited(run[|run| - 1])
    ensures |run| <= RunLength(c) ==> CanStep(policy, c, run[|run| - 1], current[|run| - 1])
  {
    var k := |run| - 1;
    CooperativeRunsKeepInvariant(policy, c, run, current, k);
    ExitedExactlyWithoutWork(c, run[k]);
    if !AllExited(run[k]) {
      RunningCanStep(policy, c, run[k], current[k]);
    }
  }

  lemma {:induction false} NothingLeft(c: Config, apps: seq<App>)
    requires forall i :: 0 <= i < |apps| ==> apps[i].pc.Exited? && apps[i].rounds == c.rounds
    ensures TotalWork(c, apps) == 0
  {
    if apps != [] {
      NothingLeft(c, apps[..|apps| - 1]);
    }
  }

  /** The finished screen. With round robin, cell k holds the character of process 1 + k mod 4; with policy 1,
      up to the last exit, that of process 1 + k div N (here for any number of processes). */
  lemma FinishedScreen(policy: int, c: Config, run: seq<Shared>, current: seq<nat>, k: nat)
    requires (policy == 0 || policy == 1) && ValidConfig(c) && c.syncMethod == 1 && 0 < |c.chars|
    requires CooperativeRun(policy, c, run, current) && |run| == RunLength(c) + 1
    requires 0 < c.rounds && k < |c.chars| * c.rounds
    ensures var last := run[|run| - 1];
            && last.lock == 0 && last.cursor == |c.chars| * c.rounds
            && Owner(policy, c, k) < |c.chars| && k in last.cells && last.cells[k] == c.chars[Owner(policy, c, k)]
  {
    var last := run[|run| - 1];
    RunsComplete(policy, c, run, current);
    CooperativeRunsKeepInvariant(policy, c, run, current, |run| - 1);
    forall q | 0 <= q < |c.chars| ensures Printed(last.apps[q]) == c.rounds {
      assert PointInvariant(c, last, q);
    }
    TotalIsBounded(last.apps, c.rounds);
  }

  /** Turnaround: the number of the last print of application i in a finished run. */
  function LastPrint(policy: int, c: Config, i: nat): int
  {
    if policy == 0 then |c.chars| * (c.rounds - 1) + i + 1 else c.rounds * (i + 1)
  }

  lemma Turnaround(policy: int, c: Config, i: nat)
    requires (policy == 0 || policy == 1) && 0 < c.rounds && i < |c.chars|
    ensures 1 <= LastPrint(policy, c, i) <= |c.chars| * c.rounds
    ensures Owner(policy, c, LastPrint(policy, c, i) - 1) == i
    ensures forall k: nat :: LastPrint(policy, c, i) <= k < |c.chars| * c.rounds ==> Owner(policy, c, k) != i
  {
    if policy == 0 {
      RoundRobinTurnaround(|c.chars|, c.rounds, i);
    } else {
      FirstComeTurnaround(|c.chars|, c.rounds, i);
    }
  }

  lemma RoundRobinTurnaround(n: nat, r: nat, i: nat)
    requires 0 < r && i < n
    ensures 0 <= n * (r - 1) + i < n * r && (n * (r - 1) + i) % n == i
    ensures forall k: nat :: n * (r - 1) + i + 1 <= k < n * r ==> k % n != i
  {
    MulOrder(n, 0, r - 1);
    QuotientIsUnique(n * (r - 1) + i, n, r - 1, i);
    OneMore(n, r - 1);
    forall k: nat | n * (r - 1) + i + 1 <= k < n * r ensures k % n != i {
      QuotientIsUnique(k, n, r - 1, k - n * (r - 1));
    }
  }

  lemma FirstComeTurnaround(n: nat, r: nat, i: nat)
    requires 0 < r && i < n
    ensures 1 <= r * (i + 1) <= n * r && (r * (i + 1) - 1) / r == i
    ensures forall k: nat :: r * (i + 1) <= k < n * r ==> k / r != i
  {
    MulOrder(r, 0, i);
    OneMore(r, i);
    QuotientIsUnique(r * i + (r - 1), r, i, r - 1);
    MulOrder(r, i + 1, n);
    forall k: nat | r * (i + 1) <= k < n * r ensures k / r != i {
      assert k == r * (k / r) + k % r;
    }
  }
}

/** With clock interrupts every run comes to the last exit under policies 0, 1 and 4, and 3 while all have a share. */
module Completion {
  import opened Divisibility
  import opened Machine
  import opened Turns
  import opened KernelSpec
  import opened KernelProperties
  import opened KernelRuns
  import opened Applications
  import opened LockRelease
  import opened Cooperative
  import opened WholeSystem
  import opened Release
  import opened LotteryRelease
  import opened MaskedRuns

  /** The application has found the lock taken and has yet to try again. */
  predicate Waiting(a: App)
  {
    a.pc.SwapTest? && a.reg != 0
  }

  function WaitingCount(apps: seq<App>): (n: nat)
    ensures n <= |apps|
  {
    if apps == [] then 0
    else WaitingCount(apps[..|apps| - 1]) + (if Waiting(apps[|apps| - 1]) then 1 else 0)
  }

  lemma {:induction false} WaitingAfterUpdate(apps: seq<App>, p: nat, a: App)
    requires p < |apps|
    ensures WaitingCount(apps[p := a])
         == WaitingCount(apps) - (if Waiting(apps[p]) then 1 else 0) + (if Waiting(a) then 1 else 0)
    decreases |apps|
  {
    var n := |apps|;
    if p == n - 1 {
      assert apps[p := a][..n - 1] == apps[..n - 1];
    } else {
      WaitingAfterUpdate(apps[..n - 1], p, a);
      assert apps[p := a][..n - 1] == apps[..n - 1][p := a];
    }
  }

  lemma {:induction false} NoneWaits(n: nat)
    ensures WaitingCount(seq(n, p => App(SetPriority, 0, 0))) == 0
  {
    if n > 0 {
      NoneWaits(n - 1);
      assert seq(n, p => App(SetPriority, 0, 0))[..n - 1] == seq(n - 1, p => App(SetPriority, 0, 0));
    }
  }

  /** The work left, in which a turn of the spin loop counts nothing. */
  function Left(c: Config, s: Shared): int
  {
    TotalWork(c, s.apps) + WaitingCount(s.apps)
  }

  /** A step either does work, or it is one of the two of the spin loop: the swap that finds the lock taken, and
      the way back to it. */
  lemma StepWorksOrSpins(c: Config, s: Shared, p: nat, s': Shared)
    requires Invariant(c, s) && AppStep(c, s, p, s')
    ensures Left(c, s') <= Left(c, s)
    ensures Left(c, s') == Left(c, s) ==>
              && s'.lock == s.lock && !Critical(s.apps[p])
              && (s.apps[p].pc.Swap? ==> s.lock == 1)
              && (!s.apps[p].pc.Swap? ==> s'.apps[p].pc.Swap? && WaitingCount(s'.apps) == WaitingCount(s.apps) - 1)
  {
    hide CellsMatch, TotalWork, WaitingCount, MutualExclusion;
    assert PointInvariant(c, s, p);
    WorkAfterUpdate(c, s.apps, p, s'.apps[p]);
    WaitingAfterUpdate(s.apps, p, s'.apps[p]);
    LockIsBit(c, s);
  }

  lemma LockIsBit(c: Config, s: Shared)
    requires Invariant(c, s)
    ensures s.lock == 0 || s.lock == 1
  {}

  /** Work is never gained on the way. */
  lemma {:induction false} ExecutionWorks(c: Config, p: nat, path: seq<Shared>, j: nat, k: nat)
    requires Executes(c, p, path) && Invariant(c, path[0]) && j <= k < |path|
    ensures Left(c, path[k]) <= Left(c, path[j])
    ensures Left(c, path[k]) == Left(c, path[j]) ==> path[k].lock == path[j].lock
    decreases k
  {
    hide Invariant, AppStep, Left, GivesUp;
    if j < k {
      ExecutionWorks(c, p, path, j, k - 1);
      ExecutionKeepsInvariant(c, p, path, k - 1);
      assert AppStep(c, path[k - 1], p, path[k - 1 + 1]);
      StepWorksOrSpins(c, path[k - 1], p, path[k]);
    }
  }

  /** A quantum without work: with the lock free its application goes back to the swap and no further; with the
      lock taken it is not the holder's. */
  lemma IdleQuantum(c: Config, p: nat, path: seq<Shared>)
    requires Executes(c, p, path) && Invariant(c, path[0])
    requires Left(c, path[|path| - 1]) == Left(c, path[0])
    ensures path[|path| - 1].lock == path[0].lock && !Critical(path[0].apps[p])
    ensures path[0].lock == 0 ==> WaitingCount(path[|path| - 1].apps) == WaitingCount(path[0].apps) - 1
  {
    hide Invariant, AppStep, Left, GivesUp, WaitingCount, Critical;
    var m := |path| - 1;
    ExecutionWorks(c, p, path, 0, m);
    ExecutionWorks(c, p, path, 0, 1);
    ExecutionWorks(c, p, path, 1, m);
    assert AppStep(c, path[0], p, path[0 + 1]);
    StepWorksOrSpins(c, path[0], p, path[1]);
    if path[0].lock == 0 && m > 1 {
      ExecutionWorks(c, p, path, 0, 2);
      ExecutionWorks(c, p, path, 2, m);
      ExecutionKeepsInvariant(c, p, path, 1);
      assert AppStep(c, path[1], p, path[1 + 1]);
      StepWorksOrSpins(c, path[1], p, path[2]);
      assert false;
    }
  }

  lemma IdleExecution(c: Config, p: nat, s: Shared, s': Shared)
    requires Invariant(c, s) && ExecutesTo(c, p, s, s')
    ensures Invariant(c, s') && Left(c, s') <= Left(c, s) && p < |s.apps| == |c.chars|
    ensures Left(c, s') == Left(c, s) ==>
              && s'.lock == s.lock && !Critical(s.apps[p])
              && (s.lock == 0 ==> WaitingCount(s'.apps) == WaitingCount(s.apps) - 1)
  {
    hide Invariant, AppStep, Left, GivesUp, WaitingCount, Critical;
    var path :| Executes(c, p, path) && path[0] == s && path[|path| - 1] == s';
    ExecutionWorks(c, p, path, 0, |path| - 1);
    ExecutionKeepsInvariant(c, p, path, |path| - 1);
    if Left(c, s') == Left(c, s) {
      IdleQuantum(c, p, path);
    }
  }

  lemma LessWork(bound: nat, a: int, b: int)
    requires a < b
    ensures (bound + 1) * a + bound < (bound + 1) * b
  {
    MulOrder(bound + 1, a + 1, b);
    OneMore(bound + 1, a);
  }

  /** Among bound + 1 quanta one does work, if idle ones bring the holder's turn nearer. d and d' are the quanta
      that may still be idle: with the lock free, those spent on going back to the swap. */
  lemma QuantumUsesUp(c: Config, s: Shared, current: nat, d: nat, s': Shared, d': nat, bound: nat)
    requires Invariant(c, s) && 1 <= current && ExecutesTo(c, current - 1, s, s') && d' <= bound
    requires (s.lock == 0 ==> d == WaitingCount(s.apps)) && (s'.lock == 0 ==> d' == WaitingCount(s'.apps))
    requires s.lock != 0 && Left(c, s') == Left(c, s) ==> d' < d
    ensures Invariant(c, s')
    ensures (bound + 1) * Left(c, s') + d' < (bound + 1) * Left(c, s) + d
  {
    hide Invariant, ExecutesTo, Left, WaitingCount;
    IdleExecution(c, current - 1, s, s');
    if Left(c, s') < Left(c, s) {
      LessWork(bound, Left(c, s'), Left(c, s));
    }
  }

  // --- The policies ----------------------------------------------------------------------------------

  /** Policies under which every process is served: 3 if all shares are at least 1, and not 2. */
  predicate Serving(algorithm: int)
  {
    algorithm == 0 || algorithm == 1 || algorithm == 3 || algorithm == 4
  }

  predicate SharesWithin(w: Whole, most: nat)
  {
    forall i :: 1 <= i < |w.kernel.procs| ==> 1 <= w.kernel.procs[i].share <= most
  }

  /** Every share that is set is between 1 and most. */
  predicate SetsShares(e: Event, most: nat)
  {
    e.Trap? && e.reg.intno == INT_SYS_USER2 ==> 1 <= Signed(e.reg.eax) <= most
  }

  /** What a run from boot keeps, under each policy. */
  ghost predicate Kept(algorithm: int, c: Config, w: Whole, most: nat)
  {
    && Safe(algorithm, c, w)
    && (algorithm == 1 ==> LaterNotBegun(w))
    && (algorithm == 3 ==> TurnsNotStarted(w.kernel) && SharesWithin(w, most))
    && (algorithm == 4 ==> TicketsMatch(w))
  }

  lemma StepKeepsShares(c: Config, w: Whole, e: Event, w': Whole, most: nat)
    requires Agrees(c, w) && WholeStep(3, c, w, e, w') && SetsShares(e, most) && SharesWithin(w, most)
    ensures SharesWithin(w', most)
  {
    if e.Trap? && IsDecision(e.reg) {
      ScheduledEffect(3, BeforeSchedule(w.kernel, e.reg), w'.kernel);
    }
  }

  lemma {:induction false} RunKeepsShares(c: Config, run: seq<Whole>, events: seq<Event>, most: nat, k: nat)
    requires ValidConfig(c) && WholeRun(3, c, run, events) && k < |run| && 1 <= most
    requires forall j :: 0 <= j < |events| ==> SetsShares(events[j], most)
    ensures SharesWithin(run[k], most)
  {
    hide WholeStep, Invariant, Sound, SetsShares;
    if k == 0 {
      BootShares(c, run[0], most);
    } else {
      RunKeepsShares(c, run, events, most, k - 1);
      WholeRunsAreSafe(3, c, run, events, k - 1);
      assert WholeStep(3, c, run[k - 1], events[k - 1], run[k - 1 + 1]);
      StepKeepsShares(c, run[k - 1], events[k - 1], run[k], most);
    }
  }

  lemma BootShares(c: Config, w: Whole, most: nat)
    requires Boots(c, w) && 1 <= most
    ensures SharesWithin(w, most)
  {}

  lemma RunKeeps(algorithm: int, c: Config, run: seq<Whole>, events: seq<Event>, most: nat, k: nat)
    requires ValidConfig(c) && WholeRun(algorithm, c, run, events) && k < |run| && 1 <= most
    requires algorithm == 3 ==> forall j :: 0 <= j < |events| ==> SetsShares(events[j], most)
    ensures Kept(algorithm, c, run[k], most)
  {
    hide WholeRun, Safe, LaterNotBegun, TurnsNotStarted, SharesWithin, TicketsMatch, SetsShares;
    RunIsLong(algorithm, c, run, events);
    WholeRunsAreSafe(algorithm, c, run, events, k);
    if algorithm == 1 {
      FirstComeRunsInOrder(c, run, events, k);
    } else if algorithm == 3 {
      WholeRunsKeepTurnsNotStarted(c, run, events, k);
      RunKeepsShares(c, run, events, most, k);
    } else if algorithm == 4 {
      WholeRunsMatchTickets(4, c, run, events, k);
    }
  }

  lemma RunIsLong(algorithm: int, c: Config, run: seq<Whole>, events: seq<Event>)
    requires WholeRun(algorithm, c, run, events)
    ensures |run| == |events| + 1
  {}

  // --- Quanta that may still be idle -----------------------------------------------------------------

  /** Quanta before the holder of the lock runs. */
  ghost function HolderDelay(algorithm: int, c: Config, w: Whole, h: nat): nat
    requires Agrees(c, w) && h < |c.chars|
  {
    if algorithm == 0 then Delay(|c.chars|, w.kernel.current, h)
    else if algorithm == 3 && TurnAt(3, w) && Lap(3, w)[h + 1] > 0 then DelayAt(3, w, h)
    else if algorithm == 4 && TicketsMatch(w) then LotteryDelay(c, w, h)
    else 0
  }

  ghost function Idle(algorithm: int, c: Config, w: Whole): nat
    requires Safe(algorithm, c, w)
  {
    if w.kernel.lock == 0 then WaitingCount(w.apps)
    else
      var h: nat :| h < |w.apps| && Critical(w.apps[h]);
      HolderDelay(algorithm, c, w, h)
  }

  lemma IdleIsHolderDelay(algorithm: int, c: Config, w: Whole, h: nat)
    requires Safe(algorithm, c, w) && w.kernel.lock != 0 && h < |w.apps| && Critical(w.apps[h])
    ensures Idle(algorithm, c, w) == HolderDelay(algorithm, c, w, h)
  {
    hide HolderDelay, CellsMatch, PointInvariant, Agrees, Sound;
    assert MutualExclusion(View(w));
  }

  lemma HolderExists(c: Config, w: Whole) returns (h: nat)
    requires Invariant(c, View(w)) && w.kernel.lock != 0
    ensures h < |w.apps| == |c.chars| && Critical(w.apps[h])
  {
    h :| h < |w.apps| && Critical(w.apps[h]);
  }

  /** The quanta among which one does work, less one. */
  function IdleBound(algorithm: int, c: Config, most: nat): nat
  {
    if algorithm == 3 then most * |c.chars| else if algorithm == 4 then LOTTERY_LAP + |c.chars| else |c.chars|
  }

  lemma {:induction false} WeightIsBounded(weights: seq<nat>, most: nat, j: nat)
    requires 1 <= j <= |weights| && weights[0] == 0 && forall i :: 0 <= i < |weights| ==> weights[i] <= most
    ensures WeightBelow(weights, j) <= most * (j - 1)
  {
    if j > 1 {
      WeightIsBounded(weights, most, j - 1);
      OneMore(most, j - 2);
    } else {
      assert WeightBelow(weights, 0) == 0;
    }
  }

  lemma LapIsBounded(c: Config, w: Whole, most: nat)
    requires Agrees(c, w) && SharesWithin(w, most)
    ensures Total(Lap(3, w)) <= most * |c.chars|
  {
    WeightIsBounded(Lap(3, w), most, |w.kernel.procs|);
  }

  lemma IdleIsBounded(algorithm: int, c: Config, w: Whole, most: nat)
    requires Serving(algorithm) && Kept(algorithm, c, w, most) && 1 <= most
    ensures Idle(algorithm, c, w) <= IdleBound(algorithm, c, most)
  {
    hide Idle, Invariant, WaitingCount, Sound, WellFormed, TicketsMatch, SharesWithin, TurnsNotStarted;
    MulOrder(|c.chars|, 1, most);
    SafeHasInvariant(algorithm, c, w);
    if w.kernel.lock == 0 {
      FreeIdle(algorithm, c, w);
    } else {
      var h := HolderExists(c, w);
      IdleIsHolderDelay(algorithm, c, w, h);
      if algorithm == 3 {
        LapIsBounded(c, w, most);
      }
    }
  }

  lemma FreeIdle(algorithm: int, c: Config, w: Whole)
    requires Safe(algorithm, c, w) && w.kernel.lock == 0
    ensures Idle(algorithm, c, w) == WaitingCount(w.apps) <= |c.chars|
  {}

  // --- Idle quanta bring the holder's turn nearer ----------------------------------------------------

  lemma EventWorks(algorithm: int, c: Config, w: Whole, e: Event, w': Whole)
    requires Safe(algorithm, c, w) && WholeStep(algorithm, c, w, e, w')
    ensures Left(c, View(w')) <= Left(c, View(w))
    ensures Left(c, View(w')) == Left(c, View(w)) ==> Mild(3, e)
  {
    hide Invariant, Left, KernelStep, Sound, AppStep;
    StepSeenByApplications(algorithm, c, w, e, w');
    if View(w') != View(w) {
      StepWorksOrSpins(c, View(w), w.kernel.current - 1, View(w'));
    }
  }

  lemma {:induction false} StretchWorks(algorithm: int, c: Config, run: seq<Whole>, events: seq<Event>, from: nat, j: nat,
                                        k: nat)
    requires Stretch(algorithm, c, run, events, from) && from <= j <= k <= |events|
    ensures Left(c, View(run[k])) <= Left(c, View(run[j]))
    decreases k
  {
    hide WholeStep, Safe, Left;
    if j < k {
      StretchWorks(algorithm, c, run, events, from, j, k - 1);
      StretchStep(algorithm, c, run, events, from, k - 1);
      EventWorks(algorithm, c, run[k - 1], events[k - 1], run[k]);
    }
  }

  /** An idle stretch sets no share. */
  lemma IdleIsMild(algorithm: int, c: Config, run: seq<Whole>, events: seq<Event>, from: nat, to: nat)
    requires Stretch(algorithm, c, run, events, from) && from <= to <= |events|
    requires Left(c, View(run[to])) == Left(c, View(run[from]))
    ensures MildIn(3, events, from, to)
  {
    hide WholeStep, Safe, Left, Mild;
    forall k | from <= k < to ensures Mild(3, events[k]) {
      StretchWorks(algorithm, c, run, events, from, from, k);
      StretchWorks(algorithm, c, run, events, from, k + 1, to);
      StretchStep(algorithm, c, run, events, from, k);
      EventWorks(algorithm, c, run[k], events[k], run[k + 1]);
    }
  }

  /** What every policy is asked: in an idle quantum with the lock taken its holder's turn comes nearer. */
  lemma IdleQuantumShrinks(algorithm: int, c: Config, run: seq<Whole>, events: seq<Event>, from: nat, to: nat, most: nat)
    requires Serving(algorithm) && Stretch(algorithm, c, run, events, from) && QuantumAt(events, from, to)
    requires forall k :: from <= k <= |events| ==> Kept(algorithm, c, run[k], most)
    requires run[from].kernel.lock != 0 && Left(c, View(run[to])) == Left(c, View(run[from]))
    requires algorithm == 3 ==> TurnAt(3, run[from])
    ensures Idle(algorithm, c, run[to]) < Idle(algorithm, c, run[from])
  {
    hide WholeStep, Safe, Left, ExecutesTo, Critical, Idle, HolderDelay, TurnAt, TicketsMatch, SharesWithin,
      TurnsNotStarted, LaterNotBegun;
    var w, w' := run[from], run[to];
    SafeHasInvariant(algorithm, c, w);
    SafeHasInvariant(algorithm, c, w');
    QuantumExecutes(algorithm, c, run, events, from, to);
    IdleExecution(c, w.kernel.current - 1, View(w), View(w'));
    var h := HolderExists(c, w);
    OthersKeep(c, View(w), w.kernel.current, View(w'), h);
    IdleIsHolderDelay(algorithm, c, w, h);
    IdleIsHolderDelay(algorithm, c, w', h);
    HolderComesNearer(algorithm, c, run, events, from, to, most, h);
  }

  lemma HolderComesNearer(algorithm: int, c: Config, run: seq<Whole>, events: seq<Event>, from: nat, to: nat, most: nat,
                          h: nat)
    requires Serving(algorithm) && Stretch(algorithm, c, run, events, from) && QuantumAt(events, from, to)
    requires forall k :: from <= k <= |events| ==> Kept(algorithm, c, run[k], most)
    requires Left(c, View(run[to])) == Left(c, View(run[from])) && (algorithm == 3 ==> TurnAt(3, run[from]))
    requires h < |c.chars| && run[from].kernel.current != h + 1
    requires h < |run[from].apps| && Critical(run[from].apps[h]) && h < |run[to].apps| && Critical(run[to].apps[h])
    ensures HolderDelay(algorithm, c, run[to], h) < HolderDelay(algorithm, c, run[from], h)
  {
    hide WholeStep, Invariant, WellFormed, Left, ExecutesTo, Critical, TurnAt, TicketsMatch, SharesWithin, TurnsNotStarted,
      LaterNotBegun, InOrder, DelayAt, LotteryDelay, First, Lap, ReadySlots;
    if algorithm == 0 {
      KernelQuantumIsQuantum(c, run, events, from, to);
      CriticalHasNotExited(run[to].apps[h]);
      DelayAfterDecision(View(run[to]), |c.chars|, run[from].kernel.current, run[to].kernel.current, h);
    } else if algorithm == 1 {
      HolderIsRunning(c, run[from], h);
    } else if algorithm == 3 {
      SharesComeNearer(c, run, events, from, to, most, h);
    } else {
      QuantumShrinksLotteryDelay(c, run, events, from, to, h);
    }
  }

  lemma CriticalHasNotExited(a: App)
    requires Critical(a)
    ensures !a.pc.Exited?
  {}

  lemma SharesComeNearer(c: Config, run: seq<Whole>, events: seq<Event>, from: nat, to: nat, most: nat, h: nat)
    requires Stretch(3, c, run, events, from) && QuantumAt(events, from, to) && TurnAt(3, run[from])
    requires SharesWithin(run[from], most) && Left(c, View(run[to])) == Left(c, View(run[from]))
    requires h < |c.chars| && run[from].kernel.current != h + 1
    requires h < |run[from].apps| && Critical(run[from].apps[h]) && h < |run[to].apps| && Critical(run[to].apps[h])
    ensures HolderDelay(3, c, run[to], h) < HolderDelay(3, c, run[from], h)
  {
    hide WholeStep, Invariant, WellFormed, Left, ExecutesTo, TurnAt, DelayAt, InOrder;
    IdleIsMild(3, c, run, events, from, to);
    LapIsBounded(c, run[from], most);
    CriticalIsRunnable(c, run[from], h);
    assert Lap(3, run[from])[h + 1] > 0;
    QuantumDelays(3, c, run, events, from, to, h, Total(Lap(3, run[from])));
  }

  // --- Runs of the whole system ----------------------------------------------------------------------

  /** A bound on the quanta to come. */
  ghost function QuantaLeft(algorithm: int, c: Config, w: Whole, most: nat): int
    requires Safe(algorithm, c, w)
  {
    (IdleBound(algorithm, c, most) + 1) * Left(c, View(w)) + Idle(algorithm, c, w)
  }

  lemma QuantumUsesUpQuanta(algorithm: int, c: Config, run: seq<Whole>, events: seq<Event>, from: nat, to: nat, most: nat)
    requires Serving(algorithm) && Stretch(algorithm, c, run, events, from) && QuantumAt(events, from, to) && 1 <= most
    requires forall k :: from <= k <= |events| ==> Kept(algorithm, c, run[k], most)
    requires algorithm == 3 && run[from].kernel.lock != 0 ==> TurnAt(3, run[from])
    ensures QuantaLeft(algorithm, c, run[to], most) < QuantaLeft(algorithm, c, run[from], most)
  {
    hide WholeStep, Safe, Left, ExecutesTo, Idle, TurnAt, IdleBound, WaitingCount;
    var w, w' := run[from], run[to];
    SafeHasInvariant(algorithm, c, w);
    QuantumExecutes(algorithm, c, run, events, from, to);
    IdleIsBounded(algorithm, c, w', most);
    if w.kernel.lock == 0 {
      FreeIdle(algorithm, c, w);
    }
    if w'.kernel.lock == 0 {
      FreeIdle(algorithm, c, w');
    }
    if w.kernel.lock != 0 && Left(c, View(w')) == Left(c, View(w)) {
      IdleQuantumShrinks(algorithm, c, run, events, from, to, most);
    }
    QuantumUsesUp(c, View(w), w.kernel.current, Idle(algorithm, c, w), View(w'), Idle(algorithm, c, w'),
                  IdleBound(algorithm, c, most));
  }

  /** A run from boot, cut into quanta from its beginning, in which the shares set are between 1 and most. */
  ghost predicate CutRun(algorithm: int, c: Config, run: seq<Whole>, events: seq<Event>, cuts: seq<nat>, most: nat)
  {
    && ValidConfig(c) && WholeRun(algorithm, c, run, events) && CutIntoQuanta(events, cuts) && cuts[0] == 0 && 1 <= most
    && (algorithm == 3 ==> forall j :: 0 <= j < |events| ==> SetsShares(events[j], most))
  }

  lemma TurnBegins(c: Config, run: seq<Whole>, events: seq<Event>, cuts: seq<nat>, most: nat, k: nat)
    requires CutRun(3, c, run, events, cuts, most) && 0 < k < |cuts|
    ensures TurnAt(3, run[cuts[k]])
  {
    hide WholeStep, Boots, Invariant, SetsShares, TurnsNotStarted, TurnAt, InOrder, WellFormed;
    assert QuantumAt(events, cuts[k - 1], cuts[k - 1 + 1]);
    var e := cuts[k] - 1;
    assert IsSchedule(events[e]);
    WholeRunsAreSafe(3, c, run, events, e);
    WholeRunsKeepTurnsNotStarted(c, run, events, e);
    assert WholeStep(3, c, run[e], events[e], run[e + 1]);
    DecisionBeginsTurn(3, c, run[e], events[e], run[e + 1]);
  }

  lemma {:induction false} RunUsesUpQuanta(algorithm: int, c: Config, run: seq<Whole>, events: seq<Event>, cuts: seq<nat>,
                                           most: nat, k: nat)
    requires Serving(algorithm) && CutRun(algorithm, c, run, events, cuts, most) && k < |cuts|
    ensures Safe(algorithm, c, run[cuts[k]])
    ensures QuantaLeft(algorithm, c, run[cuts[k]], most) + k <= (IdleBound(algorithm, c, most) + 1) * RunLength(c)
  {
    hide WholeStep, Boots, QuantumAt, Safe, QuantaLeft, RunLength, IdleBound, SetsShares, TurnAt;
    WholeRunsAreSafe(algorithm, c, run, events, cuts[k]);
    if k == 0 {
      BootHasQuanta(algorithm, c, run[0], most);
    } else {
      RunUsesUpQuanta(algorithm, c, run, events, cuts, most, k - 1);
      var from, to := cuts[k - 1], cuts[k - 1 + 1];
      assert QuantumAt(events, from, to);
      RunIsStretch(algorithm, c, run, events, from);
      forall j | from <= j <= |events| ensures Kept(algorithm, c, run[j], most) {
        RunKeeps(algorithm, c, run, events, most, j);
      }
      if algorithm == 3 {
        if k - 1 == 0 {
          BootIsFree(c, run[0]);
        } else {
          TurnBegins(c, run, events, cuts, most, k - 1);
        }
      }
      QuantumUsesUpQuanta(algorithm, c, run, events, from, to, most);
    }
  }

  lemma BootIsFree(c: Config, w: Whole)
    requires Boots(c, w)
    ensures w.kernel.lock == 0
  {}

  lemma BootHasQuanta(algorithm: int, c: Config, w: Whole, most: nat)
    requires ValidConfig(c) && Boots(c, w)
    ensures Safe(algorithm, c, w)
    ensures QuantaLeft(algorithm, c, w, most) == (IdleBound(algorithm, c, most) + 1) * RunLength(c)
  {
    hide Safe, TotalWork, WaitingCount, RunLength, IdleBound, Idle;
    BootIsSafe(algorithm, c, w);
    BootIsFree(c, w);
    FreeIdle(algorithm, c, w);
    FreshTotalWork(c);
    NoneWaits(|c.chars|);
  }

  lemma FreshTotalWork(c: Config)
    ensures TotalWork(c, Start(c).apps) == RunLength(c)
  {
    FreshWork(c, |c.chars|);
  }

  lemma QuantaLeftIsNatural(algorithm: int, c: Config, w: Whole, most: nat)
    requires Safe(algorithm, c, w)
    ensures 0 <= QuantaLeft(algorithm, c, w, most)
  {
    hide Safe, TotalWork, WaitingCount, Idle, IdleBound;
    SafeHasInvariant(algorithm, c, w);
    ExitedExactlyWithoutWork(c, View(w));
    MulOrder(IdleBound(algorithm, c, most) + 1, 0, Left(c, View(w)));
  }

  /** Unless the last application is about to exit, a call that gives up the processor leaves a runnable process. */
  lemma SomeoneRemains(algorithm: int, c: Config, w: Whole) returns (i: nat)
    requires Safe(algorithm, c, w) && !AtLastExit(View(w), w.kernel.current - 1)
    requires w.apps[w.kernel.current - 1].pc.Yield? || w.apps[w.kernel.current - 1].pc.Exit?
    ensures i < |w.apps| && |w.kernel.procs| == |w.apps| + 1
    ensures var before := BeforeSchedule(w.kernel, CallRegisters(w.apps[w.kernel.current - 1].pc));
            && before.tickets == w.kernel.tickets && |before.procs| == |w.kernel.procs|
            && before.procs[i + 1].state.Runnable? && before.procs[i + 1].share == w.kernel.procs[i + 1].share
  {
    hide Invariant, Sound;
    i := w.kernel.current - 1;
    if w.apps[i].pc.Exit? {
      i :| 0 <= i < |w.apps| && i != w.kernel.current - 1 && !w.apps[i].pc.Exited?;
    }
    assert w.kernel.procs[i + 1].state.Runnable?;
  }

  /** These policies find a process unless the last application is about to exit: policy 3 as all shares are at least
      1, and policy 4 as every process has a ticket once the lottery is held. */
  lemma SomeoneIsServed(algorithm: int, c: Config, w: Whole, most: nat)
    requires Serving(algorithm) && Kept(algorithm, c, w, most) && !AtLastExit(View(w), w.kernel.current - 1)
    ensures CanGiveUp(algorithm, c, w)
  {
    hide Invariant, Sound, BeforeSchedule, CallRegisters, AtLastExit, FirstComeSlot, TurnsNotStarted;
    var pc := w.apps[w.kernel.current - 1].pc;
    if algorithm == 0 || algorithm == 1 {
      SomeoneIsLeft(algorithm, c, w);
    } else if pc.Yield? || pc.Exit? {
      var i := SomeoneRemains(algorithm, c, w);
      var before := BeforeSchedule(w.kernel, CallRegisters(pc));
      if algorithm == 3 {
        assert Entitled(before.procs[i + 1]);
      } else if Sold(w) {
        AllHaveTickets(c, w);
        assert HasTicket(w, i);
        var t :| 0 <= t < |before.tickets| && before.tickets[t] == i + 1;
      }
    }
  }

  /** Under policies 0, 1, 3 (with shares of at least 1) and 4, with clock interrupts at any point, a run from boot
      has at most (IdleBound + 1) * RunLength quanta, and its running application can go on exactly until only the
      last exit is left. So every run in which quanta go on to end comes to the last exit. */
  lemma RunsComeToTheLastExit(algorithm: int, c: Config, run: seq<Whole>, events: seq<Event>, cuts: seq<nat>, most: nat)
    requires Serving(algorithm) && Sendable(c) && CutRun(algorithm, c, run, events, cuts, most)
    ensures |cuts| - 1 <= (IdleBound(algorithm, c, most) + 1) * RunLength(c)
    ensures var last := run[|run| - 1];
            && Sized(c, last)
            && (GoesOn(algorithm, c, last) <==> !AtLastExit(View(last), last.kernel.current - 1))
  {
    hide WholeStep, Boots, QuantumAt, WellFormed, Invariant, QuantaLeft, RunLength, GoesOn, AtLastExit, CanGiveUp,
      IdleBound, SetsShares, InOrder;
    var k := |cuts| - 1;
    RunUsesUpQuanta(algorithm, c, run, events, cuts, most, k);
    QuantaLeftIsNatural(algorithm, c, run[cuts[k]], most);
    var last := run[|run| - 1];
    RunKeeps(algorithm, c, run, events, most, |run| - 1);
    if AtLastExit(View(last), last.kernel.current - 1) {
      NothingAfterTheLastExit(algorithm, c, last);
    } else {
      SomeoneIsServed(algorithm, c, last, most);
      GoesOnExactlyWhen(algorithm, c, last);
    }
  }
}

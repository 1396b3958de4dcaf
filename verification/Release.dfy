/** When a lock is released: for each policy, exactly which holders get on, and within how many quanta. */
module Release {
  import opened Turns
  import opened KernelSpec
  import opened KernelProperties
  import opened KernelRuns
  import opened Applications
  import opened LockRelease
  import opened WholeSystem

  // --- Events that leave the policy's numbers as they are --------------------------------------------

  /** The event changes no priority under policy 2 and no share under policy 3. Processes may exit. */
  predicate Mild(algorithm: int, e: Event)
  {
    e.Trap? ==>
      && (algorithm == 2 ==> e.reg.intno != INT_SYS_USER1)
      && (algorithm == 3 ==> e.reg.intno != INT_SYS_USER2)
  }

  predicate MildFrom(algorithm: int, events: seq<Event>, from: nat)
  {
    forall k :: from <= k < |events| ==> Mild(algorithm, events[k])
  }

  predicate MildIn(algorithm: int, events: seq<Event>, from: nat, to: nat)
    requires to <= |events|
  {
    forall k :: from <= k < to ==> Mild(algorithm, events[k])
  }

  predicate NoExitFrom(events: seq<Event>, from: nat)
  {
    forall k :: from <= k < |events| ==> !(events[k].Trap? && events[k].reg.intno == INT_SYS_EXIT)
  }

  // --- Policies 0, 2 and 3: a rotation ---------------------------------------------------------------

  predicate Rotation(algorithm: int)
  {
    algorithm == 0 || algorithm == 2 || algorithm == 3
  }

  /** The turns in a row each slot is due. */
  ghost function Lap(algorithm: int, w: Whole): (weights: seq<nat>)
    ensures |weights| == |w.kernel.procs|
  {
    Weights(algorithm, w.kernel.procs)
  }

  ghost predicate Rotates(algorithm: int, w: Whole)
  {
    WellFormed(w.kernel) && (algorithm == 3 ==> TurnsNotStarted(w.kernel))
  }

  /** At the beginning of a quantum: the rotation goes on, and its current slot is in its turn. */
  ghost predicate TurnAt(algorithm: int, w: Whole)
  {
    Rotates(algorithm, w) && InTurn(Lap(algorithm, w), TurnOf(algorithm, w.kernel))
  }

  /** The processes a policy picks sooner or later. */
  ghost predicate Served(algorithm: int, s: System, i: nat)
    requires i < |s.procs|
  {
    if algorithm == 2 then MostUrgent(s.procs, i)
    else if algorithm == 3 then Entitled(s.procs[i])
    else s.procs[i].state.Runnable?
  }

  lemma ServedHasWeight(algorithm: int, w: Whole, i: nat)
    requires Rotation(algorithm) && i < |w.kernel.procs|
    ensures Served(algorithm, w.kernel, i) <==> Lap(algorithm, w)[i] > 0
  {}

  lemma QuietEventKeepsTurn(algorithm: int, c: Config, w: Whole, e: Event, w': Whole)
    requires Rotation(algorithm) && Agrees(c, w) && WholeStep(algorithm, c, w, e, w') && Mild(algorithm, e)
    requires Rotates(algorithm, w) && WellFormed(w'.kernel) && !IsSchedule(e)
    ensures Rotates(algorithm, w') && Lap(algorithm, w') == Lap(algorithm, w)
    ensures TurnOf(algorithm, w'.kernel) == TurnOf(algorithm, w.kernel)
  {
    hide KernelStep, Weights, WellFormed;
    if e.Trap? {
      assert Steady(algorithm, [e.reg]);
      SteadyStep(algorithm, w.kernel, e.reg, w'.kernel);
    } else {
      assert w'.kernel.procs == w.kernel.procs && w'.kernel.current == w.kernel.current;
    }
  }

  lemma {:induction false} TurnLastsForQuantum(algorithm: int, c: Config, run: seq<Whole>, events: seq<Event>,
                                               from: nat, to: nat, k: nat)
    requires Rotation(algorithm) && Stretch(algorithm, c, run, events, from) && QuantumAt(events, from, to)
    requires MildIn(algorithm, events, from, to) && Rotates(algorithm, run[from]) && from <= k < to
    ensures Rotates(algorithm, run[k]) && Lap(algorithm, run[k]) == Lap(algorithm, run[from])
    ensures TurnOf(algorithm, run[k].kernel) == TurnOf(algorithm, run[from].kernel)
  {
    hide Rotates, WholeStep, Invariant, WellFormed, InOrder, TurnOf, Lap, Mild;
    if k > from {
      TurnLastsForQuantum(algorithm, c, run, events, from, to, k - 1);
      assert WholeStep(algorithm, c, run[k - 1], events[k - 1], run[k - 1 + 1]);
      QuietEventKeepsTurn(algorithm, c, run[k - 1], events[k - 1], run[k]);
    }
  }

  /** An exit takes the current slot out of the rotation and advances it. */
  lemma ExitDropsOut(algorithm: int, s: System, reg: Registers, s': System, i: nat)
    requires Rotation(algorithm) && WellFormed(s) && KernelStep(algorithm, s, reg, s') && reg.intno == INT_SYS_EXIT
    requires (algorithm == 3 ==> TurnsNotStarted(s)) && i < |s.procs| && i != s.current
    requires Weights(algorithm, s.procs)[i] > 0
    ensures |s'.procs| == |s.procs| && s'.current < |s.procs| && (algorithm == 3 ==> TurnsNotStarted(s'))
    ensures Weights(algorithm, s'.procs) == Weights(algorithm, s.procs)[s.current := 0]
    ensures Advance(Weights(algorithm, s'.procs), TurnOf(algorithm, s), TurnOf(algorithm, s'))
  {
    var before := BeforeSchedule(s, reg);
    forall j | 0 <= j < |s.procs|
      ensures Weights(algorithm, before.procs)[j] == Weights(algorithm, s.procs)[s.current := 0][j]
    {
      WeightAfterExit(algorithm, s.procs, before.procs, s.current, i, j);
    }
    assert Weights(algorithm, before.procs) == Weights(algorithm, s.procs)[s.current := 0];
    hide Weights, Advance;
    if algorithm == 3 {
      ShareDecisionAdvances(before, s');
    } else {
      RoundRobinDecisionAdvances(algorithm, before, s');
    }
  }

  lemma WeightAfterExit(algorithm: int, procs: seq<Process>, left: seq<Process>, c: nat, i: nat, j: nat)
    requires Rotation(algorithm) && |left| == |procs| && c < |procs| && i < |procs| && j < |procs| && i != c
    requires !left[c].state.Runnable? && forall q :: 0 <= q < |procs| && q != c ==> left[q] == procs[q]
    requires Weight(algorithm, procs, i) > 0
    ensures Weight(algorithm, left, j) == if j == c then 0 else Weight(algorithm, procs, j)
  {
    if algorithm == 2 && j != c && MostUrgent(left, j) {
      assert left[i] == procs[i];
    }
  }

  /** A decision keeps the rotation, and from another slot it brings the turn of slot i nearer, also when the
      process that ran has exited. */
  lemma DecisionShrinksDelay(algorithm: int, c: Config, w: Whole, e: Event, w': Whole, i: nat)
    requires Rotation(algorithm) && Agrees(c, w) && WholeStep(algorithm, c, w, e, w') && Mild(algorithm, e)
    requires IsSchedule(e)
    requires TurnAt(algorithm, w) && WellFormed(w'.kernel) && i < |w.kernel.procs| && Lap(algorithm, w)[i] > 0
    requires e.reg.intno == INT_SYS_EXIT ==> w.kernel.current != i
    ensures TurnAt(algorithm, w') && |w'.kernel.procs| == |w.kernel.procs|
    ensures Lap(algorithm, w')[i] > 0 && Total(Lap(algorithm, w')) <= Total(Lap(algorithm, w))
    ensures w.kernel.current != i ==>
              TurnDelay(Lap(algorithm, w'), TurnOf(algorithm, w'.kernel), i)
              < TurnDelay(Lap(algorithm, w), TurnOf(algorithm, w.kernel), i)
  {
    hide KernelStep, Weights, WellFormed, TurnDelay, Advance, Total, TurnsNotStarted;
    var weights, t := Lap(algorithm, w), TurnOf(algorithm, w.kernel);
    if e.reg.intno == INT_SYS_EXIT {
      ExitDropsOut(algorithm, w.kernel, e.reg, w'.kernel, i);
      DropOutHelps(weights, t, i);
      TurnDelayShrinks(weights[w.kernel.current := 0], t, TurnOf(algorithm, w'.kernel), i);
    } else {
      assert Steady(algorithm, [e.reg]);
      SteadyStep(algorithm, w.kernel, e.reg, w'.kernel);
      PositionMoves(weights, t, TurnOf(algorithm, w'.kernel));
      if w.kernel.current != i {
        TurnDelayShrinks(weights, t, TurnOf(algorithm, w'.kernel), i);
      }
    }
  }

  /** Quanta before application h has its turn. */
  ghost function DelayAt(algorithm: int, w: Whole, h: nat): (d: nat)
    requires TurnAt(algorithm, w) && h + 1 < |w.kernel.procs| && Lap(algorithm, w)[h + 1] > 0
    ensures d < Total(Lap(algorithm, w))
  {
    TurnDelayIsBounded(Lap(algorithm, w), TurnOf(algorithm, w.kernel), h + 1);
    TurnDelay(Lap(algorithm, w), TurnOf(algorithm, w.kernel), h + 1)
  }

  /** Application h is served, and its delay is below the bound. */
  ghost predicate Due(algorithm: int, c: Config, w: Whole, h: nat, bound: nat)
  {
    && TurnAt(algorithm, w) && h < |c.chars| && |w.kernel.procs| == |c.chars| + 1
    && Lap(algorithm, w)[h + 1] > 0 && Total(Lap(algorithm, w)) <= bound
  }

  /** While h holds the lock, its delay shrinks with each quantum of another application. */
  lemma QuantumDelays(algorithm: int, c: Config, run: seq<Whole>, events: seq<Event>, from: nat, to: nat, h: nat,
                      bound: nat)
    requires Rotation(algorithm) && Stretch(algorithm, c, run, events, from) && QuantumAt(events, from, to)
    requires MildIn(algorithm, events, from, to) && Due(algorithm, c, run[from], h, bound)
    requires h < |run[to].apps| && Critical(run[to].apps[h])
    ensures Due(algorithm, c, run[to], h, bound)
    ensures DelayedQuantum(c, View(run[from]), run[from].kernel.current, DelayAt(algorithm, run[from], h),
                           View(run[to]), DelayAt(algorithm, run[to], h), h)
  {
    hide Invariant, WholeStep, InOrder, WellFormed, TurnOf, ExecutesTo, Rotates, InTurn, TurnDelay, Mild, Lap;
    QuantumExecutes(algorithm, c, run, events, from, to);
    QuantumKeepsCurrent(algorithm, c, run, events, from, to, to - 1);
    TurnLastsForQuantum(algorithm, c, run, events, from, to, to - 1);
    assert WholeStep(algorithm, c, run[to - 1], events[to - 1], run[to - 1 + 1]);
    if events[to - 1].reg.intno == INT_SYS_EXIT {
      ExitedIsNotCritical(algorithm, c, run[to - 1], events[to - 1], run[to], h);
    }
    DecisionShrinksDelay(algorithm, c, run[to - 1], events[to - 1], run[to], h + 1);
  }

  lemma ExitedIsNotCritical(algorithm: int, c: Config, w: Whole, e: Event, w': Whole, h: nat)
    requires Sized(c, w) && WholeStep(algorithm, c, w, e, w') && e.Trap? && e.reg.intno == INT_SYS_EXIT
    requires h < |w'.apps| && Critical(w'.apps[h])
    ensures w.kernel.current != h + 1
  {
    hide KernelStep;
  }

  // --- Served holders release the lock ---------------------------------------------------------------

  ghost predicate ReleasedWithin(run: seq<Whole>, cuts: seq<nat>, h: nat, bound: nat)
    requires bound < |cuts| && forall k :: 0 <= k < |cuts| ==> cuts[k] < |run|
  {
    exists k :: 0 < k <= bound && h < |run[cuts[k]].apps| && !Critical(run[cuts[k]].apps[h])
  }

  lemma StretchShortens(algorithm: int, c: Config, run: seq<Whole>, events: seq<Event>, from: nat, later: nat)
    requires Stretch(algorithm, c, run, events, from) && from <= later <= |events|
    ensures Stretch(algorithm, c, run, events, later)
  {
    hide Safe, WholeStep;
  }

  lemma SafeHasInvariant(algorithm: int, c: Config, w: Whole)
    requires Safe(algorithm, c, w)
    ensures Invariant(c, View(w)) && |w.apps| == |c.chars|
  {}

  /** In the first last + 1 quanta h keeps holding the lock. */
  ghost predicate HoldsUntil(run: seq<Whole>, cuts: seq<nat>, h: nat, last: nat)
  {
    && last < |cuts| && (forall k :: 0 <= k < |cuts| ==> cuts[k] < |run|)
    && forall k :: 0 <= k <= last ==> h < |run[cuts[k]].apps| && Critical(run[cuts[k]].apps[h])
  }

  lemma {:induction false} StaysDue(algorithm: int, c: Config, run: seq<Whole>, events: seq<Event>, cuts: seq<nat>,
                                    h: nat, bound: nat, last: nat, k: nat)
    requires Rotation(algorithm) && CutIntoQuanta(events, cuts) && MildFrom(algorithm, events, cuts[0])
    requires Stretch(algorithm, c, run, events, cuts[0]) && Due(algorithm, c, run[cuts[0]], h, bound)
    requires HoldsUntil(run, cuts, h, last) && k <= last
    ensures cuts[0] <= cuts[k] <= |events| && Due(algorithm, c, run[cuts[k]], h, bound)
  {
    hide Safe, WholeStep, Due, QuantumAt, Critical, Mild;
    CutsIncrease(events, cuts, k);
    if k > 0 {
      StaysDue(algorithm, c, run, events, cuts, h, bound, last, k - 1);
      assert QuantumAt(events, cuts[k - 1], cuts[k - 1 + 1]);
      StretchShortens(algorithm, c, run, events, cuts[0], cuts[k - 1]);
      QuantumDelays(algorithm, c, run, events, cuts[k - 1], cuts[k], h, bound);
    }
  }

  /** Where the rotation serves it, the holder releases the lock within five laps, also when others exit. */
  lemma ServedIsReleased(algorithm: int, c: Config, run: seq<Whole>, events: seq<Event>, cuts: seq<nat>, h: nat,
                         bound: nat)
    requires Rotation(algorithm) && CutIntoQuanta(events, cuts) && MildFrom(algorithm, events, cuts[0])
    requires Stretch(algorithm, c, run, events, cuts[0]) && Due(algorithm, c, run[cuts[0]], h, bound)
    requires h < |run[cuts[0]].apps| && Critical(run[cuts[0]].apps[h]) && |cuts| > CRITICAL_STEPS * bound
    ensures ReleasedWithin(run, cuts, h, CRITICAL_STEPS * bound)
  {
    hide Safe, WholeStep, QuantumAt, Critical, DelayAt, Due, DelayedQuantum, Mild;
    var last := CRITICAL_STEPS * bound;
    SafeHasInvariant(algorithm, c, run[cuts[0]]);
    AppsStaySized(algorithm, c, run, events, cuts);
    if !ReleasedWithin(run, cuts, h, last) {
      assert HoldsUntil(run, cuts, h, last);
      forall k | 0 <= k <= last ensures cuts[0] <= cuts[k] <= |events| && Due(algorithm, c, run[cuts[k]], h, bound) {
        StaysDue(algorithm, c, run, events, cuts, h, bound, last, k);
      }
      HoldingIsShort(algorithm, c, run, events, cuts, h, bound, last);
    }
  }

  lemma AppsStaySized(algorithm: int, c: Config, run: seq<Whole>, events: seq<Event>, cuts: seq<nat>)
    requires CutIntoQuanta(events, cuts) && Stretch(algorithm, c, run, events, cuts[0])
    ensures forall k :: 0 <= k < |cuts| ==> |run[cuts[k]].apps| == |c.chars|
  {
    hide WholeStep, Sound, Invariant, WellFormed;
    forall k | 0 <= k < |cuts| ensures |run[cuts[k]].apps| == |c.chars| {
      CutsIncrease(events, cuts, k);
      assert Safe(algorithm, c, run[cuts[k]]);
    }
  }

  lemma HoldingIsShort(algorithm: int, c: Config, run: seq<Whole>, events: seq<Event>, cuts: seq<nat>, h: nat, bound: nat,
                       last: nat)
    requires Rotation(algorithm) && CutIntoQuanta(events, cuts) && MildFrom(algorithm, events, cuts[0])
    requires Stretch(algorithm, c, run, events, cuts[0]) && HoldsUntil(run, cuts, h, last)
    requires forall k :: 0 <= k <= last ==> cuts[0] <= cuts[k] <= |events| && Due(algorithm, c, run[cuts[k]], h, bound)
    ensures last < CRITICAL_STEPS * bound
  {
    hide Safe, WholeStep, QuantumAt, Critical, DelayedQuantum, Mild, TurnAt;
    var n := last + 1;
    var states := seq(n, k requires 0 <= k < n => View(run[cuts[k]]));
    var current := seq(n, k requires 0 <= k < n => run[cuts[k]].kernel.current);
    var delay := seq(n, k requires 0 <= k < n => DelayAt(algorithm, run[cuts[k]], h));
    forall k | 0 <= k < n - 1 ensures DelayedQuantum(c, states[k], current[k], delay[k], states[k + 1], delay[k + 1], h) {
      assert QuantumAt(events, cuts[k], cuts[k + 1]);
      StretchShortens(algorithm, c, run, events, cuts[0], cuts[k]);
      QuantumDelays(algorithm, c, run, events, cuts[k], cuts[k + 1], h, bound);
    }
    SafeHasInvariant(algorithm, c, run[cuts[0]]);
    if last >= CRITICAL_STEPS * bound {
      LockIsReleased(c, states, current, delay, bound, h);
    }
  }

  /** After a decision the picked slot is in its turn. */
  lemma DecisionBeginsTurn(algorithm: int, c: Config, w: Whole, e: Event, w': Whole)
    requires Rotation(algorithm) && Safe(algorithm, c, w) && WholeStep(algorithm, c, w, e, w') && IsSchedule(e)
    requires algorithm == 3 ==> TurnsNotStarted(w.kernel)
    ensures Safe(algorithm, c, w') && TurnAt(algorithm, w')
  {
    hide Invariant;
    WholeStepIsSafe(algorithm, c, w, e, w');
    if algorithm == 2 {
      PriorityPickIsMinimal(w.kernel, e.reg, w'.kernel);
    } else if algorithm == 3 {
      TurnsStayNotStarted(w.kernel, e.reg, w'.kernel);
    }
  }

  lemma {:induction false} WholeRunsKeepTurnsNotStarted(c: Config, run: seq<Whole>, events: seq<Event>, k: nat)
    requires ValidConfig(c) && WholeRun(3, c, run, events) && k < |run|
    ensures TurnsNotStarted(run[k].kernel)
  {
    hide Invariant, KernelStep, InOrder;
    if k == 0 {
      var entries :| |entries| == |c.chars| > 0 && run[0].kernel == Initial(entries);
      InitialTurnsNotStarted(entries);
    } else {
      WholeRunsKeepTurnsNotStarted(c, run, events, k - 1);
      WholeRunsAreSafe(3, c, run, events, k - 1);
      assert WholeStep(3, c, run[k - 1], events[k - 1], run[k - 1 + 1]);
      if events[k - 1].Trap? {
        TurnsStayNotStarted(run[k - 1].kernel, events[k - 1].reg, run[k].kernel);
      }
    }
  }

  /** Quantum cuts[0] of the run begins with a decision, at which application h is inside its critical section. */
  ghost predicate HeldAtDecision(algorithm: int, c: Config, run: seq<Whole>, events: seq<Event>, cuts: seq<nat>, h: nat)
  {
    && ValidConfig(c) && WholeRun(algorithm, c, run, events) && CutIntoQuanta(events, cuts)
    && 0 < cuts[0] && IsSchedule(events[cuts[0] - 1])
    && h < |c.chars| && h < |run[cuts[0]].apps| && Critical(run[cuts[0]].apps[h])
  }

  lemma TurnBeginsAtCut(algorithm: int, c: Config, run: seq<Whole>, events: seq<Event>, cuts: seq<nat>, h: nat)
    requires Rotation(algorithm) && HeldAtDecision(algorithm, c, run, events, cuts, h)
    ensures Stretch(algorithm, c, run, events, cuts[0]) && TurnAt(algorithm, run[cuts[0]])
    ensures |run[cuts[0]].kernel.procs| == |c.chars| + 1 && run[cuts[0]].kernel.procs[h + 1].state.Runnable?
  {
    hide WholeStep, KernelStep, InOrder, Invariant, Boots, Critical, TurnsNotStarted, QuantumAt, TurnAt;
    var from := cuts[0];
    RunIsStretch(algorithm, c, run, events, from - 1);
    assert WholeStep(algorithm, c, run[from - 1], events[from - 1], run[from - 1 + 1]);
    if algorithm == 3 {
      WholeRunsKeepTurnsNotStarted(c, run, events, from - 1);
    }
    DecisionBeginsTurn(algorithm, c, run[from - 1], events[from - 1], run[from]);
    StretchShortens(algorithm, c, run, events, from - 1, from);
    CriticalIsRunnable(c, run[from], h);
  }

  lemma CriticalIsRunnable(c: Config, w: Whole, h: nat)
    requires Agrees(c, w) && h < |w.apps| && Critical(w.apps[h])
    ensures w.kernel.procs[h + 1].state.Runnable?
  {}

  /** Under policies 0, 2 and 3, in every run from boot, a holder that the policy serves releases the lock within
      five laps, whoever exits meanwhile, while no priority changes under policy 2 and no share under policy 3. */
  lemma ServedHolderReleases(algorithm: int, c: Config, run: seq<Whole>, events: seq<Event>, cuts: seq<nat>, h: nat)
    requires Rotation(algorithm) && HeldAtDecision(algorithm, c, run, events, cuts, h)
    requires MildFrom(algorithm, events, cuts[0])
    requires h + 1 < |run[cuts[0]].kernel.procs| && Served(algorithm, run[cuts[0]].kernel, h + 1)
    requires |cuts| > CRITICAL_STEPS * Total(Lap(algorithm, run[cuts[0]]))
    ensures ReleasedWithin(run, cuts, h, CRITICAL_STEPS * Total(Lap(algorithm, run[cuts[0]])))
  {
    hide Safe, WholeStep, WholeRun, TurnAt, Mild, Served, Critical, Lap, Total;
    TurnBeginsAtCut(algorithm, c, run, events, cuts, h);
    ServedHasWeight(algorithm, run[cuts[0]], h + 1);
    ServedIsReleased(algorithm, c, run, events, cuts, h, Total(Lap(algorithm, run[cuts[0]])));
  }

  // --- Holders that are not served ----------------------------------------------------------------

  /** Application h is runnable, not running, and policy 2 or 3 does not serve it. */
  ghost predicate Unserved(algorithm: int, c: Config, w: Whole, h: nat)
  {
    && Agrees(c, w) && h < |c.chars| && w.kernel.current != h + 1
    && w.kernel.procs[h + 1].state.Runnable? && !Served(algorithm, w.kernel, h + 1)
  }

  /** Under policy 2 it stays so while no process exits and no priority changes, and under policy 3 whatever the
      others do. */
  lemma UnservedLasts(algorithm: int, c: Config, w: Whole, e: Event, w': Whole, h: nat)
    requires (algorithm == 2 || algorithm == 3) && Unserved(algorithm, c, w, h) && Sound(algorithm, w.kernel)
    requires WholeStep(algorithm, c, w, e, w')
    requires algorithm == 2 ==> Mild(2, e) && !(e.Trap? && e.reg.intno == INT_SYS_EXIT)
    ensures Unserved(algorithm, c, w', h) && w'.apps[h] == w.apps[h]
  {
    StepKeepsAgreement(algorithm, c, w, e, w');
    StepSeenByApplications(algorithm, c, w, e, w');
    if e.Trap? {
      StepEffect(algorithm, w.kernel, e.reg, w'.kernel);
      TrapKeepsNumbers(algorithm, w.kernel, e.reg, w'.kernel, h + 1);
      hide KernelStep;
      if algorithm == 2 {
        var q: nat :| q < |w.kernel.procs| && w.kernel.procs[q].state.Runnable?
                      && w.kernel.procs[q].priority < w.kernel.procs[h + 1].priority;
        TrapKeepsNumbers(algorithm, w.kernel, e.reg, w'.kernel, q);
      }
    }
  }

  /** What a trap under policies 2 and 3 leaves of slot i, and who is resumed. */
  lemma TrapKeepsNumbers(algorithm: int, s: System, reg: Registers, s': System, i: nat)
    requires (algorithm == 2 || algorithm == 3) && WellFormed(s) && KernelStep(algorithm, s, reg, s') && i < |s.procs|
    ensures |s'.procs| == |s.procs| && s'.current < |s.procs|
    ensures i != s.current ==> s'.procs[i].share == s.procs[i].share && s'.procs[i].state == s.procs[i].state
    ensures algorithm == 2 && reg.intno != INT_SYS_USER1 && reg.intno != INT_SYS_EXIT ==>
              s'.procs[i].priority == s.procs[i].priority && s'.procs[i].state == s.procs[i].state
    ensures IsDecision(reg) ==> Served(algorithm, s', s'.current)
  {
    if IsDecision(reg) {
      ScheduledEffect(algorithm, BeforeSchedule(s, reg), s');
      if algorithm == 2 {
        PriorityPickIsMinimal(s, reg, s');
      } else {
        PickedTurnsAreBounded(BeforeSchedule(s, reg), s');
      }
    }
  }

  lemma {:induction false} UnservedWaits(algorithm: int, c: Config, run: seq<Whole>, events: seq<Event>, from: nat, h: nat,
                                         k: nat)
    requires (algorithm == 2 || algorithm == 3) && Stretch(algorithm, c, run, events, from)
    requires algorithm == 2 ==> MildFrom(2, events, from) && NoExitFrom(events, from)
    requires Unserved(algorithm, c, run[from], h) && from <= k <= |events|
    ensures Unserved(algorithm, c, run[k], h) && run[k].apps[h] == run[from].apps[h]
  {
    hide WholeStep, Invariant, Unserved, WellFormed, InOrder, Mild;
    if k > from {
      UnservedWaits(algorithm, c, run, events, from, h, k - 1);
      assert WholeStep(algorithm, c, run[k - 1], events[k - 1], run[k - 1 + 1]);
      UnservedLasts(algorithm, c, run[k - 1], events[k - 1], run[k], h);
      UnservedIsSized(algorithm, c, run[k - 1], h);
      UnservedIsSized(algorithm, c, run[k], h);
    }
  }

  lemma UnservedIsSized(algorithm: int, c: Config, w: Whole, h: nat)
    requires Unserved(algorithm, c, w, h)
    ensures h < |w.apps|
  {}

  /** While no priority changes and, under policy 2, no process exits, a lock held at a decision is released within
      five laps of the rotation exactly when the policy serves its holder: always under policy 0, under policy 2
      when no process is more urgent, and under policy 3 when its share is at least 1. */
  lemma RotationReleasesExactlyWhen(algorithm: int, c: Config, run: seq<Whole>, events: seq<Event>, cuts: seq<nat>, h: nat)
    requires Rotation(algorithm) && HeldAtDecision(algorithm, c, run, events, cuts, h)
    requires MildFrom(algorithm, events, cuts[0]) && (algorithm == 2 ==> NoExitFrom(events, cuts[0]))
    requires |cuts| > CRITICAL_STEPS * Total(Lap(algorithm, run[cuts[0]]))
    ensures h + 1 < |run[cuts[0]].kernel.procs|
    ensures Served(algorithm, run[cuts[0]].kernel, h + 1)
       <==> ReleasedWithin(run, cuts, h, CRITICAL_STEPS * Total(Lap(algorithm, run[cuts[0]])))
  {
    hide WholeStep, WholeRun, Invariant, Mild, Served, Critical, Total, QuantumAt, TurnsNotStarted;
    TurnBeginsAtCut(algorithm, c, run, events, cuts, h);
    var w := run[cuts[0]];
    if Served(algorithm, w.kernel, h + 1) {
      ServedHolderReleases(algorithm, c, run, events, cuts, h);
    } else {
      ServedHasWeight(algorithm, w, w.kernel.current);
      AlwaysServedByRoundRobin(algorithm, w, h + 1);
      forall k | 0 < k <= CRITICAL_STEPS * Total(Lap(algorithm, w))
        ensures h < |run[cuts[k]].apps| && Critical(run[cuts[k]].apps[h])
      {
        CutsIncrease(events, cuts, k);
        UnservedIsSized(algorithm, c, run[cuts[0]], h);
        UnservedWaits(algorithm, c, run, events, cuts[0], h, cuts[k]);
        UnservedIsSized(algorithm, c, run[cuts[k]], h);
      }
    }
  }

  lemma AlwaysServedByRoundRobin(algorithm: int, w: Whole, i: nat)
    requires i < |w.kernel.procs| && w.kernel.procs[i].state.Runnable?
    ensures algorithm == 0 ==> Served(algorithm, w.kernel, i)
  {}

  /** Under policy 3 a holder without a share never releases the lock, whatever the others do. */
  lemma ShareOfNoneIsForever(c: Config, run: seq<Whole>, events: seq<Event>, cuts: seq<nat>, h: nat, k: nat)
    requires HeldAtDecision(3, c, run, events, cuts, h) && cuts[0] <= k <= |events|
    requires h + 1 < |run[cuts[0]].kernel.procs| && run[cuts[0]].kernel.procs[h + 1].share < 1
    ensures h < |run[k].apps| && Critical(run[k].apps[h]) && run[k].apps[h] == run[cuts[0]].apps[h]
  {
    hide WholeStep, WholeRun, Invariant, Critical, QuantumAt, TurnsNotStarted;
    TurnBeginsAtCut(3, c, run, events, cuts, h);
    UnservedWaits(3, c, run, events, cuts[0], h, k);
  }

  // --- Policy 1: the holder is never suspended -------------------------------------------------------

  /** No application after the running one has begun. */
  predicate LaterNotBegun(w: Whole)
  {
    forall q :: w.kernel.current <= q < |w.apps| ==> w.apps[q].pc.SetPriority?
  }

  lemma {:induction false} FirstComeRunsInOrder(c: Config, run: seq<Whole>, events: seq<Event>, k: nat)
    requires ValidConfig(c) && WholeRun(1, c, run, events) && k < |run|
    ensures LaterNotBegun(run[k])
  {
    hide Invariant, KernelStep, InOrder;
    if k > 0 {
      FirstComeRunsInOrder(c, run, events, k - 1);
      WholeRunsAreSafe(1, c, run, events, k - 1);
      assert WholeStep(1, c, run[k - 1], events[k - 1], run[k - 1 + 1]);
      if events[k - 1].Trap? {
        FirstComeStep(run[k - 1].kernel, events[k - 1].reg, run[k].kernel);
      }
    }
  }

  lemma HolderIsRunning(c: Config, w: Whole, h: nat)
    requires Agrees(c, w) && InOrder(w.kernel) && LaterNotBegun(w) && h < |w.apps| && Critical(w.apps[h])
    ensures w.kernel.current == h + 1
  {
    assert w.kernel.procs[h + 1].state.Runnable?;
  }

  /** Under policy 1, even with clock interrupts, only the running application can hold the lock. */
  lemma FirstComeHolderRuns(c: Config, run: seq<Whole>, events: seq<Event>, k: nat, h: nat)
    requires ValidConfig(c) && WholeRun(1, c, run, events) && k < |run|
    requires h < |run[k].apps| && Critical(run[k].apps[h])
    ensures run[k].kernel.current == h + 1
  {
    hide Invariant, WholeStep, Critical, LaterNotBegun, InOrder, WellFormed;
    FirstComeRunsInOrder(c, run, events, k);
    WholeRunsAreSafe(1, c, run, events, k);
    HolderIsRunning(c, run[k], h);
  }

  /** Under policy 1 a held lock is released within five quanta. */
  lemma FirstComeReleases(c: Config, run: seq<Whole>, events: seq<Event>, cuts: seq<nat>, h: nat)
    requires ValidConfig(c) && WholeRun(1, c, run, events) && CutIntoQuanta(events, cuts) && |cuts| > CRITICAL_STEPS
    requires h < |c.chars| && h < |run[cuts[0]].apps| && Critical(run[cuts[0]].apps[h])
    ensures ReleasedWithin(run, cuts, h, CRITICAL_STEPS)
  {
    hide Safe, WholeStep, Boots, QuantumAt, Critical, ExecutesTo;
    var n := |cuts|;
    var states := seq(n, k requires 0 <= k < n => View(run[cuts[k]]));
    var current := seq(n, k requires 0 <= k < n => run[cuts[k]].kernel.current);
    var delay := seq(n, k => 0);
    forall k | 0 <= k < n - 1 ensures DelayedQuantum(c, states[k], current[k], delay[k], states[k + 1], delay[k + 1], h) {
      assert QuantumAt(events, cuts[k], cuts[k + 1]);
      FirstComeQuantum(c, run, events, cuts[k], cuts[k + 1], h);
    }
    WholeRunsAreSafe(1, c, run, events, cuts[0]);
    SafeHasInvariant(1, c, run[cuts[0]]);
    LockIsReleased(c, states, current, delay, 1, h);
    var k :| 0 < k <= CRITICAL_STEPS && h < |states[k].apps| && !Critical(states[k].apps[h]);
    assert states[k].apps == run[cuts[k]].apps;
  }

  /** A quantum that ends with h in its critical section was its own. */
  lemma FirstComeQuantum(c: Config, run: seq<Whole>, events: seq<Event>, from: nat, to: nat, h: nat)
    requires ValidConfig(c) && WholeRun(1, c, run, events) && QuantumAt(events, from, to) && h < |c.chars|
    ensures DelayedQuantum(c, View(run[from]), run[from].kernel.current, 0, View(run[to]), 0, h)
  {
    hide WholeStep, Safe, WholeRun, Critical, ExecutesTo, QuantumAt;
    QuantumIsWithin(events, from, to);
    RunIsStretch(1, c, run, events, from);
    QuantumExecutes(1, c, run, events, from, to);
    SafeHasInvariant(1, c, run[from]);
    SafeHasInvariant(1, c, run[to]);
    if Critical(run[to].apps[h]) && run[from].kernel.current != h + 1 {
      OthersKeep(c, View(run[from]), run[from].kernel.current, View(run[to]), h);
      FirstComeHolderRuns(c, run, events, from, h);
    }
  }

  lemma QuantumIsWithin(events: seq<Event>, from: nat, to: nat)
    requires QuantumAt(events, from, to)
    ensures from < to <= |events|
  {}

  lemma OthersKeep(c: Config, s: Shared, current: nat, s': Shared, h: nat)
    requires Invariant(c, s) && 1 <= current && ExecutesTo(c, current - 1, s, s') && h < |c.chars| && current != h + 1
    ensures s'.apps[h] == s.apps[h]
  {
    hide Invariant, AppStep, GivesUp;
    var path :| Executes(c, current - 1, path) && path[0] == s && path[|path| - 1] == s';
    ExecutionKeepsInvariant(c, current - 1, path, |path| - 1);
  }
}

/** The kernel and the applications together: one memory, and every instruction and interrupt a step. */
module WholeSystem {
  import opened Machine
  import opened Turns
  import opened KernelSpec
  import opened KernelProperties
  import opened KernelRuns
  import opened Applications
  import opened LockRelease

  /** The kernel's state, which holds the shared memory, and how far each application has got. */
  datatype Whole = Whole(kernel: System, apps: seq<App>)

  /** Either the running application's next instruction or an interrupt, with the registers it saves. */
  datatype Event = Instruction(cellFirst: bool) | Trap(reg: Registers)

  /** The applications' part of the state: lock, cursor and cells are the kernel's. */
  function View(w: Whole): Shared
  {
    Shared(w.kernel.lock, w.kernel.cursor, w.kernel.memory, w.apps)
  }

  predicate IsCall(pc: Pc)
  {
    pc.SetPriority? || pc.SetShare? || pc.GetTicket? || pc.Print? || pc.Yield? || pc.Exit?
  }

  /** The interrupt an application raises at its system calls, and for sys_print the character it passes. */
  predicate Raises(c: Config, p: nat, pc: Pc, reg: Registers)
    requires p < |c.chars|
  {
    match pc
    case SetPriority => reg.intno == INT_SYS_USER1
    case SetShare => reg.intno == INT_SYS_USER2
    case GetTicket => reg.intno == INT_SYS_USER4
    case Print => reg.intno == INT_SYS_USER3 && Unsigned(reg.eax) % 0x1_0000 == c.chars[p]
    case Yield => reg.intno == INT_SYS_YIELD
    case Exit => reg.intno == INT_SYS_EXIT
    case _ => false
  }

  /** One process descriptor for each application, and process current running. */
  predicate Sized(c: Config, w: Whole)
  {
    |w.kernel.procs| - 1 == |w.apps| == |c.chars| && 1 <= w.kernel.current <= |w.apps|
  }

  ghost predicate WholeStep(algorithm: int, c: Config, w: Whole, e: Event, w': Whole)
    requires Sized(c, w)
  {
    var p := w.kernel.current - 1;
    match e
    case Instruction(cellFirst) =>
      var s' := Next(c, View(w), p, cellFirst);
      && !IsCall(w.apps[p].pc) && !w.apps[p].pc.Exited?
      && w' == Whole(w.kernel.(lock := s'.lock, cursor := s'.cursor, memory := s'.cells), s'.apps)
    case Trap(reg) =>
      && KernelStep(algorithm, w.kernel, reg, w'.kernel)
      && if reg.intno == INT_CLOCK then w'.apps == w.apps
         else Raises(c, p, w.apps[p].pc, reg) && w'.apps == w.apps[p := NextApp(c, View(w), w.apps[p], true)]
  }

  predicate IsSchedule(e: Event)
  {
    e.Trap? && IsDecision(e.reg)
  }

  // --- The two models agree --------------------------------------------------------------------------

  /** The kernel takes an application for runnable exactly while it has not exited. */
  ghost predicate Agrees(c: Config, w: Whole)
  {
    && Sized(c, w) && WellFormed(w.kernel)
    && forall p :: 0 <= p < |w.apps| ==> (w.kernel.procs[p + 1].state.Runnable? <==> !w.apps[p].pc.Exited?)
  }

  lemma AgreeingSlots(c: Config, procs: seq<Process>, s: Shared)
    requires |procs| == |s.apps| + 1 && !procs[0].state.Runnable?
    requires forall p :: 0 <= p < |s.apps| ==> (procs[p + 1].state.Runnable? <==> !s.apps[p].pc.Exited?)
    ensures RunnableSlots(procs) == ReadySlots(s)
  {
    forall i | 0 <= i < |procs| ensures RunnableSlots(procs)[i] == ReadySlots(s)[i] {
      if i > 0 {
        assert procs[i - 1 + 1].state.Runnable? <==> !s.apps[i - 1].pc.Exited?;
      }
    }
  }

  /** What an application sees of any step: its own next step, or, at a clock interrupt, nothing. */
  lemma StepSeenByApplications(algorithm: int, c: Config, w: Whole, e: Event, w': Whole)
    requires Agrees(c, w) && WholeStep(algorithm, c, w, e, w')
    ensures if e.Trap? && e.reg.intno == INT_CLOCK then View(w') == View(w)
            else AppStep(c, View(w), w.kernel.current - 1, View(w'))
  {
    if e.Trap? && IsDecision(e.reg) {
      ScheduledEffect(algorithm, BeforeSchedule(w.kernel, e.reg), w'.kernel);
    }
  }

  lemma TrapKeepsRunnable(algorithm: int, c: Config, w: Whole, e: Event, w': Whole)
    requires Agrees(c, w) && e.Trap? && WholeStep(algorithm, c, w, e, w')
    ensures |w'.kernel.procs| - 1 == |w'.apps| == |c.chars|
    ensures forall p :: 0 <= p < |w'.apps| ==> (w'.kernel.procs[p + 1].state.Runnable? <==> !w'.apps[p].pc.Exited?)
  {
    StepEffect(algorithm, w.kernel, e.reg, w'.kernel);
    forall p | 0 <= p < |w.apps| ensures w'.kernel.procs[p + 1].state.Runnable? <==> !w'.apps[p].pc.Exited? {
      if p + 1 != w.kernel.current {
        assert SameButCounter(w.kernel.procs[p + 1], w'.kernel.procs[p + 1]);
      }
    }
  }

  /** Which process each step leaves runnable, and which it resumes. */
  lemma StepKeepsAgreement(algorithm: int, c: Config, w: Whole, e: Event, w': Whole)
    requires Agrees(c, w) && Sound(algorithm, w.kernel) && WholeStep(algorithm, c, w, e, w')
    ensures Agrees(c, w') && Sound(algorithm, w'.kernel)
    ensures !IsSchedule(e) ==> w'.kernel.current == w.kernel.current
  {
    hide AppStep, KernelStep;
    StepSeenByApplications(algorithm, c, w, e, w');
    if e.Trap? {
      StepKeepsSound(algorithm, w.kernel, e.reg, w'.kernel);
      StepEffect(algorithm, w.kernel, e.reg, w'.kernel);
      TrapKeepsRunnable(algorithm, c, w, e, w');
    }
  }

  /** Round robin resumes the cyclically next application that has not exited. */
  lemma RoundRobinSeenByApplications(c: Config, w: Whole, e: Event, w': Whole)
    requires Agrees(c, w) && WholeStep(0, c, w, e, w') && IsSchedule(e)
    ensures First(ReadySlots(View(w')), Succ(|w'.apps| + 1, w.kernel.current), w'.kernel.current)
  {
    StepKeepsAgreement(0, c, w, e, w');
    AgreeingSlots(c, w'.kernel.procs, View(w'));
    var before := BeforeSchedule(w.kernel, e.reg);
    assert RunnableSlots(before.procs) == RunnableSlots(w'.kernel.procs);
  }

  // --- Whole runs ------------------------------------------------------------------------------------

  ghost predicate Boots(c: Config, w: Whole)
  {
    && (exists entries :: |entries| == |c.chars| > 0 && w.kernel == Initial(entries))
    && w.apps == Start(c).apps
  }

  /** A run of the whole system from boot: run[k] goes on to run[k + 1] by events[k]. */
  ghost predicate WholeRun(algorithm: int, c: Config, run: seq<Whole>, events: seq<Event>)
  {
    && |run| == |events| + 1 && Boots(c, run[0])
    && (forall k :: 0 <= k < |events| ==> Sized(c, run[k]))
    && (forall k :: 0 <= k < |events| ==> WholeStep(algorithm, c, run[k], events[k], run[k + 1]))
  }

  /** What every step keeps: a sound kernel that agrees with the applications, and the applications' invariant. */
  ghost predicate Safe(algorithm: int, c: Config, w: Whole)
  {
    Agrees(c, w) && Sound(algorithm, w.kernel) && Invariant(c, View(w))
  }

  lemma BootIsSafe(algorithm: int, c: Config, w: Whole)
    requires ValidConfig(c) && Boots(c, w)
    ensures Safe(algorithm, c, w)
  {
    hide Invariant, WellFormed;
    var entries :| |entries| == |c.chars| > 0 && w.kernel == Initial(entries);
    InitialIsWellFormed(entries);
    FreshKeepsInvariant(c, View(w));
  }

  /** The applications' invariant holds before they begin, whatever the cells hold. */
  lemma FreshKeepsInvariant(c: Config, s: Shared)
    requires ValidConfig(c) && s.lock == 0 && s.cursor == 0 && s.apps == Start(c).apps
    ensures Invariant(c, s)
  {
    FreshTotal(|c.chars|);
  }

  lemma WholeStepIsSafe(algorithm: int, c: Config, w: Whole, e: Event, w': Whole)
    requires Safe(algorithm, c, w) && WholeStep(algorithm, c, w, e, w')
    ensures Safe(algorithm, c, w')
  {
    hide WellFormed, InOrder, KernelStep, Invariant, AppStep;
    StepKeepsAgreement(algorithm, c, w, e, w');
    StepSeenByApplications(algorithm, c, w, e, w');
    if View(w') != View(w) {
      StepKeepsInvariant(c, View(w), w.kernel.current - 1, View(w'));
    }
  }

  /** From boot on, under every policy and with interrupts at any point, the kernel stays well formed, knows which
      applications have exited, and the applications' invariant holds of its memory. */
  lemma {:induction false} WholeRunsAreSafe(algorithm: int, c: Config, run: seq<Whole>, events: seq<Event>, k: nat)
    requires ValidConfig(c) && WholeRun(algorithm, c, run, events) && k < |run|
    ensures Safe(algorithm, c, run[k])
  {
    hide Safe, Boots, WholeStep;
    if k == 0 {
      BootIsSafe(algorithm, c, run[0]);
    } else {
      WholeRunsAreSafe(algorithm, c, run, events, k - 1);
      assert WholeStep(algorithm, c, run[k - 1], events[k - 1], run[k - 1 + 1]);
      WholeStepIsSafe(algorithm, c, run[k - 1], events[k - 1], run[k]);
    }
  }

  /** Mutual exclusion and the screen, in terms of the kernel's memory. */
  lemma WholeRunsExcludeAndPrint(algorithm: int, c: Config, run: seq<Whole>, events: seq<Event>, k: nat, p: nat)
    requires ValidConfig(c) && WholeRun(algorithm, c, run, events) && k < |run| && p < |c.chars|
    ensures var w := run[k];
            && |w.apps| == |c.chars|
            && w.kernel.lock == (if exists q :: 0 <= q < |c.chars| && Critical(w.apps[q]) then 1 else 0)
            && (forall q, r :: 0 <= q < r < |c.chars| ==> !(Critical(w.apps[q]) && Critical(w.apps[r])))
            && (w.kernel.lock == 0 ==> CellsHolding(w.kernel.memory, w.kernel.cursor, c.chars[p]) == Printed(w.apps[p]))
  {
    WholeRunsAreSafe(algorithm, c, run, events, k);
    if run[k].kernel.lock == 0 {
      FreeLockShowsPrints(c, View(run[k]), p);
    }
  }

  // --- Quanta of the kernel are quanta of the lock protocol ------------------------------------------

  /** From index from on the run is safe and each event is a step of it. */
  ghost predicate Stretch(algorithm: int, c: Config, run: seq<Whole>, events: seq<Event>, from: nat)
  {
    && |run| == |events| + 1 && from <= |events|
    && (forall k :: from <= k <= |events| ==> Safe(algorithm, c, run[k]))
    && (forall k :: from <= k < |events| ==> WholeStep(algorithm, c, run[k], events[k], run[k + 1]))
  }

  lemma RunIsStretch(algorithm: int, c: Config, run: seq<Whole>, events: seq<Event>, from: nat)
    requires ValidConfig(c) && WholeRun(algorithm, c, run, events) && from <= |events|
    ensures Stretch(algorithm, c, run, events, from)
  {
    hide Safe, WholeStep, Boots;
    forall k | from <= k <= |events| ensures Safe(algorithm, c, run[k]) {
      WholeRunsAreSafe(algorithm, c, run, events, k);
    }
  }

  /** From from to to the events of the run are one quantum: schedule() is called at its end and not before, and
      the clock does not interrupt before the application has executed anything. */
  ghost predicate QuantumAt(events: seq<Event>, from: nat, to: nat)
  {
    && from < to <= |events|
    && (forall k :: from <= k < to ==> (IsSchedule(events[k]) <==> k == to - 1))
    && (to == from + 1 ==> events[from].Trap? && events[from].reg.intno != INT_CLOCK)
  }

  lemma {:induction false} QuantumKeepsCurrent(algorithm: int, c: Config, run: seq<Whole>, events: seq<Event>,
                                               from: nat, to: nat, k: nat)
    requires Stretch(algorithm, c, run, events, from) && QuantumAt(events, from, to) && from <= k < to
    ensures run[k].kernel.current == run[from].kernel.current
  {
    hide WholeStep, Sound, Invariant, WellFormed;
    if k > from {
      QuantumKeepsCurrent(algorithm, c, run, events, from, to, k - 1);
      assert WholeStep(algorithm, c, run[k - 1], events[k - 1], run[k - 1 + 1]);
      StepKeepsAgreement(algorithm, c, run[k - 1], events[k - 1], run[k]);
    }
  }

  /** Each event of a quantum is a step of its application, but for a clock interrupt at the end; before the end
      the application does not give up the processor. */
  lemma QuantumStep(algorithm: int, c: Config, run: seq<Whole>, events: seq<Event>, from: nat, to: nat, k: nat)
    requires Stretch(algorithm, c, run, events, from) && QuantumAt(events, from, to) && from <= k < to
    ensures |run[k].apps| == |run[k + 1].apps| == |c.chars| && 1 <= run[from].kernel.current <= |c.chars|
    ensures if k == to - 1 && events[k].reg.intno == INT_CLOCK then View(run[k + 1]) == View(run[k])
            else AppStep(c, View(run[k]), run[from].kernel.current - 1, View(run[k + 1]))
    ensures k < to - 1 ==> !GivesUp(run[k].apps[run[from].kernel.current - 1])
  {
    hide WholeStep, Sound, Invariant, WellFormed, AppStep, GivesUp;
    QuantumKeepsCurrent(algorithm, c, run, events, from, to, k);
    assert WholeStep(algorithm, c, run[k], events[k], run[k + 1]);
    StepSeenByApplications(algorithm, c, run[k], events[k], run[k + 1]);
    if k < to - 1 {
      StaysWhileNotScheduling(algorithm, c, run[k], events[k], run[k + 1]);
    }
  }

  lemma QuantumPath(algorithm: int, c: Config, run: seq<Whole>, events: seq<Event>, from: nat, to: nat, path: seq<Shared>)
    requires Stretch(algorithm, c, run, events, from) && QuantumAt(events, from, to)
    requires 0 < |path| == (if events[to - 1].reg.intno == INT_CLOCK then to - from else to - from + 1)
    requires forall k :: 0 <= k < |path| ==> path[k] == View(run[from + k])
    ensures 1 <= run[from].kernel.current <= |c.chars|
    ensures Executes(c, run[from].kernel.current - 1, path)
  {
    hide WholeStep, Safe, AppStep, GivesUp;
    QuantumStep(algorithm, c, run, events, from, to, from);
    forall k | 0 <= k < |path| ensures |path[k].apps| == |c.chars| {
      QuantumStep(algorithm, c, run, events, from, to, if from + k < to then from + k else from + k - 1);
    }
    forall k | 0 <= k < |path| - 1 ensures AppStep(c, path[k], run[from].kernel.current - 1, path[k + 1]) {
      QuantumStep(algorithm, c, run, events, from, to, from + k);
    }
    forall k | 0 <= k < |path| - 2 ensures !GivesUp(path[k].apps[run[from].kernel.current - 1]) {
      QuantumStep(algorithm, c, run, events, from, to, from + k);
    }
  }

  /** What the kernel counts as a quantum is an execution of the lock protocol, under every policy. */
  lemma QuantumExecutes(algorithm: int, c: Config, run: seq<Whole>, events: seq<Event>, from: nat, to: nat)
    requires Stretch(algorithm, c, run, events, from) && QuantumAt(events, from, to)
    ensures 1 <= run[from].kernel.current <= |c.chars|
    ensures ExecutesTo(c, run[from].kernel.current - 1, View(run[from]), View(run[to]))
  {
    hide WholeStep, Safe, AppStep, GivesUp, Executes;
    QuantumStep(algorithm, c, run, events, from, to, to - 1);
    assert IsSchedule(events[to - 1]);
    var steps := if events[to - 1].reg.intno == INT_CLOCK then to - from - 1 else to - from;
    var path := seq(steps + 1, k requires 0 <= k <= steps => View(run[from + k]));
    QuantumPath(algorithm, c, run, events, from, to, path);
    assert path[0] == View(run[from]) && path[|path| - 1] == View(run[to]);
  }

  lemma StaysWhileNotScheduling(algorithm: int, c: Config, w: Whole, e: Event, w': Whole)
    requires Sized(c, w) && WholeStep(algorithm, c, w, e, w') && !IsSchedule(e)
    ensures !GivesUp(w.apps[w.kernel.current - 1])
  {
    hide KernelStep;
  }

  /** A quantum of the kernel under policy 0 is a quantum of the lock protocol, so what holds of those holds of the
      system. */
  lemma KernelQuantumIsQuantum(c: Config, run: seq<Whole>, events: seq<Event>, from: nat, to: nat)
    requires Stretch(0, c, run, events, from) && QuantumAt(events, from, to)
    ensures Quantum(c, View(run[from]), run[from].kernel.current, View(run[to]), run[to].kernel.current)
  {
    hide WholeStep, Sound, Invariant, WellFormed, ExecutesTo, First, ReadySlots;
    QuantumExecutes(0, c, run, events, from, to);
    QuantumKeepsCurrent(0, c, run, events, from, to, to - 1);
    assert WholeStep(0, c, run[to - 1], events[to - 1], run[to - 1 + 1]);
    RoundRobinSeenByApplications(c, run[to - 1], events[to - 1], run[to]);
  }

  // --- The lock is released in bounded time ----------------------------------------------------------

  /** The events cut at the calls of schedule(): cuts[k] is where quantum k begins. */
  ghost predicate CutIntoQuanta(events: seq<Event>, cuts: seq<nat>)
  {
    && 0 < |cuts| && (forall k :: 0 <= k < |cuts| ==> cuts[k] <= |events|)
    && forall k :: 0 <= k < |cuts| - 1 ==> QuantumAt(events, cuts[k], cuts[k + 1])
  }

  lemma {:induction false} CutsIncrease(events: seq<Event>, cuts: seq<nat>, k: nat)
    requires CutIntoQuanta(events, cuts) && k < |cuts|
    ensures cuts[0] + k <= cuts[k]
  {
    if k > 0 {
      CutsIncrease(events, cuts, k - 1);
      assert QuantumAt(events, cuts[k - 1], cuts[k - 1 + 1]);
    }
  }

  /** In every run of the kernel from boot under round robin, in which the clock may interrupt after any step and
      processes may exit, an application that holds the lock releases it within five quanta for each application. */
  lemma KernelReleasesTheLock(c: Config, run: seq<Whole>, events: seq<Event>, cuts: seq<nat>, h: nat)
    requires ValidConfig(c) && WholeRun(0, c, run, events) && CutIntoQuanta(events, cuts)
    requires h < |c.chars| && h < |run[cuts[0]].apps| && Critical(run[cuts[0]].apps[h])
    requires |cuts| > CRITICAL_STEPS * |c.chars|
    ensures exists k :: 0 < k <= CRITICAL_STEPS * |c.chars| && h < |run[cuts[k]].apps| && !Critical(run[cuts[k]].apps[h])
  {
    hide Quantum, WholeStep, Boots, QuantumAt, Critical, Sound, WellFormed;
    var n := |cuts|;
    var states := seq(n, k requires 0 <= k < n => View(run[cuts[k]]));
    var current := seq(n, k requires 0 <= k < n => run[cuts[k]].kernel.current);
    forall k | 0 <= k < n - 1 ensures Quantum(c, states[k], current[k], states[k + 1], current[k + 1]) {
      assert QuantumAt(events, cuts[k], cuts[k + 1]);
      RunIsStretch(0, c, run, events, cuts[k]);
      KernelQuantumIsQuantum(c, run, events, cuts[k], cuts[k + 1]);
    }
    forall k | 0 <= k < n ensures 1 <= current[k] <= |c.chars| && Invariant(c, states[k]) {
      WholeRunsAreSafe(0, c, run, events, cuts[k]);
    }
    HeldLockIsReleased(c, states, current, h);
    var k :| 0 < k <= CRITICAL_STEPS * |c.chars| && h < |states[k].apps| && !Critical(states[k].apps[h]);
    assert states[k].apps == run[cuts[k]].apps;
  }

  /** How many of the events from to to - 1 are steps of application h. */
  function OwnSteps(run: seq<Whole>, events: seq<Event>, h: nat, from: nat, to: nat): nat
    requires from <= to <= |events| <= |run|
  {
    if from == to then 0
    else OwnSteps(run, events, h, from, to - 1)
         + (if run[to - 1].kernel.current == h + 1 && !(events[to - 1].Trap? && events[to - 1].reg.intno == INT_CLOCK)
            then 1 else 0)
  }

  /** Under every policy the lock is released by the fifth step its holder takes, however long others run. */
  lemma {:induction false} HolderNeedsFewSteps(algorithm: int, c: Config, run: seq<Whole>, events: seq<Event>,
                                               h: nat, from: nat, to: nat)
    requires ValidConfig(c) && WholeRun(algorithm, c, run, events) && from <= to <= |events| && h < |c.chars|
    requires forall k :: from <= k <= to ==> h < |run[k].apps| && Critical(run[k].apps[h])
    ensures OwnSteps(run, events, h, from, to) + StepsToRelease(run[to].apps[h]) == StepsToRelease(run[from].apps[h])
    ensures OwnSteps(run, events, h, from, to) < CRITICAL_STEPS
  {
    hide WholeStep, Boots, Sized, Critical, StepsToRelease;
    if from < to {
      HolderNeedsFewSteps(algorithm, c, run, events, h, from, to - 1);
      HolderStepCounts(algorithm, c, run, events, h, to - 1);
    }
  }

  lemma HolderStepCounts(algorithm: int, c: Config, run: seq<Whole>, events: seq<Event>, h: nat, k: nat)
    requires ValidConfig(c) && WholeRun(algorithm, c, run, events) && k < |events| && h < |c.chars|
    requires h < |run[k].apps| && Critical(run[k].apps[h]) && h < |run[k + 1].apps|
    ensures StepsToRelease(run[k + 1].apps[h]) + OwnSteps(run, events, h, k, k + 1) == StepsToRelease(run[k].apps[h])
  {
    hide WholeStep, Sound, Invariant, WellFormed, Boots, Critical, StepsToRelease;
    WholeRunsAreSafe(algorithm, c, run, events, k);
    var s, s' := View(run[k]), View(run[k + 1]);
    StepSeenByApplications(algorithm, c, run[k], events[k], run[k + 1]);
    assert OwnSteps(run, events, h, k, k) == 0;
    if s' != s && run[k].kernel.current == h + 1 {
      HolderStep(c, s, h, s');
    }
  }

  /** Under policy 2 the holder of the lock is not picked while a more urgent process is runnable, be it one that
      spins on the lock. */
  lemma MoreUrgentKeepsHolderOut(c: Config, w: Whole, e: Event, w': Whole, h: nat, q: nat)
    requires Agrees(c, w) && WholeStep(2, c, w, e, w') && IsSchedule(e) && h < |c.chars|
    requires q < |w'.kernel.procs| == |c.chars| + 1 && w'.kernel.procs[q].state.Runnable?
    requires w'.kernel.procs[q].priority < w'.kernel.procs[h + 1].priority
    ensures w'.kernel.current != h + 1
  {
    PriorityPickIsMinimal(w.kernel, e.reg, w'.kernel);
  }
}

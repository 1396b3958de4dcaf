/** Runs of the whole system with the clock interrupt masked. */
module MaskedRuns {
  import opened KernelSpec
  import opened KernelProperties
  import opened Applications
  import opened LockRelease
  import opened Cooperative
  import opened WholeSystem

  predicate NoClock(e: Event)
  {
    !(e.Trap? && e.reg.intno == INT_CLOCK)
  }

  /** A run from boot without clock interrupts. */
  ghost predicate MaskedRun(algorithm: int, c: Config, run: seq<Whole>, events: seq<Event>)
  {
    WholeRun(algorithm, c, run, events) && forall k :: 0 <= k < |events| ==> NoClock(events[k])
  }

  // --- The lock is free whenever the kernel schedules ------------------------------------------------

  /** The system is safe and only the running application is inside its critical section. */
  ghost predicate Undisturbed(algorithm: int, c: Config, w: Whole)
  {
    Safe(algorithm, c, w) && OthersOutside(View(w), w.kernel.current - 1)
  }

  lemma BootIsUndisturbed(algorithm: int, c: Config, w: Whole)
    requires ValidConfig(c) && Boots(c, w)
    ensures Undisturbed(algorithm, c, w) && TotalWork(c, w.apps) == RunLength(c)
  {
    BootIsSafe(algorithm, c, w);
    FreshWork(c, |c.chars|);
  }

  lemma MaskedStepIsUndisturbed(algorithm: int, c: Config, w: Whole, e: Event, w': Whole)
    requires Undisturbed(algorithm, c, w) && WholeStep(algorithm, c, w, e, w') && NoClock(e)
    ensures Undisturbed(algorithm, c, w')
    ensures TotalWork(c, w'.apps) == TotalWork(c, w.apps) - 1
  {
    hide Sound, Invariant, OthersOutside, TotalWork, KernelStep, AppStep, WellFormed;
    var s, s', p := View(w), View(w'), w.kernel.current - 1;
    WholeStepIsSafe(algorithm, c, w, e, w');
    StepSeenByApplications(algorithm, c, w, e, w');
    StepKeepsAgreement(algorithm, c, w, e, w');
    StaysOutside(c, s, p, s', w'.kernel.current - 1);
    StepDoesWork(c, s, p, s');
  }

  /** Whatever the policy, a masked run never suspends an application inside its critical section, and each of its
      steps is one of the RunLength steps all applications take together. */
  lemma {:induction false} MaskedRunsAreUndisturbed(algorithm: int, c: Config, run: seq<Whole>, events: seq<Event>, k: nat)
    requires ValidConfig(c) && MaskedRun(algorithm, c, run, events) && k < |run|
    ensures Undisturbed(algorithm, c, run[k])
    ensures TotalWork(c, run[k].apps) == RunLength(c) - k
  {
    hide Undisturbed, Boots, WholeStep, RunLength, TotalWork;
    if k == 0 {
      BootIsUndisturbed(algorithm, c, run[0]);
    } else {
      MaskedRunsAreUndisturbed(algorithm, c, run, events, k - 1);
      assert WholeStep(algorithm, c, run[k - 1], events[k - 1], run[k - 1 + 1]);
      MaskedStepIsUndisturbed(algorithm, c, run[k - 1], events[k - 1], run[k]);
    }
  }

  /** With the clock masked, the lock is free at every call of schedule(), under every policy. */
  lemma LockIsFreeAtEverySchedule(algorithm: int, c: Config, run: seq<Whole>, events: seq<Event>, k: nat)
    requires ValidConfig(c) && MaskedRun(algorithm, c, run, events) && k < |events| && IsSchedule(events[k])
    ensures run[k].kernel.lock == 0
  {
    hide KernelStep, Sound, WellFormed, Invariant, OthersOutside, Boots;
    MaskedRunsAreUndisturbed(algorithm, c, run, events, k);
    assert WholeStep(algorithm, c, run[k], events[k], run[k + 1]);
    LockIsFreeAtSchedule(c, View(run[k]), run[k].kernel.current - 1);
  }

  // --- A masked run goes on to its last exit ---------------------------------------------------------

  ghost predicate GoesOn(algorithm: int, c: Config, w: Whole)
    requires Sized(c, w)
  {
    exists e, w' :: NoClock(e) && WholeStep(algorithm, c, w, e, w')
  }

  /** Registers with which an application makes its system call. */
  function CallRegisters(pc: Pc): Registers
    requires IsCall(pc) && !pc.Print?
  {
    ZERO_REGISTERS.(intno :=
      match pc
      case SetPriority => INT_SYS_USER1
      case SetShare => INT_SYS_USER2
      case GetTicket => INT_SYS_USER4
      case Yield => INT_SYS_YIELD
      case _ => INT_SYS_EXIT)
  }

  /** schedule() can end after the running application's sys_yield or sys_exit. */
  ghost predicate CanGiveUp(algorithm: int, c: Config, w: Whole)
    requires Sized(c, w)
  {
    var pc := w.apps[w.kernel.current - 1].pc;
    pc.Yield? || pc.Exit? ==> CanSchedule(algorithm, BeforeSchedule(w.kernel, CallRegisters(pc)))
  }

  lemma CanScheduleIgnoresRegisters(algorithm: int, s: System, a: Registers, b: Registers)
    requires s.current < |s.procs| && a.intno == b.intno
    requires CanSchedule(algorithm, BeforeSchedule(s, a))
    ensures CanSchedule(algorithm, BeforeSchedule(s, b))
  {
    var x, y := BeforeSchedule(s, a), BeforeSchedule(s, b);
    assert forall i :: 0 <= i < |s.procs| ==>
      y.procs[i] == x.procs[i].(registers := y.procs[i].registers, exitStatus := y.procs[i].exitStatus);
  }

  lemma CallGoesOn(algorithm: int, c: Config, w: Whole, k': System)
    requires Sized(c, w) && IsCall(w.apps[w.kernel.current - 1].pc) && !w.apps[w.kernel.current - 1].pc.Print?
    requires KernelStep(algorithm, w.kernel, CallRegisters(w.apps[w.kernel.current - 1].pc), k')
    ensures GoesOn(algorithm, c, w)
  {
    hide KernelStep;
    var p := w.kernel.current - 1;
    var e := Trap(CallRegisters(w.apps[p].pc));
    var w' := Whole(k', w.apps[p := NextApp(c, View(w), w.apps[p], true)]);
    assert NoClock(e) && WholeStep(algorithm, c, w, e, w');
  }

  /** sys_print can pass each application's character, 16 bits wide. */
  predicate Sendable(c: Config)
  {
    c.syncMethod == 2 ==> forall p :: 0 <= p < |c.chars| ==> 0 <= c.chars[p] < 0x1_0000
  }

  /** The system goes on exactly when, in case its application gives up the processor, schedule() can end. */
  lemma GoesOnExactlyWhen(algorithm: int, c: Config, w: Whole)
    requires Safe(algorithm, c, w) && Sendable(c)
    ensures GoesOn(algorithm, c, w) <==> CanGiveUp(algorithm, c, w)
  {
    hide MutualExclusion, CellsMatch, KernelStep, CanSchedule, GoesOn, WellFormed, Sound;
    var p := w.kernel.current - 1;
    var pc := w.apps[p].pc;
    RunningHasNotExited(c, w);
    assert PointInvariant(c, View(w), p);
    if pc.Yield? || pc.Exit? {
      GivingUpGoesOnExactlyWhen(algorithm, c, w);
    } else if IsCall(pc) {
      if pc.Print? {
        PrintGoesOn(algorithm, c, w);
      } else {
        ResumingCall(algorithm, c, w);
      }
    } else {
      InstructionGoesOn(algorithm, c, w);
    }
  }

  lemma RunningHasNotExited(c: Config, w: Whole)
    requires Agrees(c, w)
    ensures !w.apps[w.kernel.current - 1].pc.Exited?
  {
    assert w.kernel.procs[w.kernel.current - 1 + 1].state.Runnable?;
  }

  lemma ResumingCall(algorithm: int, c: Config, w: Whole)
    requires Sized(c, w)
    requires var pc := w.apps[w.kernel.current - 1].pc; pc.SetPriority? || pc.SetShare? || pc.GetTicket?
    ensures GoesOn(algorithm, c, w)
  {
    var pc := w.apps[w.kernel.current - 1].pc;
    CallGoesOn(algorithm, c, w, Dispatch(SystemCall(w.kernel, CallRegisters(pc)), w.kernel.current));
  }

  lemma PrintGoesOn(algorithm: int, c: Config, w: Whole)
    requires Sized(c, w) && w.apps[w.kernel.current - 1].pc.Print? && 0 <= c.chars[w.kernel.current - 1] < 0x1_0000
    ensures GoesOn(algorithm, c, w)
  {
    var p := w.kernel.current - 1;
    var reg := ZERO_REGISTERS.(intno := INT_SYS_USER3, eax := c.chars[p]);
    var w' := Whole(Dispatch(SystemCall(w.kernel, reg), w.kernel.current),
                    w.apps[p := NextApp(c, View(w), w.apps[p], true)]);
    assert NoClock(Trap(reg)) && WholeStep(algorithm, c, w, Trap(reg), w');
  }

  lemma InstructionGoesOn(algorithm: int, c: Config, w: Whole)
    requires Sized(c, w)
    requires var pc := w.apps[w.kernel.current - 1].pc; !IsCall(pc) && !pc.Exited?
    ensures GoesOn(algorithm, c, w)
  {
    var s' := Next(c, View(w), w.kernel.current - 1, true);
    var w' := Whole(w.kernel.(lock := s'.lock, cursor := s'.cursor, memory := s'.cells), s'.apps);
    assert NoClock(Instruction(true)) && WholeStep(algorithm, c, w, Instruction(true), w');
  }

  lemma GivingUpGoesOnExactlyWhen(algorithm: int, c: Config, w: Whole)
    requires Safe(algorithm, c, w) && GivesUp(w.apps[w.kernel.current - 1])
    ensures GoesOn(algorithm, c, w) <==> CanGiveUp(algorithm, c, w)
  {
    hide Invariant, Scheduled, CanSchedule;
    var reg := CallRegisters(w.apps[w.kernel.current - 1].pc);
    var before := BeforeSchedule(w.kernel, reg);
    if CanSchedule(algorithm, before) {
      ScheduleEndsExactlyWhen(algorithm, before);
      var k' :| Scheduled(algorithm, before, k');
      CallGoesOn(algorithm, c, w, k');
    }
    if e, w' :| NoClock(e) && WholeStep(algorithm, c, w, e, w') {
      ScheduledCouldEnd(algorithm, BeforeSchedule(w.kernel, e.reg), w'.kernel);
      CanScheduleIgnoresRegisters(algorithm, w.kernel, e.reg, reg);
    }
  }

  /** Policies 0, 1 and 2 find a process unless the last application is about to exit. */
  lemma SomeoneIsLeft(algorithm: int, c: Config, w: Whole)
    requires algorithm == 0 || algorithm == 1 || algorithm == 2
    requires Safe(algorithm, c, w) && !AtLastExit(View(w), w.kernel.current - 1)
    ensures CanGiveUp(algorithm, c, w)
  {
    hide Invariant;
    var p := w.kernel.current - 1;
    var pc := w.apps[p].pc;
    if pc.Yield? {
      assert BeforeSchedule(w.kernel, CallRegisters(pc)).procs[w.kernel.current].state.Runnable?;
    } else if pc.Exit? {
      var i :| 0 <= i < |w.apps| && i != p && !w.apps[i].pc.Exited?;
      assert w.kernel.procs[i + 1].state.Runnable?;
      assert BeforeSchedule(w.kernel, CallRegisters(pc)).procs[i + 1].state.Runnable?;
    }
  }

  lemma NothingAfterTheLastExit(algorithm: int, c: Config, w: Whole)
    requires Safe(algorithm, c, w) && AtLastExit(View(w), w.kernel.current - 1)
    ensures !GoesOn(algorithm, c, w)
  {
    hide Invariant, KernelStep, AllExited;
    forall e, w' | NoClock(e) ensures !WholeStep(algorithm, c, w, e, w') {
      if WholeStep(algorithm, c, w, e, w') {
        SomeoneRuns(algorithm, c, w, e, w');
        LastExitEndsAll(algorithm, c, w, e, w');
      }
    }
  }

  lemma SomeoneRuns(algorithm: int, c: Config, w: Whole, e: Event, w': Whole)
    requires Safe(algorithm, c, w) && WholeStep(algorithm, c, w, e, w')
    ensures !AllExited(View(w'))
  {
    hide Invariant, KernelStep, Sound;
    WholeStepIsSafe(algorithm, c, w, e, w');
    assert !View(w').apps[w'.kernel.current - 1].pc.Exited?;
  }

  lemma LastExitEndsAll(algorithm: int, c: Config, w: Whole, e: Event, w': Whole)
    requires Sized(c, w) && AtLastExit(View(w), w.kernel.current - 1)
    requires NoClock(e) && WholeStep(algorithm, c, w, e, w')
    ensures AllExited(View(w'))
  {
    hide KernelStep;
  }

  /** A masked run has at most RunLength states, and just that many when it has come to the last exit, after which
      no process is left to run. Under policies 0, 1 and 2 it goes on until then, and under policies 3 and 4 as long
      as schedule() ends. */
  lemma MaskedRunsComplete(algorithm: int, c: Config, run: seq<Whole>, events: seq<Event>)
    requires ValidConfig(c) && Sendable(c) && MaskedRun(algorithm, c, run, events)
    ensures var last := run[|run| - 1];
            && Sized(c, last) && |run| <= RunLength(c)
            && (|run| == RunLength(c) <==> AtLastExit(View(last), last.kernel.current - 1))
            && (|run| == RunLength(c) ==> !GoesOn(algorithm, c, last))
            && (|run| < RunLength(c) && 0 <= algorithm <= 2 ==> GoesOn(algorithm, c, last))
            && (GoesOn(algorithm, c, last) <==> CanGiveUp(algorithm, c, last))
  {
    hide OthersOutside, WholeStep, GoesOn, CanGiveUp, TotalWork, RunLength;
    var k := |run| - 1;
    var last := run[k];
    MaskedRunsAreUndisturbed(algorithm, c, run, events, k);
    var p := last.kernel.current - 1;
    assert !last.apps[p].pc.Exited?;
    ExitedExactlyWithoutWork(c, View(last));
    LastExitIsLastWork(c, View(last), p);
    GoesOnExactlyWhen(algorithm, c, last);
    if AtLastExit(View(last), p) {
      NothingAfterTheLastExit(algorithm, c, last);
    } else if 0 <= algorithm <= 2 {
      SomeoneIsLeft(algorithm, c, last);
    }
  }

  // --- Policies 0 and 1 keep to the order of a cooperative run ---------------------------------------

  /** With the clock masked, every step under policies 0 and 1 is a step of a cooperative run. */
  lemma MaskedStepIsCooperative(policy: int, c: Config, w: Whole, e: Event, w': Whole)
    requires policy == 0 || policy == 1
    requires Agrees(c, w) && Sound(policy, w.kernel) && WholeStep(policy, c, w, e, w') && NoClock(e)
    ensures w'.kernel.current >= 1
    ensures CoopStep(policy, c, View(w), w.kernel.current - 1, View(w'), w'.kernel.current - 1)
  {
    StepSeenByApplications(policy, c, w, e, w');
    if policy == 0 {
      StepKeepsAgreement(0, c, w, e, w');
      if IsSchedule(e) {
        RoundRobinSeenByApplications(c, w, e, w');
      }
    } else if e.Trap? {
      FirstComeStep(w.kernel, e.reg, w'.kernel);
    }
  }

  /** Every state of a masked run under policies 0 and 1 keeps to the order of a cooperative run. */
  lemma {:induction false} MaskedRunsAreCooperative(policy: int, c: Config, run: seq<Whole>, events: seq<Event>, k: nat)
    requires (policy == 0 || policy == 1) && ValidConfig(c) && c.syncMethod == 1
    requires MaskedRun(policy, c, run, events) && k < |run|
    ensures Safe(policy, c, run[k]) && CoopInvariant(policy, c, View(run[k]), run[k].kernel.current - 1)
  {
    hide CoopInvariant, CoopStep, WholeStep, Sound, Invariant, Boots;
    WholeRunsAreSafe(policy, c, run, events, k);
    if k == 0 {
      MaskedBootIsCooperative(policy, c, run[0]);
    } else {
      MaskedRunsAreCooperative(policy, c, run, events, k - 1);
      assert WholeStep(policy, c, run[k - 1], events[k - 1], run[k - 1 + 1]);
      MaskedStepIsCooperative(policy, c, run[k - 1], events[k - 1], run[k]);
      CoopStepKeepsInvariant(policy, c, View(run[k - 1]), run[k - 1].kernel.current - 1,
                             View(run[k]), run[k].kernel.current - 1);
    }
  }

  lemma MaskedBootIsCooperative(policy: int, c: Config, w: Whole)
    requires ValidConfig(c) && c.syncMethod == 1 && Boots(c, w)
    ensures CoopInvariant(policy, c, View(w), w.kernel.current - 1)
  {
    hide Sound, WellFormed, Invariant;
    BootIsSafe(policy, c, w);
    FreshIsInOrder(policy, c, View(w));
  }

  lemma FreshIsInOrder(policy: int, c: Config, s: Shared)
    requires s.lock == 0 && s.cursor == 0 && s.apps == Start(c).apps && |c.chars| > 0
    ensures Shape(policy, c, s, 0) && Layout(policy, c, s) && OthersOutside(s, 0)
  {
    assert !CursorAhead(s) && Frontier(s) == 0;
  }

  /** The screen of the whole system without clock interrupts: at any time each completed cell holds its owner's
      character. */
  lemma MaskedScreen(policy: int, c: Config, run: seq<Whole>, events: seq<Event>, k: nat, i: nat)
    requires (policy == 0 || policy == 1) && ValidConfig(c) && c.syncMethod == 1 && 0 < c.rounds
    requires MaskedRun(policy, c, run, events) && k < |run| && |c.chars| > 0 && i < Frontier(View(run[k]))
    ensures var memory := run[k].kernel.memory;
            Owner(policy, c, i) < |c.chars| && i in memory && memory[i] == c.chars[Owner(policy, c, i)]
  {
    hide MaskedRun, Safe, Invariant, OthersOutside, Shape, Frontier, AllExited;
    MaskedRunsAreCooperative(policy, c, run, events, k);
    assert Layout(policy, c, View(run[k]));
  }

  /** Where a masked run ends, before the last exit, all |chars| * rounds cells are complete. */
  lemma MaskedScreenIsComplete(policy: int, c: Config, run: seq<Whole>, events: seq<Event>)
    requires (policy == 0 || policy == 1) && ValidConfig(c) && c.syncMethod == 1
    requires MaskedRun(policy, c, run, events) && |run| == RunLength(c)
    ensures var last := run[|run| - 1];
            Frontier(View(last)) == last.kernel.cursor == |c.chars| * c.rounds
  {
    hide CoopInvariant, RunLength, GoesOn, CanGiveUp, Safe, Frontier, WholeStep;
    var last := run[|run| - 1];
    MaskedRunsComplete(policy, c, run, events);
    MaskedRunsAreCooperative(policy, c, run, events, |run| - 1);
    ScreenAtLastExit(policy, c, View(last), last.kernel.current - 1);
  }
}

/** Properties of whole runs of the kernel: any number of interrupts, in any order the processes raise them. */
module KernelRuns {
  import opened Machine
  import opened Turns
  import opened KernelSpec
  import opened KernelProperties

  /** states[k] is interrupted with registers events[k], which leads to states[k + 1]. */
  ghost predicate IsRun(algorithm: int, states: seq<System>, events: seq<Registers>)
  {
    && |states| == |events| + 1
    && (forall k :: 0 <= k <= |events| ==> WellFormed(states[k]))
    && (forall k :: 0 <= k < |events| ==> KernelStep(algorithm, states[k], events[k], states[k + 1]))
  }

  lemma RunPrefix(algorithm: int, states: seq<System>, events: seq<Registers>)
    requires IsRun(algorithm, states, events) && 0 < |events|
    ensures IsRun(algorithm, states[..|events|], events[..|events| - 1])
  {}

  lemma {:induction false} StateStaysSound(algorithm: int, states: seq<System>, events: seq<Registers>, k: nat)
    requires |states| == |events| + 1 && Sound(algorithm, states[0]) && k <= |events|
    requires forall j :: 0 <= j < |events| ==>
               states[j].current < |states[j].procs| && KernelStep(algorithm, states[j], events[j], states[j + 1])
    ensures Sound(algorithm, states[k])
  {
    if k > 0 {
      StateStaysSound(algorithm, states, events, k - 1);
      StepKeepsSound(algorithm, states[k - 1], events[k - 1], states[k]);
    }
  }

  /** Well-formedness, and for policy 1 its order, need only be checked of the first state: every policy keeps it
      for ever. */
  lemma RunsStayWellFormed(algorithm: int, states: seq<System>, events: seq<Registers>)
    requires |states| == |events| + 1 && Sound(algorithm, states[0])
    requires forall k :: 0 <= k < |events| ==>
               states[k].current < |states[k].procs| && KernelStep(algorithm, states[k], events[k], states[k + 1])
    ensures IsRun(algorithm, states, events)
    ensures forall k :: 0 <= k <= |events| ==> Sound(algorithm, states[k])
  {
    forall k | 0 <= k <= |events| ensures Sound(algorithm, states[k]) {
      StateStaysSound(algorithm, states, events, k);
    }
  }

  lemma InitialIsWellFormed(entries: seq<int>)
    requires 1 <= |entries|
    ensures WellFormed(Initial(entries)) && InOrder(Initial(entries))
  {}

  /** The state start() leaves, in numbers: process i has its entry point and a stack that grows down from the end of
      its own megabyte, runs at privilege level 3 with interrupts enabled, all its other registers are 0, and every
      cell of the screen shows a space in colour 7. */
  lemma InitialInNumbers(entries: seq<int>)
    requires 1 <= |entries|
    ensures var s := Initial(entries);
            && |s.procs| == |entries| + 1 && s.current == 1 && s.cpu == s.procs[1].registers
            && s.tickets == [] && s.seed == 1 && s.cursor == 0 && s.lock == 0
            && s.procs[0].pid == 0 && s.procs[0].state.Empty?
            && (forall i :: 1 <= i <= |entries| ==>
                  && s.procs[i] == Process(i, s.procs[i].registers, Runnable, 0, 1, 1, 0)
                  && s.procs[i].registers
                     == Registers(0, 0, 0, 0, 0, 0, 0, 0, 0x23, 0x23, 0, 0, entries[i - 1], 0x1B, 0x200,
                                  0x20_0000 + i * 0x10_0000, 0x23))
            && (forall cell :: cell in s.memory <==> 0 <= cell < 2000)
            && (forall cell :: 0 <= cell < 2000 ==> s.memory[cell] == ' ' as int + 0x100 * 7)
  {}

  /** The low two bits of a segment selector. */
  function PrivilegeLevel(selector: int): int
  {
    selector % 4
  }

  predicate InterruptsEnabled(eflags: int)
  {
    eflags / 0x200 % 2 == 1
  }

  /** So the stacks of two processes are at least a megabyte apart, and each of them runs unprivileged and can be
      interrupted. */
  lemma InitialStacksAreApart(s: System, entries: seq<int>, i: nat, j: nat)
    requires 1 <= |entries| && s == Initial(entries) && 1 <= i < j < |s.procs|
    ensures var p, q := s.procs[i].registers, s.procs[j].registers;
            && p.esp + 0x10_0000 <= q.esp && InterruptsEnabled(p.eflags)
            && PrivilegeLevel(p.cs) == PrivilegeLevel(p.ds) == PrivilegeLevel(p.es) == PrivilegeLevel(p.ss) == 3
  {
    InitialInNumbers(entries);
  }

  // --- Where policy 1 fails --------------------------------------------------------------------------

  /** Under policy 1, k exits in a row take the kernel from start() to process k + 1. */
  lemma {:induction false} ExitsRunInOrder(entries: seq<int>, exit: Registers, k: nat) returns (states: seq<System>)
    requires k < |entries| && exit.intno == INT_SYS_EXIT
    ensures |states| == k + 1 && states[0] == Initial(entries) && IsRun(1, states, seq(k, i => exit))
    ensures Sound(1, states[k]) && |states[k].procs| == |entries| + 1 && states[k].current == k + 1
  {
    if k == 0 {
      InitialIsWellFormed(entries);
      states := [Initial(entries)];
    } else {
      var before := ExitsRunInOrder(entries, exit, k - 1);
      var s := before[k - 1];
      FirstComeDecides(s, exit);
      var s' :| KernelStep(1, s, exit, s');
      FirstComeStep(s, exit, s');
      StepKeepsSound(1, s, exit, s');
      StepEffect(1, s, exit, s');
      states := before + [s'];
      forall i | 0 <= i < k ensures KernelStep(1, states[i], exit, states[i + 1]) {
        if i < k - 1 {
          assert KernelStep(1, before[i], seq(k - 1, j => exit)[i], before[i + 1]);
        }
      }
    }
  }

  /** The failing input: once every process has exited in order, policy 1 runs the slot past the end of the
      process table. The run up to there exists, and the last exit has no step that stays inside the table. */
  lemma LastExitLeavesTheTable(entries: seq<int>, exit: Registers) returns (states: seq<System>)
    requires 1 <= |entries| && exit.intno == INT_SYS_EXIT
    ensures |states| == |entries| && states[0] == Initial(entries) && IsRun(1, states, seq(|entries| - 1, i => exit))
    ensures var last := states[|entries| - 1];
            && FirstComeSlot(BeforeSchedule(last, exit)) == |last.procs|
            && !CanSchedule(1, BeforeSchedule(last, exit))
            && !exists s' :: KernelStep(1, last, exit, s')
  {
    states := ExitsRunInOrder(entries, exit, |entries| - 1);
    FirstComeDecides(states[|entries| - 1], exit);
  }

  // --- Every process resumes where it was interrupted ------------------------------------------------

  /** The registers of process i's last interrupt, or those it was set up with. */
  ghost function LastSaved(states: seq<System>, events: seq<Registers>, i: nat): Registers
    requires |states| == |events| + 1 && i < |states[0].procs|
  {
    var n := |events|;
    if n == 0 then states[0].procs[i].registers
    else if states[n - 1].current == i then events[n - 1]
    else LastSaved(states[..n], events[..n - 1], i)
  }

  /** A resumed process continues with exactly the registers of its own last interrupt. */
  lemma {:induction false} ResumesWhereInterrupted(algorithm: int, states: seq<System>, events: seq<Registers>)
    requires IsRun(algorithm, states, events)
    ensures var last := states[|events|];
            && |last.procs| == |states[0].procs|
            && (forall i :: 0 <= i < |last.procs| ==> last.procs[i].registers == LastSaved(states, events, i))
            && last.cpu == LastSaved(states, events, last.current)
    decreases |events|
  {
    var n := |events|;
    if n > 0 {
      RunPrefix(algorithm, states, events);
      ResumesWhereInterrupted(algorithm, states[..n], events[..n - 1]);
      StepEffect(algorithm, states[n - 1], events[n - 1], states[n]);
    }
  }

  /** A process that has exited is never run again. */
  lemma {:induction false} ExitIsFinal(algorithm: int, states: seq<System>, events: seq<Registers>, i: nat)
    requires IsRun(algorithm, states, events) && i < |states[0].procs| && !states[0].procs[i].state.Runnable?
    ensures |states[|events|].procs| == |states[0].procs| && states[|events|].procs[i].state == states[0].procs[i].state
    ensures states[|events|].current != i
    decreases |events|
  {
    var n := |events|;
    if n > 0 {
      RunPrefix(algorithm, states, events);
      ExitIsFinal(algorithm, states[..n], events[..n - 1], i);
      StepEffect(algorithm, states[n - 1], events[n - 1], states[n]);
    }
  }

  /** The process interrupted by event k exits with its %eax as its status, and is a zombie with that status in every
      later state. */
  lemma {:induction false} ExitStatusIsKept(algorithm: int, states: seq<System>, events: seq<Registers>, k: nat, n: nat)
    requires IsRun(algorithm, states, events) && k < n <= |events| && events[k].intno == 49
    ensures states[k].current < |states[n].procs|
    ensures var p := states[n].procs[states[k].current];
            p.state.Zombie? && p.exitStatus == Signed(events[k].eax) && states[n].current != states[k].current
    decreases n
  {
    hide KernelStep;
    RunKeepsTable(algorithm, states, events, k);
    RunKeepsTable(algorithm, states, events, n - 1);
    StepEffect(algorithm, states[n - 1], events[n - 1], states[n]);
    InterruptEffect(algorithm, states[n - 1], events[n - 1], states[n]);
    if k < n - 1 {
      ExitStatusIsKept(algorithm, states, events, k, n - 1);
    }
  }

  /** And every zombie has come to be one so: by an exit of its own, whose %eax is its status. */
  lemma {:induction false} ZombieHasExited(algorithm: int, states: seq<System>, events: seq<Registers>, i: nat, n: nat)
    requires IsRun(algorithm, states, events) && n <= |events| && i < |states[0].procs|
    requires !states[0].procs[i].state.Zombie?
    ensures i < |states[n].procs|
    ensures if states[n].procs[i].state.Zombie?
            then exists k :: 0 <= k < n && states[k].current == i && events[k].intno == 49
                             && states[n].procs[i].exitStatus == Signed(events[k].eax)
            else states[n].procs[i].exitStatus == states[0].procs[i].exitStatus
  {
    hide KernelStep;
    RunKeepsTable(algorithm, states, events, n);
    if n > 0 {
      ZombieHasExited(algorithm, states, events, i, n - 1);
      StepEffect(algorithm, states[n - 1], events[n - 1], states[n]);
      InterruptEffect(algorithm, states[n - 1], events[n - 1], states[n]);
    }
  }

  // --- Bounded waiting -------------------------------------------------------------------------------

  function Decided(events: seq<Registers>): seq<bool>
  {
    seq(|events|, k requires 0 <= k < |events| => IsDecision(events[k]))
  }

  function Currents(states: seq<System>): seq<nat>
  {
    seq(|states|, k requires 0 <= k < |states| => states[k].current)
  }

  ghost function ReadyAtDecisions(states: seq<System>, events: seq<Registers>): seq<seq<bool>>
    requires |states| == |events| + 1
  {
    seq(|events|, k requires 0 <= k < |events| => ReadyAtDecision(states[k], events[k]))
  }

  ghost function ReadyAtDecision(s: System, reg: Registers): seq<bool>
  {
    if s.current < |s.procs| then RunnableSlots(BeforeSchedule(s, reg).procs) else []
  }

  lemma {:induction false} RunKeepsTable(algorithm: int, states: seq<System>, events: seq<Registers>, k: nat)
    requires IsRun(algorithm, states, events) && k <= |events|
    ensures |states[k].procs| == |states[0].procs|
  {
    if k > 0 {
      RunKeepsTable(algorithm, states, events, k - 1);
      StepEffect(algorithm, states[k - 1], events[k - 1], states[k]);
    }
  }

  lemma RoundRobinStep(s: System, reg: Registers, s': System, p: nat)
    requires WellFormed(s) && KernelStep(0, s, reg, s') && p < |s.procs|
    requires |s'.procs| == |s.procs| && s'.procs[p].state.Runnable?
    ensures RoundRobinMove(|s.procs|, s.current, ReadyAtDecision(s, reg), IsDecision(reg), s'.current)
    ensures IsDecision(reg) ==> p < |ReadyAtDecision(s, reg)| && ReadyAtDecision(s, reg)[p]
  {}

  lemma RunIsRoundRobin(states: seq<System>, events: seq<Registers>, p: nat)
    requires IsRun(0, states, events) && p < |states[0].procs|
    requires forall k :: 0 <= k <= |events| ==> p < |states[k].procs| && states[k].procs[p].state.Runnable?
    ensures RoundRobinRun(|states[0].procs|, Currents(states), ReadyAtDecisions(states, events), Decided(events))
    ensures forall k :: 0 <= k < |events| && Decided(events)[k] ==>
              p < |ReadyAtDecisions(states, events)[k]| && ReadyAtDecisions(states, events)[k][p]
  {
    forall k | 0 <= k <= |events| ensures |states[k].procs| == |states[0].procs| {
      RunKeepsTable(0, states, events, k);
    }
    forall k | 0 <= k < |events|
      ensures RoundRobinMove(|states[0].procs|, states[k].current, ReadyAtDecision(states[k], events[k]),
                             IsDecision(events[k]), states[k + 1].current)
      ensures IsDecision(events[k]) ==>
                p < |ReadyAtDecision(states[k], events[k])| && ReadyAtDecision(states[k], events[k])[p]
    {
      RoundRobinStep(states[k], events[k], states[k + 1], p);
    }
  }

  /** A process that stays runnable is picked within NPROCS - 1 decisions, even while others exit. */
  lemma BoundedWaiting(states: seq<System>, events: seq<Registers>, p: nat)
    requires IsRun(0, states, events) && 1 <= p < |states[0].procs|
    requires forall k :: 0 <= k <= |events| ==> p < |states[k].procs| && states[k].procs[p].state.Runnable?
    requires Decisions(Decided(events)) >= |states[0].procs| - 1
    ensures Picks(Currents(states), Decided(events), p) >= 1
  {
    RunIsRoundRobin(states, events, p);
    if Picks(Currents(states), Decided(events), p) == 0 {
      WaitIsBounded(|states[0].procs|, Currents(states), ReadyAtDecisions(states, events), Decided(events), p);
    }
  }

  // --- Exact shares ----------------------------------------------------------------------------------

  /** The turns in a row each process is due: its share under policy 3, one if it takes part at all under
      policies 0 and 2. */
  ghost function Weights(algorithm: int, procs: seq<Process>): (w: seq<nat>)
    ensures |w| == |procs|
  {
    seq(|procs|, i requires 0 <= i < |procs| => Weight(algorithm, procs, i))
  }

  ghost function Weight(algorithm: int, procs: seq<Process>, i: nat): nat
    requires i < |procs|
  {
    if algorithm == 3 then (if Entitled(procs[i]) then procs[i].share else 0)
    else if algorithm == 2 then (if MostUrgent(procs, i) then 1 else 0)
    else if procs[i].state.Runnable? then 1 else 0
  }

  function TurnOf(algorithm: int, s: System): Turn
    requires s.current < |s.procs|
  {
    Turn(s.current, if algorithm != 3 then 1 else if s.procs[s.current].timePassed < 0 then 0
                    else s.procs[s.current].timePassed)
  }

  /** Runnable processes other than the current one have used no turns. */
  ghost predicate TurnsNotStarted(s: System)
  {
    forall i :: 0 <= i < |s.procs| && i != s.current && s.procs[i].state.Runnable? ==> s.procs[i].timePassed == 0
  }

  lemma ShareDecisionAdvances(s: System, s': System)
    requires s.current < |s.procs| && Scheduled(3, s, s') && TurnsNotStarted(s)
    requires 0 <= s.procs[s.current].timePassed
    ensures |s'.procs| == |s.procs| && s'.current < |s.procs| && TurnsNotStarted(s')
    ensures Weights(3, s'.procs) == Weights(3, s.procs)
    ensures Advance(Weights(3, s.procs), TurnOf(3, s), TurnOf(3, s'))
  {
    var n, w, c, c' := |s.procs|, Weights(3, s.procs), s.current, s'.current;
    assert Offset(n, c, c) == 0;
    if TurnOf(3, s).used < w[c] {
      assert SlotsWithTurnsLeft(s.procs)[c];
      assert c' == c;
    } else {
      forall q: nat | q < n && Positive(w)[q]
        ensures Offset(n, Succ(n, c), c') <= Offset(n, Succ(n, c), q)
      {
        assert EntitledSlots(s.procs)[q];
        if q != c { assert SlotsWithTurnsLeft(s.procs)[q]; }
      }
    }
  }

  lemma RoundRobinDecisionAdvances(algorithm: int, s: System, s': System)
    requires algorithm == 0 || algorithm == 2
    requires s.current < |s.procs| && Scheduled(algorithm, s, s')
    ensures s'.procs == s.procs && s'.current < |s.procs|
    ensures Advance(Weights(algorithm, s.procs), TurnOf(algorithm, s), TurnOf(algorithm, s'))
  {
    var ready := if algorithm == 2 then MostUrgentSlots(s.procs) else RunnableSlots(s.procs);
    assert Positive(Weights(algorithm, s.procs)) == ready;
  }

  /** Interrupts that leave the set of runnable processes and what the policy goes by as they are. */
  predicate Steady(algorithm: int, events: seq<Registers>)
  {
    forall k :: 0 <= k < |events| ==>
      && events[k].intno != INT_SYS_EXIT
      && (algorithm == 2 ==> events[k].intno != INT_SYS_USER1)
      && (algorithm == 3 ==> events[k].intno != INT_SYS_USER2)
  }

  lemma SavingKeepsWeights(algorithm: int, s: System, reg: Registers)
    requires s.current < |s.procs| && reg.intno != INT_SYS_EXIT
    requires algorithm == 0 || algorithm == 2 || algorithm == 3
    ensures Weights(algorithm, BeforeSchedule(s, reg).procs) == Weights(algorithm, s.procs)
    ensures TurnOf(algorithm, BeforeSchedule(s, reg)) == TurnOf(algorithm, s)
    ensures TurnsNotStarted(s) ==> TurnsNotStarted(BeforeSchedule(s, reg))
  {
    var b := BeforeSchedule(s, reg);
    forall i: nat | i < |s.procs| ensures Weight(algorithm, b.procs, i) == Weight(algorithm, s.procs, i) {
      assert forall j :: 0 <= j < |s.procs| ==> SameButRegisters(s.procs[j], b.procs[j]);
    }
  }

  predicate SameButRegisters(p: Process, q: Process)
  {
    q == p.(registers := q.registers)
  }

  lemma CallKeepsWeights(algorithm: int, s: System, reg: Registers)
    requires WellFormed(s) && !IsDecision(reg) && INT_SYS_USER1 <= reg.intno <= INT_SYS_USER4
    requires algorithm == 0 || algorithm == 2 || algorithm == 3
    requires algorithm == 2 ==> reg.intno != INT_SYS_USER1
    requires algorithm == 3 ==> reg.intno != INT_SYS_USER2
    ensures Weights(algorithm, SystemCall(s, reg).procs) == Weights(algorithm, s.procs)
    ensures TurnOf(algorithm, SystemCall(s, reg)) == TurnOf(algorithm, s)
    ensures TurnsNotStarted(s) ==> TurnsNotStarted(SystemCall(s, reg))
  {
    var c := SystemCall(s, reg);
    forall i: nat | i < |s.procs| ensures Weight(algorithm, c.procs, i) == Weight(algorithm, s.procs, i) {
      if algorithm == 2 {
        assert forall j :: 0 <= j < |s.procs| ==>
          c.procs[j].priority == s.procs[j].priority && c.procs[j].state == s.procs[j].state;
      }
    }
  }

  /** A steady step keeps the weights, and advances the turn if it is a decision. */
  lemma SteadyStep(algorithm: int, s: System, reg: Registers, s': System)
    requires algorithm == 0 || algorithm == 2 || algorithm == 3
    requires WellFormed(s) && KernelStep(algorithm, s, reg, s') && Steady(algorithm, [reg])
    requires algorithm == 3 ==> TurnsNotStarted(s)
    ensures |s'.procs| == |s.procs| && s'.current < |s.procs|
    ensures algorithm == 3 ==> TurnsNotStarted(s')
    ensures Weights(algorithm, s'.procs) == Weights(algorithm, s.procs)
    ensures TurnMove(Weights(algorithm, s.procs), TurnOf(algorithm, s), IsDecision(reg), TurnOf(algorithm, s'))
  {
    assert Steady(algorithm, [reg]) ==> [reg][0] == reg;
    if IsDecision(reg) {
      SavingKeepsWeights(algorithm, s, reg);
      if algorithm == 3 {
        ShareDecisionAdvances(BeforeSchedule(s, reg), s');
      } else {
        RoundRobinDecisionAdvances(algorithm, BeforeSchedule(s, reg), s');
      }
    } else {
      CallKeepsWeights(algorithm, s, reg);
    }
  }

  lemma {:induction false} SteadyRunKeepsWeights(algorithm: int, states: seq<System>, events: seq<Registers>, k: nat)
    requires algorithm == 0 || algorithm == 2 || algorithm == 3
    requires IsRun(algorithm, states, events) && Steady(algorithm, events) && k <= |events|
    requires algorithm == 3 ==> TurnsNotStarted(states[0])
    ensures Weights(algorithm, states[k].procs) == Weights(algorithm, states[0].procs)
    ensures algorithm == 3 ==> TurnsNotStarted(states[k])
  {
    if k > 0 {
      SteadyRunKeepsWeights(algorithm, states, events, k - 1);
      SteadyStep(algorithm, states[k - 1], events[k - 1], states[k]);
    }
  }

  function Useds(algorithm: int, states: seq<System>): seq<nat>
    requires forall k :: 0 <= k < |states| ==> states[k].current < |states[k].procs|
  {
    seq(|states|, k requires 0 <= k < |states| => TurnOf(algorithm, states[k]).used)
  }

  lemma SteadyRunTakesTurns(algorithm: int, states: seq<System>, events: seq<Registers>)
    requires algorithm == 0 || algorithm == 2 || algorithm == 3
    requires IsRun(algorithm, states, events) && Steady(algorithm, events)
    requires algorithm == 3 ==> TurnsNotStarted(states[0])
    ensures TurnRun(Weights(algorithm, states[0].procs), Currents(states), Useds(algorithm, states), Decided(events))
  {
    var w := Weights(algorithm, states[0].procs);
    forall k | 0 <= k <= |events| ensures states[k].current < |w| {
      SteadyRunKeepsWeights(algorithm, states, events, k);
    }
    forall k | 0 <= k < |events|
      ensures TurnMove(w, TurnOf(algorithm, states[k]), IsDecision(events[k]), TurnOf(algorithm, states[k + 1]))
    {
      SteadyRunMoves(algorithm, states, events, k);
    }
  }

  lemma SteadyRunMoves(algorithm: int, states: seq<System>, events: seq<Registers>, k: nat)
    requires algorithm == 0 || algorithm == 2 || algorithm == 3
    requires IsRun(algorithm, states, events) && Steady(algorithm, events) && k < |events|
    requires algorithm == 3 ==> TurnsNotStarted(states[0])
    ensures states[k].current < |states[0].procs|
    ensures TurnMove(Weights(algorithm, states[0].procs), TurnOf(algorithm, states[k]), IsDecision(events[k]),
                     TurnOf(algorithm, states[k + 1]))
  {
    SteadyRunKeepsWeights(algorithm, states, events, k);
    SteadyStep(algorithm, states[k], events[k], states[k + 1]);
  }

  /** Exact shares, for round robin, priorities and proportional share alike: while the runnable set and the
      policy's parameters stay fixed, any window of as many decisions as the weights add up to picks every
      process exactly as often as its weight. System calls in between make no difference. */
  lemma EveryWindowIsExact(algorithm: int, states: seq<System>, events: seq<Registers>, i: nat)
    requires algorithm == 0 || algorithm == 2 || algorithm == 3
    requires IsRun(algorithm, states, events) && Steady(algorithm, events) && i < |states[0].procs|
    requires algorithm == 3 ==> TurnsNotStarted(states[0])
    requires Decisions(Decided(events)) == Total(Weights(algorithm, states[0].procs))
    ensures Picks(Currents(states), Decided(events), i) == Weight(algorithm, states[0].procs, i)
  {
    SteadyRunTakesTurns(algorithm, states, events);
    TurnsAreExact(Weights(algorithm, states[0].procs), Currents(states), Useds(algorithm, states), Decided(events), i);
  }

  /** The condition the exactness of policy 3 starts from holds initially and is kept by every step, exits and
      changes of share included. */
  lemma TurnsStayNotStarted(s: System, reg: Registers, s': System)
    requires WellFormed(s) && KernelStep(3, s, reg, s') && TurnsNotStarted(s)
    ensures TurnsNotStarted(s')
    ensures IsDecision(reg) ==> 1 <= s'.procs[s'.current].timePassed <= s'.procs[s'.current].share
  {
    if IsDecision(reg) {
      ShareDecisionAdvances(BeforeSchedule(s, reg), s');
    }
  }

  lemma InitialTurnsNotStarted(entries: seq<int>)
    requires 1 <= |entries|
    ensures TurnsNotStarted(Initial(entries))
  {}

  /** Policy 2 runs a process of least priority number, also when every number is INT_MAX. */
  lemma PriorityPickIsMinimal(s: System, reg: Registers, s': System)
    requires WellFormed(s) && KernelStep(2, s, reg, s') && IsDecision(reg)
    ensures s'.current < |s'.procs| && MostUrgent(s'.procs, s'.current)
  {
    var b := BeforeSchedule(s, reg);
    assert MostUrgentSlots(b.procs)[s'.current];
  }
}

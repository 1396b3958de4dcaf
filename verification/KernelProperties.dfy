/** What every kernel step keeps, and what holds over whole runs of the kernel. */
module KernelProperties {
  import opened Machine
  import opened Lehmer
  import opened Lottery
  import opened Turns
  import opened KernelSpec

  // --- When a decision comes to an end ---------------------------------------------------------------

  lemma {:induction false} FirstWinningDrawExists(procs: seq<Process>, tickets: seq<int>, seed: int, k: nat)
    requires 0 < |tickets| && 1 <= k && WinnerRuns(procs, tickets, seed, k)
    ensures exists j: nat :: j <= k && FirstWinningDraw(procs, tickets, seed, j)
    decreases k
  {
    if j: nat :| 1 <= j < k && WinnerRuns(procs, tickets, seed, j) {
      FirstWinningDrawExists(procs, tickets, seed, j);
    } else {
      assert FirstWinningDraw(procs, tickets, seed, k);
    }
  }

  lemma RoundRobinExists(ready: seq<bool>, s: System, r: nat)
    requires s.current < |s.procs| == |ready| && r < |ready| && ready[r]
    ensures exists s' :: RoundRobin(ready, s, s')
  {
    FirstExists(ready, Succ(|ready|, s.current), r);
    var to: nat :| First(ready, Succ(|ready|, s.current), to);
    assert RoundRobin(ready, s, Dispatch(s, to));
  }

  lemma LotteryFinishes(s: System, t: nat)
    requires t < |s.tickets| <= NUMBERS && 0 <= s.tickets[t] < |s.procs| && IsSeed(s.seed)
    requires s.procs[s.tickets[t]].state.Runnable?
    ensures exists s' :: LotteryHeld(s, s')
  {
    EveryTicketIsDrawn(|s.tickets|, t, s.seed);
    var k: nat :| 1 <= k <= PERIOD && Number(After(s.seed, k)) % |s.tickets| == t;
    assert WinnerRuns(s.procs, s.tickets, s.seed, k);
    FirstWinningDrawExists(s.procs, s.tickets, s.seed, k);
    var j: nat :| j <= k && FirstWinningDraw(s.procs, s.tickets, s.seed, j);
    assert LotteryHeld(s, Dispatch(s.(seed := After(s.seed, j)), Winner(s.tickets, After(s.seed, j))));
  }

  lemma ProportionalShareFinishes(s: System, e: nat)
    requires s.current < |s.procs| && e < |s.procs| && (HasTurnsLeft(s.procs[e]) || Entitled(s.procs[e]))
    ensures exists s' :: Scheduled(3, s, s')
  {
    var slots := if NoTurnsLeft(s.procs) then EntitledSlots(s.procs) else SlotsWithTurnsLeft(s.procs);
    if !NoTurnsLeft(s.procs) {
      var i: nat :| i < |s.procs| && HasTurnsLeft(s.procs[i]);
      assert slots[i];
      FirstExists(slots, s.current, i);
    } else {
      assert slots[e];
      FirstExists(slots, s.current, e);
    }
    var to: nat :| First(slots, s.current, to);
    assert Scheduled(3, s, Dispatch(s.(procs := Charged(s.procs, s.current, to)), to));
  }

  /** schedule() ends in a dispatch exactly when its policy has a process to run: some runnable process for
      policies 0 and 2, one with a share or turns left for policy 3, a runnable ticket holder for policy 4
      once NPROCS - 1 tickets are sold, and for policy 1 a runnable caller or a slot after it. */
  lemma ScheduleEndsExactlyWhen(algorithm: int, s: System)
    requires 2 <= |s.procs| && s.current < |s.procs| && IsSeed(s.seed) && |s.tickets| <= MAX_TICKETS
    requires forall t :: 0 <= t < |s.tickets| ==> 1 <= s.tickets[t] < |s.procs|
    ensures CanSchedule(algorithm, s) <==> exists s' :: Scheduled(algorithm, s, s')
  {
    if CanSchedule(algorithm, s) {
      if algorithm == 3 {
        var e: nat :| e < |s.procs| && (HasTurnsLeft(s.procs[e]) || Entitled(s.procs[e]));
        ProportionalShareFinishes(s, e);
      } else if algorithm == 1 {
        assert Scheduled(1, s, Dispatch(s, FirstComeSlot(s)));
      } else if algorithm == 4 && |s.tickets| >= |s.procs| - 1 {
        var t: nat :| t < |s.tickets| && s.procs[s.tickets[t]].state.Runnable?;
        LotteryFinishes(s, t);
        var s' :| LotteryHeld(s, s');
        assert Scheduled(4, s, s');
      } else {
        var r: nat :| r < |s.procs| && s.procs[r].state.Runnable?;
        var u := SomeMostUrgent(s.procs, r);
        var ready := if algorithm == 2 then MostUrgentSlots(s.procs) else RunnableSlots(s.procs);
        RoundRobinExists(ready, s, if algorithm == 2 then u else r);
        var s' :| RoundRobin(ready, s, s');
        assert Scheduled(algorithm, s, s');
      }
    }
    if s' :| Scheduled(algorithm, s, s') {
      ScheduledCouldEnd(algorithm, s, s');
    }
  }

  lemma ScheduledCouldEnd(algorithm: int, s: System, s': System)
    requires s.current < |s.procs| && Scheduled(algorithm, s, s')
    ensures CanSchedule(algorithm, s)
  {
    if algorithm == 4 && |s.tickets| >= |s.procs| - 1 {
      var k: nat :| FirstWinningDraw(s.procs, s.tickets, s.seed, k) && k <= PERIOD;
      assert WinnerRuns(s.procs, s.tickets, s.seed, k);
      var t := Number(After(s.seed, k)) % |s.tickets|;
      assert s.procs[s.tickets[t]].state.Runnable?;
    } else if algorithm != 1 {
      assert s.procs[s'.current].state.Runnable?;
    }
  }

  // --- What a step keeps -----------------------------------------------------------------------------

  /** The parts of a process that only system calls change. */
  predicate SameButCounter(p: Process, q: Process)
  {
    q == p.(timePassed := q.timePassed)
  }

  lemma ScheduledEffect(algorithm: int, s: System, s': System)
    requires s.current < |s.procs| && Scheduled(algorithm, s, s')
    requires forall i :: 0 <= i < |s.procs| ==> 0 <= s.procs[i].timePassed
    ensures |s'.procs| == |s.procs| && s'.current < |s.procs| && s'.cpu == s'.procs[s'.current].registers
    ensures s'.tickets == s.tickets && s'.cursor == s.cursor && s'.memory == s.memory && s'.lock == s.lock
    ensures IsSeed(s.seed) ==> IsSeed(s'.seed)
    ensures forall i :: 0 <= i < |s.procs| ==> SameButCounter(s.procs[i], s'.procs[i]) && 0 <= s'.procs[i].timePassed
    ensures algorithm != 1 ==> s'.procs[s'.current].state.Runnable?
  {
    if algorithm == 4 && |s.tickets| >= |s.procs| - 1 {
      var k: nat :| && FirstWinningDraw(s.procs, s.tickets, s.seed, k) && k <= PERIOD
                    && s' == Dispatch(s.(seed := After(s.seed, k)), Winner(s.tickets, After(s.seed, k)));
      assert WinnerRuns(s.procs, s.tickets, s.seed, k);
      if IsSeed(s.seed) {
        AfterKeepsSeeds(s.seed, k);
      }
    }
  }

  /** Everything one step does to the process table: only the interrupted process has its registers, state and
      attributes changed, it leaves the runnable state only by sys_exit, and the process resumed gets exactly
      the registers its descriptor holds. */
  lemma StepEffect(algorithm: int, s: System, reg: Registers, s': System)
    requires WellFormed(s) && KernelStep(algorithm, s, reg, s')
    ensures |s'.procs| == |s.procs| && s'.current < |s.procs| && s'.cpu == s'.procs[s'.current].registers
    ensures forall i :: 0 <= i < |s.procs| && i != s.current ==> SameButCounter(s.procs[i], s'.procs[i])
    ensures s'.procs[s.current].registers == reg
    ensures s'.procs[s.current].state == if reg.intno == INT_SYS_EXIT then Zombie else Runnable
    ensures !IsDecision(reg) ==> s'.current == s.current
    ensures s.tickets <= s'.tickets
  {
    if IsDecision(reg) {
      ScheduledEffect(algorithm, BeforeSchedule(s, reg), s');
    }
  }

  /** What becomes of the interrupted process, of tickets, screen and lock, interrupt by interrupt: the clock (32),
      sys_yield (48) and sys_exit (49) lead to a decision, the others resume the caller. sys_exit keeps %eax as the
      status, sys_user1 (50) sets the priority to it and sys_user2 (51) the share, sys_user3 (52) stores its low 16
      bits at the cursor, and sys_user4 (53) sells the caller one of 200 tickets. Nothing else changes. */
  lemma InterruptEffect(algorithm: int, s: System, reg: Registers, s': System)
    requires WellFormed(s) && KernelStep(algorithm, s, reg, s')
    ensures IsDecision(reg) <==> reg.intno == 32 || reg.intno == 48 || reg.intno == 49
    ensures !IsDecision(reg) ==> 50 <= reg.intno <= 53 && s'.current == s.current
    ensures |s'.procs| == |s.procs|
    ensures var p, q := s.procs[s.current], s'.procs[s.current];
            q == p.(registers := reg, state := if reg.intno == 49 then Zombie else Runnable,
                    exitStatus := if reg.intno == 49 then Signed(reg.eax) else p.exitStatus,
                    priority := if reg.intno == 50 then Signed(reg.eax) else p.priority,
                    share := if reg.intno == 51 then Signed(reg.eax) else p.share,
                    timePassed := q.timePassed)
    ensures s'.cursor == (if reg.intno == 52 then s.cursor + 1 else s.cursor)
    ensures s'.memory == (if reg.intno == 52 then s.memory[s.cursor := Unsigned(reg.eax) % 0x1_0000] else s.memory)
    ensures s'.tickets == (if reg.intno == 53 && |s.tickets| < 200 then s.tickets + [s.current] else s.tickets)
    ensures s'.lock == s.lock
  {
    if IsDecision(reg) {
      ScheduledEffect(algorithm, BeforeSchedule(s, reg), s');
    }
  }

  /** Only policy 3 counts turns. A decision gives the process it picks one turn more, or a first one when it had
      none left, and sets back the counters of runnable processes without turns left only. */
  lemma CountersEffect(algorithm: int, s: System, reg: Registers, s': System, i: nat)
    requires WellFormed(s) && KernelStep(algorithm, s, reg, s') && i < |s.procs|
    ensures |s'.procs| == |s.procs|
    ensures var p, q := s.procs[i], s'.procs[i];
            if algorithm != 3 || !IsDecision(reg) then q.timePassed == p.timePassed
            else if i == s'.current then
              q.timePassed == if p.timePassed < p.share then p.timePassed + 1 else 1
            else
              q.timePassed != p.timePassed ==> q.state.Runnable? && p.share <= p.timePassed && q.timePassed == 0
  {
    if IsDecision(reg) && algorithm == 3 {
      CountersAfterDecision(BeforeSchedule(s, reg), s', i);
    }
  }

  lemma CountersAfterDecision(b: System, s': System, i: nat)
    requires b.current < |b.procs| && Scheduled(3, b, s') && i < |b.procs|
    ensures |s'.procs| == |b.procs|
    ensures var p, q := b.procs[i], s'.procs[i];
            if i == s'.current then
              q.timePassed == if p.timePassed < p.share then p.timePassed + 1 else 1
            else
              q.timePassed != p.timePassed ==> p.state.Runnable? && p.share <= p.timePassed && q.timePassed == 0
  {
    var slots := if NoTurnsLeft(b.procs) then EntitledSlots(b.procs) else SlotsWithTurnsLeft(b.procs);
    assert slots[s'.current];
    if HasTurnsLeft(b.procs[i]) && !NoTurnsLeft(b.procs) {
      assert slots[i];
    }
  }

  lemma SystemCallKeepsWellFormed(s: System, reg: Registers)
    requires WellFormed(s)
    ensures WellFormed(Dispatch(SystemCall(s, reg), s.current))
  {}

  lemma StepKeepsWellFormed(algorithm: int, s: System, reg: Registers, s': System)
    requires algorithm != 1 && WellFormed(s) && KernelStep(algorithm, s, reg, s')
    ensures WellFormed(s')
  {
    if IsDecision(reg) {
      ScheduledEffect(algorithm, BeforeSchedule(s, reg), s');
    } else {
      SystemCallKeepsWellFormed(s, reg);
    }
  }

  // --- Policy 1 --------------------------------------------------------------------------------------

  /** The interrupted process goes on, or the slot after it is runnable. */
  predicate NextInOrder(s: System, reg: Registers)
  {
    reg.intno == INT_SYS_EXIT ==> s.current + 1 < |s.procs| && s.procs[s.current + 1].state.Runnable?
  }

  /** Policy 1 stays with a process until that exits and then runs the slot after it unchecked. */
  lemma FirstComeStep(s: System, reg: Registers, s': System)
    requires WellFormed(s) && KernelStep(1, s, reg, s')
    ensures s'.current == if reg.intno == INT_SYS_EXIT then s.current + 1 else s.current
    ensures WellFormed(s') <==> NextInOrder(s, reg)
  {
    if IsDecision(reg) {
      ScheduledEffect(1, BeforeSchedule(s, reg), s');
    } else {
      SystemCallKeepsWellFormed(s, reg);
    }
  }

  /** A decision of policy 1 resumes a process exactly when it is not the exit of the last slot's process. */
  lemma FirstComeDecides(s: System, reg: Registers)
    requires WellFormed(s) && IsDecision(reg)
    ensures (exists s' :: KernelStep(1, s, reg, s')) <==> !(reg.intno == INT_SYS_EXIT && s.current == |s.procs| - 1)
  {
    var b := BeforeSchedule(s, reg);
    if FirstComeSlot(b) < |b.procs| {
      assert KernelStep(1, s, reg, Dispatch(b, FirstComeSlot(b)));
    }
  }

  /** A decision of policy 1 resumes a process and leaves the kernel well formed exactly when the next process in
      order is there to be run. */
  lemma FirstComeIsSafeExactlyWhen(s: System, reg: Registers)
    requires WellFormed(s) && IsDecision(reg)
    ensures (exists s' :: KernelStep(1, s, reg, s') && WellFormed(s')) <==> NextInOrder(s, reg)
  {
    if s' :| KernelStep(1, s, reg, s') && WellFormed(s') {
      FirstComeStep(s, reg, s');
    }
    if NextInOrder(s, reg) {
      FirstComeDecides(s, reg);
      var s' :| KernelStep(1, s, reg, s');
      FirstComeStep(s, reg, s');
    }
  }

  /** The slots from the current one on are runnable, and those before it are not. */
  predicate InOrder(s: System)
  {
    forall i :: 0 <= i < |s.procs| ==> (s.procs[i].state.Runnable? <==> s.current <= i)
  }

  /** What every policy keeps; policy 1 also relies on its order. */
  ghost predicate Sound(algorithm: int, s: System)
  {
    WellFormed(s) && (algorithm == 1 ==> InOrder(s))
  }

  lemma StepKeepsSound(algorithm: int, s: System, reg: Registers, s': System)
    requires Sound(algorithm, s) && KernelStep(algorithm, s, reg, s')
    ensures Sound(algorithm, s')
  {
    if algorithm != 1 {
      StepKeepsWellFormed(algorithm, s, reg, s');
    } else {
      FirstComeStep(s, reg, s');
      StepEffect(1, s, reg, s');
      forall i | 0 <= i < |s'.procs| ensures s'.procs[i].state.Runnable? <==> s'.current <= i {
        assert i != s.current ==> SameButCounter(s.procs[i], s'.procs[i]);
      }
    }
  }

  // --- Decisions are deterministic -------------------------------------------------------------------

  /** A state leaves schedule() no choice, the lottery included: its draws follow from the seed. */
  lemma ScheduledIsDeterministic(algorithm: int, s: System, a: System, b: System)
    requires s.current < |s.procs| && Scheduled(algorithm, s, a) && Scheduled(algorithm, s, b)
    ensures a == b
  {
    var n := |s.procs|;
    if algorithm == 0 || (algorithm == 4 && |s.tickets| < n - 1) {
      FirstIsUnique(RunnableSlots(s.procs), Succ(n, s.current), a.current, b.current);
    } else if algorithm == 2 {
      FirstIsUnique(MostUrgentSlots(s.procs), Succ(n, s.current), a.current, b.current);
    } else if algorithm == 3 {
      var slots := if NoTurnsLeft(s.procs) then EntitledSlots(s.procs) else SlotsWithTurnsLeft(s.procs);
      FirstIsUnique(slots, s.current, a.current, b.current);
    } else if algorithm == 4 {
      var j: nat :| FirstWinningDraw(s.procs, s.tickets, s.seed, j)
                    && a == Dispatch(s.(seed := After(s.seed, j)), Winner(s.tickets, After(s.seed, j)));
      var k: nat :| FirstWinningDraw(s.procs, s.tickets, s.seed, k)
                    && b == Dispatch(s.(seed := After(s.seed, k)), Winner(s.tickets, After(s.seed, k)));
      assert j == k;
    }
  }

  /** So does an interrupt: the state and the saved registers determine the next state. */
  lemma StepIsDeterministic(algorithm: int, s: System, reg: Registers, a: System, b: System)
    requires s.current < |s.procs| && KernelStep(algorithm, s, reg, a) && KernelStep(algorithm, s, reg, b)
    ensures a == b
  {
    if IsDecision(reg) {
      ScheduledIsDeterministic(algorithm, BeforeSchedule(s, reg), a, b);
    }
  }

  // --- Policy 3 --------------------------------------------------------------------------------------

  /** The process policy 3 picks has used at least one turn and at most its share, whatever the counters were. */
  lemma PickedTurnsAreBounded(s: System, s': System)
    requires s.current < |s.procs| && Scheduled(3, s, s')
    requires forall i :: 0 <= i < |s.procs| ==> 0 <= s.procs[i].timePassed
    ensures s'.current < |s'.procs|
    ensures 1 <= s'.procs[s'.current].timePassed <= s'.procs[s'.current].share
  {}
}

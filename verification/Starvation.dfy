/** Under policy 2 and SchedOS's own priorities application 1 may hold the lock for any number of quanta. */
module Starvation {
  import opened Machine
  import opened Turns
  import opened KernelSpec
  import opened KernelProperties
  import opened Applications
  import opened WholeSystem
  import opened Release

  // --- The system while all processes run ------------------------------------------------------------

  /** Process i is runnable with number priorities[i - 1], its priority or under policy 3 its share, and application
      i - 1 is where apps says. */
  ghost predicate Looks(algorithm: int, c: Config, w: Whole, current: nat, lock: int, priorities: seq<int>, apps: seq<App>)
  {
    && Sized(c, w) && Safe(algorithm, c, w) && w.kernel.current == current && w.kernel.lock == lock && w.apps == apps
    && AllRun(algorithm, w.kernel.procs, priorities)
  }

  /** The number policy 2 or 3 goes by. */
  function Number(algorithm: int, p: Process): int
  {
    if algorithm == 3 then p.share else p.priority
  }

  /** The system call that sets it. */
  function NumberCall(algorithm: int): int
  {
    if algorithm == 3 then INT_SYS_USER2 else INT_SYS_USER1
  }

  predicate AllRun(algorithm: int, procs: seq<Process>, numbers: seq<int>)
  {
    && |procs| == |numbers| + 1
    && forall i :: 1 <= i < |procs| ==> procs[i].state.Runnable? && Number(algorithm, procs[i]) == numbers[i - 1]
  }

  /** The slots of least priority number. */
  function UrgentSlots(priorities: seq<int>): seq<bool>
  {
    seq(|priorities| + 1, i requires 0 <= i <= |priorities| => i > 0 && Least(priorities, i - 1))
  }

  predicate Least(priorities: seq<int>, i: nat)
    requires i < |priorities|
  {
    forall j :: 0 <= j < |priorities| ==> priorities[i] <= priorities[j]
  }

  function Called(c: Config, w: Whole, reg: Registers): Whole
    requires Sized(c, w)
  {
    var p := w.kernel.current - 1;
    Whole(Dispatch(SystemCall(w.kernel, reg), w.kernel.current), w.apps[p := NextApp(c, View(w), w.apps[p], true)])
  }

  /** A system call that resumes its caller. */
  lemma CallLooks(algorithm: int, c: Config, w: Whole, current: nat, lock: int, priorities: seq<int>, apps: seq<App>,
                  reg: Registers)
    requires Looks(algorithm, c, w, current, lock, priorities, apps) && INT_SYS_USER1 <= reg.intno <= INT_SYS_USER4
    requires Raises(c, current - 1, apps[current - 1].pc, reg)
    ensures WholeStep(algorithm, c, w, Trap(reg), Called(c, w, reg))
    ensures Looks(algorithm, c, Called(c, w, reg), current, lock,
                  if reg.intno == NumberCall(algorithm) then priorities[current - 1 := Signed(reg.eax)] else priorities,
                  apps[current - 1 := NextApp(c, View(w), apps[current - 1], true)])
  {
    hide Invariant;
    WholeStepIsSafe(algorithm, c, w, Trap(reg), Called(c, w, reg));
  }

  function Instructed(c: Config, w: Whole): Whole
    requires Sized(c, w)
  {
    var s' := Next(c, View(w), w.kernel.current - 1, true);
    Whole(w.kernel.(lock := s'.lock, cursor := s'.cursor, memory := s'.cells), s'.apps)
  }

  /** An instruction of the running application. */
  lemma InstructionLooks(algorithm: int, c: Config, w: Whole, current: nat, lock: int, priorities: seq<int>,
                         apps: seq<App>)
    requires Looks(algorithm, c, w, current, lock, priorities, apps)
    requires !IsCall(apps[current - 1].pc) && !apps[current - 1].pc.Exited?
    ensures WholeStep(algorithm, c, w, Instruction(true), Instructed(c, w))
    ensures Looks(algorithm, c, Instructed(c, w), current, Next(c, View(w), current - 1, true).lock, priorities,
                  apps[current - 1 := NextApp(c, View(w), apps[current - 1], true)])
  {
    hide Invariant;
    WholeStepIsSafe(algorithm, c, w, Instruction(true), Instructed(c, w));
  }

  const CLOCK_REGISTERS: Registers := ZERO_REGISTERS.(intno := INT_CLOCK)

  function Clocked(w: Whole, to: nat): Whole
    requires w.kernel.current < |w.kernel.procs| && to < |w.kernel.procs|
  {
    Whole(Dispatch(Saved(w.kernel, CLOCK_REGISTERS), to), w.apps)
  }

  /** A clock interrupt resumes the next of the most urgent processes. */
  lemma ClockLooks(c: Config, w: Whole, current: nat, lock: int, priorities: seq<int>, apps: seq<App>, to: nat)
    requires Looks(2, c, w, current, lock, priorities, apps) && current <= |priorities|
    requires First(UrgentSlots(priorities), Succ(|priorities| + 1, current), to)
    ensures to < |w.kernel.procs| && WholeStep(2, c, w, Trap(CLOCK_REGISTERS), Clocked(w, to))
    ensures Looks(2, c, Clocked(w, to), to, lock, priorities, apps)
  {
    hide Invariant;
    var before := Saved(w.kernel, CLOCK_REGISTERS);
    forall i | 0 <= i < |before.procs| ensures MostUrgentSlots(before.procs)[i] == UrgentSlots(priorities)[i] {
      if i > 0 {
        assert MostUrgent(before.procs, i) <==> Least(priorities, i - 1) by {
          SamePriorities(before.procs, priorities, i);
        }
      }
    }
    assert MostUrgentSlots(before.procs) == UrgentSlots(priorities);
    assert Clocked(w, to).kernel == Dispatch(before, to);
    WholeStepIsSafe(2, c, w, Trap(CLOCK_REGISTERS), Clocked(w, to));
  }

  lemma SamePriorities(procs: seq<Process>, priorities: seq<int>, i: nat)
    requires AllRun(2, procs, priorities) && !procs[0].state.Runnable? && 1 <= i < |procs|
    ensures MostUrgent(procs, i) <==> Least(priorities, i - 1)
  {
    if MostUrgent(procs, i) {
      forall j | 0 <= j < |priorities| ensures priorities[i - 1] <= priorities[j] {
        assert procs[j + 1].state.Runnable?;
      }
    }
  }

  // --- Runs, event by event --------------------------------------------------------------------------

  lemma OneMoreEvent(algorithm: int, c: Config, run: seq<Whole>, events: seq<Event>, e: Event, w': Whole)
    requires WholeRun(algorithm, c, run, events) && Sized(c, run[|events|])
    requires WholeStep(algorithm, c, run[|events|], e, w')
    ensures WholeRun(algorithm, c, run + [w'], events + [e])
  {
    hide WholeStep, Boots, Sized;
    var longer, more := run + [w'], events + [e];
    forall k | 0 <= k < |more| ensures Sized(c, longer[k]) && WholeStep(algorithm, c, longer[k], more[k], longer[k + 1]) {
      if k < |events| {
        assert WholeStep(algorithm, c, run[k], events[k], run[k + 1]);
      }
    }
  }

  /** A run that ends in a state of this look. */
  ghost predicate LeadsTo(algorithm: int, c: Config, run: seq<Whole>, events: seq<Event>, current: nat, lock: int,
                          priorities: seq<int>, apps: seq<App>)
  {
    && |run| == |events| + 1 && WholeRun(algorithm, c, run, events)
    && Looks(algorithm, c, run[|events|], current, lock, priorities, apps)
  }

  /** A longer run begins like a shorter one. */
  ghost predicate Extends(run: seq<Whole>, events: seq<Event>, longer: seq<Whole>, more: seq<Event>)
  {
    && |run| == |events| + 1 && |longer| == |more| + 1 && |events| <= |more|
    && longer[..|run|] == run && more[..|events|] == events
  }

  lemma Call(algorithm: int, c: Config, run: seq<Whole>, events: seq<Event>, current: nat, lock: int,
             priorities: seq<int>, apps: seq<App>, reg: Registers, after: App)
    returns (longer: seq<Whole>, more: seq<Event>)
    requires LeadsTo(algorithm, c, run, events, current, lock, priorities, apps)
    requires INT_SYS_USER1 <= reg.intno <= INT_SYS_USER4
    requires 1 <= current <= |apps| == |c.chars| == |priorities| && Raises(c, current - 1, apps[current - 1].pc, reg)
    requires after == NextApp(c, View(run[|events|]), apps[current - 1], true)
    ensures LeadsTo(algorithm, c, longer, more, current, lock,
                    if reg.intno == NumberCall(algorithm) then priorities[current - 1 := Signed(reg.eax)] else priorities,
                    apps[current - 1 := after])
    ensures Extends(run, events, longer, more) && more == events + [Trap(reg)]
  {
    hide WholeStep, Safe, WholeRun, Raises, AllRun;
    var w := run[|events|];
    CallLooks(algorithm, c, w, current, lock, priorities, apps, reg);
    OneMoreEvent(algorithm, c, run, events, Trap(reg), Called(c, w, reg));
    longer, more := run + [Called(c, w, reg)], events + [Trap(reg)];
  }

  lemma Instruct(algorithm: int, c: Config, run: seq<Whole>, events: seq<Event>, current: nat, lock: int,
                 priorities: seq<int>, apps: seq<App>, after: App, lock': int)
    returns (longer: seq<Whole>, more: seq<Event>)
    requires LeadsTo(algorithm, c, run, events, current, lock, priorities, apps)
    requires 1 <= current <= |apps| == |c.chars| == |priorities|
    requires !IsCall(apps[current - 1].pc) && !apps[current - 1].pc.Exited?
    requires after == NextApp(c, View(run[|events|]), apps[current - 1], true)
    requires lock' == if apps[current - 1].pc.Swap? then 1 else if apps[current - 1].pc.Release? then 0 else lock
    ensures LeadsTo(algorithm, c, longer, more, current, lock', priorities, apps[current - 1 := after])
    ensures Extends(run, events, longer, more) && more == events + [Instruction(true)]
  {
    hide WholeStep, Safe, WholeRun, AllRun;
    var w := run[|events|];
    InstructionLooks(algorithm, c, w, current, lock, priorities, apps);
    OneMoreEvent(algorithm, c, run, events, Instruction(true), Instructed(c, w));
    longer, more := run + [Instructed(c, w)], events + [Instruction(true)];
  }

  lemma Clock(c: Config, run: seq<Whole>, events: seq<Event>, current: nat, lock: int, priorities: seq<int>,
              apps: seq<App>, to: nat) returns (longer: seq<Whole>, more: seq<Event>)
    requires LeadsTo(2, c, run, events, current, lock, priorities, apps) && current <= |priorities|
    requires First(UrgentSlots(priorities), Succ(|priorities| + 1, current), to)
    ensures LeadsTo(2, c, longer, more, to, lock, priorities, apps)
    ensures Extends(run, events, longer, more) && more == events + [Trap(CLOCK_REGISTERS)]
  {
    hide WholeStep, Safe, WholeRun, AllRun, First;
    var w := run[|events|];
    ClockLooks(c, w, current, lock, priorities, apps, to);
    OneMoreEvent(2, c, run, events, Trap(CLOCK_REGISTERS), Clocked(w, to));
    longer, more := run + [Clocked(w, to)], events + [Trap(CLOCK_REGISTERS)];
  }

  /** What an application does up to its first try for the lock: its three system calls and the loop test. */
  lemma SetsUp(algorithm: int, c: Config, run: seq<Whole>, events: seq<Event>, current: nat, lock: int,
               priorities: seq<int>, apps: seq<App>, priority: int, share: int)
    returns (longer: seq<Whole>, more: seq<Event>)
    requires LeadsTo(algorithm, c, run, events, current, lock, priorities, apps) && 0 < c.rounds && c.syncMethod == 1
    requires 1 <= current <= |apps| == |c.chars| == |priorities| && apps[current - 1] == App(SetPriority, 0, 0)
    requires 0 <= priority < 0x8000_0000 && 0 <= share < 0x8000_0000
    ensures LeadsTo(algorithm, c, longer, more, current, lock,
                    priorities[current - 1 := if algorithm == 3 then share else priority],
                    apps[current - 1 := App(Swap, 0, 0)])
  {
    hide Looks, WholeRun, Extends;
    var p := current - 1;
    var called, calls := Call(algorithm, c, run, events, current, lock, priorities, apps,
                              ZERO_REGISTERS.(intno := INT_SYS_USER1, eax := priority), App(SetShare, 0, 0));
    var ps, now := if algorithm == 3 then priorities else priorities[p := priority], apps[p := App(SetShare, 0, 0)];
    called, calls := Call(algorithm, c, called, calls, current, lock, ps, now,
                          ZERO_REGISTERS.(intno := INT_SYS_USER2, eax := share), App(GetTicket, 0, 0));
    ps, now := priorities[p := if algorithm == 3 then share else priority], now[p := App(GetTicket, 0, 0)];
    called, calls := Call(algorithm, c, called, calls, current, lock, ps, now,
                          ZERO_REGISTERS.(intno := INT_SYS_USER4), App(LoopTest, 0, 0));
    now := now[p := App(LoopTest, 0, 0)];
    longer, more := Instruct(algorithm, c, called, calls, current, lock, ps, now, App(Swap, 0, 0), lock);
    assert now[p := App(Swap, 0, 0)] == apps[p := App(Swap, 0, 0)];
  }

  // --- SchedOS's own priorities ----------------------------------------------------------------------

  const PRIORITIES: seq<int> := [5, 1, 6, 1]

  const SPINNING: App := App(Swap, 0, 0)
  const HOLDING: App := App(SwapTest, 0, 0)
  const FRESH: App := App(SetPriority, 0, 0)

  lemma InitialRuns(algorithm: int, entries: seq<int>)
    requires 1 <= |entries|
    ensures AllRun(algorithm, Initial(entries).procs, seq(|entries|, i => 1))
  {}

  lemma Boot(algorithm: int, c: Config, entries: seq<int>) returns (run: seq<Whole>, events: seq<Event>)
    requires ValidConfig(c) && 1 <= |c.chars| == |entries|
    ensures LeadsTo(algorithm, c, run, events, 1, 0, seq(|c.chars|, i => 1), seq(|c.chars|, i => FRESH))
  {
    hide Safe, AllRun, WellFormed, Invariant, ClearedCell;
    var w := Whole(Initial(entries), Start(c).apps);
    assert Boots(c, w);
    BootIsSafe(algorithm, c, w);
    InitialRuns(algorithm, entries);
    assert Start(c).apps == seq(|c.chars|, i => FRESH);
    run, events := [w], [];
  }

  /** The order in which policy 2 picks the processes. */
  lemma Picks()
    ensures First(UrgentSlots([5, 1, 1, 1]), Succ(5, 1), 2) && First(UrgentSlots([5, 1, 1, 1]), Succ(5, 2), 3)
    ensures First(UrgentSlots(PRIORITIES), Succ(5, 3), 4) && First(UrgentSlots(PRIORITIES), Succ(5, 4), 2)
    ensures Least(PRIORITIES, 1) && Least(PRIORITIES, 3) && !Least(PRIORITIES, 0) && !Least(PRIORITIES, 2)
  {
    assert PRIORITIES[1] < PRIORITIES[0] && PRIORITIES[1] < PRIORITIES[2];
    assert [5, 1, 1, 1][1] < [5, 1, 1, 1][0];
    assert UrgentSlots([5, 1, 1, 1]) == [false, false, true, true, true];
    assert UrgentSlots(PRIORITIES) == [false, false, true, false, true];
  }

  /** From boot: process 1 takes the lock and is interrupted, and processes 2, 3 and 4 come to try for it. */
  lemma ReachesStarvation(c: Config, entries: seq<int>) returns (run: seq<Whole>, events: seq<Event>)
    requires ValidConfig(c) && |c.chars| == |entries| == 4 && 0 < c.rounds && c.syncMethod == 1
    ensures LeadsTo(2, c, run, events, 2, 1, PRIORITIES, [HOLDING, SPINNING, SPINNING, SPINNING])
    ensures 0 < |events| && events[|events| - 1] == Trap(CLOCK_REGISTERS)
  {
    hide LeadsTo, Extends, First, UrgentSlots, Least;
    Picks();
    run, events := Boot(2, c, entries);
    assert seq(|c.chars|, i => 1) == [1, 1, 1, 1] && seq(|c.chars|, i => FRESH) == [FRESH, FRESH, FRESH, FRESH];
    run, events := SetsUp(2, c, run, events, 1, 0, [1, 1, 1, 1], [FRESH, FRESH, FRESH, FRESH], 5, 1);
    assert [1, 1, 1, 1][0 := 5] == [5, 1, 1, 1];
    assert [FRESH, FRESH, FRESH, FRESH][0 := SPINNING] == [SPINNING, FRESH, FRESH, FRESH];
    run, events := TakesLock(2, c, run, events, 1, [5, 1, 1, 1], [SPINNING, FRESH, FRESH, FRESH]);
    assert [SPINNING, FRESH, FRESH, FRESH][0 := HOLDING] == [HOLDING, FRESH, FRESH, FRESH];
    run, events := Clock(c, run, events, 1, 1, [5, 1, 1, 1], [HOLDING, FRESH, FRESH, FRESH], 2);
    run, events := SetsUp(2, c, run, events, 2, 1, [5, 1, 1, 1], [HOLDING, FRESH, FRESH, FRESH], 1, 2);
    assert [5, 1, 1, 1][1 := 1] == [5, 1, 1, 1];
    assert [HOLDING, FRESH, FRESH, FRESH][1 := SPINNING] == [HOLDING, SPINNING, FRESH, FRESH];
    run, events := Clock(c, run, events, 2, 1, [5, 1, 1, 1], [HOLDING, SPINNING, FRESH, FRESH], 3);
    run, events := SetsUp(2, c, run, events, 3, 1, [5, 1, 1, 1], [HOLDING, SPINNING, FRESH, FRESH], 6, 3);
    assert [5, 1, 1, 1][2 := 6] == PRIORITIES;
    assert [HOLDING, SPINNING, FRESH, FRESH][2 := SPINNING] == [HOLDING, SPINNING, SPINNING, FRESH];
    run, events := Clock(c, run, events, 3, 1, PRIORITIES, [HOLDING, SPINNING, SPINNING, FRESH], 4);
    run, events := SetsUp(2, c, run, events, 4, 1, PRIORITIES, [HOLDING, SPINNING, SPINNING, FRESH], 1, 4);
    assert PRIORITIES[3 := 1] == PRIORITIES;
    assert [HOLDING, SPINNING, SPINNING, FRESH][3 := SPINNING] == [HOLDING, SPINNING, SPINNING, SPINNING];
    run, events := Clock(c, run, events, 4, 1, PRIORITIES, [HOLDING, SPINNING, SPINNING, SPINNING], 2);
  }

  lemma TakesLock(algorithm: int, c: Config, run: seq<Whole>, events: seq<Event>, current: nat, priorities: seq<int>,
                  apps: seq<App>)
    returns (longer: seq<Whole>, more: seq<Event>)
    requires LeadsTo(algorithm, c, run, events, current, 0, priorities, apps)
    requires 1 <= current <= |apps| == |c.chars| == |priorities| && apps[current - 1] == SPINNING
    ensures LeadsTo(algorithm, c, longer, more, current, 1, priorities, apps[current - 1 := HOLDING])
  {
    longer, more := Instruct(algorithm, c, run, events, current, 0, priorities, apps, HOLDING, 1);
  }

  // --- Spinning --------------------------------------------------------------------------------------

  /** Application h holds the lock and is not among the most urgent, which all try for it; one of these runs. */
  ghost predicate Starving(current: nat, priorities: seq<int>, apps: seq<App>, h: nat)
  {
    && |apps| == |priorities| && h < |apps| && Critical(apps[h]) && !Least(priorities, h)
    && 1 <= current <= |priorities| && Least(priorities, current - 1)
    && forall q :: 0 <= q < |apps| && Least(priorities, q) ==> apps[q].pc.Swap?
  }

  lemma NextLeast(priorities: seq<int>, current: nat) returns (to: nat)
    requires 1 <= current <= |priorities| && Least(priorities, current - 1)
    ensures First(UrgentSlots(priorities), Succ(|priorities| + 1, current), to)
    ensures 1 <= to <= |priorities| && Least(priorities, to - 1)
  {
    assert UrgentSlots(priorities)[current];
    FirstExists(UrgentSlots(priorities), Succ(|priorities| + 1, current), current);
    to :| First(UrgentSlots(priorities), Succ(|priorities| + 1, current), to);
  }

  lemma ExtendsOn(run: seq<Whole>, events: seq<Event>, mid: seq<Whole>, mids: seq<Event>, longer: seq<Whole>,
                  more: seq<Event>)
    requires Extends(run, events, mid, mids) && Extends(mid, mids, longer, more)
    ensures Extends(run, events, longer, more)
  {
    assert longer[..|run|] == longer[..|mid|][..|run|] && more[..|events|] == more[..|mids|][..|events|];
  }

  lemma FindsLockTaken(c: Config, run: seq<Whole>, events: seq<Event>, current: nat, priorities: seq<int>,
                       apps: seq<App>, tried: App) returns (longer: seq<Whole>, more: seq<Event>)
    requires LeadsTo(2, c, run, events, current, 1, priorities, apps)
    requires 1 <= current <= |apps| == |c.chars| == |priorities| && apps[current - 1].pc.Swap?
    requires tried == apps[current - 1].(pc := SwapTest, reg := 1)
    ensures LeadsTo(2, c, longer, more, current, 1, priorities, apps[current - 1 := tried])
    ensures Extends(run, events, longer, more) && more == events + [Instruction(true)]
  {
    longer, more := Instruct(2, c, run, events, current, 1, priorities, apps, tried, 1);
  }

  /** One quantum of spinning: the swap finds the lock taken, the loop goes back, the clock interrupts. */
  lemma Spins(c: Config, run: seq<Whole>, events: seq<Event>, current: nat, priorities: seq<int>, apps: seq<App>, h: nat)
    returns (longer: seq<Whole>, more: seq<Event>, to: nat, after: seq<App>)
    requires LeadsTo(2, c, run, events, current, 1, priorities, apps) && Starving(current, priorities, apps, h)
    requires |priorities| == |c.chars|
    ensures LeadsTo(2, c, longer, more, to, 1, priorities, after) && Starving(to, priorities, after, h)
    ensures after[h] == apps[h]
    ensures Extends(run, events, longer, more)
    ensures more == events + [Instruction(true), Instruction(true), Trap(CLOCK_REGISTERS)]
  {
    hide Looks, WholeRun, Extends, First, UrgentSlots, Least;
    var p := current - 1;
    var tried, back := apps[p].(pc := SwapTest, reg := 1), apps[p].(reg := 1);
    var r1, e1 := FindsLockTaken(c, run, events, current, priorities, apps, tried);
    var r2, e2 := Instruct(2, c, r1, e1, current, 1, priorities, apps[p := tried], back, 1);
    after := apps[p := back];
    assert apps[p := tried][p := back] == after;
    to := NextLeast(priorities, current);
    longer, more := Clock(c, r2, e2, current, 1, priorities, after, to);
    ExtendsOn(run, events, r1, e1, r2, e2);
    ExtendsOn(run, events, r2, e2, longer, more);
  }

  // --- The lock need never be released ---------------------------------------------------------------

  /** No priority changes and no process exits. */
  predicate Calm(e: Event)
  {
    Mild(2, e) && !(e.Trap? && e.reg.intno == INT_SYS_EXIT)
  }

  predicate CalmFrom(events: seq<Event>, from: nat)
  {
    forall k :: from <= k < |events| ==> Calm(events[k])
  }

  /** Quanta from cuts[0] on, in all of which h holds the lock and nothing changes that policy 2 goes by. */
  ghost predicate HeldThroughout(run: seq<Whole>, events: seq<Event>, cuts: seq<nat>, h: nat)
  {
    && |run| == |events| + 1 && CutIntoQuanta(events, cuts) && cuts[|cuts| - 1] == |events|
    && CalmFrom(events, cuts[0])
    && forall k :: 0 <= k < |cuts| ==> h < |run[cuts[k]].apps| && Critical(run[cuts[k]].apps[h])
  }

  /** Three more events make one more quantum. */
  lemma OneMoreQuantum(run: seq<Whole>, events: seq<Event>, cuts: seq<nat>, h: nat, longer: seq<Whole>, more: seq<Event>)
    requires HeldThroughout(run, events, cuts, h) && Extends(run, events, longer, more)
    requires more == events + [Instruction(true), Instruction(true), Trap(CLOCK_REGISTERS)]
    requires h < |longer[|more|].apps| && Critical(longer[|more|].apps[h])
    ensures HeldThroughout(longer, more, cuts + [|more|], h)
  {
    hide Critical;
    var now := cuts + [|more|];
    forall k | 0 <= k < |now| ensures h < |longer[now[k]].apps| && Critical(longer[now[k]].apps[h]) {
      if k < |cuts| {
        assert longer[..|run|][cuts[k]] == run[cuts[k]];
      }
    }
    forall k | 0 <= k < |now| - 1 ensures QuantumAt(more, now[k], now[k + 1]) {
      if k < |cuts| - 1 {
        assert QuantumAt(events, cuts[k], cuts[k + 1]);
        QuantumStays(events, more, cuts[k], cuts[k + 1]);
      }
    }
    forall k | now[0] <= k < |more| ensures Calm(more[k]) {
      if k < |events| {
        assert Calm(events[k]) && more[k] == events[k];
      }
    }
  }

  lemma QuantumStays(events: seq<Event>, more: seq<Event>, from: nat, to: nat)
    requires QuantumAt(events, from, to) && |events| <= |more| && more[..|events|] == events
    ensures QuantumAt(more, from, to)
  {
    assert forall k :: 0 <= k < |events| ==> more[k] == events[k];
  }

  lemma {:induction false} SpinsOn(c: Config, run: seq<Whole>, events: seq<Event>, current: nat, priorities: seq<int>,
                                   apps: seq<App>, h: nat, n: nat)
    returns (longer: seq<Whole>, more: seq<Event>, to: nat, after: seq<App>, cuts: seq<nat>)
    requires LeadsTo(2, c, run, events, current, 1, priorities, apps) && Starving(current, priorities, apps, h)
    requires |priorities| == |c.chars|
    ensures LeadsTo(2, c, longer, more, to, 1, priorities, after) && Starving(to, priorities, after, h)
    ensures Extends(run, events, longer, more)
    ensures |cuts| == n + 1 && cuts[0] == |events| && HeldThroughout(longer, more, cuts, h)
    decreases n
  {
    hide WholeRun, Safe, Critical, Least, Starving, AllRun, First;
    if n == 0 {
      longer, more, to, after, cuts := run, events, current, apps, [|events|];
      HolderIsCritical(current, priorities, apps, h);
    } else {
      var r, e, t, now, before := SpinsOn(c, run, events, current, priorities, apps, h, n - 1);
      longer, more, to, after := Spins(c, r, e, t, priorities, now, h);
      HolderIsCritical(to, priorities, after, h);
      ExtendsOn(run, events, r, e, longer, more);
      OneMoreQuantum(r, e, before, h, longer, more);
      cuts := before + [|more|];
    }
  }

  lemma HolderIsCritical(current: nat, priorities: seq<int>, apps: seq<App>, h: nat)
    requires Starving(current, priorities, apps, h)
    ensures h < |apps| && Critical(apps[h])
  {}

  /** With SchedOS's own priorities 5, 1, 6 and 1 and policy 2, there is for every n a run from boot in which
      application 1 takes the lock, is interrupted, and has not released it n quanta later: processes 2 and 4, which
      share the least priority number, spin on it in turn. */
  lemma FirstApplicationStarves(c: Config, entries: seq<int>, n: nat)
    returns (run: seq<Whole>, events: seq<Event>, cuts: seq<nat>)
    requires ValidConfig(c) && |c.chars| == |entries| == 4 && 0 < c.rounds && c.syncMethod == 1
    ensures |cuts| == n + 1 && HeldAtDecision(2, c, run, events, cuts, 0) && CalmFrom(events, cuts[0])
    ensures AllRun(2, run[cuts[0]].kernel.procs, PRIORITIES) && !Served(2, run[cuts[0]].kernel, 1)
    ensures forall k :: 0 <= k <= n ==> 0 < |run[cuts[k]].apps| && Critical(run[cuts[k]].apps[0])
  {
    hide LeadsTo, Extends, HeldThroughout, First, Least, UrgentSlots;
    var apps := [HOLDING, SPINNING, SPINNING, SPINNING];
    var start, before := ReachesStarvation(c, entries);
    StarvationBegins(apps);
    var to, after;
    run, events, to, after, cuts := SpinsOn(c, start, before, 2, PRIORITIES, apps, 0, n);
    HeldFromBoot(c, start, before, run, events, cuts, to, after);
  }

  lemma StarvationBegins(apps: seq<App>)
    requires apps == [HOLDING, SPINNING, SPINNING, SPINNING]
    ensures Starving(2, PRIORITIES, apps, 0)
  {
    Picks();
  }

  lemma HeldFromBoot(c: Config, start: seq<Whole>, before: seq<Event>, run: seq<Whole>, events: seq<Event>,
                     cuts: seq<nat>, to: nat, after: seq<App>)
    requires ValidConfig(c) && LeadsTo(2, c, start, before, 2, 1, PRIORITIES, [HOLDING, SPINNING, SPINNING, SPINNING])
    requires 0 < |before| && before[|before| - 1] == Trap(CLOCK_REGISTERS) && |c.chars| == 4
    requires LeadsTo(2, c, run, events, to, 1, PRIORITIES, after) && Extends(start, before, run, events)
    requires HeldThroughout(run, events, cuts, 0) && cuts[0] == |before|
    ensures HeldAtDecision(2, c, run, events, cuts, 0) && CalmFrom(events, cuts[0])
    ensures AllRun(2, run[cuts[0]].kernel.procs, PRIORITIES) && !Served(2, run[cuts[0]].kernel, 1)
    ensures forall k :: 0 <= k < |cuts| ==> 0 < |run[cuts[k]].apps| && Critical(run[cuts[k]].apps[0])
  {
    hide WholeRun, Invariant, Critical, First, Least;
    assert run[cuts[0]] == run[..|start|][|before|] == start[|before|];
    assert events[cuts[0] - 1] == events[..|before|][|before| - 1];
    Picks();
    SamePriorities(run[cuts[0]].kernel.procs, PRIORITIES, 1);
  }

  // --- Policy 3: a share of none ---------------------------------------------------------------------

  lemma ClockIsScheduled(s: System, q: nat) returns (s': System)
    requires WellFormed(s) && q < |s.procs| && Entitled(s.procs[q])
    ensures KernelStep(3, s, CLOCK_REGISTERS, s')
  {
    hide Scheduled;
    var before := BeforeSchedule(s, CLOCK_REGISTERS);
    assert Entitled(before.procs[q]);
    ScheduleEndsExactlyWhen(3, before);
    s' :| Scheduled(3, before, s');
  }

  lemma ClockKeepsShares(s: System, s': System, shares: seq<int>)
    requires WellFormed(s) && KernelStep(3, s, CLOCK_REGISTERS, s') && AllRun(3, s.procs, shares)
    ensures AllRun(3, s'.procs, shares) && s'.lock == s.lock
  {
    hide Scheduled;
    ScheduledEffect(3, BeforeSchedule(s, CLOCK_REGISTERS), s');
  }

  /** A clock interrupt under policy 3 resumes some process when one has a share. */
  lemma ShareClockLooks(c: Config, w: Whole, current: nat, lock: int, shares: seq<int>, apps: seq<App>, q: nat)
    returns (to: nat, w': Whole)
    requires Looks(3, c, w, current, lock, shares, apps) && q < |shares| && shares[q] >= 1
    ensures WholeStep(3, c, w, Trap(CLOCK_REGISTERS), w') && Looks(3, c, w', to, lock, shares, apps)
  {
    hide Invariant, KernelStep, WellFormed;
    assert Entitled(w.kernel.procs[q + 1]);
    var k' := ClockIsScheduled(w.kernel, q + 1);
    w', to := Whole(k', w.apps), k'.current;
    assert WholeStep(3, c, w, Trap(CLOCK_REGISTERS), w');
    WholeStepIsSafe(3, c, w, Trap(CLOCK_REGISTERS), w');
    ClockKeepsShares(w.kernel, k', shares);
  }

  /** From boot under policy 3: application 1 sets its share to 0, takes the lock and is interrupted. */
  lemma ShareOfNoneIsReached(c: Config, entries: seq<int>) returns (run: seq<Whole>, events: seq<Event>)
    requires ValidConfig(c) && 2 <= |c.chars| == |entries| && 0 < c.rounds && c.syncMethod == 1
    ensures |run| == |events| + 1 && HeldAtDecision(3, c, run, events, [|events|], 0)
    ensures 1 < |run[|events|].kernel.procs| && run[|events|].kernel.procs[1].share == 0
  {
    hide LeadsTo, Extends;
    var n := |c.chars|;
    var apps, shares := seq(n, i => FRESH), seq(n, i => 1);
    run, events := Boot(3, c, entries);
    run, events := SetsUp(3, c, run, events, 1, 0, shares, apps, 5, 0);
    shares, apps := shares[0 := 0], apps[0 := SPINNING];
    run, events := TakesLock(3, c, run, events, 1, shares, apps);
    apps := apps[0 := HOLDING];
    run, events := InterruptedHolder(c, run, events, shares, apps);
  }

  lemma InterruptedHolder(c: Config, run: seq<Whole>, events: seq<Event>, shares: seq<int>, apps: seq<App>)
    returns (longer: seq<Whole>, more: seq<Event>)
    requires ValidConfig(c) && LeadsTo(3, c, run, events, 1, 1, shares, apps)
    requires 2 <= |apps| == |shares| == |c.chars| && apps[0] == HOLDING && shares[0] == 0 && shares[1] == 1
    ensures |longer| == |more| + 1 && HeldAtDecision(3, c, longer, more, [|more|], 0)
    ensures 1 < |longer[|more|].kernel.procs| && longer[|more|].kernel.procs[1].share == 0
  {
    hide WholeStep, Safe, WholeRun;
    var w := run[|events|];
    var to, w' := ShareClockLooks(c, w, 1, 1, shares, apps, 1);
    OneMoreEvent(3, c, run, events, Trap(CLOCK_REGISTERS), w');
    longer, more := run + [w'], events + [Trap(CLOCK_REGISTERS)];
  }

  /** In every continuation of that run application 1 keeps the lock. */
  lemma ShareOfNoneStarves(c: Config, run: seq<Whole>, events: seq<Event>, longer: seq<Whole>, more: seq<Event>, k: nat)
    requires |run| == |events| + 1 && HeldAtDecision(3, c, run, events, [|events|], 0)
    requires 1 < |run[|events|].kernel.procs| && run[|events|].kernel.procs[1].share == 0
    requires WholeRun(3, c, longer, more) && Extends(run, events, longer, more) && |events| <= k <= |more|
    ensures 0 < |longer[k].apps| && Critical(longer[k].apps[0])
  {
    hide WholeRun, Critical;
    assert longer[|events|] == longer[..|run|][|events|] == run[|events|];
    assert more[|events| - 1] == more[..|events|][|events| - 1] == events[|events| - 1];
    ShareOfNoneIsForever(c, longer, more, [|events|], 0, k);
  }
}

/** schedos-kern.c: the process table, the five scheduling policies and the interrupt handler, in place. */
module Kernel {
  import opened Machine
  import opened Lehmer
  import opened Lottery
  import opened Turns
  import opened Generator
  import opened KernelSpec
  import opened Searches

  class Kernel {
    const procs: array<Process>
    var current: nat
    var cpu: Registers
    const algorithm: int
    const tickets: array<int>
    var numTickets: nat
    const rng: Rng
    var cursor: int
    var memory: map<int, int>
    var lock: int

    ghost predicate Shape()
      reads this, procs, tickets, rng, rng.seed
    {
      && rng.Valid()
      && Table()
      && tickets.Length == MAX_TICKETS && numTickets <= MAX_TICKETS
      && 1 <= current < procs.Length
      && !procs[0].state.Runnable?
      && (forall t :: 0 <= t < numTickets ==> 1 <= tickets[t] < procs.Length)
    }

    function State(): System
      requires rng.Shape() && numTickets <= tickets.Length
      reads this, procs, tickets, rng, rng.seed
    {
      System(procs[..], current, cpu, tickets[..numTickets], rng.State(), cursor, memory, lock)
    }

    /** The kernel's static data, before start() runs. */
    constructor (n: nat, algorithm: int)
      requires 2 <= n
      ensures procs.Length == n && tickets.Length == MAX_TICKETS && this.algorithm == algorithm
      ensures rng.Valid() && rng.stream == 0
      ensures fresh(procs) && fresh(tickets) && fresh(rng) && fresh(rng.seed)
    {
      procs := new Process[n](i => EmptyProcess(i));
      this.algorithm := algorithm;
      tickets := new int[MAX_TICKETS](i => 0);
      numTickets := 0;
      rng := new Rng();
      current := 0;
      cpu := ZERO_REGISTERS;
      memory := map[];
      cursor := 0;
      lock := 0;
    }

    /** start(): empty descriptors, then every application process loaded and runnable, and process 1 run.
        entries are the entry points the program loader reports. */
    method Start(entries: seq<int>)
      requires 2 <= procs.Length && tickets.Length == MAX_TICKETS && |entries| == procs.Length - 1
      requires rng.Valid() && rng.stream == 0 && memory.Keys <= Cleared(CELLS).Keys
      modifies this, procs, rng, rng.seed
      ensures Shape() && State() == Initial(entries)
    {
      numTickets := 0;
      ConsoleClear();
      LoadProcesses(entries);
      lock := 0;
      cursor := 0;
      rng.PlantSeeds(1);
      assert rng.State() == rng.seed[..][0] as int == 1;
      assert procs[..] == Initial(entries).procs;
      Run(1);
    }

    method ConsoleClear()
      modifies this`cursor, this`memory
      ensures cursor == 0
      ensures forall i :: i in memory <==> i in old(memory) || 0 <= i < CELLS
      ensures forall i :: i in memory ==> memory[i] == if 0 <= i < CELLS then ClearedCell(i) else old(memory)[i]
    {
      cursor := 0;
      for i := 0 to CELLS
        invariant cursor == 0
        invariant forall j :: j in memory <==> j in old(memory) || 0 <= j < i
        invariant forall j :: j in memory ==> memory[j] == if 0 <= j < i then ClearedCell(j) else old(memory)[j]
      {
        memory := memory[cursor + i := 0x20 + 0x0700];
      }
    }

    method LoadProcesses(entries: seq<int>)
      requires |entries| == procs.Length - 1
      modifies procs
      ensures forall j :: 0 <= j < procs.Length ==>
                procs[j] == if j == 0 then EmptyProcess(0) else LoadedProcess(j, entries[j - 1])
    {
      for i := 0 to procs.Length
        invariant forall j :: 0 <= j < i ==> procs[j] == EmptyProcess(j)
      {
        procs[i] := EmptyProcess(i);
      }
      for i := 1 to procs.Length
        invariant forall j :: 0 <= j < procs.Length ==>
                    procs[j] == if 1 <= j < i then LoadedProcess(j, entries[j - 1]) else EmptyProcess(j)
      {
        var registers := SpecialRegisters().(esp := PROC1_START + i * PROC_SIZE, eip := entries[i - 1]);
        procs[i] := procs[i].(registers := registers, share := 1, timePassed := 0, priority := 1, state := Runnable);
      }
    }

    method Run(pid: nat)
      requires pid < procs.Length
      modifies this`current, this`cpu
      ensures current == pid && cpu == procs[pid].registers
    {
      current := pid;
      cpu := procs[pid].registers;
    }

    ghost predicate Table()
      reads this, procs
    {
      && 2 <= procs.Length && current < procs.Length
      && (forall i :: 0 <= i < procs.Length ==> procs[i].pid == i && procs[i].priority <= INT_MAX)
    }

    /** (pid + 1) % NPROCS */
    method NextPid(pid: nat) returns (next: nat)
      requires pid < procs.Length
      ensures next == Succ(procs.Length, pid)
    {
      SuccIsModular(procs.Length, pid);
      next := (pid + 1) % procs.Length;
    }

    /** The inner loop of policy 2. */
    method FindLowest(lowestBefore: int) returns (lowest: int)
      ensures lowest == LowestPriority(procs[..], procs.Length, lowestBefore)
    {
      lowest := lowestBefore;
      for i := 0 to procs.Length
        invariant lowest == LowestPriority(procs[..], i, lowestBefore)
      {
        if procs[i].priority < lowest && procs[i].state.Runnable? {
          lowest := procs[i].priority;
        }
      }
    }

    /** turns counts the turns of the loop before the one that stops. */
    method FindNextRunnable() returns (pid: nat, ghost turns: nat)
      requires Table() && exists i :: 0 <= i < procs.Length && procs[i].state.Runnable?
      ensures First(RunnableSlots(procs[..]), Succ(procs.Length, current), pid)
      ensures StopsAt(0, Search(procs[..], current, INT_MAX), turns, pid)
    {
      hide SlotAt, Unpassed, First;
      var n := procs.Length;
      pid := procs[current].pid;
      turns := 0;
      ghost var entered := Search(procs[..], current, INT_MAX);
      ghost var ready, start := RunnableSlots(procs[..]), Succ(n, current);
      ghost var r: nat :| r < n && procs[r].state.Runnable?;
      LapStarts(ready, start);
      while true
        invariant pid < n && turns <= n && Succ(n, pid) == SlotAt(n, start, turns) && Unpassed(ready, start, turns)
        invariant TurnedTimes(0, entered, turns) == Search(procs[..], pid, INT_MAX)
        decreases n - turns
      {
        LapGoesOn(ready, start, turns, r);
        pid := NextPid(pid);
        if procs[pid].state.Runnable? {
          return;
        }
        turns := turns + 1;
      }
    }

    method FindNextMostUrgent() returns (pid: nat, ghost turns: nat)
      requires Table() && exists i :: 0 <= i < procs.Length && procs[i].state.Runnable?
      ensures First(MostUrgentSlots(procs[..]), Succ(procs.Length, current), pid)
      ensures StopsAt(2, Search(procs[..], current, INT_MAX), turns, pid)
    {
      hide SlotAt, Unpassed, First, MostUrgent, LowestPriority;
      var n := procs.Length;
      pid := procs[current].pid;
      var lowest := INT_MAX;
      turns := 0;
      ghost var entered := Search(procs[..], current, INT_MAX);
      ghost var ready, start := MostUrgentSlots(procs[..]), Succ(n, current);
      ghost var r: nat :| r < n && procs[r].state.Runnable?;
      ghost var u := SomeMostUrgent(procs[..], r);
      LapStarts(ready, start);
      while true
        invariant pid < n && turns <= n && Succ(n, pid) == SlotAt(n, start, turns) && Unpassed(ready, start, turns)
        invariant lowest == INT_MAX || lowest == procs[u].priority
        invariant TurnedTimes(2, entered, turns) == Search(procs[..], pid, lowest)
        decreases n - turns
      {
        LowestIsMostUrgent(procs[..], n, u, lowest);
        lowest := FindLowest(lowest);
        LapGoesOn(ready, start, turns, u);
        pid := NextPid(pid);
        MostUrgentExactly(procs[..], u, pid);
        if procs[pid].priority == lowest && procs[pid].state.Runnable? {
          return;
        }
        turns := turns + 1;
      }
    }

    method SetTimePassed(pid: nat, turns: int)
      requires pid < procs.Length
      modifies procs
      ensures procs[..] == old(procs[..])[pid := old(procs[pid]).(timePassed := turns)]
    {
      procs[pid] := procs[pid].(timePassed := turns);
    }

    /** Charges one turn to the process it picks; visits counts the slots the search looked at. */
    method FindProportional() returns (pid: nat, ghost visits: nat)
      requires Table()
      requires exists i :: 0 <= i < procs.Length && (HasTurnsLeft(procs[i]) || Entitled(procs[i]))
      modifies procs
      ensures ProportionalPick(old(procs[..]), current, pid)
      ensures procs[..] == Charged(old(procs[..]), current, pid)
      ensures 0 < visits <= 2 * procs.Length
      ensures StopsAt(3, Search(old(procs[..]), current, INT_MAX), visits - 1, pid)
    {
      hide Entitled, SlotAt, Reset, Searched, ProportionalPick, Charged;
      var n := procs.Length;
      pid := procs[current].pid;
      ghost var start, before := current, procs[..];
      ghost var e: nat :| e < n && (HasTurnsLeft(before[e]) || Entitled(before[e]));
      visits := 0;
      SearchStarts(before, start);
      while true
        invariant visits < 2 * n && pid == SlotAt(n, start, visits)
        invariant procs[..] == Reset(before, start, visits)
        invariant Searched(before, start, visits)
        invariant TurnedTimes(3, Search(before, start, INT_MAX), visits) == Search(procs[..], pid, INT_MAX)
        decreases 2 * n - visits
      {
        if procs[pid].state.Runnable? {
          if procs[pid].timePassed >= procs[pid].share {
            SearchPasses(before, start, visits);
            SetTimePassed(pid, 0);
          } else {
            SearchEnds(before, start, visits);
            SetTimePassed(pid, procs[pid].timePassed + 1);
            visits := visits + 1;
            return;
          }
        } else {
          SearchPasses(before, start, visits);
        }
        visits := visits + 1;
        SearchIsBounded(before, start, visits, e);
        NextSlot(n, start, visits - 1);
        pid := NextPid(pid);
      }
    }

    method GetWinner() returns (winner: int)
      requires rng.Valid() && 0 < numTickets <= tickets.Length
      modifies rng.seed
      ensures rng.Valid() && rng.State() == Lehmer.Step(old(rng.State()))
      ensures winner == Winner(tickets[..numTickets], rng.State())
    {
      var u := rng.Random();
      var i := (u * 10000.0).Floor;
      NumberIsTruncatedDraw(rng.State());
      winner := tickets[i % numTickets];
    }

    /** Draws until a runnable process wins. A winning draw comes within the generator's period. */
    method DrawRunnable() returns (winner: nat, ghost k: nat)
      requires rng.Valid() && 0 < numTickets <= tickets.Length && numTickets <= NUMBERS
      requires forall t :: 0 <= t < numTickets ==> 0 <= tickets[t] < procs.Length
      requires exists t :: 0 <= t < numTickets && procs[tickets[t]].state.Runnable?
      modifies rng.seed
      ensures FirstWinningDraw(procs[..], tickets[..numTickets], old(rng.State()), k) && k <= PERIOD
      ensures rng.Valid() && rng.State() == After(old(rng.State()), k)
      ensures winner == Winner(tickets[..numTickets], rng.State())
    {
      ghost var table, sold, seed := procs[..], tickets[..numTickets], rng.State();
      ghost var t: nat :| t < numTickets && procs[tickets[t]].state.Runnable?;
      EveryTicketIsDrawn(numTickets, t, seed);
      ghost var last: nat :| 1 <= last <= PERIOD && Number(After(seed, last)) % numTickets == t;
      winner := GetWinner();
      k := 1;
      while !procs[winner].state.Runnable?
        invariant rng.Valid() && 1 <= k <= last && rng.State() == After(seed, k)
        invariant winner == Winner(sold, After(seed, k)) && winner < procs.Length
        invariant forall j :: 1 <= j < k ==> !WinnerRuns(table, sold, seed, j)
        decreases last - k
      {
        winner := GetWinner();
        k := k + 1;
      }
    }

    method LotteryPolicy()
      requires Shape() && CanSchedule(4, State())
      modifies this`current, this`cpu, rng.seed
      ensures Shape() && Scheduled(4, old(State()), State())
    {
      var winner: nat;
      if numTickets < procs.Length - 1 {
        ghost var turns;
        winner, turns := FindNextRunnable();
      } else {
        ghost var k;
        winner, k := DrawRunnable();
      }
      Run(winner);
    }

    method Schedule()
      requires Shape() && CanSchedule(algorithm, State())
      modifies this`current, this`cpu, procs, rng.seed
      ensures Shape() && Scheduled(algorithm, old(State()), State())
    {
      hide StopsAt, FirstWinningDraw;
      if algorithm == 4 {
        LotteryPolicy();
        return;
      }
      var pid: nat;
      ghost var turns;
      if algorithm == 0 {
        pid, turns := FindNextRunnable();
      } else if algorithm == 1 {
        pid := procs[current].pid;
        if !procs[pid].state.Runnable? {
          pid := pid + 1;
        }
      } else if algorithm == 2 {
        pid, turns := FindNextMostUrgent();
      } else {
        pid, turns := FindProportional();
      }
      Run(pid);
    }

    method Interrupt(reg: Registers)
      requires Shape() && Completes(algorithm, State(), reg)
      modifies this, procs, tickets, rng.seed
      ensures Shape() && KernelStep(algorithm, old(State()), reg, State())
    {
      procs[current] := procs[current].(registers := reg);
      if reg.intno == INT_SYS_YIELD {
        Schedule();
      } else if reg.intno == INT_SYS_EXIT {
        procs[current] := procs[current].(state := Zombie, exitStatus := Signed(reg.eax));
        Schedule();
      } else if INT_SYS_USER1 <= reg.intno <= INT_SYS_USER4 {
        UserCall(reg);
      } else {
        Schedule();
      }
    }

    /** The system calls that resume their caller, whose registers are already saved. */
    method UserCall(reg: Registers)
      requires Shape() && INT_SYS_USER1 <= reg.intno <= INT_SYS_USER4
      requires procs[current].registers == reg
      modifies this, procs, tickets
      ensures Shape() && State() == Dispatch(SystemCall(old(State()), reg), old(current))
    {
      if reg.intno == INT_SYS_USER1 {
        procs[current] := procs[current].(priority := Signed(reg.eax));
      } else if reg.intno == INT_SYS_USER2 {
        procs[current] := procs[current].(share := Signed(reg.eax));
      } else if reg.intno == INT_SYS_USER3 {
        memory := memory[cursor := Unsigned(reg.eax) % 0x1_0000];
        cursor := cursor + 1;
      } else {
        if numTickets < MAX_TICKETS {
          tickets[numTickets] := procs[current].pid;
          numTickets := numTickets + 1;
        }
      }
      Run(current);
    }
  }

  // --- The proportional-share search -----------------------------------------------------------------

  /** The slot a cyclic search looks at after passing `visited` slots, within its first two laps. */
  function SlotAt(n: nat, start: nat, visited: nat): (slot: nat)
    requires start < n && visited <= 2 * n
    ensures slot < n
  {
    var s := start + visited;
    if s < n then s else if s < 2 * n then s - n else s - 2 * n
  }

  lemma NextSlot(n: nat, start: nat, visited: nat)
    requires start < n && visited < 2 * n
    ensures SlotAt(n, start, visited + 1) == Succ(n, SlotAt(n, start, visited))
  {}

  /** None of the first `passed` slots of the lap is ready. */
  ghost predicate Unpassed(ready: seq<bool>, start: nat, passed: nat)
    requires start < |ready|
  {
    forall q: nat :: q < |ready| && ready[q] ==> passed <= Offset(|ready|, start, q)
  }

  lemma LapStarts(ready: seq<bool>, start: nat)
    requires start < |ready|
    ensures SlotAt(|ready|, start, 0) == start && Unpassed(ready, start, 0)
  {}

  /** The next slot of a lap is the first ready one, or the lap goes on; with slot r ready it is not over. */
  lemma LapGoesOn(ready: seq<bool>, start: nat, passed: nat, r: nat)
    requires start < |ready| && r < |ready| && ready[r] && passed <= |ready| && Unpassed(ready, start, passed)
    ensures passed < |ready|
    ensures var n, slot := |ready|, SlotAt(|ready|, start, passed);
            && SlotAt(n, start, passed + 1) == Succ(n, slot)
            && if ready[slot] then First(ready, start, slot) else Unpassed(ready, start, passed + 1)
  {}

  lemma MostUrgentExactly(procs: seq<Process>, u: nat, i: nat)
    requires u < |procs| && i < |procs| && MostUrgent(procs, u)
    ensures MostUrgent(procs, i) <==> procs[i].state.Runnable? && procs[i].priority == procs[u].priority
  {}

  /** None of the first `visited` slots ended the search. */
  ghost predicate Searched(before: seq<Process>, start: nat, visited: nat)
    requires start < |before|
  {
    forall q :: 0 <= q < |before| ==>
      && (HasTurnsLeft(before[q]) ==> visited <= Offset(|before|, start, q))
      && (Entitled(before[q]) ==> visited <= Offset(|before|, start, q) + |before|)
  }

  lemma SearchStarts(before: seq<Process>, start: nat)
    requires start < |before|
    ensures SlotAt(|before|, start, 0) == start && Reset(before, start, 0) == before && Searched(before, start, 0)
  {}

  lemma SearchPasses(before: seq<Process>, start: nat, visited: nat)
    requires start < |before| && visited < 2 * |before| && Searched(before, start, visited)
    requires var p := Reset(before, start, visited)[SlotAt(|before|, start, visited)]; !HasTurnsLeft(p)
    ensures Searched(before, start, visited + 1)
    ensures var r, slot := Reset(before, start, visited), SlotAt(|before|, start, visited);
            Reset(before, start, visited + 1)
            == if r[slot].state.Runnable? then r[slot := r[slot].(timePassed := 0)] else r
  {
    var n, slot := |before|, SlotAt(|before|, start, visited);
    assert Offset(n, start, slot) == if visited < n then visited else visited - n;
    assert forall q: nat :: q < n && q != slot ==> Offset(n, start, q) != Offset(n, start, slot);
  }

  lemma SearchEnds(before: seq<Process>, start: nat, visited: nat)
    requires start < |before| && visited < 2 * |before| && Searched(before, start, visited)
    requires HasTurnsLeft(Reset(before, start, visited)[SlotAt(|before|, start, visited)])
    ensures var r, slot := Reset(before, start, visited), SlotAt(|before|, start, visited);
            && ProportionalPick(before, start, slot)
            && Charged(before, start, slot) == r[slot := r[slot].(timePassed := r[slot].timePassed + 1)]
  {
    var n, slot := |before|, SlotAt(|before|, start, visited);
    assert Offset(n, start, slot) == if visited < n then visited else visited - n;
    if visited < n {
      assert HasTurnsLeft(before[slot]);
    } else {
      assert NoTurnsLeft(before);
      assert Entitled(before[slot]);
    }
  }

  lemma SearchIsBounded(before: seq<Process>, start: nat, visited: nat, e: nat)
    requires start < |before| && visited <= 2 * |before| && Searched(before, start, visited)
    requires e < |before| && (HasTurnsLeft(before[e]) || Entitled(before[e]))
    ensures visited < 2 * |before|
  {}
}

/** The kernel as a transition system: one interrupt, up to the process it resumes, is one step. The kernel is
    never interrupted itself, so a step is atomic. */
module KernelSpec {
  import opened Machine
  import opened Lehmer
  import opened Lottery
  import opened Turns

  const MAX_TICKETS: nat := 200

  const INT_MAX: int := 0x7fff_ffff

  const INT_CLOCK: int := 32
  const INT_SYS_YIELD: int := 48
  const INT_SYS_EXIT: int := 49
  const INT_SYS_USER1: int := 50
  const INT_SYS_USER2: int := 51
  const INT_SYS_USER3: int := 52
  const INT_SYS_USER4: int := 53

  datatype Registers = Registers(edi: int, esi: int, ebp: int, originalEsp: int, ebx: int, edx: int, ecx: int,
                                 eax: int, es: int, ds: int, intno: int, err: int, eip: int, cs: int,
                                 eflags: int, esp: int, ss: int)

  datatype ProcState = Empty | Runnable | Blocked | Zombie

  datatype Process = Process(pid: int, registers: Registers, state: ProcState, exitStatus: int, priority: int,
                             share: int, timePassed: int)

  /** cpu holds the registers the last run() loaded; seed is the state of the selected random stream; cells of
      memory are 16-bit console cells, indexed from the upper left one. */
  datatype System = System(procs: seq<Process>, current: nat, cpu: Registers, tickets: seq<int>, seed: int,
                           cursor: int, memory: map<int, int>, lock: int)

  // --- start() ---------------------------------------------------------------------------------------

  const PROC1_START: int := 0x20_0000
  const PROC_SIZE: int := 0x10_0000
  const CELLS: nat := 2000

  /** console_clear: a grey-on-black space in each of the first n cells. */
  function Cleared(n: nat): map<int, int>
  {
    map i: int | 0 <= i < n :: ClearedCell(i)
  }

  /** What console_clear leaves in cell i: the same in every cell. */
  function ClearedCell(i: int): int
  {
    0x20 + 0x0700
  }

  const ZERO_REGISTERS: Registers := Registers(0, 0, 0, 0, 0, 0, 0, 0, 0, 0, 0, 0, 0, 0, 0, 0, 0)

  /** All zero but the application segments at privilege level 3 and the interrupt flag. */
  function SpecialRegisters(): Registers
  {
    ZERO_REGISTERS.(cs := 0x18 + 3, ds := 0x20 + 3, es := 0x20 + 3, ss := 0x20 + 3, eflags := 0x200)
  }

  function EmptyProcess(i: int): Process
  {
    Process(i, ZERO_REGISTERS, Empty, 0, 0, 0, 0)
  }

  function LoadedProcess(i: int, entry: int): Process
  {
    var registers := SpecialRegisters().(esp := PROC1_START + i * PROC_SIZE, eip := entry);
    Process(i, registers, Runnable, 0, 1, 1, 0)
  }

  /** The state start() leaves: entries are the entry points of processes 1, 2, ... */
  function Initial(entries: seq<int>): System
    requires 1 <= |entries|
  {
    var procs := [EmptyProcess(0)] + seq(|entries|, i requires 0 <= i < |entries| => LoadedProcess(i + 1, entries[i]));
    System(procs, 1, procs[1].registers, [], 1, 0, Cleared(CELLS), 0)
  }

  // --- The processes a policy chooses among ----------------------------------------------------------

  function RunnableSlots(procs: seq<Process>): seq<bool>
  {
    seq(|procs|, i requires 0 <= i < |procs| => procs[i].state.Runnable?)
  }

  /** Runnable, and no runnable process has a lower priority number. */
  ghost predicate MostUrgent(procs: seq<Process>, i: nat)
    requires i < |procs|
  {
    && procs[i].state.Runnable?
    && forall j :: 0 <= j < |procs| && procs[j].state.Runnable? ==> procs[i].priority <= procs[j].priority
  }

  ghost function MostUrgentSlots(procs: seq<Process>): seq<bool>
  {
    seq(|procs|, i requires 0 <= i < |procs| => MostUrgent(procs, i))
  }

  /** A runnable process of least priority number exists when a process is runnable. */
  lemma {:induction false} SomeMostUrgent(procs: seq<Process>, r: nat) returns (u: nat)
    requires r < |procs| && procs[r].state.Runnable?
    ensures u < |procs| && MostUrgent(procs, u)
  {
    u := r;
    for i := 0 to |procs|
      invariant u < |procs| && procs[u].state.Runnable?
      invariant forall j :: 0 <= j < i && procs[j].state.Runnable? ==> procs[u].priority <= procs[j].priority
    {
      if procs[i].state.Runnable? && procs[i].priority < procs[u].priority {
        u := i;
      }
    }
  }

  predicate HasTurnsLeft(p: Process)
  {
    p.state.Runnable? && p.timePassed < p.share
  }

  predicate Entitled(p: Process)
  {
    p.state.Runnable? && 1 <= p.share
  }

  function SlotsWithTurnsLeft(procs: seq<Process>): seq<bool>
  {
    seq(|procs|, i requires 0 <= i < |procs| => HasTurnsLeft(procs[i]))
  }

  function EntitledSlots(procs: seq<Process>): seq<bool>
  {
    seq(|procs|, i requires 0 <= i < |procs| => Entitled(procs[i]))
  }

  predicate NoTurnsLeft(procs: seq<Process>)
  {
    forall i :: 0 <= i < |procs| ==> !HasTurnsLeft(procs[i])
  }

  /** The proportional-share search starts with the current process. Its first lap looks for turns left; if
      there are none anywhere, that lap has reset every counter and the second finds a share of at least 1. */
  ghost predicate ProportionalPick(procs: seq<Process>, current: nat, to: nat)
    requires current < |procs|
  {
    First(if NoTurnsLeft(procs) then EntitledSlots(procs) else SlotsWithTurnsLeft(procs), current, to)
  }

  /** Slot i after the search has passed the first `visited` slots from start, resetting counters. */
  function ResetSlot(procs: seq<Process>, start: nat, visited: nat, i: nat): Process
    requires start < |procs| && i < |procs|
  {
    if procs[i].state.Runnable? && Offset(|procs|, start, i) < visited then procs[i].(timePassed := 0)
    else procs[i]
  }

  function Reset(procs: seq<Process>, start: nat, visited: nat): (r: seq<Process>)
    requires start < |procs|
    ensures |r| == |procs|
  {
    seq(|procs|, i requires 0 <= i < |procs| => ResetSlot(procs, start, visited, i))
  }

  function Charged(procs: seq<Process>, current: nat, to: nat): seq<Process>
    requires current < |procs| && to < |procs|
  {
    var visited := if NoTurnsLeft(procs) then |procs| else Offset(|procs|, current, to);
    var r := Reset(procs, current, visited);
    r[to := r[to].(timePassed := r[to].timePassed + 1)]
  }

  // --- schedule() ------------------------------------------------------------------------------------

  /** run(&proc_array[to]) */
  function Dispatch(s: System, to: nat): System
    requires to < |s.procs|
  {
    s.(current := to, cpu := s.procs[to].registers)
  }

  ghost predicate RoundRobin(ready: seq<bool>, s: System, s': System)
    requires s.current < |s.procs| == |ready|
  {
    First(ready, Succ(|ready|, s.current), s'.current) && s' == Dispatch(s, s'.current)
  }

  predicate WinnerRuns(procs: seq<Process>, tickets: seq<int>, seed: int, k: nat)
    requires 0 < |tickets|
  {
    var w := Winner(tickets, After(seed, k));
    0 <= w < |procs| && procs[w].state.Runnable?
  }

  /** The k-th draw is the first that a runnable process wins. */
  ghost predicate FirstWinningDraw(procs: seq<Process>, tickets: seq<int>, seed: int, k: nat)
    requires 0 < |tickets|
  {
    1 <= k && WinnerRuns(procs, tickets, seed, k) && forall j :: 1 <= j < k ==> !WinnerRuns(procs, tickets, seed, j)
  }

  ghost predicate LotteryHeld(s: System, s': System)
    requires 0 < |s.tickets|
  {
    exists k: nat ::
      && FirstWinningDraw(s.procs, s.tickets, s.seed, k) && k <= PERIOD
      && s' == Dispatch(s.(seed := After(s.seed, k)), Winner(s.tickets, After(s.seed, k)))
  }

  /** The slot policy 1 runs: the caller's, or the one after it when the caller has exited. */
  function FirstComeSlot(s: System): nat
    requires s.current < |s.procs|
  {
    if s.procs[s.current].state.Runnable? then s.current else s.current + 1
  }

  ghost predicate Scheduled(algorithm: int, s: System, s': System)
    requires s.current < |s.procs|
  {
    if algorithm == 0 then
      RoundRobin(RunnableSlots(s.procs), s, s')
    else if algorithm == 1 then
      FirstComeSlot(s) < |s.procs| && s' == Dispatch(s, FirstComeSlot(s))
    else if algorithm == 2 then
      RoundRobin(MostUrgentSlots(s.procs), s, s')
    else if algorithm == 3 then
      && ProportionalPick(s.procs, s.current, s'.current)
      && s' == Dispatch(s.(procs := Charged(s.procs, s.current, s'.current)), s'.current)
    else if algorithm == 4 then
      if |s.tickets| < |s.procs| - 1 then RoundRobin(RunnableSlots(s.procs), s, s')
      else 0 < |s.tickets| && LotteryHeld(s, s')
    else
      false
  }

  /** When schedule() comes to an end. */
  ghost predicate CanSchedule(algorithm: int, s: System)
    requires s.current < |s.procs|
  {
    if algorithm == 0 || algorithm == 2 then
      exists i :: 0 <= i < |s.procs| && s.procs[i].state.Runnable?
    else if algorithm == 1 then
      FirstComeSlot(s) < |s.procs|
    else if algorithm == 3 then
      exists i :: 0 <= i < |s.procs| && (HasTurnsLeft(s.procs[i]) || Entitled(s.procs[i]))
    else if algorithm == 4 then
      if |s.tickets| < |s.procs| - 1 then exists i :: 0 <= i < |s.procs| && s.procs[i].state.Runnable?
      else exists t :: 0 <= t < |s.tickets| && 0 <= s.tickets[t] < |s.procs|
                       && s.procs[s.tickets[t]].state.Runnable?
    else
      false
  }

  // --- interrupt() -----------------------------------------------------------------------------------

  function Update(s: System, p: Process): System
    requires s.current < |s.procs|
  {
    s.(procs := s.procs[s.current := p])
  }

  function Saved(s: System, reg: Registers): System
    requires s.current < |s.procs|
  {
    Update(s, s.procs[s.current].(registers := reg))
  }

  predicate IsDecision(reg: Registers)
  {
    reg.intno == INT_CLOCK || reg.intno == INT_SYS_YIELD || reg.intno == INT_SYS_EXIT
  }

  /** The state schedule() starts from, for an interrupt that calls it. */
  function BeforeSchedule(s: System, reg: Registers): System
    requires s.current < |s.procs|
  {
    var saved := Saved(s, reg);
    if reg.intno == INT_SYS_EXIT then
      Update(saved, saved.procs[s.current].(state := Zombie, exitStatus := Signed(reg.eax)))
    else saved
  }

  /** The state after a system call that resumes its caller. */
  function SystemCall(s: System, reg: Registers): System
    requires s.current < |s.procs|
  {
    var saved := Saved(s, reg);
    var caller := saved.procs[s.current];
    if reg.intno == INT_SYS_USER1 then Update(saved, caller.(priority := Signed(reg.eax)))
    else if reg.intno == INT_SYS_USER2 then Update(saved, caller.(share := Signed(reg.eax)))
    else if reg.intno == INT_SYS_USER3 then
      saved.(memory := saved.memory[saved.cursor := Unsigned(reg.eax) % 0x1_0000], cursor := saved.cursor + 1)
    else if |s.tickets| < MAX_TICKETS then saved.(tickets := saved.tickets + [caller.pid])
    else saved
  }

  ghost predicate KernelStep(algorithm: int, s: System, reg: Registers, s': System)
    requires s.current < |s.procs|
  {
    if IsDecision(reg) then Scheduled(algorithm, BeforeSchedule(s, reg), s')
    else INT_SYS_USER1 <= reg.intno <= INT_SYS_USER4 && s' == Dispatch(SystemCall(s, reg), s.current)
  }

  /** When interrupt() gets as far as resuming a process. */
  ghost predicate Completes(algorithm: int, s: System, reg: Registers)
    requires s.current < |s.procs|
  {
    if IsDecision(reg) then CanSchedule(algorithm, BeforeSchedule(s, reg))
    else INT_SYS_USER1 <= reg.intno <= INT_SYS_USER4
  }

  /** What the kernel relies on between steps. */
  ghost predicate WellFormed(s: System)
  {
    && 2 <= |s.procs|
    && (forall i :: 0 <= i < |s.procs| ==> s.procs[i].pid == i && 0 <= s.procs[i].timePassed
                                            && s.procs[i].priority <= INT_MAX)
    && !s.procs[0].state.Runnable?
    && 1 <= s.current < |s.procs|
    && s.procs[s.current].state.Runnable?
    && |s.tickets| <= MAX_TICKETS
    && (forall t :: 0 <= t < |s.tickets| ==> 1 <= s.tickets[t] < |s.procs|)
    && IsSeed(s.seed)
    && s.cpu == s.procs[s.current].registers
  }
}

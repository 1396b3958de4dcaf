/** The spinlock under preemption: round robin with clock interrupts lets the holder of the lock release it. */
module LockRelease {
  import opened Divisibility
  import opened Turns
  import opened Applications

  /** Slot p + 1 of the process table runs application p; slot 0 is never runnable. */
  function ReadySlots(s: Shared): seq<bool>
  {
    seq(|s.apps| + 1, i requires 0 <= i <= |s.apps| => i > 0 && !s.apps[i - 1].pc.Exited?)
  }

  /** sys_yield and sys_exit give up the processor. */
  predicate GivesUp(a: App)
  {
    a.pc.Yield? || a.pc.Exit?
  }

  /** What application p does before schedule() is next called: at least one step, and none after a
      sys_yield or sys_exit. A clock interrupt may end it after any step. */
  ghost predicate Executes(c: Config, p: nat, path: seq<Shared>)
  {
    && 2 <= |path|
    && (forall k :: 0 <= k < |path| ==> |path[k].apps| == |c.chars|) && p < |c.chars|
    && (forall k :: 0 <= k < |path| - 1 ==> AppStep(c, path[k], p, path[k + 1]))
    && (forall k :: 0 <= k < |path| - 2 ==> !GivesUp(path[k].apps[p]))
  }

  ghost predicate ExecutesTo(c: Config, p: nat, s: Shared, s': Shared)
  {
    exists path :: Executes(c, p, path) && path[0] == s && path[|path| - 1] == s'
  }

  /** A quantum of application current - 1, and the round-robin decision that ends it. */
  ghost predicate Quantum(c: Config, s: Shared, current: nat, s': Shared, next: nat)
  {
    && 1 <= current <= |c.chars| == |s'.apps|
    && ExecutesTo(c, current - 1, s, s')
    && First(ReadySlots(s'), Succ(|c.chars| + 1, current), next)
  }

  ghost predicate QuantumRun(c: Config, states: seq<Shared>, current: seq<nat>)
  {
    && 0 < |states| == |current| && Invariant(c, states[0])
    && (forall k :: 0 <= k < |current| ==> 1 <= current[k] <= |c.chars|)
    && forall k :: 0 <= k < |states| - 1 ==> Quantum(c, states[k], current[k], states[k + 1], current[k + 1])
  }

  const CRITICAL_STEPS: nat := 5

  /** Steps the holder of the lock still needs to release it. */
  function StepsToRelease(a: App): (n: nat)
    ensures n <= CRITICAL_STEPS
    ensures n > 0 <==> Critical(a)
  {
    match a.pc
    case SwapTest => if a.reg == 0 then 5 else 0
    case Load => 4
    case Store => 3
    case CellStored => 2
    case CursorStored => 2
    case Release => 1
    case _ => 0
  }

  lemma HolderStep(c: Config, s: Shared, h: nat, s': Shared)
    requires |s.apps| == |c.chars| && AppStep(c, s, h, s') && Critical(s.apps[h])
    ensures StepsToRelease(s'.apps[h]) == StepsToRelease(s.apps[h]) - 1
    ensures !Critical(s'.apps[h]) ==> s'.apps[h].pc.Yield?
  {}

  lemma {:induction false} ExecutionKeepsInvariant(c: Config, p: nat, path: seq<Shared>, k: nat)
    requires Executes(c, p, path) && Invariant(c, path[0]) && k < |path|
    ensures Invariant(c, path[k])
    ensures forall q :: 0 <= q < |c.chars| && q != p ==> path[k].apps[q] == path[0].apps[q]
  {
    if k > 0 {
      ExecutionKeepsInvariant(c, p, path, k - 1);
      assert AppStep(c, path[k - 1], p, path[k - 1 + 1]);
      StepKeepsInvariant(c, path[k - 1], p, path[k]);
    }
  }

  /** Running the holder brings the release nearer at every step; after it, the holder yields. */
  lemma {:induction false} HolderExecutes(c: Config, h: nat, path: seq<Shared>, k: nat)
    requires Executes(c, h, path) && Critical(path[0].apps[h]) && 1 <= k < |path|
    ensures if Critical(path[k].apps[h]) then StepsToRelease(path[k].apps[h]) + k == StepsToRelease(path[0].apps[h])
            else path[k].apps[h].pc.Yield? || (k == |path| - 1 && path[k].apps[h].pc.LoopTest?)
  {
    assert AppStep(c, path[k - 1], h, path[k - 1 + 1]);
    if k == 1 {
      HolderStep(c, path[0], h, path[1]);
    } else {
      HolderExecutes(c, h, path, k - 1);
      if Critical(path[k - 1].apps[h]) {
        HolderStep(c, path[k - 1], h, path[k]);
      } else {
        assert !(k - 1 < |path| - 2);
      }
    }
  }

  lemma ExecutionOfHolder(c: Config, s: Shared, current: nat, s': Shared, h: nat)
    requires Invariant(c, s) && 1 <= current && ExecutesTo(c, current - 1, s, s') && h < |c.chars| && Critical(s.apps[h])
    ensures Invariant(c, s')
    ensures current == h + 1 ==> StepsToRelease(s'.apps[h]) < StepsToRelease(s.apps[h])
    ensures current != h + 1 ==> s'.apps[h] == s.apps[h]
  {
    hide Invariant, Critical, StepsToRelease, AppStep;
    var path :| Executes(c, current - 1, path) && path[0] == s && path[|path| - 1] == s';
    ExecutionKeepsInvariant(c, current - 1, path, |path| - 1);
    if current == h + 1 {
      HolderExecutes(c, h, path, |path| - 1);
    }
  }

  // --- A lock is released when its holder's turn comes nearer all the time ----------------------------

  /** A quantum of application current - 1 under any policy. While h holds the lock, the delay before its next
      turn shrinks with each quantum of another application. */
  ghost predicate DelayedQuantum(c: Config, s: Shared, current: nat, delay: nat, s': Shared, delay': nat, h: nat)
  {
    && 1 <= current && ExecutesTo(c, current - 1, s, s') && h < |s'.apps|
    && (current != h + 1 && Critical(s'.apps[h]) ==> delay' < delay)
  }

  ghost predicate DelayedRun(c: Config, states: seq<Shared>, current: seq<nat>, delay: seq<nat>, bound: nat, h: nat)
  {
    && 0 < |states| == |current| == |delay| && Invariant(c, states[0]) && h < |c.chars|
    && (forall k :: 0 <= k < |delay| ==> delay[k] < bound)
    && forall k :: 0 <= k < |states| - 1 ==>
         DelayedQuantum(c, states[k], current[k], delay[k], states[k + 1], delay[k + 1], h)
  }

  /** Quanta that bound the time to the release. */
  function QuantaToRelease(bound: nat, a: App, delay: nat): int
  {
    bound * StepsToRelease(a) - bound + delay
  }

  lemma FewerSteps(n: nat, a: int, b: int)
    requires a < b
    ensures n * a + n <= n * b
  {
    MulOrder(n, a + 1, b);
    OneMore(n, a);
  }

  lemma QuantumProgress(c: Config, s: Shared, current: nat, delay: nat, s': Shared, delay': nat, bound: nat, h: nat)
    requires Invariant(c, s) && DelayedQuantum(c, s, current, delay, s', delay', h) && delay' < bound
    requires h < |c.chars| && h < |s.apps| && Critical(s.apps[h])
    ensures Invariant(c, s')
    ensures Critical(s'.apps[h]) ==> QuantaToRelease(bound, s'.apps[h], delay') < QuantaToRelease(bound, s.apps[h], delay)
  {
    hide Invariant, ExecutesTo, Critical, StepsToRelease;
    ExecutionOfHolder(c, s, current, s', h);
    if current == h + 1 {
      FewerSteps(bound, StepsToRelease(s'.apps[h]), StepsToRelease(s.apps[h]));
    }
  }

  lemma {:induction false} HoldingRunIsShort(c: Config, states: seq<Shared>, current: seq<nat>, delay: seq<nat>,
                                             bound: nat, h: nat, k: nat)
    requires DelayedRun(c, states, current, delay, bound, h) && k < |states|
    requires forall j :: 0 <= j <= k ==> h < |states[j].apps| && Critical(states[j].apps[h])
    ensures Invariant(c, states[k])
    ensures QuantaToRelease(bound, states[k].apps[h], delay[k]) + k <= QuantaToRelease(bound, states[0].apps[h], delay[0])
  {
    hide Invariant, Critical, QuantaToRelease, DelayedQuantum;
    if k > 0 {
      HoldingRunIsShort(c, states, current, delay, bound, h, k - 1);
      assert DelayedQuantum(c, states[k - 1], current[k - 1], delay[k - 1], states[k - 1 + 1], delay[k - 1 + 1], h);
      QuantumProgress(c, states[k - 1], current[k - 1], delay[k - 1], states[k], delay[k], bound, h);
    }
  }

  /** The holder leaves its critical section within five times the bound on its delays. */
  lemma LockIsReleased(c: Config, states: seq<Shared>, current: seq<nat>, delay: seq<nat>, bound: nat, h: nat)
    requires DelayedRun(c, states, current, delay, bound, h) && h < |states[0].apps| && Critical(states[0].apps[h])
    requires |states| > CRITICAL_STEPS * bound
    ensures exists k :: 0 < k <= CRITICAL_STEPS * bound && h < |states[k].apps| && !Critical(states[k].apps[h])
  {
    hide Invariant, Critical;
    var last := CRITICAL_STEPS * bound;
    if forall k :: 0 <= k <= last ==> h < |states[k].apps| && Critical(states[k].apps[h]) {
      HoldingRunIsShort(c, states, current, delay, bound, h, last);
      MulOrder(bound, StepsToRelease(states[0].apps[h]), CRITICAL_STEPS);
      MulOrder(bound, 1, StepsToRelease(states[last].apps[h]));
    } else {
      var k :| 0 <= k <= last && !(h < |states[k].apps| && Critical(states[k].apps[h]));
      assert DelayedQuantum(c, states[k - 1], current[k - 1], delay[k - 1], states[k - 1 + 1], delay[k - 1 + 1], h);
    }
  }

  // --- Round robin -----------------------------------------------------------------------------------

  /** Decisions before application h runs again. */
  function Delay(n: nat, current: nat, h: nat): (d: nat)
    requires 1 <= current <= n && h < n
    ensures d < n
  {
    if current == h + 1 then 0 else Wait(n + 1, current, h + 1)
  }

  lemma DelayAfterDecision(s: Shared, n: nat, current: nat, next: nat, h: nat)
    requires |s.apps| == n && 1 <= current <= n && h < n && !s.apps[h].pc.Exited?
    requires First(ReadySlots(s), Succ(n + 1, current), next)
    ensures 1 <= next <= n
    ensures current != h + 1 ==> Delay(n, next, h) < Delay(n, current, h)
  {
    assert ReadySlots(s)[h + 1];
    WaitShrinks(ReadySlots(s), current, next, h + 1);
  }

  lemma RoundRobinDelays(c: Config, s: Shared, current: nat, s': Shared, next: nat, h: nat)
    requires Quantum(c, s, current, s', next) && h < |c.chars| && 1 <= next <= |c.chars|
    ensures DelayedQuantum(c, s, current, Delay(|c.chars|, current, h), s', Delay(|c.chars|, next, h), h)
  {
    hide ExecutesTo, First, Delay;
    if Critical(s'.apps[h]) {
      DelayAfterDecision(s', |c.chars|, current, next, h);
    }
  }

  /** With clock interrupts and round robin, application h leaves the critical section it is in within five
      quanta for each application. */
  lemma HeldLockIsReleased(c: Config, states: seq<Shared>, current: seq<nat>, h: nat)
    requires QuantumRun(c, states, current) && h < |c.chars| && Critical(states[0].apps[h])
    requires |states| > CRITICAL_STEPS * |c.chars|
    ensures exists k :: 0 < k <= CRITICAL_STEPS * |c.chars| && h < |states[k].apps| && !Critical(states[k].apps[h])
  {
    hide Quantum, DelayedQuantum, Critical, Delay;
    var n := |c.chars|;
    var delay := seq(|current|, k requires 0 <= k < |current| => Delay(n, current[k], h));
    forall k | 0 <= k < |states| - 1
      ensures DelayedQuantum(c, states[k], current[k], delay[k], states[k + 1], delay[k + 1], h)
    {
      assert Quantum(c, states[k], current[k], states[k + 1], current[k + 1]);
      RoundRobinDelays(c, states[k], current[k], states[k + 1], current[k + 1], h);
    }
    LockIsReleased(c, states, current, delay, n, h);
  }
}

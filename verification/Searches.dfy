/** The search loops of schedule(), turn by turn: what each turn of a loop leaves in its variables, and when a loop
    goes round for ever. */
module Searches {
  import Lehmer
  import opened Lottery
  import opened Turns
  import opened KernelSpec

  /** The variables of a loop at the top of its body. */
  datatype Search = Search(procs: seq<Process>, pid: nat, lowest: int)

  predicate InTable(x: Search)
  {
    x.pid < |x.procs|
  }

  /** lowest_priority after the first n slots. */
  function LowestPriority(procs: seq<Process>, n: nat, lowest: int): int
    requires n <= |procs|
  {
    if n == 0 then lowest
    else
      var l := LowestPriority(procs, n - 1, lowest);
      if procs[n - 1].priority < l && procs[n - 1].state.Runnable? then procs[n - 1].priority else l
  }

  /** The inner loop of policy 2 finds the least priority number of a runnable process. */
  lemma {:induction false} LowestIsMostUrgent(procs: seq<Process>, n: nat, u: nat, lowest: int)
    requires u < |procs| && n <= |procs| && MostUrgent(procs, u) && procs[u].priority <= lowest
    ensures procs[u].priority <= LowestPriority(procs, n, lowest) <= lowest
    ensures u < n ==> LowestPriority(procs, n, lowest) == procs[u].priority
  {
    if n > 0 {
      LowestIsMostUrgent(procs, n - 1, u, lowest);
    }
  }

  /** The slot a turn of the loop looks at: policy 3 looks before it moves on, policies 0 and 2 after. */
  function Looked(algorithm: int, x: Search): nat
    requires InTable(x)
  {
    if algorithm == 3 then x.pid else Succ(|x.procs|, x.pid)
  }

  /** The turn of the loop ends in run(). */
  predicate Stops(algorithm: int, x: Search)
    requires InTable(x)
  {
    var p := x.procs[Looked(algorithm, x)];
    if algorithm == 3 then HasTurnsLeft(p)
    else p.state.Runnable? && (algorithm == 2 ==> p.priority == LowestPriority(x.procs, |x.procs|, x.lowest))
  }

  /** The variables after a turn that does not. */
  function Turned(algorithm: int, x: Search): (y: Search)
    requires InTable(x)
    ensures InTable(y) && |y.procs| == |x.procs|
  {
    var p := x.procs[x.pid];
    Search(
      if algorithm == 3 && p.state.Runnable? then x.procs[x.pid := p.(timePassed := 0)] else x.procs,
      Succ(|x.procs|, x.pid),
      if algorithm == 2 then LowestPriority(x.procs, |x.procs|, x.lowest) else x.lowest)
  }

  function TurnedTimes(algorithm: int, x: Search, k: nat): (y: Search)
    requires InTable(x)
    ensures InTable(y) && |y.procs| == |x.procs|
  {
    if k == 0 then x else Turned(algorithm, TurnedTimes(algorithm, x, k - 1))
  }

  /** The loop stops in its turn after the first k, at slot pid. */
  predicate StopsAt(algorithm: int, x: Search, k: nat, pid: nat)
    requires InTable(x)
  {
    Stops(algorithm, TurnedTimes(algorithm, x, k)) && pid == Looked(algorithm, TurnedTimes(algorithm, x, k))
  }

  /** The loop as schedule() enters it. */
  function Entered(s: System): (x: Search)
    requires s.current < |s.procs|
    ensures InTable(x)
  {
    Search(s.procs, s.current, INT_MAX)
  }

  /** A process no search ever stops at. */
  predicate NeverRun(algorithm: int, p: Process)
  {
    p.state.Runnable? ==> algorithm == 3 && !HasTurnsLeft(p) && !Entitled(p)
  }

  lemma {:induction false} NeverRunStays(algorithm: int, x: Search, k: nat)
    requires InTable(x) && forall i :: 0 <= i < |x.procs| ==> NeverRun(algorithm, x.procs[i])
    ensures forall i :: 0 <= i < |x.procs| ==> NeverRun(algorithm, TurnedTimes(algorithm, x, k).procs[i])
  {
    if k > 0 {
      NeverRunStays(algorithm, x, k - 1);
    }
  }

  /** When schedule() cannot end under policies 0, 2 and 3, no turn of its loop ever stops. */
  lemma SearchGoesRoundForever(algorithm: int, s: System, k: nat)
    requires algorithm == 0 || algorithm == 2 || algorithm == 3
    requires s.current < |s.procs| && !CanSchedule(algorithm, s)
    ensures !Stops(algorithm, TurnedTimes(algorithm, Entered(s), k))
  {
    NeverRunStays(algorithm, Entered(s), k);
    var x := TurnedTimes(algorithm, Entered(s), k);
    assert NeverRun(algorithm, x.procs[Looked(algorithm, x)]);
  }

  /** When no ticket holder is runnable, no draw of the lottery is ever won by a runnable process. */
  lemma LotteryGoesRoundForever(s: System, k: nat)
    requires s.current < |s.procs| && 0 < |s.tickets| && |s.procs| - 1 <= |s.tickets| && !CanSchedule(4, s)
    ensures !WinnerRuns(s.procs, s.tickets, s.seed, k)
  {
    var n := |s.tickets|;
    var t := Number(Lehmer.After(s.seed, k)) % n;
    assert 0 <= t < n;
  }
}

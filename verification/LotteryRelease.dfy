/** Policy 4: every application has a ticket by the time the lottery is held, so every held lock is released. */
module LotteryRelease {
  import opened Lehmer
  import opened Lottery
  import opened Turns
  import opened KernelSpec
  import opened KernelProperties
  import opened Applications
  import opened LockRelease
  import opened WholeSystem
  import opened Release

  // --- Tickets ---------------------------------------------------------------------------------------

  /** The application has made its sys_get_ticket call. */
  predicate PastTicket(a: App)
  {
    !a.pc.SetPriority? && !a.pc.SetShare? && !a.pc.GetTicket?
  }

  function PastCount(apps: seq<App>): (n: nat)
    ensures n <= |apps|
  {
    if apps == [] then 0 else PastCount(apps[..|apps| - 1]) + (if PastTicket(apps[|apps| - 1]) then 1 else 0)
  }

  lemma {:induction false} PastAfterUpdate(apps: seq<App>, p: nat, a: App)
    requires p < |apps|
    ensures PastCount(apps[p := a])
         == PastCount(apps) - (if PastTicket(apps[p]) then 1 else 0) + (if PastTicket(a) then 1 else 0)
    decreases |apps|
  {
    var n := |apps|;
    if p == n - 1 {
      assert apps[p := a][..n - 1] == apps[..n - 1];
    } else {
      PastAfterUpdate(apps[..n - 1], p, a);
      assert apps[p := a][..n - 1] == apps[..n - 1][p := a];
    }
  }

  lemma {:induction false} NonePast(n: nat)
    ensures PastCount(seq(n, p => App(SetPriority, 0, 0))) == 0
  {
    if n > 0 {
      NonePast(n - 1);
      assert seq(n, p => App(SetPriority, 0, 0))[..n - 1] == seq(n - 1, p => App(SetPriority, 0, 0));
    }
  }

  lemma {:induction false} AllPast(apps: seq<App>)
    requires PastCount(apps) == |apps|
    ensures forall p :: 0 <= p < |apps| ==> PastTicket(apps[p])
  {
    if apps != [] {
      AllPast(apps[..|apps| - 1]);
    }
  }

  predicate HasTicket(w: Whole, p: nat)
  {
    p + 1 in w.kernel.tickets
  }

  /** No more tickets are sold than calls made, and when as many are, every caller has one. Only a full table of
      MAX_TICKETS turns a caller away. */
  ghost predicate TicketsMatch(w: Whole)
  {
    && |w.kernel.tickets| <= PastCount(w.apps)
    && (|w.kernel.tickets| == PastCount(w.apps) ==>
          forall p :: 0 <= p < |w.apps| && PastTicket(w.apps[p]) ==> HasTicket(w, p))
  }

  lemma StepKeepsTicketsMatch(algorithm: int, c: Config, w: Whole, e: Event, w': Whole)
    requires Agrees(c, w) && TicketsMatch(w) && WholeStep(algorithm, c, w, e, w')
    ensures TicketsMatch(w')
  {
    hide KernelStep, PastCount, Next;
    var p := w.kernel.current - 1;
    StepSeenByApplications(algorithm, c, w, e, w');
    TicketsAfterStep(algorithm, c, w, e, w');
    if View(w') != View(w) {
      AppAfterStep(c, View(w), p, View(w'));
      PastAfterUpdate(w.apps, p, w'.apps[p]);
    }
  }

  lemma AppAfterStep(c: Config, s: Shared, p: nat, s': Shared)
    requires |s.apps| == |c.chars| && AppStep(c, s, p, s')
    ensures s'.apps == s.apps[p := s'.apps[p]]
    ensures PastTicket(s'.apps[p]) <==> PastTicket(s.apps[p]) || s.apps[p].pc.GetTicket?
  {}

  /** Only sys_get_ticket sells a ticket, to its caller, while there are any. */
  lemma TicketsAfterStep(algorithm: int, c: Config, w: Whole, e: Event, w': Whole)
    requires Agrees(c, w) && WholeStep(algorithm, c, w, e, w')
    ensures w'.kernel.tickets
         == w.kernel.tickets + (if e.Trap? && e.reg.intno == INT_SYS_USER4 && |w.kernel.tickets| < MAX_TICKETS
                                then [w.kernel.current] else [])
    ensures (e.Trap? && e.reg.intno == INT_SYS_USER4) <==> w.apps[w.kernel.current - 1].pc.GetTicket? && w'.apps != w.apps
    ensures |w'.kernel.procs| == |w.kernel.procs|
  {
    if e.Trap? && IsDecision(e.reg) {
      ScheduledEffect(algorithm, BeforeSchedule(w.kernel, e.reg), w'.kernel);
    }
  }

  lemma {:induction false} WholeRunsMatchTickets(algorithm: int, c: Config, run: seq<Whole>, events: seq<Event>, k: nat)
    requires ValidConfig(c) && WholeRun(algorithm, c, run, events) && k < |run|
    ensures TicketsMatch(run[k])
  {
    hide WholeStep, Invariant, Sound, TicketsMatch;
    if k == 0 {
      BootMatchesTickets(c, run[0]);
    } else {
      WholeRunsMatchTickets(algorithm, c, run, events, k - 1);
      WholeRunsAreSafe(algorithm, c, run, events, k - 1);
      assert WholeStep(algorithm, c, run[k - 1], events[k - 1], run[k - 1 + 1]);
      StepKeepsTicketsMatch(algorithm, c, run[k - 1], events[k - 1], run[k]);
    }
  }

  lemma BootMatchesTickets(c: Config, w: Whole)
    requires Boots(c, w)
    ensures TicketsMatch(w)
  {
    NonePast(|c.chars|);
  }

  /** NPROCS - 1 tickets are sold: from now on the lottery is held. */
  predicate Sold(w: Whole)
  {
    |w.kernel.procs| - 1 <= |w.kernel.tickets|
  }

  /** In every run from boot, once NPROCS - 1 tickets are sold every process has one and none will be sold again. */
  lemma AllHaveTickets(c: Config, w: Whole)
    requires Agrees(c, w) && TicketsMatch(w) && Sold(w)
    ensures forall p :: 0 <= p < |w.apps| ==> PastTicket(w.apps[p]) && HasTicket(w, p)
  {
    assert PastCount(w.apps) == |w.apps| == |w.kernel.tickets|;
    AllPast(w.apps);
  }

  // --- Draws -----------------------------------------------------------------------------------------

  /** The d-th draw is the next that slot i wins. */
  ghost predicate NextWin(tickets: seq<int>, seed: int, i: nat, d: nat)
    requires 0 < |tickets|
  {
    && 1 <= d <= PERIOD && Winner(tickets, After(seed, d)) == i
    && forall j: nat :: 1 <= j < d ==> Winner(tickets, After(seed, j)) != i
  }

  lemma {:induction false} NextWinBefore(tickets: seq<int>, seed: int, i: nat, d: nat)
    requires 0 < |tickets| && 1 <= d <= PERIOD && Winner(tickets, After(seed, d)) == i
    ensures exists e: nat :: e <= d && NextWin(tickets, seed, i, e)
    decreases d
  {
    hide Winner, After;
    if j: nat :| 1 <= j < d && Winner(tickets, After(seed, j)) == i {
      NextWinBefore(tickets, seed, i, j);
    } else {
      assert NextWin(tickets, seed, i, d);
    }
  }

  lemma NextWinExists(tickets: seq<int>, seed: int, i: nat)
    requires IsSeed(seed) && |tickets| <= NUMBERS && i in tickets
    ensures 0 < |tickets| && exists d: nat :: NextWin(tickets, seed, i, d)
  {
    hide After, Number;
    var t: nat :| t < |tickets| && tickets[t] == i;
    EveryTicketIsDrawn(|tickets|, t, seed);
    var k: nat :| 1 <= k <= PERIOD && Number(After(seed, k)) % |tickets| == t;
    NextWinBefore(tickets, seed, i, k);
  }

  /** Draws until slot i runs: none while it does. */
  ghost function DrawDelay(s: System, i: nat): (d: nat)
    requires IsSeed(s.seed) && |s.tickets| <= NUMBERS && i in s.tickets
    ensures d <= PERIOD
  {
    if s.current == i then 0
    else
      NextWinExists(s.tickets, s.seed, i);
      var d: nat :| NextWin(s.tickets, s.seed, i, d);
      d
  }

  /** A draw that another slot wins brings the next win of slot i nearer. */
  lemma DrawDelayShrinks(s: System, s': System, i: nat)
    requires IsSeed(s.seed) && |s.tickets| <= NUMBERS && i in s.tickets && s.current != i && LotteryHeld(s, s')
    requires i < |s.procs| && s.procs[i].state.Runnable?
    ensures IsSeed(s'.seed) && s'.tickets == s.tickets && DrawDelay(s', i) < DrawDelay(s, i)
  {
    hide Winner, After;
    var k: nat :| FirstWinningDraw(s.procs, s.tickets, s.seed, k) && k <= PERIOD
                  && s' == Dispatch(s.(seed := After(s.seed, k)), Winner(s.tickets, After(s.seed, k)));
    AfterKeepsSeeds(s.seed, k);
    NextWinExists(s.tickets, s.seed, i);
    var d := DrawDelay(s, i);
    assert NextWin(s.tickets, s.seed, i, d);
    assert WinnerRuns(s.procs, s.tickets, s.seed, d);
    assert k <= d;
    if s'.current != i {
      AfterAdds(s.seed, k, d - k);
      NextWinExists(s'.tickets, s'.seed, i);
      var d' := DrawDelay(s', i);
      assert NextWin(s'.tickets, s'.seed, i, d');
      assert Winner(s.tickets, After(s'.seed, d - k)) == i;
    }
  }

  lemma SameDrawDelay(s: System, t: System, i: nat)
    requires IsSeed(s.seed) && |s.tickets| <= NUMBERS && i in s.tickets
    requires s.seed == t.seed && s.tickets == t.tickets && s.current == t.current
    ensures DrawDelay(s, i) == DrawDelay(t, i)
  {}

  // --- The delay of a holder -------------------------------------------------------------------------

  const LOTTERY_LAP: nat := PERIOD + 1

  /** What every run of policy 4 keeps. */
  ghost predicate LotteryRuns(c: Config, w: Whole)
  {
    Agrees(c, w) && TicketsMatch(w)
  }

  /** Quanta before application h runs: its next win, or, while tickets are still sold, its turn of round robin after
      which the lottery may begin. */
  ghost function LotteryDelay(c: Config, w: Whole, h: nat): (d: nat)
    requires LotteryRuns(c, w) && h < |c.chars|
    ensures d < LOTTERY_LAP + |c.chars| && (Sold(w) ==> d < LOTTERY_LAP)
  {
    if Sold(w) then
      AllHaveTickets(c, w);
      assert HasTicket(w, h);
      DrawDelay(w.kernel, h + 1)
    else LOTTERY_LAP + Delay(|c.chars|, w.kernel.current, h)
  }

  lemma QuietEventKeepsDraws(c: Config, w: Whole, e: Event, w': Whole)
    requires LotteryRuns(c, w) && WholeStep(4, c, w, e, w') && !IsSchedule(e)
    ensures w'.kernel.seed == w.kernel.seed && w'.kernel.current == w.kernel.current
    ensures Sold(w) ==> Sold(w') && w'.kernel.tickets == w.kernel.tickets
  {
    TicketsAfterStep(4, c, w, e, w');
    if Sold(w) {
      AllHaveTickets(c, w);
    }
  }

  /** A quiet event does not put off the turn of h. */
  lemma QuietEventKeepsDelay(c: Config, w: Whole, e: Event, w': Whole, h: nat)
    requires LotteryRuns(c, w) && LotteryRuns(c, w') && WholeStep(4, c, w, e, w') && !IsSchedule(e) && h < |c.chars|
    ensures LotteryDelay(c, w', h) <= LotteryDelay(c, w, h)
  {
    hide WholeStep, TicketsMatch, DrawDelay, WellFormed;
    QuietEventKeepsDraws(c, w, e, w');
    if Sold(w) {
      LotteryIsWellFormed(c, w);
      AllHaveTickets(c, w);
      AllHaveTickets(c, w');
      assert HasTicket(w, h) && HasTicket(w', h);
      SameDrawDelay(w.kernel, w'.kernel, h + 1);
    }
  }

  lemma LotteryIsWellFormed(c: Config, w: Whole)
    requires LotteryRuns(c, w)
    ensures IsSeed(w.kernel.seed) && |w.kernel.tickets| <= NUMBERS
  {}

  /** A decision brings the turn of h nearer, unless it was its own. */
  lemma DecisionShrinksLotteryDelay(c: Config, w: Whole, e: Event, w': Whole, h: nat)
    requires LotteryRuns(c, w) && LotteryRuns(c, w') && WholeStep(4, c, w, e, w') && IsSchedule(e) && h < |c.chars|
    requires w.kernel.current != h + 1 && !w'.apps[h].pc.Exited?
    ensures LotteryDelay(c, w', h) < LotteryDelay(c, w, h)
  {
    hide TicketsMatch, DrawDelay, LotteryHeld, First;
    TicketsAfterStep(4, c, w, e, w');
    var before := BeforeSchedule(w.kernel, e.reg);
    assert w.apps[h] == w'.apps[h];
    assert before.procs[h + 1] == w.kernel.procs[h + 1] && w.kernel.procs[h + 1].state.Runnable?;
    if Sold(w) {
      LotteryIsWellFormed(c, w);
      AllHaveTickets(c, w);
      AllHaveTickets(c, w');
      assert HasTicket(w, h) && HasTicket(w', h);
      SameDrawDelay(before, w.kernel, h + 1);
      DrawDelayShrinks(before, w'.kernel, h + 1);
    } else {
      assert RunnableSlots(before.procs)[h + 1];
      WaitShrinks(RunnableSlots(before.procs), w.kernel.current, w'.kernel.current, h + 1);
    }
  }

  lemma {:induction false} DelayInQuantum(c: Config, run: seq<Whole>, events: seq<Event>, from: nat, to: nat, k: nat,
                                          h: nat)
    requires Stretch(4, c, run, events, from) && QuantumAt(events, from, to) && from <= k < to && h < |c.chars|
    requires forall j :: from <= j <= |events| ==> LotteryRuns(c, run[j])
    ensures LotteryDelay(c, run[k], h) <= LotteryDelay(c, run[from], h)
  {
    hide WholeStep, Safe, LotteryRuns, LotteryDelay;
    if k > from {
      DelayInQuantum(c, run, events, from, to, k - 1, h);
      assert WholeStep(4, c, run[k - 1], events[k - 1], run[k - 1 + 1]) by {
        StretchStep(4, c, run, events, from, k - 1);
      }
      QuietEventKeepsDelay(c, run[k - 1], events[k - 1], run[k], h);
    }
  }

  lemma StretchStep(algorithm: int, c: Config, run: seq<Whole>, events: seq<Event>, from: nat, k: nat)
    requires Stretch(algorithm, c, run, events, from) && from <= k < |events|
    ensures Agrees(c, run[k]) && WholeStep(algorithm, c, run[k], events[k], run[k + 1])
  {}

  lemma QuantumShrinksLotteryDelay(c: Config, run: seq<Whole>, events: seq<Event>, from: nat, to: nat, h: nat)
    requires Stretch(4, c, run, events, from) && QuantumAt(events, from, to) && h < |c.chars|
    requires forall j :: from <= j <= |events| ==> LotteryRuns(c, run[j])
    ensures DelayedQuantum(c, View(run[from]), run[from].kernel.current, LotteryDelay(c, run[from], h),
                           View(run[to]), LotteryDelay(c, run[to], h), h)
  {
    hide WholeStep, Invariant, Sound, WellFormed, ExecutesTo, TicketsMatch, LotteryDelay;
    QuantumExecutes(4, c, run, events, from, to);
    QuantumKeepsCurrent(4, c, run, events, from, to, to - 1);
    DelayInQuantum(c, run, events, from, to, to - 1, h);
    assert WholeStep(4, c, run[to - 1], events[to - 1], run[to - 1 + 1]);
    if run[from].kernel.current != h + 1 && Critical(run[to].apps[h]) {
      DecisionShrinksLotteryDelay(c, run[to - 1], events[to - 1], run[to], h);
    }
  }

  // --- Every held lock is released -------------------------------------------------------------------

  lemma {:induction false} StaysSold(c: Config, run: seq<Whole>, events: seq<Event>, from: nat, k: nat)
    requires Stretch(4, c, run, events, from) && from <= k <= |events| && Sold(run[from])
    ensures Sold(run[k])
  {
    hide WholeStep, Invariant, Sound, WellFormed;
    if k > from {
      StaysSold(c, run, events, from, k - 1);
      assert WholeStep(4, c, run[k - 1], events[k - 1], run[k - 1 + 1]);
      TicketsAfterStep(4, c, run[k - 1], events[k - 1], run[k]);
    }
  }

  /** Under policy 4, in every run from boot, with interrupts at any point and whoever sells, buys or exits: a held lock
      is released within five periods of the generator and five laps of round robin, and without the latter once
      NPROCS - 1 tickets are sold. */
  lemma LotteryReleases(c: Config, run: seq<Whole>, events: seq<Event>, cuts: seq<nat>, h: nat, bound: nat)
    requires ValidConfig(c) && WholeRun(4, c, run, events) && CutIntoQuanta(events, cuts)
    requires h < |c.chars| && h < |run[cuts[0]].apps| && Critical(run[cuts[0]].apps[h])
    requires bound == if Sold(run[cuts[0]]) then LOTTERY_LAP else LOTTERY_LAP + |c.chars|
    requires |cuts| > CRITICAL_STEPS * bound
    ensures ReleasedWithin(run, cuts, h, CRITICAL_STEPS * bound)
  {
    hide Safe, WholeStep, Boots, QuantumAt, Critical, LotteryDelay, LotteryRuns, DelayedQuantum;
    var n := |cuts|;
    forall k | 0 <= k < |run| ensures LotteryRuns(c, run[k]) {
      RunOfLottery(c, run, events, k);
    }
    RunIsStretch(4, c, run, events, cuts[0]);
    var states := seq(n, k requires 0 <= k < n => View(run[cuts[k]]));
    var current := seq(n, k requires 0 <= k < n => run[cuts[k]].kernel.current);
    var delay := seq(n, k requires 0 <= k < n => LotteryDelay(c, run[cuts[k]], h));
    forall k | 0 <= k < n ensures delay[k] < bound {
      CutsIncrease(events, cuts, k);
      if Sold(run[cuts[0]]) {
        StaysSold(c, run, events, cuts[0], cuts[k]);
      }
    }
    forall k | 0 <= k < n - 1 ensures DelayedQuantum(c, states[k], current[k], delay[k], states[k + 1], delay[k + 1], h) {
      assert QuantumAt(events, cuts[k], cuts[k + 1]);
      RunIsStretch(4, c, run, events, cuts[k]);
      QuantumShrinksLotteryDelay(c, run, events, cuts[k], cuts[k + 1], h);
    }
    SafeHasInvariant(4, c, run[cuts[0]]);
    LockIsReleased(c, states, current, delay, bound, h);
    var k :| 0 < k <= CRITICAL_STEPS * bound && h < |states[k].apps| && !Critical(states[k].apps[h]);
    assert states[k].apps == run[cuts[k]].apps;
  }

  lemma RunOfLottery(c: Config, run: seq<Whole>, events: seq<Event>, k: nat)
    requires ValidConfig(c) && WholeRun(4, c, run, events) && k < |run|
    ensures LotteryRuns(c, run[k])
  {
    hide WholeStep, Invariant, Sound, TicketsMatch;
    WholeRunsAreSafe(4, c, run, events, k);
    WholeRunsMatchTickets(4, c, run, events, k);
  }
}

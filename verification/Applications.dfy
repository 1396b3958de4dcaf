/** The applications: schedos-1.c to schedos-4.c, one instruction-sized step at a time, with every
    interleaving of their steps. */
module Applications {
  import opened Divisibility

  /** Where an application is in its code. Store is the state between loading the cursor and writing it back:
      the cell and the cursor are written in whichever order the compiler chose. */
  datatype Pc =
    | SetPriority | SetShare | GetTicket | LoopTest
    | Swap | SwapTest | Load | Store | CellStored | CursorStored | Release | Yield
    | Print
    | Exit | Exited

  /** rounds is the loop counter i; reg holds the value the last swap or load returned. */
  datatype App = App(pc: Pc, rounds: nat, reg: int)

  /** RUNCOUNT, the PRINTCHAR of every application, and SYNC_METHOD. */
  datatype Config = Config(rounds: nat, chars: seq<int>, syncMethod: int)

  datatype Shared = Shared(lock: int, cursor: int, cells: map<int, int>, apps: seq<App>)

  predicate ValidConfig(c: Config)
  {
    && (c.syncMethod == 1 || c.syncMethod == 2)
    && forall p, q :: 0 <= p < q < |c.chars| ==> c.chars[p] != c.chars[q]
  }

  function Start(c: Config): Shared
  {
    Shared(0, 0, map[], seq(|c.chars|, p => App(SetPriority, 0, 0)))
  }

  /** atomic_swap(&lock, val), as (value returned, new lock). */
  function AtomicSwap(lock: int, val: int): (int, int)
  {
    (lock, val)
  }

  /** The store of the cursor that `*cursorpos++ = PRINTCHAR` makes, in either order with the store of the cell. */
  predicate StoresCursor(a: App, cellFirst: bool)
  {
    a.pc.CellStored? || (a.pc.Store? && !cellFirst)
  }

  predicate StoresCell(a: App, cellFirst: bool)
  {
    a.pc.CursorStored? || (a.pc.Store? && cellFirst)
  }

  function NextApp(c: Config, s: Shared, a: App, cellFirst: bool): App
  {
    match a.pc
    case SetPriority => a.(pc := SetShare)
    case SetShare => a.(pc := GetTicket)
    case GetTicket => a.(pc := LoopTest)
    case LoopTest => a.(pc := if a.rounds >= c.rounds then Exit else if c.syncMethod == 1 then Swap else Print)
    case Swap => a.(pc := SwapTest, reg := AtomicSwap(s.lock, 1).0)
    case SwapTest => a.(pc := if a.reg != 0 then Swap else Load)
    case Load => a.(pc := Store, reg := s.cursor)
    case Store => a.(pc := if cellFirst then CellStored else CursorStored)
    case CellStored => a.(pc := Release)
    case CursorStored => a.(pc := Release)
    case Release => a.(pc := Yield)
    case Yield => a.(pc := LoopTest, rounds := a.rounds + 1)
    case Print => a.(pc := LoopTest, rounds := a.rounds + 1)
    case Exit => a.(pc := Exited)
    case Exited => a
  }

  /** One step of application p. sys_print stores cell and cursor inside the kernel, in one step. */
  function Next(c: Config, s: Shared, p: nat, cellFirst: bool): Shared
    requires p < |s.apps| == |c.chars|
  {
    var a := s.apps[p];
    Shared(
      if a.pc.Swap? then AtomicSwap(s.lock, 1).1 else if a.pc.Release? then AtomicSwap(s.lock, 0).1 else s.lock,
      if StoresCursor(a, cellFirst) then a.reg + 1 else if a.pc.Print? then s.cursor + 1 else s.cursor,
      if StoresCell(a, cellFirst) then s.cells[a.reg := c.chars[p]]
      else if a.pc.Print? then s.cells[s.cursor := c.chars[p]]
      else s.cells,
      s.apps[p := NextApp(c, s, a, cellFirst)])
  }

  ghost predicate AppStep(c: Config, s: Shared, p: nat, s': Shared)
    requires |s.apps| == |c.chars|
  {
    p < |s.apps| && !s.apps[p].pc.Exited? && (s' == Next(c, s, p, true) || s' == Next(c, s, p, false))
  }

  // --- The invariant ---------------------------------------------------------------------------------

  predicate Critical(a: App)
  {
    (a.pc.SwapTest? && a.reg == 0) || a.pc.Load? || a.pc.Store? || a.pc.CellStored? || a.pc.CursorStored? || a.pc.Release?
  }

  /** The prints application a has completed. */
  function Printed(a: App): nat
  {
    a.rounds + (if a.pc.Release? || a.pc.Yield? then 1 else 0)
  }

  function TotalPrinted(apps: seq<App>): nat
  {
    if apps == [] then 0 else TotalPrinted(apps[..|apps| - 1]) + Printed(apps[|apps| - 1])
  }

  /** How many of the first n cells hold ch. */
  function CellsHolding(cells: map<int, int>, n: int, ch: int): nat
  {
    if n <= 0 then 0
    else CellsHolding(cells, n - 1, ch) + (if n - 1 in cells && cells[n - 1] == ch then 1 else 0)
  }

  /** What each program point implies about the application itself and the data it is about to write. */
  predicate PointInvariant(c: Config, s: Shared, p: nat)
    requires p < |s.apps| == |c.chars|
  {
    var a := s.apps[p];
    && (a.pc.SetPriority? || a.pc.SetShare? || a.pc.GetTicket? ==> a.rounds == 0)
    && (a.pc.Exit? || a.pc.Exited? ==> a.rounds == c.rounds)
    && a.rounds <= c.rounds
    && (a.pc.Swap? || a.pc.SwapTest? || a.pc.Yield? || Critical(a) ==> a.rounds < c.rounds && c.syncMethod == 1)
    && (a.pc.Print? ==> a.rounds < c.rounds && c.syncMethod == 2)
    && (a.pc.Store? || a.pc.CellStored? ==> a.reg == s.cursor)
    && (a.pc.CursorStored? ==> a.reg + 1 == s.cursor)
    && (a.pc.CellStored? ==> s.cursor in s.cells && s.cells[s.cursor] == c.chars[p])
  }

  predicate MutualExclusion(s: Shared)
  {
    && (s.lock == 0 || s.lock == 1)
    && (s.lock == 0 ==> forall p :: 0 <= p < |s.apps| ==> !Critical(s.apps[p]))
    && (s.lock == 1 ==> exists p :: 0 <= p < |s.apps| && Critical(s.apps[p]))
    && forall p, q :: 0 <= p < |s.apps| && 0 <= q < |s.apps| && Critical(s.apps[p]) && Critical(s.apps[q]) ==> p == q
  }

  /** The cells below the first `end` hold the characters of the completed prints, and nothing else. */
  predicate CellsMatch(c: Config, s: Shared, end: int)
    requires |s.apps| == |c.chars|
  {
    && end == TotalPrinted(s.apps)
    && (forall k :: 0 <= k < end ==> k in s.cells && s.cells[k] in c.chars)
    && forall p :: 0 <= p < |s.apps| ==> CellsHolding(s.cells, TotalPrinted(s.apps), c.chars[p]) == Printed(s.apps[p])
  }

  predicate CursorAhead(s: Shared)
  {
    exists p :: 0 <= p < |s.apps| && s.apps[p].pc.CursorStored?
  }

  /** The end of the completed cells: the cursor, or one less while the cell below it is still to be stored. */
  function Frontier(s: Shared): int
  {
    if CursorAhead(s) then s.cursor - 1 else s.cursor
  }

  predicate Invariant(c: Config, s: Shared)
  {
    && ValidConfig(c) && |s.apps| == |c.chars|
    && MutualExclusion(s)
    && (forall p :: 0 <= p < |s.apps| ==> PointInvariant(c, s, p))
    && CellsMatch(c, s, Frontier(s))
  }

  // --- Counting cells and prints ---------------------------------------------------------------------

  lemma {:induction false} TotalAfterUpdate(apps: seq<App>, p: nat, a: App)
    requires p < |apps|
    ensures TotalPrinted(apps[p := a]) == TotalPrinted(apps) - Printed(apps[p]) + Printed(a)
    decreases |apps|
  {
    var n := |apps|;
    if p == n - 1 {
      assert apps[p := a][..n - 1] == apps[..n - 1];
    } else {
      TotalAfterUpdate(apps[..n - 1], p, a);
      assert apps[p := a][..n - 1] == apps[..n - 1][p := a];
    }
  }

  lemma {:induction false} CellsHoldingFrame(cells: map<int, int>, cells': map<int, int>, n: int, ch: int)
    requires forall k :: 0 <= k < n ==> (k in cells <==> k in cells') && (k in cells ==> cells[k] == cells'[k])
    ensures CellsHolding(cells', n, ch) == CellsHolding(cells, n, ch)
  {
    if n > 0 {
      CellsHoldingFrame(cells, cells', n - 1, ch);
    }
  }

  lemma {:induction false} FreshTotal(n: nat)
    ensures TotalPrinted(seq(n, p => App(SetPriority, 0, 0))) == 0
  {
    if n > 0 {
      FreshTotal(n - 1);
      assert seq(n, p => App(SetPriority, 0, 0))[..n - 1] == seq(n - 1, p => App(SetPriority, 0, 0));
    }
  }

  lemma {:induction false} TotalIsBounded(apps: seq<App>, n: nat)
    requires forall p :: 0 <= p < |apps| ==> Printed(apps[p]) <= n
    ensures TotalPrinted(apps) <= |apps| * n
    ensures (exists p :: 0 <= p < |apps| && Printed(apps[p]) < n) ==> TotalPrinted(apps) < |apps| * n
    ensures (forall p :: 0 <= p < |apps| ==> Printed(apps[p]) == n) ==> TotalPrinted(apps) == |apps| * n
    decreases |apps|
  {
    if apps != [] {
      var m := |apps| - 1;
      TotalIsBounded(apps[..m], n);
      OneMore(n, m);
      assert |apps| * n == m * n + n;
      assert TotalPrinted(apps) == TotalPrinted(apps[..m]) + Printed(apps[m]);
      if p :| 0 <= p < |apps| && Printed(apps[p]) < n {
        if p < m { assert Printed(apps[..m][p]) < n; }
      }
    }
  }

  // --- Every step keeps the invariant ----------------------------------------------------------------

  lemma StartEstablishesInvariant(c: Config)
    requires ValidConfig(c)
    ensures Invariant(c, Start(c))
  {
    FreshTotal(|c.chars|);
  }

  /** How a step moves its application in and out of the critical section. */
  lemma CriticalMove(c: Config, s: Shared, p: nat, cellFirst: bool)
    requires p < |s.apps| == |c.chars| && !s.apps[p].pc.Exited?
    ensures var a, s' := s.apps[p], Next(c, s, p, cellFirst);
            var a' := s'.apps[p];
            if a.pc.Swap? then !Critical(a) && s'.lock == 1 && Critical(a') == (s.lock == 0)
            else if a.pc.Release? then Critical(a) && s'.lock == 0 && !Critical(a')
            else s'.lock == s.lock && Critical(a') == Critical(a)
  {}

  lemma ExclusionAfterMove(s: Shared, p: nat, s': Shared)
    requires p < |s.apps| == |s'.apps| && MutualExclusion(s) && s'.apps == s.apps[p := s'.apps[p]]
    requires || (!Critical(s.apps[p]) && s'.lock == 1 && Critical(s'.apps[p]) == (s.lock == 0))
             || (Critical(s.apps[p]) && s'.lock == 0 && !Critical(s'.apps[p]))
             || (s'.lock == s.lock && Critical(s'.apps[p]) == Critical(s.apps[p]))
    ensures MutualExclusion(s')
  {
    assert forall q :: 0 <= q < |s.apps| && q != p ==> s'.apps[q] == s.apps[q];
    if s'.lock == 1 && !Critical(s'.apps[p]) {
      assert s.lock == 1;
      var q :| 0 <= q < |s.apps| && Critical(s.apps[q]);
      assert Critical(s'.apps[q]);
    }
  }

  lemma StepKeepsExclusion(c: Config, s: Shared, p: nat, cellFirst: bool)
    requires Invariant(c, s) && p < |s.apps| && !s.apps[p].pc.Exited?
    ensures MutualExclusion(Next(c, s, p, cellFirst))
  {
    CriticalMove(c, s, p, cellFirst);
    ExclusionAfterMove(s, p, Next(c, s, p, cellFirst));
  }

  lemma StepKeepsOwnPoint(c: Config, s: Shared, p: nat, cellFirst: bool)
    requires p < |s.apps| == |c.chars| && ValidConfig(c) && PointInvariant(c, s, p)
    ensures PointInvariant(c, Next(c, s, p, cellFirst), p)
  {}

  lemma StepKeepsOtherPoint(c: Config, s: Shared, p: nat, cellFirst: bool, q: nat)
    requires p < |s.apps| == |c.chars| && q < |s.apps| && p != q
    requires PointInvariant(c, s, p) && PointInvariant(c, s, q) && MutualExclusion(s)
    ensures PointInvariant(c, Next(c, s, p, cellFirst), q)
  {
    assert Next(c, s, p, cellFirst).apps[q] == s.apps[q];
    assert !(Critical(s.apps[p]) && Critical(s.apps[q]));
  }

  lemma AheadOnlyWhileCritical(c: Config, s: Shared, p: nat)
    requires Invariant(c, s) && p < |s.apps|
    requires Critical(s.apps[p]) || s.apps[p].pc.Print?
    ensures CursorAhead(s) <==> s.apps[p].pc.CursorStored?
    ensures forall q :: 0 <= q < |s.apps| && q != p ==> !s.apps[q].pc.CursorStored?
  {
    assert PointInvariant(c, s, p);
    forall q | 0 <= q < |s.apps| && q != p ensures !s.apps[q].pc.CursorStored? {
      assert PointInvariant(c, s, q);
      assert s.apps[q].pc.CursorStored? ==> Critical(s.apps[q]);
    }
  }

  /** A step completes a print, with the right cell at the frontier, or moves neither count nor frontier. */
  lemma FrontierMove(c: Config, s: Shared, p: nat, cellFirst: bool)
    requires Invariant(c, s) && p < |s.apps| && !s.apps[p].pc.Exited?
    ensures var s', f := Next(c, s, p, cellFirst), Frontier(s);
            && (s'.cells == s.cells || s'.cells == s.cells[f := c.chars[p]])
            && (if Printed(s'.apps[p]) == Printed(s.apps[p]) then Frontier(s') == f
                else && Printed(s'.apps[p]) == Printed(s.apps[p]) + 1 && Frontier(s') == f + 1
                     && f in s'.cells && s'.cells[f] == c.chars[p])
  {
    var a, s' := s.apps[p], Next(c, s, p, cellFirst);
    assert PointInvariant(c, s, p);
    assert forall q :: 0 <= q < |s.apps| && q != p ==> s'.apps[q] == s.apps[q];
    if Critical(a) || a.pc.Print? {
      AheadOnlyWhileCritical(c, s, p);
      assert CursorAhead(s') <==> s'.apps[p].pc.CursorStored?;
    } else {
      assert !a.pc.CursorStored? && !s'.apps[p].pc.CursorStored?;
      assert CursorAhead(s') <==> CursorAhead(s) by {
        if q :| 0 <= q < |s.apps| && s.apps[q].pc.CursorStored? {
          assert s'.apps[q].pc.CursorStored?;
        }
      }
    }
  }

  lemma CellsAfterMove(c: Config, s: Shared, p: nat, s': Shared, f: nat)
    requires ValidConfig(c) && |s.apps| == |c.chars| && p < |s.apps| == |s'.apps| && CellsMatch(c, s, f)
    requires s'.apps == s.apps[p := s'.apps[p]]
    requires s'.cells == s.cells || s'.cells == s.cells[f := c.chars[p]]
    requires Printed(s'.apps[p]) == Printed(s.apps[p])
             || (Printed(s'.apps[p]) == Printed(s.apps[p]) + 1 && f in s'.cells && s'.cells[f] == c.chars[p])
    ensures CellsMatch(c, s', f + Printed(s'.apps[p]) - Printed(s.apps[p]))
  {
    TotalAfterUpdate(s.apps, p, s'.apps[p]);
    forall q | 0 <= q < |s.apps|
      ensures CellsHolding(s'.cells, TotalPrinted(s'.apps), c.chars[q]) == Printed(s'.apps[q])
    {
      CellsHoldingFrame(s.cells, s'.cells, f, c.chars[q]);
    }
  }

  lemma StepKeepsInvariant(c: Config, s: Shared, p: nat, s': Shared)
    requires Invariant(c, s) && AppStep(c, s, p, s')
    ensures Invariant(c, s')
  {
    var cellFirst := s' == Next(c, s, p, true);
    StepKeepsExclusion(c, s, p, cellFirst);
    StepKeepsOwnPoint(c, s, p, cellFirst);
    forall q: nat | q < |s.apps| && q != p ensures PointInvariant(c, s', q) {
      StepKeepsOtherPoint(c, s, p, cellFirst, q);
    }
    FrontierMove(c, s, p, cellFirst);
    CellsAfterMove(c, s, p, s', Frontier(s));
  }

  ghost predicate SomeStep(c: Config, s: Shared, s': Shared)
    requires |s.apps| == |c.chars|
  {
    exists p: nat :: AppStep(c, s, p, s')
  }

  // --- Every interleaving ----------------------------------------------------------------------------

  /** An execution: any application that has not exited may take the next step. */
  ghost predicate Interleaving(c: Config, run: seq<Shared>)
  {
    && 0 < |run| && run[0] == Start(c)
    && (forall k :: 0 <= k < |run| ==> |run[k].apps| == |c.chars|)
    && forall k :: 0 <= k < |run| - 1 ==> SomeStep(c, run[k], run[k + 1])
  }

  lemma {:induction false} InterleavingsKeepInvariant(c: Config, run: seq<Shared>, k: nat)
    requires ValidConfig(c) && Interleaving(c, run) && k < |run|
    ensures Invariant(c, run[k])
  {
    if k == 0 {
      StartEstablishesInvariant(c);
    } else {
      InterleavingsKeepInvariant(c, run, k - 1);
      assert SomeStep(c, run[k - 1], run[k - 1 + 1]);
      var p: nat :| AppStep(c, run[k - 1], p, run[k]);
      StepKeepsInvariant(c, run[k - 1], p, run[k]);
    }
  }

  /** When the lock is free no print is half done, and the cells below the cursor are the completed prints. */
  lemma FreeLockShowsPrints(c: Config, s: Shared, p: nat)
    requires Invariant(c, s) && s.lock == 0 && p < |c.chars|
    ensures 0 <= s.cursor == TotalPrinted(s.apps)
    ensures CellsHolding(s.cells, s.cursor, c.chars[p]) == Printed(s.apps[p])
    ensures forall i :: 0 <= i < s.cursor ==> i in s.cells && s.cells[i] in c.chars
  {
    assert !CursorAhead(s) by {
      if q :| 0 <= q < |s.apps| && s.apps[q].pc.CursorStored? {
        assert Critical(s.apps[q]);
      }
    }
  }

  /** lock is 1 exactly when some application is in its critical section, 0 otherwise, and never are two. */
  lemma LockMeansOneCritical(c: Config, run: seq<Shared>, k: nat)
    requires ValidConfig(c) && Interleaving(c, run) && k < |run|
    ensures run[k].lock == (if exists p :: 0 <= p < |c.chars| && Critical(run[k].apps[p]) then 1 else 0)
    ensures forall p, q :: 0 <= p < q < |c.chars| ==> !(Critical(run[k].apps[p]) && Critical(run[k].apps[q]))
  {
    InterleavingsKeepInvariant(c, run, k);
  }

  /** Whenever no print is half done, the cells below the cursor hold each application's character once per
      completed print, and no other character. */
  lemma CellsShowPrints(c: Config, run: seq<Shared>, k: nat, p: nat)
    requires ValidConfig(c) && Interleaving(c, run) && k < |run| && p < |c.chars|
    requires run[k].lock == 0
    ensures 0 <= run[k].cursor == TotalPrinted(run[k].apps)
    ensures CellsHolding(run[k].cells, run[k].cursor, c.chars[p]) == Printed(run[k].apps[p])
    ensures forall i :: 0 <= i < run[k].cursor ==> i in run[k].cells && run[k].cells[i] in c.chars
  {
    InterleavingsKeepInvariant(c, run, k);
    FreeLockShowsPrints(c, run[k], p);
  }

  /** When all have exited, each owns exactly as many cells as it had rounds, and together they fill the first
      |chars| * rounds cells. */
  lemma AllExitedCells(c: Config, run: seq<Shared>, k: nat, p: nat)
    requires ValidConfig(c) && Interleaving(c, run) && k < |run| && p < |c.chars|
    requires forall q :: 0 <= q < |c.chars| ==> run[k].apps[q].pc.Exited?
    ensures run[k].lock == 0
    ensures run[k].cursor == |c.chars| * c.rounds
    ensures CellsHolding(run[k].cells, run[k].cursor, c.chars[p]) == c.rounds
  {
    InterleavingsKeepInvariant(c, run, k);
    assert run[k].lock == 0;
    CellsShowPrints(c, run, k, p);
    forall q | 0 <= q < |c.chars| ensures Printed(run[k].apps[q]) == c.rounds {
      assert PointInvariant(c, run[k], q);
    }
    TotalIsBounded(run[k].apps, c.rounds);
  }

  /** Every store goes to one of the first |chars| * rounds cells, so the screen is not left when they fit it. */
  lemma StoresStayBelowTotal(c: Config, run: seq<Shared>, k: nat, p: nat, cellFirst: bool)
    requires ValidConfig(c) && Interleaving(c, run) && k < |run| && p < |c.chars|
    requires StoresCell(run[k].apps[p], cellFirst) || run[k].apps[p].pc.Print?
    ensures 0 <= (if run[k].apps[p].pc.Print? then run[k].cursor else run[k].apps[p].reg) < |c.chars| * c.rounds
  {
    var s := run[k];
    InterleavingsKeepInvariant(c, run, k);
    AheadOnlyWhileCritical(c, s, p);
    forall q | 0 <= q < |c.chars| ensures Printed(s.apps[q]) <= c.rounds {
      assert PointInvariant(c, s, q);
    }
    assert PointInvariant(c, s, p) && Printed(s.apps[p]) < c.rounds;
    TotalIsBounded(s.apps, c.rounds);
  }
}

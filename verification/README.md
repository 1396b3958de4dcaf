# SchedOS: a verified model

SchedOS is a small preemptive kernel for one x86 processor. It loads four applications, shares the processor among them
under one of five scheduling policies, and lets them print to a shared 80 by 25 console through a spinlock. This
project models its five difficult parts and proves what they promise:

* **The random generator** (`Lehmer`, `LehmerJumps`, `LehmerPeriod`, `Generator`). `Lehmer` is the generator as
  mathematics. `LehmerJumps` jumps k steps ahead by multiplying once; it is how the proofs reach 2147483646 steps
  without taking them. `LehmerPeriod` proves the period from the factors of m - 1 and a counting argument. `Generator`
  is the code: a class over the table of 256 seeds, in 32-bit signed arithmetic, where every intermediate value has the
  type `int32`, so that an overflow would not verify.
* **The kernel** (`Lottery`, `Turns`, `KernelSpec`, `Searches`, `Kernel`, `KernelProperties`, `KernelRuns`). `Kernel`
  is the code: a class whose methods update the process table, the tickets, the generator and the console in place,
  with the loops of the source. Each method is proved against the transition relation in `KernelSpec`, which says what
  a step does without saying how the loops search; `Searches` describes the loops turn by turn and says when they go
  round for ever. Properties are then proved of that relation, for one step and for runs of any length, with any number
  of processes, any shares and any priorities. The kernel runs with interrupts masked, so one interrupt up to the
  process it resumes is one atomic step.
* **The applications** (`Applications`, `LockRelease`, `Cooperative`). A step relation over the instruction-sized steps
  of any number of applications, interleaved without restriction, with quanta ended by the clock, or cooperatively.
* **Kernel and applications together** (`WholeSystem`, `Release`, `LotteryRelease`, `Starvation`, `Completion`,
  `MaskedRuns`). One state, in which lock, cursor and screen are in the kernel's memory, every instruction and every
  interrupt is a step, and each step is shown to be a step of the models above. What they prove is then stated of the
  system's runs from boot on: safety under every policy; when a held lock is released, exactly, under each policy; how
  many quanta a run has before the last exit under policies 0, 1, 3 and 4, with clock interrupts; and, with the clock
  masked, the free lock at every decision, the length of a run, its progress and its screen.
* **Printing** (`Format`, `Console`, `PrintProperties`, `FormatStrings`, `PrintedFields`). `Format` follows a format
  string; `Console` is the code, writing to the screen and to its 20-character digit buffer in place. `FormatStrings`
  says what a format means: one written from literal characters and directives is read back as just those.
  `PrintedFields` says what each directive then leaves, character by character. Indexing is checked, so verification
  shows that nothing is read past the NUL of a format or outside the buffer or the screen.
* **Building, booting and loading** (`DiskImage`, `ImageLayout`, `Boot`, `BootProperties`, `ProgramLoader`,
  `ElfImages`). The image writer, the boot loader and the application loader, over arrays of bytes, and the round trip
  from a file to memory. `ElfImages` writes ELF headers field by field and shows what both loaders make of such files.

`Machine` holds the C integer types, `Divisibility` a few facts about products and primes, and `Wrappers` optional
values. `dafny verify dfyconfig.toml` checks everything.

## What the proofs found

* **Policy 1 after the last exit.** When the running process exits, policy 1 runs the next slot without looking at its
  state. A decision resumes a process and leaves the kernel well formed exactly when the process goes on or, at an
  exit, the table has a next slot and it is runnable (`KernelProperties.FirstComeIsSafeExactlyWhen`). From boot the
  slots from the current one on are runnable, so policy 1 is safe like the others until the last exit
  (`KernelRuns.RunsStayWellFormed`), which makes it run the slot past the end of the table
  (`KernelRuns.LastExitLeavesTheTable` gives the run).
* **Which holders of the lock get on.** With clock interrupts a holder may be suspended inside its critical section.
  - Under policy 0 it releases the lock within five quanta per application, whatever happens
    (`WholeSystem.KernelReleasesTheLock`), and under policy 1 it is never suspended (`Release.FirstComeHolderRuns`).
  - Under policy 2, while no process exits and no priority changes, it releases the lock within five laps exactly when
    no runnable process has a lesser priority number, and under policy 3, while no share changes, exactly when its own
    share is at least 1 (`Release.RotationReleasesExactlyWhen`). A holder that is served releases it also while others
    exit (`Release.ServedHolderReleases`). A holder with share 0 keeps it for ever, whatever the others do
    (`Release.ShareOfNoneIsForever`), and process 1 becomes one when it calls set_share(0) before its loop
    (`Starvation.ShareOfNoneIsReached`).
  - Under policy 4 every held lock is released, whatever happens (`LotteryRelease.LotteryReleases`): by the time
    NPROCS-1 tickets are sold, every process has one (`LotteryRelease.AllHaveTickets`), so that the holder wins a draw
    within one period of the generator.
* **Which policies bring the applications to their end.** With clock interrupts quanta may be spent spinning. Under
  policies 0, 1 and 4, and under 3 while every share set is at least 1, a run has a bounded number of quanta, and it
  can go on exactly until only the last exit is left (`Completion.RunsComeToTheLastExit`). Under policy 2, and under
  policy 3 with a share of 0, that fails: process 1 may keep the lock for ever.
* **SchedOS's own priorities starve process 1.** With the priorities 5, 1, 6 and 1 of the four applications and policy
  2 there is, for every n, a run from boot in which process 1 takes the lock and still holds it n quanta later, while
  processes 2 and 4 spin on it in turn (`Starvation.FirstApplicationStarves`).
* **Loops that never end.** When the policy has no process to run, no turn of its loop stops, however long it goes on
  (`Searches.SearchGoesRoundForever`, `Searches.LotteryGoesRoundForever`).
* **Small precisions.** `%.2d` of 123 prints 12 (`FormatStrings.SmallPrecisionCuts`): the precision also limits the
  digits, which section 7.21.6.1 of ISO/IEC 9899:2011 does not allow. What a numeric directive leaves on the screen
  reads back as its argument exactly when the precision is absent or the argument's magnitude is below the base to the
  precision (`FormatStrings.NumberOnScreen`). A precision of 0 prints nothing for a 0, as the standard has it, so that
  a 0 is read back also then.
* **Negative amounts from arguments.** A `*` precision below 0 leaves no digits at all, as an empty one does
  (`PrintedFields.EmptyPrecisionPrintsNoDigits`); by the same section it would count as absent. A negative `*` width
  asks for no padding (`PrintedFields.NumberIsWritten`), where the standard asks for padding on the right.
* **Unaligned program segments.** `copyseg` rounds its destination down to a page but not its source. It does what its
  comment says, for every content of memory and image, exactly when the address is a multiple of 4096
  (`ProgramLoader.PromiseNeedsAlignment`). The link addresses in the makefile are.
* **Incongruent kernel segments.** `readseg` rounds address and file offset separately, so it loads the right bytes for
  every disk exactly when they are congruent modulo 512 or the segment has no bytes in the file
  (`BootProperties.LoadingNeedsCongruence`).
* **The lottery's retry loop** has no bound in the source. It ends because the generator has full period, and within
  2147483646 draws (`Kernel.Kernel.DrawRunnable`, `Lottery.EveryTicketIsDrawn`).
* **The generator's self-check** (`TestRandom`) is proved to succeed (`Generator.Rng.TestRandom`).

## Model

| member | source | states |
|---|---|---|
| Lehmer.StepIsReversible | lib.c:306-323 | multiplying by 1899818559 undoes a step, for every integer state |
| Lehmer.StepKeepsSeeds | lib.c:306-323 | a state strictly between 0 and m stays there |
| Lehmer.StepIsInjective | lib.c:306-323 | two states with the same successor are equal |
| Lehmer.AfterKeepsSeeds | lib.c:276-280 | so does every later state, after any number of calls |
| Lehmer.AfterAdds | lib.c:306-323 | j + k calls are j calls and then k |
| Lehmer.MultiplierIsUnique | lib.c:298-298 | k calls multiply the state by one number modulo m and no other |
| LehmerJumps.JumpBetweenStreams | lib.c:331-332 | 8367782 calls multiply any state by 22925 modulo m |
| LehmerJumps.JumpOfTest | lib.c:415-418 | 10000 calls multiply any state by 399268537 modulo m |
| LehmerPeriod.PeriodIsLeast | lib.c:276-280 | no jump of fewer than m - 1 calls is the identity |
| LehmerPeriod.OrbitReaches | lib.c:276-280 | seed 1 leads to every value of 1..m-1 within m - 1 calls |
| LehmerPeriod.LeastPeriod | lib.c:276-280 | from every seed, k calls return to it exactly when m - 1 divides k: the least period is m - 1 |
| LehmerPeriod.VisitsEverySeed | lib.c:276-280 | every seed leads to every value of 1..m-1 within m - 1 calls |
| LehmerPeriod.VisitsOnce | lib.c:276-280 | no value comes twice within m - 1 calls |
| Generator.NormaliseGivesSeeds | lib.c:356-375 | whatever the argument of PutSeed, what it stores is a seed, a seed is stored as it is, and anything below 1, or m itself, as 10086 |
| Generator.RemainderFromDifference | lib.c:317-321 | a product that differs from a multiple of m by less than m has that difference, or it raised by m, as its remainder |
| Generator.SchrageStep | lib.c:313-321 | both products of Schrage's decomposition fit a signed word, and their difference, raised by m when it is not positive, is 48271 times the state modulo m |
| Generator.SchrageJump | lib.c:336-351 | the same for the multiplier 22925 |
| Generator.NextStream | lib.c:331-332 | one multiplication by 22925 is exactly 8,367,782 calls of Random, so each planted stream starts that far after the one before |
| Generator.StreamsAreDisjoint | lib.c:326-353 | 8,367,782 draws from one planted stream and as many from another have no state in common, for any planted x |
| Generator.Rng.constructor | lib.c:301-303 | the static tables before any call: stream 0 holds the default seed, nothing is planted |
| Generator.Rng.Random | lib.c:306-323 | the selected seed moves one true step in 32-bit arithmetic, every other seed is unchanged, and the result is the new state over m, strictly between 0 and 1 |
| Generator.Rng.PlantSeeds | lib.c:326-353 | for any x, seed j is reached from the normalised x by j * 8367782 calls, for all 256 streams; the selected stream is kept |
| Generator.Rng.PutSeed | lib.c:356-375 | stores the normalised argument in the selected stream only |
| Generator.Rng.SelectStream | lib.c:389-399 | selects index modulo 256, also for negative ones, and plants the default seeds exactly when the table was unplanted and the stream is not 0; the mutual recursion with PlantSeeds ends |
| Generator.Rng.TestRandom | lib.c:402-424 | both checks of the library's test succeed: 10000 draws from 1 give 399268537, and planting 1 puts 22925 into stream 1 |
| Generator.Rng.PlantAndGet | lib.c:420-423 | planting x and reading stream 1 gives 22925 times the normalised x modulo m |
| Lottery.NumberIsTruncatedDraw | schedos-kern.c:58-65 | truncating Random() * 10000 gives floor(10000 * state / m), a number in 0..9999 |
| Lottery.WinsCountStates | schedos-kern.c:58-65 | the draws a process wins, up to one period, are as many as the distinct states it wins with |
| Lottery.PeriodDrawsEverySeed | schedos-kern.c:58-65 | over one period the winning states are all seeds whose number falls on one of the process's tickets |
| Lottery.LotteryIsProportional | schedos-kern.c:58-65 | over one period from any seed, a holder of c of n tickets wins between c * floor(10000 / n) * 214748 and c * ceil(10000 / n) * 214749 draws |
| Lottery.EachTicketIsUniform | schedos-kern.c:58-65 | the same bounds for each single ticket |
| Lottery.EveryTicketIsDrawn | schedos-kern.c:58-65 | every one of at most 10000 tickets is drawn within one period, from any seed |
| Turns.FirstExists | schedos-kern.c:237-247 | the cyclic search finds a slot when there is one to find |
| Turns.WaitShrinks | schedos-kern.c:237-247 | a round-robin decision picks a ready slot or brings its turn nearer, whatever the other slots do |
| Turns.TurnsAreExact | schedos-kern.c:270-283 | any window of as many decisions as the weights add up to picks each slot exactly its weight of times, from any starting turn |
| Turns.TurnDelayShrinks | schedos-kern.c:270-283 | an advance of the rotation from another slot, or from one that has just dropped out of it, brings the turn of a slot of positive weight nearer |
| Turns.DropOutHelps | schedos-kern.c:270-283 | when the slot in turn drops out of the rotation, no other turn is put off and the lap does not grow |
| Turns.WaitIsBounded | schedos-kern.c:237-247 | while a ready slot goes unpicked, its cyclic distance falls by at least one with each decision |
| KernelSpec.SomeMostUrgent | schedos-kern.c:255-269 | among runnable processes one has a least priority number |
| Searches.LowestIsMostUrgent | schedos-kern.c:257-263 | the inner loop of policy 2 ends with the least priority number of a runnable process |
| Searches.SearchGoesRoundForever | schedos-kern.c:237-283 | when no process can be run under policies 0, 2 or 3, no turn of the loop ever stops |
| Searches.LotteryGoesRoundForever | schedos-kern.c:296-302 | when no ticket holder is runnable, no draw ever ends the retry loop |
| Kernel.Kernel.constructor | schedos-kern.c:45-56 | the kernel's static data before start() |
| Kernel.Kernel.Start | schedos-kern.c:76-131 | the state start() leaves: empty slot 0, every process runnable at its own stack and entry point with share and priority 1, cleared console, free lock, generator planted with 1, process 1 running |
| Kernel.Kernel.ConsoleClear | schedos-x86.c:249-260 | all 2000 cells become grey spaces, the cursor goes to the first, other memory is unchanged |
| Kernel.Kernel.LoadProcesses | schedos-kern.c:87-119 | every descriptor is initialised, slot 0 empty and the others runnable |
| Kernel.Kernel.FindLowest | schedos-kern.c:257-263 | the inner loop over all slots |
| Kernel.Kernel.FindNextRunnable | schedos-kern.c:237-247 | the loop, turn by turn as specified, ends at the cyclically first runnable slot after the current one |
| Kernel.Kernel.FindNextMostUrgent | schedos-kern.c:255-269 | the loop, turn by turn as specified, ends at the cyclically first slot after the current one that is runnable with least priority number, also when all numbers are INT_MAX |
| Kernel.Kernel.FindProportional | schedos-kern.c:270-283 | the loop, turn by turn as specified, picks within 2 * NPROCS slots the first process with turns left, or, when there is none, the first with a share at all; it resets just the counters of the runnable processes it passed and charges one turn |
| Kernel.Kernel.GetWinner | schedos-kern.c:58-65 | draws once and returns the holder of the drawn ticket |
| Kernel.Kernel.DrawRunnable | schedos-kern.c:296-302 | the retry loop ends at the first draw a runnable process wins, within 2147483646 draws from any seed |
| Kernel.Kernel.LotteryPolicy | schedos-kern.c:284-303 | round robin until NPROCS - 1 tickets are sold, the lottery from then on |
| Kernel.Kernel.Schedule | schedos-kern.c:231-303 | whenever the policy has a process to run, schedule() ends and moves the state as the policy's specification says |
| Kernel.Kernel.Interrupt | schedos-kern.c:154-214 | an interrupt that can complete is one step of the kernel's transition relation |
| Kernel.Kernel.UserCall | schedos-kern.c:180-200 | each of the four resuming system calls changes just its own field, cell or ticket and resumes its caller |
| Kernel.LapGoesOn | schedos-kern.c:237-269 | the slot a search comes to is the first ready one, or the lap goes on |
| Kernel.SearchPasses | schedos-kern.c:270-283 | a slot passed by the proportional search has its counter reset, and the search invariant goes on |
| Kernel.SearchEnds | schedos-kern.c:270-283 | the slot the proportional search stops at is the one the policy prescribes |
| Kernel.SearchIsBounded | schedos-kern.c:270-283 | a process with a share stops the search within two laps |
| KernelProperties.ScheduleEndsExactlyWhen | schedos-kern.c:231-303 | for each policy, schedule() has an outcome if and only if there is a process for it to run; that its loop otherwise never stops is stated in `Searches` |
| KernelProperties.ScheduledEffect | schedos-kern.c:231-303 | scheduling changes no process but for turn counters, touches neither tickets, console nor lock, and under every policy but 1 resumes a runnable process |
| KernelProperties.StepEffect | schedos-kern.c:154-214 | a step saves the interrupted registers, changes state only by sys_exit, from runnable to zombie, leaves all other processes as they are but for turn counters, and never takes a ticket back |
| KernelProperties.InterruptEffect | schedos-kern.c:154-214 | interrupt by interrupt, in numbers: which of them lead to a decision, and what each does to every field of its process but the turn counter, to tickets, cursor, screen and lock; sys_exit keeps %eax as the exit status and nothing else touches one |
| KernelProperties.CountersEffect | schedos-kern.c:270-283 | only decisions of policy 3 touch turn counters: the picked one goes up by one, or to 1 from used-up turns, and others change only from used-up turns of a runnable process to 0 |
| KernelProperties.StepKeepsWellFormed | schedos-kern.c:154-303 | every completing step under policies 0, 2, 3 and 4 keeps pids equal to indices, slot 0 never runnable, tickets naming processes, the current process runnable and its registers loaded |
| KernelProperties.FirstComeStep | schedos-kern.c:248-254 | policy 1 stays with its process until that exits, then runs the next slot; the kernel stays well formed if and only if the process goes on or the next slot is runnable |
| KernelProperties.FirstComeDecides | schedos-kern.c:248-254 | a decision of policy 1 resumes a process if and only if it is not the exit of the last slot's process |
| KernelProperties.FirstComeIsSafeExactlyWhen | schedos-kern.c:248-254 | a decision of policy 1 resumes a process and leaves the kernel well formed if and only if the process goes on, or it exits before the last slot and the next slot is runnable |
| KernelProperties.StepKeepsSound | schedos-kern.c:154-303 | every completing step under every policy keeps the kernel well formed, and under policy 1 also the order its slots are run in |
| KernelProperties.ScheduledIsDeterministic | schedos-kern.c:231-303 | a state leaves schedule() one outcome at most, the lottery included |
| KernelProperties.StepIsDeterministic | schedos-kern.c:154-214 | the state and the saved registers determine the next state |
| KernelProperties.PickedTurnsAreBounded | schedos-kern.c:270-283 | every process policy 3 picks has used between 1 and its share of turns, from any counters |
| KernelRuns.InitialIsWellFormed | schedos-kern.c:76-131 | the state start() leaves is well formed and in policy 1's order |
| KernelRuns.InitialInNumbers | schedos-kern.c:76-131 | the state start() leaves, in numbers: every register of every process, its entry point and the end of its own megabyte as its stack among them, every other field, and a grey space in each of the 2000 cells |
| KernelRuns.InitialStacksAreApart | schedos-kern.c:97-108 | the stacks of two processes are at least a megabyte apart, all selectors have privilege level 3 and interrupts are enabled |
| KernelRuns.RunsStayWellFormed | schedos-kern.c:154-303 | every state of every run is well formed, under every policy |
| KernelRuns.ExitsRunInOrder | schedos-kern.c:248-254 | under policy 1, k exits in a row lead from start() to process k + 1 |
| KernelRuns.LastExitLeavesTheTable | schedos-kern.c:248-254 | the failing input: after all other processes have exited in order, the exit of the last makes policy 1 run slot NPROCS, which the table does not have |
| KernelRuns.ResumesWhereInterrupted | schedos-kern.c:157-159 | in every run each process, when resumed, has exactly the registers of its own last interrupt, or the initial ones |
| KernelRuns.ExitIsFinal | schedos-kern.c:168-178 | a process that is not runnable is never run again, in any run |
| KernelRuns.ExitStatusIsKept | schedos-kern.c:168-178 | in any run, a process that exits is in every later state a zombie with the %eax of its exit as its status |
| KernelRuns.ZombieHasExited | schedos-kern.c:168-178 | in any run, every zombie has made an exit of its own, whose %eax is its status, and the status of any other process is the initial one |
| KernelRuns.BoundedWaiting | schedos-kern.c:237-247 | under policy 0 a process that stays runnable is picked within NPROCS - 1 decisions, even while others exit |
| KernelRuns.ShareDecisionAdvances | schedos-kern.c:270-283 | a policy 3 decision is one turn of the weighted rotation, from any state where the others have not started theirs |
| KernelRuns.SteadyRunTakesTurns | schedos-kern.c:231-283 | runs under policies 0, 2 and 3 with fixed participants are weighted rotations |
| KernelRuns.EveryWindowIsExact | schedos-kern.c:255-283 | any window of as many decisions as the shares add up to picks each process exactly its share of times under policy 3, and exactly once among k tied least-priority processes under policy 2 |
| KernelRuns.TurnsStayNotStarted | schedos-kern.c:270-283 | every policy 3 step, exits and share changes included, keeps the condition the exactness starts from |
| KernelRuns.InitialTurnsNotStarted | schedos-kern.c:103-104 | that condition holds when the kernel starts |
| KernelRuns.PriorityPickIsMinimal | schedos-kern.c:255-269 | every policy 2 decision runs a process whose priority number is minimal over all runnable ones |
| Applications.StartEstablishesInvariant | schedos-kern.c:116-123 | the applications start with the lock free and the invariant holding |
| Applications.CriticalMove | x86sync.h:28-35 | only the swap that finds the lock free enters the critical section and only the swap back leaves it |
| Applications.StepKeepsExclusion | x86sync.h:28-35 | any step of any application keeps the lock held by exactly the one application inside |
| Applications.FrontierMove | schedos-1.c:47-52 | a step completes a print, with the right cell at the frontier, or moves neither count nor frontier, in whichever order cell and cursor are stored |
| Applications.StepKeepsInvariant | schedos-1.c:36-59 | any step of any application keeps the whole invariant |
| Applications.InterleavingsKeepInvariant | schedos-1.c:36-59 | the invariant holds in every state of every interleaving |
| Applications.LockMeansOneCritical | schedos-1.c:47-51 | in every interleaving the lock is 1 exactly when an application is in its critical section, and never are two |
| Applications.FreeLockShowsPrints | schedos-1.c:50-51 | wherever the invariant holds and the lock is free, the cells below the cursor are exactly the completed prints |
| Applications.CellsShowPrints | schedos-1.c:50-51 | in every interleaving, whenever the lock is free, the cells below the cursor hold each application's character once per completed print and nothing else |
| Applications.AllExitedCells | schedos-1.c:41-59 | when all have exited after N rounds, each owns exactly N of the first n * N cells |
| Applications.StoresStayBelowTotal | schedos-1.c:50-55 | every store goes to one of the first n * N cells, so the screen is not left when they fit on it |
| LockRelease.HolderStep | schedos-1.c:47-52 | each step of the lock's holder brings the release one step nearer, and after the release it yields |
| LockRelease.HolderExecutes | schedos-1.c:47-52 | while the holder runs, the steps to its release fall by one with each step, and it does not come back before it yields |
| LockRelease.ExecutionOfHolder | schedos-1.c:47-52 | a quantum of the holder leaves it nearer to the release, and one of another application leaves it where it is |
| LockRelease.QuantumProgress | schedos-kern.c:203-207 | each quantum, of whatever application, lowers the bound on the quanta to the release, provided the holder's delay shrinks with the quanta of others |
| LockRelease.LockIsReleased | schedos-1.c:47-52 | whatever the policy, a holder whose delays are bounded and shrink with the quanta of others releases the lock within five times the bound |
| LockRelease.HeldLockIsReleased | schedos-1.c:47-52 | with clock interrupts after any number of steps and round robin, a holder leaves its critical section within 5 quanta per application |
| Cooperative.LockIsFreeAtSchedule | schedos-1.c:47-52 | at a sys_yield or sys_exit of an application that alone can be in its critical section the lock is free; `MaskedRuns.LockIsFreeAtEverySchedule` states it of runs |
| Cooperative.StaysOutside | schedos-kern.c:84-84 | a step without clock interrupt keeps all other applications outside their critical sections, whatever process is picked; `MaskedRuns.MaskedRunsAreUndisturbed` states it of runs |
| Cooperative.StepKeepsLayout | schedos-1.c:41-52 | every step of a cooperative run keeps each finished cell with its owner |
| Cooperative.StepDoesWork | schedos-1.c:41-59 | every step brings all applications' ends one step nearer as long as no other application is in its critical section, with either synchronisation method: none is spent spinning |
| Cooperative.YieldKeepsRoundRobin | schedos-kern.c:237-247 | under policy 0 each sys_yield passes the turn on in order, round after round |
| Cooperative.ExitKeepsRoundRobin | schedos-kern.c:237-247 | and so does each sys_exit in the last round |
| Cooperative.DecisionKeepsFirstCome | schedos-kern.c:248-254 | under policy 1 a yield keeps the process and an exit starts the next |
| Cooperative.CoopStepKeepsInvariant | schedos-kern.c:237-254 | every step and decision under policies 0 and 1 keeps the run's shape and uses up one step of work |
| Cooperative.RunsComplete | schedos-1.c:41-59 | no cooperative run gets stuck or goes on for ever: it is complete exactly when it has the computed length |
| Cooperative.LastExitIsLastWork | schedos-1.c:41-59 | one step of work is left if and only if only the last exit is |
| Cooperative.ScreenAtLastExit | schedos-1.c:50-59 | when only the last exit is left, cursor and completed cells are at n * N |
| Cooperative.FinishedScreen | answers.txt:18-29 | at the end of a run, cell k holds the character of process 1 + k mod n under policy 0 and 1 + k div N under policy 1 |
| Cooperative.Turnaround | answers.txt:18-29 | the last cell of process i is number n(N - 1) + i under policy 0 and number iN under policy 1, which are the reported turnaround times |
| WholeSystem.StepSeenByApplications | schedos-kern.c:154-214 | every instruction, system call and scheduling interrupt is one step of the running application's model on the kernel's memory; a clock interrupt is none |
| WholeSystem.StepKeepsAgreement | schedos-kern.c:168-178 | every step under every policy keeps the kernel well formed and its runnable processes exactly those that have not exited, and only scheduling interrupts change the process |
| WholeSystem.RoundRobinSeenByApplications | schedos-kern.c:237-247 | under policy 0 every scheduling interrupt resumes the cyclically next application that has not exited |
| WholeSystem.BootIsSafe | schedos-kern.c:76-131 | the system start() leaves satisfies the invariants of both models |
| WholeSystem.WholeRunsAreSafe | schedos-kern.c:154-303 | both invariants hold in every state of every run of the whole system from boot, under every policy, with interrupts at any point |
| WholeSystem.WholeRunsExcludeAndPrint | schedos-1.c:41-53 | in every such state the kernel's lock is 1 exactly when an application is in its critical section, never are two, and with the lock free the screen memory holds each character once per completed print |
| WholeSystem.KernelReleasesTheLock | schedos-kern.c:203-207 | in every run of the kernel from boot under policy 0, cut at its calls of schedule(), a holder of the lock releases it within 5 quanta per application, even while others exit |
| WholeSystem.HolderNeedsFewSteps | schedos-1.c:47-52 | in every run under every policy the holder takes fewer than five steps of its own before it releases the lock |
| WholeSystem.MoreUrgentKeepsHolderOut | schedos-kern.c:255-269 | under policy 2 the holder is not picked while a more urgent process is runnable |
| WholeSystem.QuantumExecutes | schedos-kern.c:203-207 | under every policy the events between two calls of schedule() are an execution of one application, and it the current one |
| WholeSystem.KernelQuantumIsQuantum | schedos-kern.c:203-207 | the events between two calls of schedule() under policy 0 are a quantum of the lock protocol |
| Release.ExitDropsOut | schedos-kern.c:172-178 | under policies 0, 2 and 3 an exit takes its process out of the rotation and advances it, with all other weights kept |
| Release.DecisionShrinksDelay | schedos-kern.c:231-283 | a decision of another process, also by its exit, brings the turn of every served process nearer |
| Release.QuantumDelays | schedos-kern.c:231-283 | while a served process holds the lock, each quantum of another lowers its delay in the whole system, and it stays served |
| Release.ServedIsReleased | schedos-kern.c:231-283 | a holder of positive weight in the rotation releases the lock within five laps, whoever exits meanwhile |
| Release.DecisionBeginsTurn | schedos-kern.c:231-283 | the process a decision picks is one the rotation serves, in its turn |
| Release.ServedHolderReleases | schedos-kern.c:231-283 | in runs from boot a holder that the policy serves releases the lock within five laps, with exits allowed and while no priority changes under policy 2 and no share under policy 3 |
| Release.UnservedWaits | schedos-kern.c:255-283 | a process the policy does not serve is not picked and makes no step: under policy 2 while no process exits and no priority changes, under policy 3 whatever the others do |
| Release.RotationReleasesExactlyWhen | schedos-kern.c:231-283 | in runs from boot under policies 0, 2 and 3, a lock held at a decision is released within five laps if and only if the policy serves its holder: always, when no process is more urgent, when its share is at least 1; exits are excluded under policy 2 only |
| Release.ShareOfNoneIsForever | schedos-kern.c:270-283 | under policy 3 a holder suspended with a share below 1 keeps the lock in every state from then on |
| Release.FirstComeHolderRuns | schedos-kern.c:248-254 | in every run from boot under policy 1, with clock interrupts at any point, only the running application holds the lock |
| Release.FirstComeReleases | schedos-kern.c:248-254 | under policy 1 a held lock is released within five quanta |
| LotteryRelease.StepKeepsTicketsMatch | schedos-kern.c:195-200 | under every policy each step keeps the tickets sold no more than the applications past their sys_get_ticket, and when they are as many each of those has one |
| LotteryRelease.WholeRunsMatchTickets | schedos-kern.c:195-200 | so it is in every state of every run from boot |
| LotteryRelease.AllHaveTickets | schedos-kern.c:195-200 | once NPROCS - 1 tickets are sold every process has one and has made its call |
| LotteryRelease.DrawDelayShrinks | schedos-kern.c:296-302 | a draw that another process wins brings the next win of a runnable ticket holder nearer |
| LotteryRelease.DecisionShrinksLotteryDelay | schedos-kern.c:284-303 | each decision of policy 4 brings the turn of an application that has not exited nearer, in round robin, in the lottery and from one to the other |
| LotteryRelease.LotteryReleases | schedos-kern.c:284-303 | in every run from boot under policy 4, whatever the others do, a held lock is released within five periods of the generator, and five laps of round robin more if fewer than NPROCS - 1 tickets are sold |
| Starvation.ReachesStarvation | schedos-1.c:21-23 | with priorities 5, 1, 6 and 1 a run of policy 2 from boot reaches a state in which process 1 holds the lock and all others are about to try for it |
| Starvation.Spins | schedos-kern.c:255-269 | while all most urgent processes try for a lock held by a less urgent one, a quantum of spinning leads to another |
| Starvation.FirstApplicationStarves | schedos-kern.c:255-269 | for every n there is such a run from boot in which process 1 holds the lock through n quanta |
| Starvation.ShareOfNoneIsReached | schedos-kern.c:187-189 | a run of policy 3 from boot in which process 1 sets its share to 0, takes the lock and is interrupted |
| Starvation.ShareOfNoneStarves | schedos-kern.c:270-283 | in every continuation of that run process 1 keeps the lock |
| Completion.StepWorksOrSpins | schedos-1.c:47-49 | every step does work or is one of the two of the spin loop, the second of which is not repeated while the lock is free |
| Completion.IdleQuantum | schedos-1.c:47-49 | a quantum without work is not the lock holder's and, with the lock free, only goes back to the swap |
| Completion.QuantumUsesUp | schedos-1.c:47-49 | whatever the policy, if idle quanta bring the holder's turn nearer, every quantum lowers the bound on those to come |
| Completion.IdleQuantumShrinks | schedos-kern.c:231-303 | under policies 0, 1, 3 and 4 an idle quantum with the lock taken brings the holder's turn nearer |
| Completion.SomeoneIsServed | schedos-kern.c:231-303 | under these policies, in every state of a run from boot, schedule() finds a process unless only the last exit is left |
| Completion.RunsComeToTheLastExit | schedos-kern.c:231-303 | with clock interrupts at any point, under policies 0, 1 and 4 and under 3 with shares of at least 1, a run from boot has a bounded number of quanta, and it can go on if and only if more than the last exit is left |
| MaskedRuns.MaskedRunsAreUndisturbed | schedos-kern.c:84-84 | with the clock masked and under every policy, no state of any run from boot has an application suspended inside its critical section, and each step is one of the steps all applications take together |
| MaskedRuns.LockIsFreeAtEverySchedule | schedos-kern.c:84-84 | with the clock masked the lock is free at every call of schedule(), in every run from boot under every policy |
| MaskedRuns.GoesOnExactlyWhen | schedos-kern.c:154-214 | with either synchronisation method the system goes on without a clock interrupt if and only if, in case its application gives up the processor, schedule() can end |
| MaskedRuns.MaskedRunsComplete | schedos-1.c:33-60 | with either synchronisation method a masked run from boot has at most the computed number of states, and that number if and only if only the last exit is left, after which nothing runs; under policies 0, 1 and 2 it always gets there |
| MaskedRuns.MaskedStepIsCooperative | schedos-kern.c:237-254 | without clock interrupts, every step under policies 0 and 1 is a step of a cooperative run, so what is proved of those holds of the kernel |
| MaskedRuns.MaskedRunsAreCooperative | schedos-kern.c:237-254 | every run of the whole system from boot under policies 0 and 1 without clock interrupts keeps to the cooperative order |
| MaskedRuns.MaskedScreen | answers.txt:18-29 | at any time in such a run cell k, once complete, holds the character of process 1 + k mod n or 1 + k div N in the kernel's memory |
| MaskedRuns.MaskedScreenIsComplete | answers.txt:18-29 | where such a run ends, before the last exit, all n * N cells are complete |
| Console.Strlen | lib.c:50-57 | the loop returns the index of the first NUL |
| Console.Strnlen | lib.c:59-66 | the loop returns the smaller of that index and the limit, reading no further |
| Console.WordHasTenDigits | lib.c:91-102 | a 32-bit value has at most ten digits in either base |
| Console.FillNumbuf | lib.c:91-102 | the buffer ends in the digits of the value, most significant first, and a NUL; it is never underrun |
| Console.BuildText | lib.c:161-210 | the conversion switch leaves data that prints as the conversion's text |
| Console.Measure | lib.c:212-231 | length, sign and zeros as flags, width and precision ask for |
| Console.ScanFlags | lib.c:125-134 | the flag loop reads exactly the flag characters |
| Console.ScanWidth | lib.c:136-144 | reads a literal, starred or absent width |
| Console.ScanPrecision | lib.c:146-159 | reads a literal, starred, empty or absent precision, none of them negative when a dot is there |
| Console.ScanDirective | lib.c:125-159 | flags, width and precision together |
| Console.Console.Putc | lib.c:74-86 | one character: wraps at the end of the screen, and a newline fills its row |
| Console.Console.PutRepeated | lib.c:233-242 | a padding loop prints exactly its count of characters |
| Console.Console.PutText | lib.c:239-240 | the data loop prints exactly the characters counted |
| Console.Console.PutParts | lib.c:235-242 | sign, zeros, data and padding, in this order |
| Console.Console.PutField | lib.c:212-242 | what reaches the screen is the padded field, and the cursor stays on the screen |
| Console.Console.PutDirective | lib.c:120-243 | one directive prints its field or sets the colour, and scanning goes on after it |
| Console.Console.PutConversion | lib.c:161-242 | one conversion prints the field of its argument |
| Console.Console.PutNext | lib.c:119-123 | one turn of the format loop advances and prints what the format means there |
| Console.Console.Vprintf | lib.c:111-247 | for every NUL-terminated format with matching arguments and every cursor in 0..2000 the loop ends, has printed just what follows from the format (its meaning is in `FormatStrings.FormatMeans`), and returns a cursor in 0..2000 |
| PrintProperties.DigitsReadBack | lib.c:91-102 | the digits of a value read back as the value |
| PrintProperties.ConvertsMagnitude | lib.c:164-190 | %d, %u, %x and %X print the digits of the magnitude, that of the most negative int included |
| PrintProperties.DigitCount | lib.c:91-102 | a value has at most n digits if and only if it is below the base to the power n |
| PrintProperties.ConvertedNumber | lib.c:164-190 | digits and sign of %d, %u, %x and %X stand for the argument, the most negative int included |
| PrintProperties.FieldReadsAsKeptDigits | lib.c:212-242 | whatever flags, width and precision, the field reads back as the digits kept |
| PrintProperties.PrintedNumberReadsBack | lib.c:161-242 | the field of a numeric conversion reads back as its argument if and only if the precision is absent or the magnitude is below the base to the precision; `FormatStrings` carries this to formats and the screen |
| PrintProperties.CutNumberIsSmaller | lib.c:212-213 | a smaller precision prints a strictly smaller magnitude |
| PrintProperties.FieldWidth | lib.c:224-242 | a field takes exactly max(width, sign + zeros + text) characters, and a number at least precision digits |
| PrintProperties.PrintedInOrder | lib.c:74-86 | characters that fit stand in consecutive cells in order, and cells before them are unchanged |
| PrintProperties.PrintedWithWrap | lib.c:74-86 | up to a screenful of characters stand in the cells they go to, also past the end of the screen, and no other cell has changed |
| PrintProperties.NewlineEndsRow | lib.c:79-82 | a newline blanks the rest of its row, ends at a row start, and changes nothing else |
| FormatStrings.FlagsAreRead | lib.c:125-134 | the flags written, in any order and any number of times, are the flags set |
| FormatStrings.NumberIsRead | lib.c:138-153 | digits are read as the number they stand for |
| FormatStrings.WidthIsRead | lib.c:136-144 | a written, starred or absent width is read as its value |
| FormatStrings.PrecisionIsRead | lib.c:146-159 | a written, starred, empty or absent precision is read as its value, 0 for none after the dot or a negative one |
| FormatStrings.DirectiveIsRead | lib.c:125-159 | parsing a directive gives exactly the flags, width, precision and conversion it was written from |
| FormatStrings.DirectiveIsPrinted | lib.c:120-243 | a directive prints its field or sets the colour, and printing goes on with what is written after it |
| FormatStrings.FormatMeans | lib.c:111-247 | a format written from literal characters and directives prints their meanings in order, and asks for exactly the arguments they take |
| FormatStrings.CutFormatMeans | lib.c:202-209 | a format that ends within a directive prints a percent sign in the field its flags, width and precision ask for, and nothing more |
| FormatStrings.DirectivePrintsField | lib.c:161-242 | a directive on its own prints its padded field in the current colour |
| FormatStrings.StringIsPrinted | lib.c:191-193 | a plain %s prints its string up to the first NUL |
| FormatStrings.NumberReadsBack | lib.c:161-242 | the characters a numeric directive sends read back as its argument if and only if the precision suffices, for all flags, widths and precisions, written or starred |
| FormatStrings.SmallPrecisionCuts | lib.c:212-213 | %.2d of 123 prints 12 and does not read back |
| FormatStrings.CellShowsItsCharacter | lib.c:84-84 | a cell shows its character whatever its colour |
| FormatStrings.CellShowsItsColor | lib.c:84-84 | a cell shows its colour whatever its character |
| FormatStrings.TextOnScreen | lib.c:74-86 | printable text no longer than the screen is on it as it was sent, in its colour, also when it goes on at the top |
| FormatStrings.NumberOnScreen | lib.c:111-247 | from the format to the screen: what a numeric directive leaves from the cursor on, also past the end of the screen, reads back as its argument if and only if the precision suffices, and the cursor ends right after it |
| PrintedFields.ShortestIsUnique | lib.c:91-102 | a number has exactly one text in its base and case without a leading zero, the one fill_numbuf writes |
| PrintedFields.NumberField | lib.c:212-242 | sign, zeros, digits and spaces of a number: zeros up to the width with the zero flag alone, up to the precision with one, else none; - for a negative number, else + or a space if asked for; padding on the side asked for |
| PrintedFields.TextField | lib.c:212-242 | a string or character is padded with spaces only, cut to its precision, and gets the sign the flags ask for |
| PrintedFields.ConvertsLowByte | lib.c:197-201 | %c prints the character whose code is the low byte of its argument |
| PrintedFields.ConvertsToItself | lib.c:202-209 | a conversion that takes no argument prints itself, and a format cut short a percent sign |
| PrintedFields.AmountsStandFor | lib.c:136-159 | a written width or precision stands for its number, a starred one for its argument, a precision no less than 0, and an absent one for -1 |
| PrintedFields.NumberIsWritten | lib.c:120-243 | from the format on: what a numeric directive prints for each set of flags, width and precision written in it, and in which colour |
| PrintedFields.EmptyPrecisionPrintsNoDigits | lib.c:146-159 | with an empty or a negative starred precision a number leaves its sign and spaces only |
| PrintedFields.ArgumentsAreCounted | lib.c:136-209 | a directive takes one argument for each star and one for its conversion, unless that prints itself |
| PrintedFields.CharacterIsWritten | lib.c:197-209 | from the format on: what %c, %% and unknown conversions print |
| PrintedFields.StringIsWritten | lib.c:191-213 | from the format on: %s prints its string up to the first NUL and no further than the precision, padded |
| PrintedFields.PlainIsPrinted | lib.c:119-123 | a format without a percent sign prints itself in the colour it is given |
| PrintedFields.ColorIsChanged | lib.c:194-196 | %C prints nothing and what follows is printed in the colour of the argument's low 16 bits |
| PrintedFields.ZerosAreFilledIn | lib.c:226-229 | the format %05d prints 42 as 00042 |
| DiskImage.Disk.Write | mkbootdisk.c:55-55 | write() takes any part of the data, nothing, or fails |
| DiskImage.ImageWriter.DiskWrite | mkbootdisk.c:46-68 | however the device splits the writes, all data is appended once and in order; it gives up exactly when the device fails |
| DiskImage.ImageWriter.WriteZeroSectors | mkbootdisk.c:129-132 | appends as many zero sectors as are missing |
| DiskImage.ImageWriter.WriteFile | mkbootdisk.c:136-148 | appends the file filled up to a whole sector and counts its sectors |
| DiskImage.ImageWriter.WriteBootSector | mkbootdisk.c:94-107 | appends boot code, zeros and signature, and refuses more than 510 bytes |
| DiskImage.ImageWriter.Build | mkbootdisk.c:70-158 | succeeds if and only if the arguments make an image and the device does not fail, and then the output is exactly that image |
| ImageLayout.ArgumentExtends | mkbootdisk.c:115-149 | a file adds itself filled up to a sector, and @X brings the image to sector X or is refused when that has been passed |
| ImageLayout.FileBegins | mkbootdisk.c:115-149 | every file begins on a sector: the first one after the boot sector, one after @X at sector X, any other right after the file before it |
| ImageLayout.FileIsOnDisk | mkbootdisk.c:70-158 | every file stands whole in the image where it begins, with zeros up to the next sector |
| ImageLayout.RefusedExactlyWhen | mkbootdisk.c:122-134 | arguments are refused if and only if some @X lies before what is already written |
| ImageLayout.ZerosBetweenFiles | mkbootdisk.c:115-149 | before each argument, every byte written after sector 0 that belongs to no file is 0 |
| ImageLayout.BytesOfNoFile | mkbootdisk.c:93-155 | for every list of arguments: the boot code, zeros up to byte 510 and the signature, then zeros wherever no file stands, before and after an @X and up to the end; 1024 sectors, or more if the content is longer |
| BootProperties.BuiltImageHoldsKernel | mkbootdisk.c:93-155 | an image of boot code and kernel is sector-exact, signed, and holds the kernel from sector 1, followed by zeros |
| Boot.ReadSect | schedos-boot.c:109-127 | 512 bytes of the disk in place, all other memory unchanged |
| Boot.SectorsLeft | schedos-boot.c:86-94 | the sector loop goes on exactly while whole sectors of the rounded range are left |
| Boot.ReadSeg | schedos-boot.c:76-99 | memory byte by byte: zeros from filesz to memsz, disk bytes in the sector-rounded range, all else as before |
| Boot.LoadSegments | schedos-boot.c:66-70 | the loop over the headers, each read from memory as it then stands |
| Boot.Bootmain | schedos-boot.c:53-74 | memory and entry point as specified, and no jump without the ELF magic number |
| BootProperties.SegmentLoads | schedos-boot.c:76-99 | a congruent segment is in place and cleared up to memsz, and nothing outside its sector-rounded range has changed |
| BootProperties.LoadingNeedsCongruence | schedos-boot.c:69-70 | a segment is loaded right for every disk if and only if address and offset are congruent modulo 512 or it has no bytes in the file |
| BootProperties.LoadRest | schedos-boot.c:66-70 | the segment loop loads every remaining segment and keeps those loaded and the header page |
| BootProperties.HeaderIsRead | schedos-boot.c:59-64 | the header page in memory is the first page of the kernel file |
| BootProperties.BootFromDisk | schedos-boot.c:53-74 | booting from a disk that holds a bootable kernel loads all of it, changes nothing else, and jumps to its entry point |
| BootProperties.BuildThenBoot | mkbootdisk.c:70-158 | the round trip: building an image from a bootable kernel and booting from it leaves every segment's bytes in memory |
| ProgramLoader.Memcpy | lib.c:14-22 | n bytes copied between places that do not overlap, all other memory unchanged |
| ProgramLoader.CopyKeepsImage | schedos-loader.c:69-85 | a segment clear of the image leaves it unchanged |
| ProgramLoader.CopySeg | schedos-loader.c:69-85 | memory byte by byte after the copy from the image in memory and the clearing loop, for any address, with the image left as it was |
| ProgramLoader.AlignedSegmentIsLoaded | schedos-loader.c:69-70 | for a page-aligned address the comment's promise holds and nothing else changes |
| ProgramLoader.PromiseNeedsAlignment | schedos-loader.c:69-85 | the promise holds for every content of memory and image if and only if the address is page-aligned |
| ProgramLoader.LoadProgramSegments | schedos-loader.c:56-63 | copies exactly the loadable segments, in order |
| ProgramLoader.LoaderPanic | schedos-loader.c:87-92 | a grey exclamation mark in the upper left cell, nothing else |
| ProgramLoader.ProgramLoader | schedos-loader.c:41-67 | an entry point if and only if the program exists and its image has the ELF magic number, with its segments copied; otherwise the panic mark and nothing else |
| ProgramLoader.CopiesLoadTheProgram | schedos-loader.c:56-63 | page-aligned segments that do not overlap are all in place afterwards, and nothing else has changed |
| ProgramLoader.ApplicationIsLoaded | schedos-loader.c:56-63 | so every loadable header's segment is in place |
| ElfImages.HeaderIsReadBack | elf.h:6-22 | an ELF header written field by field, little endian, is read back at whatever address it stands: magic number, entry point, and offset and number of program headers |
| ElfImages.ProgramHeaderIsReadBack | elf.h:24-33 | so is a program header: type, offset, address, file size and memory size |
| ElfImages.MagicIsFourBytes | elf.h:4-7 | the magic number is there exactly when the first four bytes are 7F, E, L and F |
| ElfImages.WrittenKernelBoots | schedos-boot.c:53-74 | building an image from a kernel so written and booting from it puts every segment in place, clears from p_filesz to p_memsz, changes nothing outside the header page and the sectors of the segments, and jumps to e_entry |
| ElfImages.OtherKernelIsRefused | schedos-boot.c:62-64 | no jump for a kernel file that begins otherwise |
| ElfImages.WrittenApplicationIsLoaded | schedos-loader.c:41-67 | an application so written is accepted, each segment of type 1 is in place and cleared up to p_memsz, nothing else changes, and the entry point is e_entry |
| ElfImages.ChosenExactlyWhen | schedos-loader.c:47-53 | a program is accepted if and only if it exists and its image begins with the magic bytes |
| ElfImages.PanicShowsMark | schedos-loader.c:87-92 | a refusal leaves a grey exclamation mark in the upper left cell and changes nothing else |

## Left out

- Hardware: interrupt controller, segment and interrupt descriptors, mode switching, keyboard, disk and cursor ports
  (schedos-x86.c:39-299, bootstart.S, schedos-int.S). `readsect` is a copy from a sequence of bytes.
- Floating point: `Random` returns the exact quotient. The double the source computes is so close to it that truncating
  10000 times it gives the same integer, since 10000 times the quotient is never nearer than 1/m to an integer.
- Kernel.Kernel.Schedule: presupposes that the policy has a process to run. Without one the source spins for ever;
  `KernelProperties.ScheduleEndsExactlyWhen` and `Searches` show the condition to be exact.
- Kernel.Kernel.Interrupt: presupposes a known interrupt number and a schedule() that ends; the source spins otherwise.
- Kernel.Kernel.Start: takes the entry points as arguments instead of calling the application loader, and the policy as
  a field, which start() sets to 0.
- The message for an unknown policy number, and what memory past the process table makes policy 1 do after the last
  exit.
- An application's registers are abstract in the kernel, which saves and restores them whole, and its program counter
  and one register are modelled apart from them; `cursorpos` is a cell number.
- The kernel's sys_print stores through the cursor without a bound, and so does the model: memory cells are a map.
- Applications: one synchronisation method for all applications, as compiled; the compiler is taken to keep the order
  of swaps, load and stores, except that cell and cursor may be stored in either order. `compare_and_swap` and
  `fetch_and_add` are not used by the applications. A character passed to sys_print fits a console cell.
- LockRelease.HeldLockIsReleased: a quantum is taken to hold at least one step of its application, here and in every
  other bound in quanta; a clock that interrupts before the first instruction each time lets nothing go on.
- Console.Console.Vprintf: widths and precisions are unbounded integers, so the signed overflow of a literal beyond 31
  bits is not modelled; arguments are a typed sequence instead of a pointer into the stack.
- DiskImage.ImageWriter.Build: file opening and reading, number parsing and messages; `maxoff` is never set, so its
  check never applies. A device that reports EINTR for ever is excluded by a counter.
- Boot.Bootmain: reads that would leave the disk or memory, or addresses that would wrap around, are a precondition.
- ProgramLoader.ProgramLoader: segments that would overwrite the image they come from are a precondition. Where the
  source stops after the panic mark the model returns no entry point.
- Release.RotationReleasesExactlyWhen: presupposes that meanwhile no priority changes and no process exits under policy
  2, and that no share changes under policy 3, since that can change who is served or how long a lap is.
- Completion.RunsComeToTheLastExit: presupposes some bound, of any size, on the shares set under policy 3, since the
  number of quanta grows with it.
- `memmove`, `memset`, `console_printf`'s argument list, the files under obj/.

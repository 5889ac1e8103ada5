# Dining philosophers: fork protocol model

A Dafny model of the dining philosophers program in `main.cpp`. N ≥ 5
philosopher threads share a table of N forks. Each thread loops forever through
THINKING, HUNGRY and EATING. All shared state is four vectors guarded by one
mutex: `states`, `forks` (true = the fork is free), `actionDuration` and
`actionElapsed`. A hungry philosopher waits on a condition variable until both
of its forks are free. It then takes the two forks in the same critical
section, which is what rules out circular-wait deadlock.

The model has three modules:

- `Table` (`table.dfy`) holds the shared vectors as an immutable `Room` record,
  together with the fork topology (`LeftFork`, `RightFork`, `CanEat`), the
  start-up state, and one pure function per lock-protected critical section:
  `BeginThinking`, `Tick`, `BecomeHungry`, `Acquire` and `Release`. It also
  holds the safety invariant ("fork f is held iff philosopher f or philosopher
  f-1 mod N eats", plus "no two neighbours eat") and the proof that each
  critical section preserves it.
- `Protocol` (`protocol.dfy`) models the threads. Each thread has a program
  counter (`Top`, `ThinkLoop`, `Waiting`, `EatLoop`). A run is any
  interleaving of enabled `Step`s. The module proves that the invariant holds
  in every reachable state, that some step is always enabled (no deadlock),
  and that each tick loop ends with `elapsed == duration` and never goes past
  it.
- `Display` (`display.dfy`) models the progress-bar fill that the render
  thread computes, using C++ truncating division.

Durations, which the program draws at random, are parameters of the steps,
limited to the ranges the program draws from: [2,5] for thinking and [1,3]
for eating.

Two points where the model follows the code closely:

- `tick` has no clamp in the code. `Table.Tick` is an unconditional
  `elapsed + 1`. The bound `elapsed <= duration` comes from the thread's own
  loop counter: `Protocol.Enabled` allows a `TickStep` only while
  `elapsed < duration`, and `Protocol.TimersInRange` is part of the proved
  invariant.
- Becoming hungry and taking the forks happen in one lock scope in the code
  (main.cpp:62-77). `cv.wait` may release the lock between them, so the model
  makes them two separate steps. This allows every behaviour the code allows.

## Model

| member | source | states |
|---|---|---|
| Table.LeftFork | main.cpp:27-29 | philosopher i's left fork is fork i, a valid fork number, and it is the same fork as its left neighbour's right fork |
| Table.RightFork | main.cpp:31-33 | the right fork of philosopher i lies in [0, N) and is i+1, wrapping to 0 for the last philosopher |
| Table.ForksInRangeAndDistinct | main.cpp:27-33 | for N ≥ 5 and 0 ≤ i < N, both forks of i are valid fork numbers and are two different forks |
| Table.ForkUsers | main.cpp:27-33 | fork f is used by exactly two distinct philosophers: f, as its left fork, and f-1 mod N, as its right fork |
| Table.CanEat | main.cpp:35-37 | the wait predicate holds iff every fork that philosopher i uses, its own fork i and the fork on its right (the fork that has i on its left), is free |
| Table.Init | main.cpp:169-172 | the start-up state has N philosophers, all THINKING, every fork free, every duration and elapsed counter 0 |
| Table.BeginThinking | main.cpp:48-53 | id becomes THINKING with the given duration and elapsed 0; no fork and no other philosopher changes |
| Table.Tick | main.cpp:57-58 | id's elapsed counter grows by exactly one; phases, forks, durations and other counters are unchanged |
| Table.BecomeHungry | main.cpp:62-63 | id becomes HUNGRY; forks, timers and every other philosopher are unchanged |
| Table.Acquire | main.cpp:66-77 | callable only when both of id's forks are free; takes exactly those two forks, makes id EATING with the given duration and elapsed 0, and changes nothing else |
| Table.Release | main.cpp:89-92 | frees exactly id's two forks and makes id THINKING; timers, other forks and other philosophers are unchanged |
| Table.InitConsistent | main.cpp:169-172 | the start-up state satisfies the fork invariant and has no adjacent eaters |
| Table.BeginThinkingPreserves | main.cpp:48-53 | starting to think, when not eating, preserves the fork invariant |
| Table.TickPreserves | main.cpp:84-85 | a tick preserves the fork invariant |
| Table.BecomeHungryPreserves | main.cpp:62-63 | becoming hungry, when not eating, preserves the fork invariant |
| Table.AcquirePreserves | main.cpp:66-77 | taking both free forks at once preserves "fork held iff a user eats" and "no adjacent eaters" |
| Table.ReleasePreserves | main.cpp:89-92 | an eater putting both forks back preserves both parts of the invariant |
| Table.EatingHoldsBothForks | main.cpp:70-75 | under the invariant, an EATING philosopher's left and right forks are both held |
| Table.HeldForkHasOneHolder | main.cpp:71-72 | under the invariant, a held fork belongs to exactly one of its two users |
| Table.CanEatIffNeighboursIdle | main.cpp:35-37 | under the invariant, the wait predicate holds iff neither i nor either neighbour of i is eating |
| Table.NoEaterAllForksFree | main.cpp:66-68 | under the invariant, when nobody eats every fork is free and every philosopher's wait predicate holds |
| Table.AcquireBlocksNeighbours | main.cpp:66-72 | once id takes its forks, the wait predicates of both neighbours are false, so of two competing neighbours only one eats |
| Table.AcquireReleaseRestoresForks | main.cpp:70-92 | taking and then returning the forks leaves every fork as before, and of all phases only id's changes, to THINKING |
| Protocol.Enabled | main.cpp:42-86 | a step needs a valid thread; a thread blocked in `cv.wait` can only take its forks, and only when both are free; a thread can leave a tick loop (become hungry or release) only once elapsed has reached the duration |
| Protocol.Apply | main.cpp:45-96 | the stepping thread moves to the next point of its loop (thinking loop, same place after a tick, waiting, eating loop, loop head after release); every other thread keeps its program counter, phase and timers |
| Protocol.LoopOrder | main.cpp:45-96 | two successive steps of one thread, with any steps of other threads in between, follow the loop order: thinking starts with a tick, hunger leads only to acquiring, eating starts with a tick, a tick is followed by a tick or the loop exit, and releasing leads only to beginThinking |
| Protocol.OthersKeepThread | main.cpp:45-96 | any sequence of steps by other threads leaves a thread's program counter, elapsed counter and duration unchanged |
| Protocol.Run | main.cpp:45-96 | a run that completes had its first step enabled, and it keeps the table size and the shape of the state |
| Protocol.Start | main.cpp:168-187 | the start-up system, with every thread at its loop head, satisfies the invariant |
| Protocol.StepPreservesInv | main.cpp:45-96 | every enabled step of any thread preserves the invariant, including pc/phase agreement and 0 ≤ elapsed ≤ duration ≤ 5 |
| Protocol.RunPreservesInv | main.cpp:45-96 | every interleaving of enabled steps preserves the invariant |
| Protocol.ReachableSafety | main.cpp:45-96 | in every reachable state an eater holds both forks, a held fork has one holder, neighbours never eat together, and elapsed never exceeds duration |
| Protocol.HungryNotStuckWhenNobodyEats | main.cpp:65-68 | a waiting thread can always take its forks when nobody eats |
| Protocol.SomeEnabledStep | main.cpp:45-96 | deadlock freedom: in every state satisfying the invariant some thread has an enabled step |
| Protocol.TicksAdvance | main.cpp:55-59 | inside a tick loop, k ticks that stay within the duration all run and add exactly k to elapsed, changing nothing else |
| Protocol.TicksBeyondDurationBlocked | main.cpp:82-86 | no sequence of ticks can push elapsed past the duration |
| Protocol.ThinkingPhaseTimer | main.cpp:47-59 | after beginThinking(t), elapsed is 0; after k ≤ t ticks it is k; after exactly t ticks it equals the duration and the thread may become hungry, while after fewer ticks it may not; a (t+1)-th tick is impossible |
| Protocol.EatingPhaseTimer | main.cpp:74-86 | after acquiring with duration e, elapsed is 0; after k ≤ e ticks it is k; after exactly e ticks the forks may be released, while after fewer ticks they may not; an (e+1)-th tick is impossible |
| Display.TruncDiv | main.cpp:130 | C++ `/` with a positive divisor: the quotient truncated toward zero, bounded by the exact quotient on both sides |
| Display.BarFill | main.cpp:128-132 | the fill is 0 when duration ≤ 0; otherwise it lies in [0, BAR_WIDTH] for elapsed ≥ 0, is exactly the truncated elapsed*BAR_WIDTH/duration when 0 ≤ elapsed ≤ duration, and is capped at BAR_WIDTH once elapsed ≥ duration |
| Display.BarFillMonotone | main.cpp:128-132 | for a fixed positive duration, more elapsed time never gives fewer filled cells |
| Display.BarFillEnds | main.cpp:128-132 | the bar is empty at elapsed 0 and full at elapsed = duration |
| Display.DisplayedFillInRange | main.cpp:128-132 | in every state satisfying the invariant each bar fill lies in [0, BAR_WIDTH], and elapsed*BAR_WIDTH stays far below 2^31 |

## Left out

- Threads, the mutex, the condition variable, `notify_all` and `sleep_for` (main.cpp:2-6, 18-19, 56, 83, 95, 181-193) are not modelled as real concurrency. They appear only as a nondeterministic interleaving of atomic steps. The broadcast wake-up is implicit: a waiting thread's acquire step is enabled whenever its predicate holds.
- Random duration generation with `mt19937` and `random_device` (main.cpp:41-43): durations are step parameters limited to [2,5] and [1,3].
- All ncurses rendering and output (main.cpp:117-151, 175-178, 194), and the snapshot copy in `render` (main.cpp:109-115). Only the bar-fill arithmetic is modelled.
- Argument parsing with `std::stoi` and the error messages (main.cpp:157-166): only the requirement N ≥ 5 is kept.
- Liveness and fairness over infinite runs, including starvation: the program promises no fairness. Only the one-step deadlock-freedom property (`Protocol.SomeEnabledStep`) is proved.
- Display.BarFill: does not model 32-bit overflow of `elapsed * BAR_WIDTH`; `Display.DisplayedFillInRange` shows that the product stays far below 2^31 in every state satisfying the invariant.

/** The philosopher threads as a transition system: every thread's position
    in its endless loop, plus the shared table. A run of the program is any
    interleaving of the atomic steps below; the mutex guarantees that each
    step sees the table as the previous step left it. */
module Protocol {
  import opened Table

  /** Shortest and longest thinking and eating intervals a thread draws. */
  const ThinkMin: int := 2
  const ThinkMax: int := 5
  const EatMin: int := 1
  const EatMax: int := 3

  /** Where a philosopher thread is in its loop. */
  datatype Pc =
    | Top        // loop head: about to draw a thinking time and start thinking
    | ThinkLoop  // in the thinking tick loop, or just past its last tick
    | Waiting    // marked hungry, blocked on the condition variable
    | EatLoop    // holding both forks, in the eating tick loop or just past it

  /** The whole program: the shared table and one program counter per thread. */
  datatype Sys = Sys(room: Room, pc: seq<Pc>)

  /** One critical section, run by thread `id`. */
  datatype Step =
    | BeginThinkingStep(id: int, t: int)
    | TickStep(id: int)
    | BecomeHungryStep(id: int)
    | AcquireStep(id: int, e: int)
    | ReleaseStep(id: int)

  datatype Option<T> = None | Some(value: T)

  predicate WellFormedSys(s: Sys) {
    WellFormed(s.room) && |s.pc| == s.room.n
  }

  /** Whether thread `step.id` can take the step now. A tick loop runs while
      its counter is below the duration; the counter always equals the
      shared `elapsed` entry, which no other thread writes. */
  predicate Enabled(s: Sys, step: Step)
    ensures Enabled(s, step) ==> WellFormedSys(s) && 0 <= step.id < s.room.n
    ensures Enabled(s, step) && s.pc[step.id] == Waiting ==>
      step.AcquireStep? && s.room.forks[step.id] && s.room.forks[RightFork(s.room.n, step.id)]
    ensures Enabled(s, step) && (step.BecomeHungryStep? || step.ReleaseStep?) ==>
      !(s.room.elapsed[step.id] < s.room.duration[step.id])
  {
    && WellFormedSys(s)
    && 0 <= step.id < s.room.n
    && match step
       case BeginThinkingStep(id, t) =>
         s.pc[id] == Top && ThinkMin <= t <= ThinkMax
       case TickStep(id) =>
         (s.pc[id] == ThinkLoop || s.pc[id] == EatLoop) && s.room.elapsed[id] < s.room.duration[id]
       case BecomeHungryStep(id) =>
         s.pc[id] == ThinkLoop && s.room.elapsed[id] == s.room.duration[id]
       case AcquireStep(id, e) =>
         s.pc[id] == Waiting && CanEat(s.room, id) && EatMin <= e <= EatMax
       case ReleaseStep(id) =>
         s.pc[id] == EatLoop && s.room.elapsed[id] == s.room.duration[id]
  }

  /** Take an enabled step: run its critical section and move the thread on. */
  function Apply(s: Sys, step: Step): (s': Sys)
    requires Enabled(s, step)
    ensures WellFormedSys(s') && s'.room.n == s.room.n
    ensures forall j :: 0 <= j < s.room.n && j != step.id ==> s'.pc[j] == s.pc[j]
    ensures OthersUnchanged(s.room, s'.room, step.id)
    ensures step.TickStep? ==> s'.pc == s.pc
    ensures s'.pc[step.id] == match step
      case BeginThinkingStep(_, _) => ThinkLoop
      case TickStep(_) => s.pc[step.id]
      case BecomeHungryStep(_) => Waiting
      case AcquireStep(_, _) => EatLoop
      case ReleaseStep(_) => Top
  {
    var id := step.id;
    match step
    case BeginThinkingStep(_, t) => Sys(BeginThinking(s.room, id, t), s.pc[id := ThinkLoop])
    case TickStep(_) => Sys(Tick(s.room, id), s.pc)
    case BecomeHungryStep(_) => Sys(BecomeHungry(s.room, id), s.pc[id := Waiting])
    case AcquireStep(_, e) => Sys(Acquire(s.room, id, e), s.pc[id := EatLoop])
    case ReleaseStep(_) => Sys(Release(s.room, id), s.pc[id := Top])
  }

  /** Apply the steps in order; None as soon as one is not enabled. */
  function Run(s: Sys, steps: seq<Step>): (r: Option<Sys>)
    ensures r.Some? && |steps| > 0 ==> Enabled(s, steps[0])
    ensures r.Some? && WellFormedSys(s) ==> WellFormedSys(r.value) && r.value.room.n == s.room.n
    decreases |steps|
  {
    if |steps| == 0 then Some(s)
    else if Enabled(s, steps[0]) then Run(Apply(s, steps[0]), steps[1..])
    else None
  }

  // ---------------------------------------------------------------------
  // Invariant.
  // ---------------------------------------------------------------------

  /** A thread waits exactly while hungry and is in its eating loop exactly
      while eating. */
  predicate PcMatchesPhase(pc: Pc, ph: Phase) {
    && (pc == Waiting <==> ph == Hungry)
    && (pc == EatLoop <==> ph == Eating)
  }

  /** No activity counter runs past its duration, and no duration exceeds
      the longest interval a thread draws. */
  predicate TimersInRange(r: Room)
    requires WellFormed(r)
  {
    forall i :: 0 <= i < r.n ==> 0 <= r.elapsed[i] <= r.duration[i] <= ThinkMax
  }

  predicate Inv(s: Sys) {
    && WellFormedSys(s)
    && Consistent(s.room)
    && (forall i :: 0 <= i < s.room.n ==> PcMatchesPhase(s.pc[i], s.room.states[i]))
    && TimersInRange(s.room)
  }

  /** Start-up: the initial table, every thread at its loop head. */
  function Start(n: int): (s: Sys)
    requires n >= MinPhilosophers
    ensures Inv(s) && s.room.n == n
    ensures forall i :: 0 <= i < n ==> s.pc[i] == Top
  {
    StartSatisfiesInv(n);
    Sys(Init(n), seq(n, _ => Top))
  }

  lemma StartSatisfiesInv(n: int)
    requires n >= MinPhilosophers
    ensures Inv(Sys(Init(n), seq(n, _ => Top)))
  {
    InitConsistent(n);
    var s := Sys(Init(n), seq(n, _ => Top));
    forall i | 0 <= i < n
      ensures PcMatchesPhase(s.pc[i], s.room.states[i])
    {
    }
  }

  /** Every step keeps the invariant. */
  lemma StepPreservesInv(s: Sys, step: Step)
    requires Inv(s) && Enabled(s, step)
    ensures Inv(Apply(s, step))
  {
    var id := step.id;
    var s' := Apply(s, step);
    match step {
      case BeginThinkingStep(_, t) =>
        BeginThinkingPreserves(s.room, id, t);
      case TickStep(_) =>
        TickPreserves(s.room, id);
      case BecomeHungryStep(_) =>
        BecomeHungryPreserves(s.room, id);
      case AcquireStep(_, e) =>
        AcquirePreserves(s.room, id, e);
      case ReleaseStep(_) =>
        ReleasePreserves(s.room, id);
    }
    assert forall i :: 0 <= i < s.room.n && i != id ==> s'.pc[i] == s.pc[i];
  }

  /** Every run from a state satisfying the invariant ends in one. */
  lemma {:induction false} RunPreservesInv(s: Sys, steps: seq<Step>)
    requires Inv(s) && Run(s, steps).Some?
    ensures Inv(Run(s, steps).value)
    decreases |steps|
  {
    if |steps| > 0 {
      StepPreservesInv(s, steps[0]);
      RunPreservesInv(Apply(s, steps[0]), steps[1..]);
    }
  }

  /** Safety of every reachable state: each fork is held by at most one
      philosopher, an eater holds both forks, neighbours never eat together,
      and no counter exceeds its duration. */
  lemma {:induction false} ReachableSafety(n: int, steps: seq<Step>)
    requires n >= MinPhilosophers && Run(Start(n), steps).Some?
    ensures Inv(Run(Start(n), steps).value)
    ensures var r := Run(Start(n), steps).value.room;
      && (forall i :: 0 <= i < n && r.states[i] == Eating ==>
            !r.forks[LeftFork(n, i)] && !r.forks[RightFork(n, i)])
      && (forall f :: 0 <= f < n && !r.forks[f] ==>
            (r.states[f] == Eating) != (r.states[Prev(n, f)] == Eating))
      && (forall i :: 0 <= i < n ==>
            !(r.states[i] == Eating && r.states[RightFork(n, i)] == Eating))
      && (forall i :: 0 <= i < n ==> 0 <= r.elapsed[i] <= r.duration[i])
  {
    RunPreservesInv(Start(n), steps);
    var r := Run(Start(n), steps).value.room;
    forall i | 0 <= i < n && r.states[i] == Eating
      ensures !r.forks[LeftFork(n, i)] && !r.forks[RightFork(n, i)]
    {
      EatingHoldsBothForks(r, i);
    }
    forall f | 0 <= f < n && !r.forks[f]
      ensures (r.states[f] == Eating) != (r.states[Prev(n, f)] == Eating)
    {
      HeldForkHasOneHolder(r, f);
    }
  }

  // ---------------------------------------------------------------------
  // Deadlock freedom.
  // ---------------------------------------------------------------------

  /** A waiting thread whose wait predicate holds may always proceed; when
      nobody eats, that is every waiting thread. */
  lemma HungryNotStuckWhenNobodyEats(s: Sys, i: int, e: int)
    requires Inv(s) && 0 <= i < s.room.n && s.pc[i] == Waiting
    requires forall j :: 0 <= j < s.room.n ==> s.room.states[j] != Eating
    requires EatMin <= e <= EatMax
    ensures Enabled(s, AcquireStep(i, e))
  {
    NoEaterAllForksFree(s.room);
  }

  /** The first thread at or after k that is not blocked, or |pc| if all are. */
  function FirstUnblocked(pc: seq<Pc>, k: nat): (i: nat)
    requires k <= |pc|
    ensures k <= i <= |pc|
    ensures i < |pc| ==> pc[i] != Waiting
    ensures forall j :: k <= j < i ==> pc[j] == Waiting
    decreases |pc| - k
  {
    if k == |pc| then k
    else if pc[k] != Waiting then k
    else FirstUnblocked(pc, k + 1)
  }

  /** In every state satisfying the invariant some thread can take a step:
      a thread not blocked always can, and if every thread is blocked then
      nobody eats, every fork is free, and thread 0 can take its forks. */
  function SomeEnabledStep(s: Sys): (step: Step)
    requires Inv(s)
    ensures Enabled(s, step)
  {
    var i := FirstUnblocked(s.pc, 0);
    if i == s.room.n then
      HungryNotStuckWhenNobodyEats(s, 0, EatMin);
      AcquireStep(0, EatMin)
    else if s.pc[i] == Top then
      BeginThinkingStep(i, ThinkMin)
    else if s.room.elapsed[i] < s.room.duration[i] then
      TickStep(i)
    else if s.pc[i] == ThinkLoop then
      BecomeHungryStep(i)
    else
      ReleaseStep(i)
  }

  // ---------------------------------------------------------------------
  // Loop order.
  // ---------------------------------------------------------------------

  /** Which step of a thread may come next after step a of the same thread:
      thinking starts with at least one tick, hunger leads only to taking
      the forks, eating starts with at least one tick, a tick is followed by
      another tick or by the end of its loop, and putting the forks back
      returns the thread to the loop head. */
  predicate Follows(a: Step, b: Step) {
    match a
    case BeginThinkingStep(_, _) => b.TickStep?
    case TickStep(_) => b.TickStep? || b.BecomeHungryStep? || b.ReleaseStep?
    case BecomeHungryStep(_) => b.AcquireStep?
    case AcquireStep(_, _) => b.TickStep?
    case ReleaseStep(_) => b.BeginThinkingStep?
  }

  /** Steps of other threads leave a thread's program counter and timers
      as they were. */
  lemma {:induction false} OthersKeepThread(s: Sys, others: seq<Step>, id: int)
    requires WellFormedSys(s) && 0 <= id < s.room.n && Run(s, others).Some?
    requires forall k :: 0 <= k < |others| ==> others[k].id != id
    ensures Run(s, others).value.pc[id] == s.pc[id]
    ensures Run(s, others).value.room.elapsed[id] == s.room.elapsed[id]
    ensures Run(s, others).value.room.duration[id] == s.room.duration[id]
    decreases |others|
  {
    if |others| > 0 {
      assert others[0].id != id;
      OthersKeepThread(Apply(s, others[0]), others[1..], id);
    }
  }

  /** Each thread takes its steps in the order of its loop, whatever steps
      of other threads come in between. */
  lemma {:induction false} LoopOrder(s: Sys, a: Step, others: seq<Step>, b: Step)
    requires Enabled(s, a) && a.id == b.id
    requires forall k :: 0 <= k < |others| ==> others[k].id != a.id
    requires Run(Apply(s, a), others).Some?
    requires Enabled(Run(Apply(s, a), others).value, b)
    ensures Follows(a, b)
  {
    OthersKeepThread(Apply(s, a), others, a.id);
  }

  // ---------------------------------------------------------------------
  // Timers.
  // ---------------------------------------------------------------------

  /** k tick steps of thread id. */
  function Ticks(id: int, k: nat): seq<Step>
  {
    seq(k, _ => TickStep(id))
  }

  /** Within a tick loop, k ticks that do not pass the duration all run and
      add exactly k to the counter, changing nothing else. */
  lemma {:induction false} TicksAdvance(s: Sys, id: int, k: nat)
    requires WellFormedSys(s) && 0 <= id < s.room.n
    requires s.pc[id] == ThinkLoop || s.pc[id] == EatLoop
    requires s.room.elapsed[id] + k <= s.room.duration[id]
    ensures Run(s, Ticks(id, k)) ==
      Some(Sys(s.room.(elapsed := s.room.elapsed[id := s.room.elapsed[id] + k]), s.pc))
    decreases k
  {
    if k == 0 {
      assert s.room.elapsed[id := s.room.elapsed[id] + 0] == s.room.elapsed;
    } else {
      var s1 := Apply(s, TickStep(id));
      assert Ticks(id, k)[1..] == Ticks(id, k - 1);
      TicksAdvance(s1, id, k - 1);
      assert s1.room.elapsed[id := s1.room.elapsed[id] + (k - 1)]
          == s.room.elapsed[id := s.room.elapsed[id] + k];
    }
  }

  /** A tick loop cannot run past its duration: any tick sequence that
      would take the counter beyond the duration gets stuck. */
  lemma {:induction false} TicksBeyondDurationBlocked(s: Sys, id: int, k: nat)
    requires WellFormedSys(s) && 0 <= id < s.room.n
    requires s.room.elapsed[id] <= s.room.duration[id] < s.room.elapsed[id] + k
    ensures Run(s, Ticks(id, k)) == None
    decreases k
  {
    if s.room.elapsed[id] < s.room.duration[id] && (s.pc[id] == ThinkLoop || s.pc[id] == EatLoop) {
      var s1 := Apply(s, TickStep(id));
      assert Ticks(id, k)[1..] == Ticks(id, k - 1);
      TicksBeyondDurationBlocked(s1, id, k - 1);
    }
  }

  /** Shared part of the two phase lemmas below. */
  lemma PhaseTimer(s: Sys, id: int)
    requires WellFormedSys(s) && 0 <= id < s.room.n
    requires s.pc[id] == ThinkLoop || s.pc[id] == EatLoop
    requires s.room.elapsed[id] == 0 && s.room.duration[id] >= 0
    ensures forall k: nat :: k <= s.room.duration[id] ==>
      Run(s, Ticks(id, k)).Some? && Run(s, Ticks(id, k)).value.room.elapsed[id] == k
    ensures Run(s, Ticks(id, s.room.duration[id])).Some?
    ensures var s' := Run(s, Ticks(id, s.room.duration[id])).value;
      WellFormedSys(s') && s'.pc[id] == s.pc[id] && s'.room.elapsed[id] == s'.room.duration[id]
    ensures Run(s, Ticks(id, s.room.duration[id] + 1)) == None
    ensures forall k: nat :: k < s.room.duration[id] ==>
      && Run(s, Ticks(id, k)).Some?
      && !Enabled(Run(s, Ticks(id, k)).value, BecomeHungryStep(id))
      && !Enabled(Run(s, Ticks(id, k)).value, ReleaseStep(id))
  {
    forall k: nat | k <= s.room.duration[id]
      ensures Run(s, Ticks(id, k)).Some? && Run(s, Ticks(id, k)).value.room.elapsed[id] == k
      ensures k < s.room.duration[id] ==>
        && !Enabled(Run(s, Ticks(id, k)).value, BecomeHungryStep(id))
        && !Enabled(Run(s, Ticks(id, k)).value, ReleaseStep(id))
    {
      TicksAdvance(s, id, k);
    }
    TicksAdvance(s, id, s.room.duration[id]);
    TicksBeyondDurationBlocked(s, id, s.room.duration[id] + 1);
  }

  /** After starting to think for t units the counter is 0; after exactly t
      ticks it equals the duration and the thread may become hungry, but not
      after fewer; it never exceeds t within the phase. */
  lemma ThinkingPhaseTimer(s: Sys, id: int, t: int)
    requires Inv(s) && Enabled(s, BeginThinkingStep(id, t))
    ensures var s1 := Apply(s, BeginThinkingStep(id, t));
      && s1.room.elapsed[id] == 0 && s1.room.duration[id] == t
      && (forall k: nat :: k <= t ==>
            Run(s1, Ticks(id, k)).Some? && Run(s1, Ticks(id, k)).value.room.elapsed[id] == k)
      && Run(s1, Ticks(id, t)).Some?
      && Enabled(Run(s1, Ticks(id, t)).value, BecomeHungryStep(id))
      && Run(s1, Ticks(id, t + 1)) == None
      && (forall k: nat :: k < t ==>
            Run(s1, Ticks(id, k)).Some? && !Enabled(Run(s1, Ticks(id, k)).value, BecomeHungryStep(id)))
  {
    PhaseTimer(Apply(s, BeginThinkingStep(id, t)), id);
  }

  /** After taking the forks to eat for e units the counter is 0; after
      exactly e ticks it equals the duration and the thread may put its
      forks back, but not after fewer; it never exceeds e within the phase. */
  lemma EatingPhaseTimer(s: Sys, id: int, e: int)
    requires Inv(s) && Enabled(s, AcquireStep(id, e))
    ensures var s1 := Apply(s, AcquireStep(id, e));
      && s1.room.elapsed[id] == 0 && s1.room.duration[id] == e
      && (forall k: nat :: k <= e ==>
            Run(s1, Ticks(id, k)).Some? && Run(s1, Ticks(id, k)).value.room.elapsed[id] == k)
      && Run(s1, Ticks(id, e)).Some?
      && Enabled(Run(s1, Ticks(id, e)).value, ReleaseStep(id))
      && Run(s1, Ticks(id, e + 1)) == None
      && (forall k: nat :: k < e ==>
            Run(s1, Ticks(id, k)).Some? && !Enabled(Run(s1, Ticks(id, k)).value, ReleaseStep(id)))
  {
    PhaseTimer(Apply(s, AcquireStep(id, e)), id);
  }
}

/** The shared state of the dining philosophers program and the critical
    sections that philosopher threads run on it while holding the global
    mutex. Each function below is one lock-protected step: no other thread
    can observe the state between its first and its last assignment. */
module Table {

  /** A philosopher's phase. */
  datatype Phase = Thinking | Hungry | Eating

  /** The shared vectors and the table size N. `forks[f]` is true while fork
      f lies on the table (free) and false while a philosopher holds it;
      `duration[i]` and `elapsed[i]` time philosopher i's current activity. */
  datatype Room = Room(n: int, states: seq<Phase>, forks: seq<bool>,
                       duration: seq<int>, elapsed: seq<int>)

  /** The program refuses to start with fewer philosophers than this. */
  const MinPhilosophers: int := 5

  predicate WellFormed(r: Room) {
    && r.n >= MinPhilosophers
    && |r.states| == r.n
    && |r.forks| == r.n
    && |r.duration| == r.n
    && |r.elapsed| == r.n
  }

  predicate ValidId(r: Room, id: int) {
    WellFormed(r) && 0 <= id < r.n
  }

  // ---------------------------------------------------------------------
  // Fork topology: forks and philosophers form one cycle of size N.
  // ---------------------------------------------------------------------

  /** The fork on philosopher i's left carries i's own number; it is the
      same fork its left neighbour uses as a right fork. The C++ function
      ignores N, which is kept here only to state that sharing. */
  function LeftFork(n: int, i: int): (f: int)
    requires 0 <= i < n
    ensures 0 <= f < n
    ensures f == RightFork(n, Prev(n, i))
  {
    i
  }

  /** The fork on philosopher i's right is the next one round the table.
      The C++ program's `%` truncates toward zero, which agrees with Dafny's
      Euclidean `%` here because i + 1 is positive. */
  function RightFork(n: int, i: int): (f: int)
    requires 0 <= i < n
    ensures 0 <= f < n
    ensures f == if i == n - 1 then 0 else i + 1
  {
    (i + 1) % n
  }

  /** The philosopher on fork f's left, who uses f as its right fork. */
  function Prev(n: int, f: int): (p: int)
    requires 0 <= f < n
    ensures 0 <= p < n
    ensures RightFork(n, p) == f
  {
    if f == 0 then n - 1 else f - 1
  }

  /** Both forks of a philosopher exist and are different forks. */
  lemma ForksInRangeAndDistinct(n: int, i: int)
    requires n >= MinPhilosophers && 0 <= i < n
    ensures 0 <= LeftFork(n, i) < n && 0 <= RightFork(n, i) < n
    ensures LeftFork(n, i) != RightFork(n, i)
  {
  }

  /** Fork f is used by exactly two philosophers, f and Prev(n, f). */
  lemma ForkUsers(n: int, f: int, i: int)
    requires n >= MinPhilosophers && 0 <= f < n && 0 <= i < n
    ensures (LeftFork(n, i) == f || RightFork(n, i) == f) <==> (i == f || i == Prev(n, f))
    ensures Prev(n, f) != f
  {
  }

  /** The wait predicate of a hungry philosopher: both its forks are free. */
  predicate CanEat(r: Room, i: int)
    requires ValidId(r, i)
    ensures CanEat(r, i) <==>
      forall f :: 0 <= f < r.n && (f == i || Prev(r.n, f) == i) ==> r.forks[f]
  {
    assert Prev(r.n, RightFork(r.n, i)) == i;
    r.forks[LeftFork(r.n, i)] && r.forks[RightFork(r.n, i)]
  }

  // ---------------------------------------------------------------------
  // Start-up state and the atomic steps.
  // ---------------------------------------------------------------------

  /** The state built at start-up: everyone thinking, every fork on the
      table, all timers zero. */
  function Init(n: int): (r: Room)
    requires n >= MinPhilosophers
    ensures WellFormed(r) && r.n == n
    ensures forall i :: 0 <= i < n ==>
      r.states[i] == Thinking && r.forks[i] && r.duration[i] == 0 && r.elapsed[i] == 0
  {
    Room(n, seq(n, _ => Thinking), seq(n, _ => true), seq(n, _ => 0), seq(n, _ => 0))
  }

  /** Philosophers other than id keep their phase and timers. */
  predicate OthersUnchanged(r: Room, r': Room, id: int)
    requires WellFormed(r) && WellFormed(r') && r.n == r'.n
  {
    forall j :: 0 <= j < r.n && j != id ==>
      && r'.states[j] == r.states[j]
      && r'.duration[j] == r.duration[j]
      && r'.elapsed[j] == r.elapsed[j]
  }

  /** Start a thinking interval of t time units. No fork is touched. */
  function BeginThinking(r: Room, id: int, t: int): (r': Room)
    requires ValidId(r, id)
    ensures WellFormed(r') && r'.n == r.n
    ensures r'.states[id] == Thinking && r'.duration[id] == t && r'.elapsed[id] == 0
    ensures r'.forks == r.forks
    ensures OthersUnchanged(r, r', id)
  {
    r.(states := r.states[id := Thinking],
       duration := r.duration[id := t],
       elapsed := r.elapsed[id := 0])
  }

  /** One time unit of the current activity has passed. */
  function Tick(r: Room, id: int): (r': Room)
    requires ValidId(r, id)
    ensures WellFormed(r') && r'.n == r.n
    ensures r'.elapsed[id] == r.elapsed[id] + 1
    ensures r'.states == r.states && r'.forks == r.forks && r'.duration == r.duration
    ensures OthersUnchanged(r, r', id)
  {
    r.(elapsed := r.elapsed[id := r.elapsed[id] + 1])
  }

  /** The philosopher announces it is hungry; it will then wait for its forks. */
  function BecomeHungry(r: Room, id: int): (r': Room)
    requires ValidId(r, id)
    ensures WellFormed(r') && r'.n == r.n
    ensures r'.states[id] == Hungry
    ensures r'.forks == r.forks && r'.duration == r.duration && r'.elapsed == r.elapsed
    ensures OthersUnchanged(r, r', id)
  {
    r.(states := r.states[id := Hungry])
  }

  /** Having woken with its wait predicate true, the philosopher takes both
      forks in one step and starts an eating interval of e time units. */
  function Acquire(r: Room, id: int, e: int): (r': Room)
    requires ValidId(r, id) && CanEat(r, id)
    ensures WellFormed(r') && r'.n == r.n
    ensures !r'.forks[LeftFork(r.n, id)] && !r'.forks[RightFork(r.n, id)]
    ensures forall f :: 0 <= f < r.n && f != LeftFork(r.n, id) && f != RightFork(r.n, id) ==>
      r'.forks[f] == r.forks[f]
    ensures r'.states[id] == Eating && r'.duration[id] == e && r'.elapsed[id] == 0
    ensures OthersUnchanged(r, r', id)
  {
    r.(forks := r.forks[LeftFork(r.n, id) := false][RightFork(r.n, id) := false],
       states := r.states[id := Eating],
       duration := r.duration[id := e],
       elapsed := r.elapsed[id := 0])
  }

  /** The philosopher puts both forks back and goes back to thinking; its
      timers are left for the next BeginThinking to reset. */
  function Release(r: Room, id: int): (r': Room)
    requires ValidId(r, id)
    ensures WellFormed(r') && r'.n == r.n
    ensures r'.forks[LeftFork(r.n, id)] && r'.forks[RightFork(r.n, id)]
    ensures forall f :: 0 <= f < r.n && f != LeftFork(r.n, id) && f != RightFork(r.n, id) ==>
      r'.forks[f] == r.forks[f]
    ensures r'.states[id] == Thinking
    ensures r'.duration == r.duration && r'.elapsed == r.elapsed
    ensures OthersUnchanged(r, r', id)
  {
    r.(forks := r.forks[LeftFork(r.n, id) := true][RightFork(r.n, id) := true],
       states := r.states[id := Thinking])
  }

  // ---------------------------------------------------------------------
  // Safety invariant.
  // ---------------------------------------------------------------------

  /** Fork f is held exactly when one of its two users is eating. */
  predicate ForksMatchEaters(r: Room)
    requires WellFormed(r)
  {
    forall f :: 0 <= f < r.n ==>
      (r.forks[f] <==> r.states[f] != Eating && r.states[Prev(r.n, f)] != Eating)
  }

  /** Neighbours, who share a fork, never eat at the same time. */
  predicate NoAdjacentEaters(r: Room)
    requires WellFormed(r)
  {
    forall i :: 0 <= i < r.n ==>
      !(r.states[i] == Eating && r.states[RightFork(r.n, i)] == Eating)
  }

  predicate Consistent(r: Room) {
    WellFormed(r) && ForksMatchEaters(r) && NoAdjacentEaters(r)
  }

  lemma InitConsistent(n: int)
    requires n >= MinPhilosophers
    ensures Consistent(Init(n))
  {
  }

  lemma BeginThinkingPreserves(r: Room, id: int, t: int)
    requires Consistent(r) && ValidId(r, id) && r.states[id] != Eating
    ensures Consistent(BeginThinking(r, id, t))
  {
    var r' := BeginThinking(r, id, t);
    forall f | 0 <= f < r.n
      ensures r'.forks[f] <==> r'.states[f] != Eating && r'.states[Prev(r.n, f)] != Eating
    {
      assert r.forks[f] <==> r.states[f] != Eating && r.states[Prev(r.n, f)] != Eating;
    }
  }

  lemma TickPreserves(r: Room, id: int)
    requires Consistent(r) && ValidId(r, id)
    ensures Consistent(Tick(r, id))
  {
  }

  lemma BecomeHungryPreserves(r: Room, id: int)
    requires Consistent(r) && ValidId(r, id) && r.states[id] != Eating
    ensures Consistent(BecomeHungry(r, id))
  {
    var r' := BecomeHungry(r, id);
    forall f | 0 <= f < r.n
      ensures r'.forks[f] <==> r'.states[f] != Eating && r'.states[Prev(r.n, f)] != Eating
    {
      assert r.forks[f] <==> r.states[f] != Eating && r.states[Prev(r.n, f)] != Eating;
    }
  }

  /** Taking both forks together keeps the invariant: the forks were free, so
      neither neighbour was eating. */
  lemma AcquirePreserves(r: Room, id: int, e: int)
    requires Consistent(r) && ValidId(r, id) && CanEat(r, id)
    ensures Consistent(Acquire(r, id, e))
  {
    var r' := Acquire(r, id, e);
    var n := r.n;
    var right := RightFork(n, id);
    assert r.forks[id] && r.forks[right];
    assert r.states[id] != Eating && r.states[Prev(n, id)] != Eating;
    assert r.states[right] != Eating && r.states[Prev(n, right)] != Eating;
    assert Prev(n, right) == id;
    forall f | 0 <= f < n
      ensures r'.forks[f] <==> r'.states[f] != Eating && r'.states[Prev(n, f)] != Eating
    {
      ForkUsers(n, f, id);
      if f != id && f != right {
        assert r.forks[f] <==> r.states[f] != Eating && r.states[Prev(n, f)] != Eating;
      }
    }
    forall i | 0 <= i < n
      ensures !(r'.states[i] == Eating && r'.states[RightFork(n, i)] == Eating)
    {
      assert !(r.states[i] == Eating && r.states[RightFork(n, i)] == Eating);
      if RightFork(n, i) == id {
        assert i == Prev(n, id);
      }
    }
  }

  /** Putting both forks back keeps the invariant: no neighbour was eating,
      so the forks become free exactly as the invariant requires. */
  lemma ReleasePreserves(r: Room, id: int)
    requires Consistent(r) && ValidId(r, id) && r.states[id] == Eating
    ensures Consistent(Release(r, id))
  {
    var r' := Release(r, id);
    var n := r.n;
    var right := RightFork(n, id);
    assert r.states[right] != Eating;
    assert Prev(n, right) == id;
    var left := Prev(n, id);
    assert RightFork(n, left) == id;
    assert r.states[left] != Eating;
    forall f | 0 <= f < n
      ensures r'.forks[f] <==> r'.states[f] != Eating && r'.states[Prev(n, f)] != Eating
    {
      ForkUsers(n, f, id);
      if f != id && f != right {
        assert r.forks[f] <==> r.states[f] != Eating && r.states[Prev(n, f)] != Eating;
      }
    }
    forall i | 0 <= i < n
      ensures !(r'.states[i] == Eating && r'.states[RightFork(n, i)] == Eating)
    {
      assert !(r.states[i] == Eating && r.states[RightFork(n, i)] == Eating);
    }
  }

  // ---------------------------------------------------------------------
  // Consequences of the invariant.
  // ---------------------------------------------------------------------

  /** An eating philosopher holds both of its forks. */
  lemma EatingHoldsBothForks(r: Room, i: int)
    requires Consistent(r) && ValidId(r, i) && r.states[i] == Eating
    ensures !r.forks[LeftFork(r.n, i)] && !r.forks[RightFork(r.n, i)]
  {
    var right := RightFork(r.n, i);
    assert Prev(r.n, right) == i;
    assert r.forks[right] <==> r.states[right] != Eating && r.states[Prev(r.n, right)] != Eating;
  }

  /** A held fork is held by exactly one of its two users. */
  lemma HeldForkHasOneHolder(r: Room, f: int)
    requires Consistent(r) && 0 <= f < r.n && !r.forks[f]
    ensures (r.states[f] == Eating) != (r.states[Prev(r.n, f)] == Eating)
  {
    var p := Prev(r.n, f);
    assert !(r.states[p] == Eating && r.states[RightFork(r.n, p)] == Eating);
  }

  /** The wait predicate holds exactly when the philosopher and both its
      neighbours are not eating. */
  lemma CanEatIffNeighboursIdle(r: Room, i: int)
    requires Consistent(r) && ValidId(r, i)
    ensures CanEat(r, i) <==>
      r.states[Prev(r.n, i)] != Eating && r.states[i] != Eating && r.states[RightFork(r.n, i)] != Eating
  {
    var right := RightFork(r.n, i);
    assert Prev(r.n, right) == i;
    assert r.forks[i] <==> r.states[i] != Eating && r.states[Prev(r.n, i)] != Eating;
    assert r.forks[right] <==> r.states[right] != Eating && r.states[Prev(r.n, right)] != Eating;
  }

  /** When nobody eats, every fork is free and every philosopher's wait
      predicate holds: forks are only ever held in pairs by eaters. */
  lemma NoEaterAllForksFree(r: Room)
    requires Consistent(r)
    requires forall i :: 0 <= i < r.n ==> r.states[i] != Eating
    ensures forall f :: 0 <= f < r.n ==> r.forks[f]
    ensures forall i :: 0 <= i < r.n ==> CanEat(r, i)
  {
    forall f | 0 <= f < r.n
      ensures r.forks[f]
    {
      assert r.states[Prev(r.n, f)] != Eating;
    }
  }

  /** Two hungry neighbours competing for a shared fork: once one of them
      acquires, the wait predicate of each neighbour is false. */
  lemma AcquireBlocksNeighbours(r: Room, id: int, e: int)
    requires ValidId(r, id) && CanEat(r, id)
    ensures !CanEat(Acquire(r, id, e), Prev(r.n, id))
    ensures !CanEat(Acquire(r, id, e), RightFork(r.n, id))
  {
    assert RightFork(r.n, Prev(r.n, id)) == LeftFork(r.n, id);
    assert LeftFork(r.n, RightFork(r.n, id)) == RightFork(r.n, id);
  }

  /** Acquiring and then releasing gives every fork back as it was; only the
      philosopher's own phase changes (to Thinking). */
  lemma AcquireReleaseRestoresForks(r: Room, id: int, e: int)
    requires ValidId(r, id) && CanEat(r, id)
    ensures Release(Acquire(r, id, e), id).forks == r.forks
    ensures Release(Acquire(r, id, e), id).states == r.states[id := Thinking]
  {
    var r2 := Release(Acquire(r, id, e), id);
    assert |r2.forks| == |r.forks|;
    forall f | 0 <= f < r.n
      ensures r2.forks[f] == r.forks[f]
    {
    }
  }
}

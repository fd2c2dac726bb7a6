/** The barrier: at most four threads in the critical section, the others in a pool. */
module Barrier {
  import opened BlockedPool
  import opened Runs

  const LIMIT_BARRIER := 4

  /** Every thread is a program-counter machine and a run is any interleaving of their steps, so
      what is proved of every reachable state holds under every schedule.

      The points of `CS` between which another thread may run. Those marked (m) hold the
      counter's mutex. The pool operations run under the pool's own mutex and are one step
      each, but the scan made on leaving reads the pool without it, slot by slot. */
  datatype Pc =
    | Want                  // about to lock the counter's mutex
    | Test                  // (m) about to compare the counter with the limit
    | Enter                 // (m) about to increment
    | EnterUnlock           // (m)
    | InCS                  // inside the critical section
    | WantExit              // about to lock again
    | Leave                 // (m) about to decrement
    | TestExit              // (m) about to compare again
    | Scan(i: int)          // (m) about to test slot i of the pool
    | Return(i: int)        // (m) about to read slot i again, to return it
    | Signal(thread: nat)   // (m) about to signal
    | ExitUnlock            // (m)
    | BlockUnlock           // (m) the counter was at the limit
    | AddToPool
    | Waiting               // in the condition wait
    | RemoveFromPool
    | Failed                // assert(0): the pool refused the thread

  datatype State = State(counter: int, lock: int, pool: seq<Slot>, pcs: seq<Pc>)

  predicate Holds(pc: Pc) {
    pc.Test? || pc.Enter? || pc.EnterUnlock? || pc.Leave? || pc.TestExit? || pc.Scan? ||
    pc.Return? || pc.Signal? || pc.ExitUnlock? || pc.BlockUnlock?
  }

  /** Between the increment and the decrement. */
  predicate Inside(pc: Pc) {
    pc.EnterUnlock? || pc.InCS? || pc.WantExit? || pc.Leave?
  }

  predicate Pooled(pc: Pc) {
    pc.Waiting? || pc.RemoveFromPool?
  }

  ghost function Init(threads: nat, poolSize: nat): State {
    State(0, FREE, seq(poolSize, _ => Empty), seq(threads, _ => Want))
  }

  ghost function At(s: State, t: nat, pc: Pc): State
    requires t < |s.pcs|
  {
    s.(pcs := s.pcs[t := pc])
  }

  /** One step of thread t. A wait may end at any time: by a signal or spuriously. */
  ghost predicate StepOf(s: State, t: nat, s': State) {
    t < |s.pcs| &&
    match s.pcs[t]
    case Want => s.lock == FREE && s' == At(s, t, Test).(lock := t)
    case Test => s' == At(s, t, if s.counter < LIMIT_BARRIER then Enter else BlockUnlock)
    case Enter => s' == At(s, t, EnterUnlock).(counter := s.counter + 1)
    case EnterUnlock => s' == At(s, t, InCS).(lock := FREE)
    case InCS => s' == At(s, t, WantExit)
    case WantExit => s.lock == FREE && s' == At(s, t, Leave).(lock := t)
    case Leave => s' == At(s, t, TestExit).(counter := s.counter - 1)
    case TestExit => s' == At(s, t, if s.counter < LIMIT_BARRIER then Scan(|s.pool| - 1) else ExitUnlock)
    case Scan(i) =>
      s' == At(s, t, if i < 0 || |s.pool| <= i then ExitUnlock
                     else if s.pool[i].Held? then Return(i) else Scan(i - 1))
    case Return(i) =>
      s' == At(s, t, if 0 <= i < |s.pool| && s.pool[i].Held? then Signal(s.pool[i].thread) else ExitUnlock)
    case Signal(_) => s' == At(s, t, ExitUnlock)
    case ExitUnlock => s' == At(s, t, Want).(lock := FREE)
    case BlockUnlock => s' == At(s, t, AddToPool).(lock := FREE)
    case AddToPool =>
      exists rc, pool ::
        Added(s.pool, pool, t, rc) && s' == At(s, t, if rc < 0 then Failed else Waiting).(pool := pool)
    case Waiting => s' == At(s, t, RemoveFromPool)
    case RemoveFromPool =>
      exists rc, pool :: Removed(s.pool, pool, t, rc) && s' == At(s, t, Want).(pool := pool)
    case Failed => false
  }

  ghost predicate Step(s: State, s': State) {
    exists t: nat :: StepOf(s, t, s')
  }

  ghost function Steps(): (State, State) -> bool {
    (s, s') => Step(s, s')
  }

  /** After any number of steps of any threads in any order. */
  ghost predicate Reachable(s: State, threads: nat, poolSize: nat) {
    Reached(s, Init(threads, poolSize), Steps())
  }

  /** How many threads are inside. */
  ghost function Count(pcs: seq<Pc>): nat {
    if pcs == [] then 0 else Count(pcs[..|pcs| - 1]) + (if Inside(pcs[|pcs| - 1]) then 1 else 0)
  }

  lemma {:induction false} CountUpdate(pcs: seq<Pc>, t: nat, pc: Pc)
    requires t < |pcs|
    ensures Count(pcs[t := pc])
            == Count(pcs) - (if Inside(pcs[t]) then 1 else 0) + (if Inside(pc) then 1 else 0)
  {
    var n := |pcs| - 1;
    if t == n {
      assert pcs[t := pc][..n] == pcs[..n];
    } else {
      CountUpdate(pcs[..n], t, pc);
      assert pcs[t := pc][..n] == pcs[..n][t := pc];
    }
  }

  lemma {:induction false} CountNone(pcs: seq<Pc>)
    requires forall t | 0 <= t < |pcs| :: !Inside(pcs[t])
    ensures Count(pcs) == 0
  {
    if pcs != [] { CountNone(pcs[..|pcs| - 1]); }
  }

  // ----- the invariant

  /** The mutex excludes: its owner is the one thread at a point that holds it. */
  ghost predicate MutexInv(s: State) {
    && (s.lock == FREE || 0 <= s.lock < |s.pcs|)
    && forall t | 0 <= t < |s.pcs| :: Holds(s.pcs[t]) <==> s.lock == t
  }

  ghost predicate CounterInv(s: State) {
    && s.counter == Count(s.pcs) <= LIMIT_BARRIER
    && forall t | 0 <= t < |s.pcs| :: s.pcs[t].Enter? ==> s.counter < LIMIT_BARRIER
  }

  /** The pool holds exactly the threads between being added and being removed, once each. */
  ghost predicate PoolInv(s: State) {
    && Distinct(s.pool)
    && (forall t: nat :: Held(t) in s.pool <==> t < |s.pcs| && Pooled(s.pcs[t]))
    && forall t | 0 <= t < |s.pcs| :: !s.pcs[t].Failed?
  }

  ghost predicate Inv(s: State, threads: nat, poolSize: nat) {
    && |s.pcs| == threads && |s.pool| == poolSize && MutexInv(s) && CounterInv(s)
    && (threads <= poolSize ==> PoolInv(s))
    && (threads <= LIMIT_BARRIER ==> NeverBlocked(s))
  }

  /** No thread is, or is about to be, blocked. */
  ghost predicate NeverBlocked(s: State) {
    forall t | 0 <= t < |s.pcs| :: !s.pcs[t].BlockUnlock? && !s.pcs[t].AddToPool? && !s.pcs[t].Failed?
  }

  lemma InitInv(threads: nat, poolSize: nat)
    ensures Inv(Init(threads, poolSize), threads, poolSize)
  {
    CountNone(Init(threads, poolSize).pcs);
  }

  lemma MutexKept(s: State, t: nat, s': State)
    requires MutexInv(s) && StepOf(s, t, s')
    ensures MutexInv(s')
  {
  }

  lemma CounterKept(s: State, t: nat, s': State)
    requires MutexInv(s) && CounterInv(s) && StepOf(s, t, s')
    ensures CounterInv(s')
  {
    CountUpdate(s.pcs, t, s'.pcs[t]);
  }

  lemma AddSucceeds(s: State, t: nat, pool: seq<Slot>, rc: int)
    requires PoolInv(s) && |s.pcs| <= |s.pool| && t < |s.pcs| && s.pcs[t].AddToPool?
    requires Added(s.pool, pool, t, rc)
    ensures rc >= 0 && Distinct(pool) && |pool| == |s.pool|
    ensures forall u: nat :: Held(u) in pool <==> Held(u) in s.pool || u == t
  {
    forall i | 0 <= i < |s.pool| && s.pool[i].Held?
      ensures s.pool[i].thread < |s.pcs|
    {
      assert Held(s.pool[i].thread) in s.pool;
    }
    RoomForOneMore(s.pool, |s.pcs|, t);
    AddKeepsDistinct(s.pool, pool, t, rc);
    forall u: nat | Held(u) in s.pool
      ensures Held(u) in pool
    {
      var k :| 0 <= k < |s.pool| && s.pool[k] == Held(u);
      assert pool[k] == Held(u);
    }
  }

  lemma PoolKept(s: State, t: nat, s': State)
    requires PoolInv(s) && |s.pcs| <= |s.pool| && StepOf(s, t, s')
    ensures PoolInv(s')
  {
    if s.pcs[t].AddToPool? {
      var rc, pool :| Added(s.pool, pool, t, rc) && s' == At(s, t, if rc < 0 then Failed else Waiting).(pool := pool);
      AddSucceeds(s, t, pool, rc);
    } else if s.pcs[t].RemoveFromPool? {
      var rc, pool :| Removed(s.pool, pool, t, rc) && s' == At(s, t, Want).(pool := pool);
      RemoveRemoves(s.pool, pool, t, rc);
    }
  }

  lemma {:induction false} CountBelow(pcs: seq<Pc>, t: nat)
    requires t < |pcs| && !Inside(pcs[t])
    ensures Count(pcs) < |pcs|
  {
    var n := |pcs| - 1;
    if t < n { CountBelow(pcs[..n], t); } else { CountAtMost(pcs[..n]); }
  }

  lemma {:induction false} CountAtMost(pcs: seq<Pc>)
    ensures Count(pcs) <= |pcs|
  {
    if pcs != [] { CountAtMost(pcs[..|pcs| - 1]); }
  }

  /** With no more threads than the limit, the counter is below it at every test. */
  lemma NeverBlockedKept(s: State, t: nat, s': State)
    requires NeverBlocked(s) && CounterInv(s) && |s.pcs| <= LIMIT_BARRIER && StepOf(s, t, s')
    ensures NeverBlocked(s')
  {
    if s.pcs[t].Test? { CountBelow(s.pcs, t); }
  }

  lemma StepKept(s: State, t: nat, s': State, threads: nat, poolSize: nat)
    requires Inv(s, threads, poolSize) && StepOf(s, t, s')
    ensures Inv(s', threads, poolSize)
  {
    hide StepOf, MutexInv, CounterInv, PoolInv, NeverBlocked;
    SizesKept(s, t, s');
    MutexKept(s, t, s');
    CounterKept(s, t, s');
    if threads <= poolSize { PoolKept(s, t, s'); }
    if threads <= LIMIT_BARRIER { NeverBlockedKept(s, t, s'); }
  }

  lemma SizesKept(s: State, t: nat, s': State)
    requires StepOf(s, t, s')
    ensures |s'.pcs| == |s.pcs| && |s'.pool| == |s.pool|
  {
  }

  lemma {:induction false} CountInCS(pcs: seq<Pc>)
    ensures multiset(pcs)[InCS] <= Count(pcs)
  {
    if pcs != [] {
      var n := |pcs| - 1;
      CountInCS(pcs[..n]);
      assert pcs == pcs[..n] + [pcs[n]];
    }
  }

  lemma ReachableInv(s: State, threads: nat, poolSize: nat)
    requires Reachable(s, threads, poolSize)
    ensures Inv(s, threads, poolSize)
  {
    hide StepOf, Inv;
    var inv := (s: State) => Inv(s, threads, poolSize);
    InitInv(threads, poolSize);
    forall s, s' | inv(s) && Step(s, s')
      ensures inv(s')
    {
      var t: nat :| StepOf(s, t, s');
      StepKept(s, t, s', threads, poolSize);
    }
    ReachedKeeps(s, Init(threads, poolSize), Steps(), inv);
  }

  // ----- safety over whole runs

  /** Whatever the pool's size: the counter is the number of threads between increment and
      decrement, it never exceeds the limit, and neither does the critical section. */
  lemma BarrierSafe(s: State, threads: nat, poolSize: nat)
    requires Reachable(s, threads, poolSize)
    ensures s.counter == Count(s.pcs) <= 4
    ensures multiset(s.pcs)[InCS] <= 4
  {
    ReachableInv(s, threads, poolSize);
    CountInCS(s.pcs);
  }

  /** With a slot for every thread: the pool never holds a thread twice, holds exactly the
      waiting ones, and never refuses one. */
  lemma PoolSafe(s: State, threads: nat, poolSize: nat)
    requires Reachable(s, threads, poolSize) && threads <= poolSize
    ensures Distinct(s.pool)
    ensures forall t: nat :: Held(t) in s.pool <==> t < |s.pcs| && Pooled(s.pcs[t])
    ensures Failed !in s.pcs
  {
    ReachableInv(s, threads, poolSize);
  }

  // ----- what a thread does by its own steps

  ghost function StepsOf(t: nat): (State, State) -> bool {
    (s, s') => StepOf(s, t, s')
  }

  /** Steps of thread t alone lead from one state to the other. */
  ghost predicate Alone(s: State, t: nat, s': State) {
    Reached(s', s, StepsOf(t))
  }

  lemma AloneHere(s: State, t: nat)
    ensures Alone(s, t, s)
  {
    ReachedInit(s, StepsOf(t));
  }

  lemma AloneStep(s: State, t: nat, first: State, s': State)
    requires StepOf(s, t, first) && Alone(first, t, s')
    ensures Alone(s, t, s')
  {
    hide StepOf;
    ReachedFirst(s', first, s, StepsOf(t));
  }

  lemma AloneOn(s: State, t: nat, middle: State, s': State)
    requires Alone(s, t, middle) && Alone(middle, t, s')
    ensures Alone(s, t, s')
  {
    hide StepOf;
    ReachedOn(s', middle, s, StepsOf(t), StepsOf(t));
  }

  /** Steps of any threads lead from one state to the other. */
  ghost predicate Leads(s: State, s': State) {
    Reached(s', s, Steps())
  }

  lemma AloneLeads(s: State, t: nat, s': State)
    requires Alone(s, t, s')
    ensures Leads(s, s')
  {
    hide StepOf;
    ReachedInit(s, Steps());
    forall a, b | StepsOf(t)(a, b)
      ensures Steps()(a, b)
    {
      assert StepOf(a, t, b);
    }
    ReachedOn(s', s, s, Steps(), StepsOf(t));
  }

  lemma LeadsOn(s: State, middle: State, s': State)
    requires Leads(s, middle) && Leads(middle, s')
    ensures Leads(s, s')
  {
    hide StepOf;
    ReachedOn(s', middle, s, Steps(), Steps());
  }

  lemma ReachableOn(s: State, s': State, threads: nat, poolSize: nat)
    requires Reachable(s, threads, poolSize) && Leads(s, s')
    ensures Reachable(s', threads, poolSize)
  {
    hide StepOf;
    ReachedOn(s', s, Init(threads, poolSize), Steps(), Steps());
  }

  /** Where a leaving thread stands when it has looked for a blocked one. */
  function Chosen(found: Slot): Pc {
    match found
    case Held(thread) => Signal(thread)
    case Empty => ExitUnlock
  }

  /** The scan, undisturbed, finds the thread in the highest occupied slot. */
  lemma {:induction false} ScanFinds(s: State, t: nat) returns (found: Slot)
    requires t < |s.pcs| && s.pcs[t].Scan? && -1 <= s.pcs[t].i < |s.pool|
    requires forall k | s.pcs[t].i < k < |s.pool| :: s.pool[k] == Empty
    ensures IsBlockedThread(s.pool, found) && Alone(s, t, At(s, t, Chosen(found)))
    decreases s.pcs[t].i + 1
  {
    hide Alone;
    var i := s.pcs[t].i;
    if i < 0 {
      found := Empty;
      AloneHere(At(s, t, ExitUnlock), t);
      AloneStep(s, t, At(s, t, ExitUnlock), At(s, t, ExitUnlock));
    } else if s.pool[i].Held? {
      found := s.pool[i];
      var first, s' := At(s, t, Return(i)), At(s, t, Chosen(found));
      AloneHere(s', t);
      AloneStep(first, t, s', s');
      AloneStep(s, t, first, s');
    } else {
      var first := At(s, t, Scan(i - 1));
      found := ScanFinds(first, t);
      assert At(first, t, Chosen(found)) == At(s, t, Chosen(found));
      AloneStep(s, t, first, At(s, t, Chosen(found)));
    }
  }

  lemma LeavesFinding(s: State, t: nat) returns (found: Slot)
    requires t < |s.pcs| && s.lock == FREE && s.pcs[t] == WantExit && s.counter <= LIMIT_BARRIER
    ensures IsBlockedThread(s.pool, found)
    ensures Alone(s, t, At(s, t, Chosen(found)).(lock := t, counter := s.counter - 1))
  {
    hide Alone, IsBlockedThread;
    var s1 := At(s, t, Leave).(lock := t);
    var s2 := At(s1, t, TestExit).(counter := s.counter - 1);
    var s3 := At(s2, t, Scan(|s.pool| - 1));
    found := ScanFinds(s3, t);
    var s' := At(s3, t, Chosen(found));
    assert s' == At(s, t, Chosen(found)).(lock := t, counter := s.counter - 1);
    AloneStep(s2, t, s3, s');
    AloneStep(s1, t, s2, s');
    AloneStep(s, t, s1, s');
  }

  /** A thread that leaves the critical section undisturbed counts itself out and, the counter
      being below the limit then, is about to signal the thread in the highest occupied slot of
      the pool; only if all slots are empty does it signal no one. */
  lemma LeavingTurn(s: State, t: nat, threads: nat, poolSize: nat) returns (s': State)
    requires Reachable(s, threads, poolSize) && t < |s.pcs| && s.lock == FREE && s.pcs[t] == WantExit
    ensures Alone(s, t, s') && Reachable(s', threads, poolSize)
    ensures |s'.pcs| == |s.pcs| && s' == s.(lock := t, counter := s.counter - 1, pcs := s.pcs[t := s'.pcs[t]])
    ensures (exists k | 0 <= k < |s.pool| :: s.pool[k].Held?) ==>
      s'.pcs[t].Signal? && IsBlockedThread(s.pool, Held(s'.pcs[t].thread))
    ensures IsBlockedThread(s.pool, Empty) ==> s'.pcs[t] == ExitUnlock
  {
    hide Alone, Reachable;
    ReachableInv(s, threads, poolSize);
    var found := LeavesFinding(s, t);
    s' := At(s, t, Chosen(found)).(lock := t, counter := s.counter - 1);
    AloneLeads(s, t, s');
    ReachableOn(s, s', threads, poolSize);
  }

  /** Then it goes back to its start, the mutex free again. */
  lemma ExitTurn(s: State, t: nat)
    requires t < |s.pcs| && s.lock == FREE && (s.pcs[t] == InCS || s.pcs[t] == WantExit)
    requires s.counter <= LIMIT_BARRIER
    ensures Alone(s, t, At(s, t, Want).(counter := s.counter - 1))
  {
    hide Alone, IsBlockedThread;
    var s1 := At(s, t, WantExit);
    var found := LeavesFinding(s1, t);
    var s2 := At(s1, t, Chosen(found)).(lock := t, counter := s.counter - 1);
    var s3 := At(s2, t, ExitUnlock);
    var s' := At(s3, t, Want).(lock := FREE);
    assert s' == At(s, t, Want).(counter := s.counter - 1);
    AloneHere(s', t);
    AloneStep(s3, t, s', s');
    if s2 != s3 { AloneStep(s2, t, s3, s'); }
    AloneOn(s1, t, s2, s');
    if s != s1 { AloneStep(s, t, s1, s'); }
  }

  /** A thread that finds the counter below the limit gets in, undisturbed. */
  lemma EnterTurn(s: State, t: nat)
    requires t < |s.pcs| && s.lock == FREE && s.pcs[t] == Want && s.counter < LIMIT_BARRIER
    ensures Alone(s, t, At(s, t, InCS).(counter := s.counter + 1))
  {
    hide Alone;
    var s1 := At(s, t, Test).(lock := t);
    var s2 := At(s1, t, Enter);
    var s3 := At(s2, t, EnterUnlock).(counter := s.counter + 1);
    var s' := At(s3, t, InCS).(lock := FREE);
    assert s' == At(s, t, InCS).(counter := s.counter + 1);
    AloneHere(s', t);
    AloneStep(s3, t, s', s');
    AloneStep(s2, t, s3, s');
    AloneStep(s1, t, s2, s');
    AloneStep(s, t, s1, s');
  }

  /** A thread that finds the counter at the limit, undisturbed, is added to the pool and waits. */
  lemma BlockingTurn(s: State, t: nat) returns (pool: seq<Slot>, rc: int)
    requires t < |s.pcs| && s.lock == FREE && s.pcs[t] == Want && s.counter >= LIMIT_BARRIER
    ensures Added(s.pool, pool, t, rc)
    ensures Alone(s, t, At(s, t, if rc < 0 then Failed else Waiting).(pool := pool))
  {
    hide Alone, Added;
    var s1 := At(s, t, Test).(lock := t);
    var s2 := At(s1, t, BlockUnlock);
    var s3 := At(s, t, AddToPool);
    pool, rc := SomeAdded(s.pool, t);
    var s' := At(s, t, if rc < 0 then Failed else Waiting).(pool := pool);
    assert s' == At(s3, t, if rc < 0 then Failed else Waiting).(pool := pool);
    AloneHere(s', t);
    AloneStep(s3, t, s', s');
    AloneStep(s2, t, s3, s');
    AloneStep(s1, t, s2, s');
    AloneStep(s, t, s1, s');
  }

  /** A waiting thread that wakes takes itself out of the pool and goes back to its start. */
  lemma WakingTurn(s: State, t: nat) returns (pool: seq<Slot>, rc: int)
    requires t < |s.pcs| && s.pcs[t] == Waiting
    ensures Removed(s.pool, pool, t, rc) && Alone(s, t, At(s, t, Want).(pool := pool))
  {
    hide Alone, Removed;
    var s1 := At(s, t, RemoveFromPool);
    pool, rc := SomeRemoved(s.pool, t);
    var s' := At(s, t, Want).(pool := pool);
    assert s' == At(s1, t, Want).(pool := pool);
    AloneHere(s', t);
    AloneStep(s1, t, s', s');
    AloneStep(s, t, s1, s');
  }

  // ----- no thread is shut out

  /** How many steps a thread is at most from its start. */
  function Left(pc: Pc, slots: nat): nat {
    match pc
    case Want => 0
    case ExitUnlock => 1
    case Signal(_) => 2
    case Return(_) => 3
    case Scan(i) => if i < 0 then 4 else 5 + i
    case TestExit => 5 + slots
    case Leave => 6 + slots
    case WantExit => 7 + slots
    case InCS => 8 + slots
    case EnterUnlock => 9 + slots
    case Enter => 10 + slots
    case Test => 11 + slots
    case RemoveFromPool => 1
    case Waiting => 2
    case Failed => 0
    case AddToPool => 3
    case BlockUnlock => 4
  }

  /** The next step of a thread that holds the mutex or finds it free. */
  lemma NextStep(s: State, t: nat, threads: nat, poolSize: nat) returns (s': State)
    requires Inv(s, threads, poolSize) && t < threads <= poolSize
    requires s.lock == (if Holds(s.pcs[t]) then t else FREE) && s.pcs[t] != Want
    ensures StepOf(s, t, s') && t < |s'.pcs| && s'.lock == (if Holds(s'.pcs[t]) then t else FREE)
    ensures Left(s'.pcs[t], poolSize) < Left(s.pcs[t], poolSize)
  {
    match s.pcs[t]
    case Want =>
      s' := s;
    case Test => s' := At(s, t, if s.counter < LIMIT_BARRIER then Enter else BlockUnlock);
    case Enter => s' := At(s, t, EnterUnlock).(counter := s.counter + 1);
    case EnterUnlock => s' := At(s, t, InCS).(lock := FREE);
    case InCS => s' := At(s, t, WantExit);
    case WantExit => s' := At(s, t, Leave).(lock := t);
    case Leave => s' := At(s, t, TestExit).(counter := s.counter - 1);
    case TestExit => s' := At(s, t, if s.counter < LIMIT_BARRIER then Scan(|s.pool| - 1) else ExitUnlock);
    case Scan(i) =>
      s' := At(s, t, if i < 0 || |s.pool| <= i then ExitUnlock
                     else if s.pool[i].Held? then Return(i) else Scan(i - 1));
    case Return(i) =>
      s' := At(s, t, if 0 <= i < |s.pool| && s.pool[i].Held? then Signal(s.pool[i].thread) else ExitUnlock);
    case Signal(_) => s' := At(s, t, ExitUnlock);
    case ExitUnlock => s' := At(s, t, Want).(lock := FREE);
    case BlockUnlock => s' := At(s, t, AddToPool).(lock := FREE);
    case AddToPool =>
      var pool, rc := SomeAdded(s.pool, t);
      s' := At(s, t, if rc < 0 then Failed else Waiting).(pool := pool);
    case Waiting => s' := At(s, t, RemoveFromPool);
    case RemoveFromPool =>
      var pool, rc := SomeRemoved(s.pool, t);
      s' := At(s, t, Want).(pool := pool);
    case Failed =>
      assert false;
  }

  /** Such a thread gets back to its start by its own steps, and leaves the mutex free. */
  lemma {:induction false} BackToWant(s: State, t: nat, threads: nat, poolSize: nat) returns (s': State)
    requires Inv(s, threads, poolSize) && t < threads <= poolSize
    requires s.lock == (if Holds(s.pcs[t]) then t else FREE)
    ensures Alone(s, t, s') && Inv(s', threads, poolSize) && s'.lock == FREE && s'.pcs[t] == Want
    decreases Left(s.pcs[t], poolSize)
  {
    hide Alone, StepOf, MutexInv, CounterInv, PoolInv, NeverBlocked;
    if s.pcs[t] == Want {
      s' := s;
      AloneHere(s, t);
    } else {
      var first := NextStep(s, t, threads, poolSize);
      StepKept(s, t, first, threads, poolSize);
      s' := BackToWant(first, t, threads, poolSize);
      AloneStep(s, t, first, s');
    }
  }

  /** With a slot for every thread, whatever has happened, every thread can still get into the
      critical section, as waits may end at any time. */
  lemma NeverShutOut(s: State, t: nat, threads: nat, poolSize: nat) returns (s': State)
    requires Reachable(s, threads, poolSize) && t < threads <= poolSize
    ensures Leads(s, s') && |s'.pcs| == threads && s'.pcs[t] == InCS
  {
    hide Leads, Alone, Reachable, StepOf, PoolInv, NeverBlocked, Count;
    ReachableInv(s, threads, poolSize);
    var h := if s.lock == FREE then t else s.lock;
    var s1 := BackToWant(s, h, threads, poolSize);
    AloneLeads(s, h, s1);
    var s2 := BackToWant(s1, t, threads, poolSize);
    AloneLeads(s1, t, s2);
    LeadsOn(s, s1, s2);
    var s3 := RoomMade(s2, t);
    LeadsOn(s, s2, s3);
    EnterTurn(s3, t);
    s' := At(s3, t, InCS).(counter := s3.counter + 1);
    AloneLeads(s3, t, s');
    LeadsOn(s, s3, s');
  }

  /** While the mutex is free, a counter at the limit can be brought below it by another thread. */
  lemma RoomMade(s: State, t: nat) returns (s': State)
    requires MutexInv(s) && CounterInv(s) && t < |s.pcs| && s.lock == FREE && s.pcs[t] == Want
    ensures Leads(s, s') && |s'.pcs| == |s.pcs| && s'.counter < LIMIT_BARRIER
    ensures s'.lock == FREE && s'.pcs[t] == Want
  {
    hide Leads, Alone, StepOf, Count;
    if s.counter < LIMIT_BARRIER {
      s' := s;
      AloneHere(s, t);
      AloneLeads(s, t, s);
    } else {
      if forall u | 0 <= u < |s.pcs| :: !Inside(s.pcs[u]) { CountNone(s.pcs); }
      var u :| 0 <= u < |s.pcs| && Inside(s.pcs[u]);
      ExitTurn(s, u);
      s' := At(s, u, Want).(counter := s.counter - 1);
      AloneLeads(s, u, s');
    }
  }

  // ----- exactly when the pool can refuse a thread

  /** The first k threads inside, the others not started. */
  ghost function Entered(k: nat, threads: nat, poolSize: nat): State {
    State(k, FREE, seq(poolSize, _ => Empty), seq(threads, i => if i < k then InCS else Want))
  }

  lemma EnterReachable(s: State, t: nat, threads: nat, poolSize: nat)
    requires Reachable(s, threads, poolSize)
    requires t < |s.pcs| && s.pcs[t] == Want && s.lock == FREE && s.counter < LIMIT_BARRIER
    ensures Reachable(At(s, t, InCS).(counter := s.counter + 1), threads, poolSize)
  {
    hide Reachable, Alone, Leads;
    EnterTurn(s, t);
    var s' := At(s, t, InCS).(counter := s.counter + 1);
    AloneLeads(s, t, s');
    ReachableOn(s, s', threads, poolSize);
  }

  lemma {:induction false} EnteredReachable(k: nat, threads: nat, poolSize: nat)
    requires k <= LIMIT_BARRIER && k <= threads
    ensures Reachable(Entered(k, threads, poolSize), threads, poolSize)
  {
    if k == 0 {
      assert Entered(0, threads, poolSize) == Init(threads, poolSize);
      ReachedInit(Init(threads, poolSize), Steps());
    } else {
      var before := Entered(k - 1, threads, poolSize);
      EnteredReachable(k - 1, threads, poolSize);
      EnterReachable(before, k - 1, threads, poolSize);
      assert At(before, k - 1, InCS).(counter := k) == Entered(k, threads, poolSize);
    }
  }

  /** More threads than slots, and more than the limit: the last thread finds the counter at
      the limit and is refused, its number being no index of the pool. */
  lemma RefusalReachable(threads: nat, poolSize: nat) returns (s: State)
    requires poolSize < threads && LIMIT_BARRIER < threads
    ensures Reachable(s, threads, poolSize) && Failed in s.pcs
  {
    hide Reachable, Alone, Leads;
    EnteredReachable(LIMIT_BARRIER, threads, poolSize);
    var t, full := threads - 1, Entered(LIMIT_BARRIER, threads, poolSize);
    var pool, rc := BlockingTurn(full, t);
    s := At(full, t, Failed).(pool := pool);
    AloneLeads(full, t, s);
    ReachableOn(full, s, threads, poolSize);
    assert s.pcs[t] == Failed;
  }

  /** The assertion after a refused thread can fail in some run exactly when there are more
      threads than slots and more threads than the limit. */
  lemma RefusalIff(threads: nat, poolSize: nat)
    ensures (exists s :: Reachable(s, threads, poolSize) && Failed in s.pcs)
            <==> poolSize < threads && 4 < threads
  {
    if poolSize < threads && LIMIT_BARRIER < threads {
      var s := RefusalReachable(threads, poolSize);
    } else {
      forall s | Reachable(s, threads, poolSize)
        ensures Failed !in s.pcs
      {
        ReachableInv(s, threads, poolSize);
      }
    }
  }

  // ----- how many threads can be inside

  lemma {:induction false} InCSBelow(pcs: seq<Pc>, k: nat)
    requires k <= |pcs| && forall t | 0 <= t < |pcs| :: pcs[t] == InCS <==> t < k
    ensures multiset(pcs)[InCS] == k
  {
    if pcs != [] {
      var n := |pcs| - 1;
      InCSBelow(pcs[..n], if k > n then n else k);
      assert pcs == pcs[..n] + [pcs[n]];
    }
  }

  /** So many threads are in the critical section in some run exactly when there are so many and
      they are at most four. */
  lemma OccupancyIff(n: nat, threads: nat, poolSize: nat)
    ensures (exists s :: Reachable(s, threads, poolSize) && multiset(s.pcs)[InCS] == n) <==> n <= threads && n <= 4
  {
    hide Reachable;
    if n <= threads && n <= 4 {
      EnteredReachable(n, threads, poolSize);
      InCSBelow(Entered(n, threads, poolSize).pcs, n);
    }
    forall s | Reachable(s, threads, poolSize)
      ensures multiset(s.pcs)[InCS] <= threads && multiset(s.pcs)[InCS] <= 4
    {
      ReachableInv(s, threads, poolSize);
      CountInCS(s.pcs);
      CountAtMost(s.pcs);
    }
  }
}

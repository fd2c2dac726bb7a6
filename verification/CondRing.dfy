/** Threads in a ring, each with its own condition variable and all with one mutex. */
module CondRing {
  import opened Runs

  /** `_wait` and `signal` as steps: a thread prints, signals its successor and waits. A signal to a
      thread that is not yet asleep is lost.

      Points between which another thread may run. Those marked (m) hold the mutex. */
  datatype Pc =
    | Print
    | SignalLock    // about to lock, to signal
    | Signal        // (m)
    | SignalUnlock  // (m)
    | WaitLock      // about to lock, to wait
    | Wait          // (m) about to sleep, releasing the mutex
    | Asleep
    | Awake         // about to take the mutex again
    | WakeUnlock    // (m)

  /** The mutex, the program counters, what has been printed, and three counts a thread. */
  datatype State = State(
    lock: int, pcs: seq<Pc>, output: seq<nat>, printed: seq<nat>, sent: seq<nat>, woken: seq<nat>)

  predicate Holds(pc: Pc) {
    pc.Signal? || pc.SignalUnlock? || pc.Wait? || pc.WakeUnlock?
  }

  ghost predicate WellFormed(s: State) {
    |s.pcs| == |s.printed| == |s.sent| == |s.woken|
  }

  /** All counts zero, the threads at the given points. */
  ghost function Init(start: seq<Pc>): State {
    var zeros := seq(|start|, _ => 0);
    State(FREE, start, [], zeros, zeros, zeros)
  }

  ghost function At(s: State, t: nat, pc: Pc): State
    requires t < |s.pcs|
  {
    s.(pcs := s.pcs[t := pc])
  }

  ghost function Next(t: nat, n: nat): nat
    requires n > 0
  {
    (t + 1) % n
  }

  ghost function Wake(s: State, u: nat): State
    requires WellFormed(s) && u < |s.pcs|
  {
    s.(pcs := s.pcs[u := Awake], woken := s.woken[u := s.woken[u] + 1])
  }

  /** The state after thread t signals its successor. */
  ghost function Signalled(s: State, t: nat): State
    requires WellFormed(s) && t < |s.pcs|
  {
    var u := Next(t, |s.pcs|);
    var s1 := At(s, t, SignalUnlock).(sent := s.sent[t := s.sent[t] + 1]);
    if s.pcs[u].Asleep? then Wake(s1, u) else s1
  }

  /** One step of thread t. With `spurious` a sleeping thread may also wake by itself. */
  ghost predicate StepOf(s: State, t: nat, s': State, spurious: bool) {
    WellFormed(s) && t < |s.pcs| &&
    match s.pcs[t]
    case Print =>
      s' == At(s, t, SignalLock).(output := s.output + [t], printed := s.printed[t := s.printed[t] + 1])
    case SignalLock => s.lock == FREE && s' == At(s, t, Signal).(lock := t)
    case Signal => s' == Signalled(s, t)
    case SignalUnlock => s' == At(s, t, WaitLock).(lock := FREE)
    case WaitLock => s.lock == FREE && s' == At(s, t, Wait).(lock := t)
    case Wait => s' == At(s, t, Asleep).(lock := FREE)
    case Asleep => spurious && s' == Wake(s, t)
    case Awake => s.lock == FREE && s' == At(s, t, WakeUnlock).(lock := t)
    case WakeUnlock => s' == At(s, t, Print).(lock := FREE)
  }

  ghost predicate Step(s: State, s': State, spurious: bool) {
    exists t: nat :: StepOf(s, t, s', spurious)
  }

  ghost function Steps(spurious: bool): (State, State) -> bool {
    (s, s') => Step(s, s', spurious)
  }

  ghost predicate Reachable(s: State, start: seq<Pc>, spurious: bool) {
    Reached(s, Init(start), Steps(spurious))
  }

  lemma Extend(s: State, t: nat, s': State, start: seq<Pc>, spurious: bool)
    requires Reachable(s, start, spurious) && StepOf(s, t, s', spurious)
    ensures Reachable(s', start, spurious)
  {
    hide StepOf;
    assert Step(s, s', spurious);
    ReachedNext(s, s', Init(start), Steps(spurious));
  }

  lemma InitReachable(start: seq<Pc>, spurious: bool)
    ensures Reachable(Init(start), start, spurious)
  {
    ReachedInit(Init(start), Steps(spurious));
  }

  /** A whole turn of thread t, and of its successor's wakeup if that was asleep. */
  lemma Turn(s: State, t: nat, start: seq<Pc>) returns (s': State)
    requires Reachable(s, start, false) && WellFormed(s) && |s.pcs| > 1
    requires t < |s.pcs| && s.lock == FREE && s.pcs[t] == Print
    ensures Reachable(s', start, false) && WellFormed(s') && s'.lock == FREE
    ensures
      var u := Next(t, |s.pcs|);
      && u < |s.pcs| && s'.output == s.output + [t] && s'.printed == s.printed[t := s.printed[t] + 1]
      && s'.pcs == s.pcs[t := Asleep][u := if s.pcs[u] == Asleep then Print else s.pcs[u]]
  {
    hide Reachable;
    var u := Next(t, |s.pcs|);
    NextIs(t, |s.pcs|);
    var s1 := At(s, t, SignalLock).(output := s.output + [t], printed := s.printed[t := s.printed[t] + 1]);
    var s2 := At(s1, t, Signal).(lock := t);
    var s3 := Signalled(s2, t);
    var s4 := At(s3, t, WaitLock).(lock := FREE);
    var s5 := At(s4, t, Wait).(lock := t);
    var s6 := At(s5, t, Asleep).(lock := FREE);
    Extend(s, t, s1, start, false);
    Extend(s1, t, s2, start, false);
    Extend(s2, t, s3, start, false);
    Extend(s3, t, s4, start, false);
    Extend(s4, t, s5, start, false);
    Extend(s5, t, s6, start, false);
    s' := s6;
    if s.pcs[u] == Asleep {
      var s7 := At(s6, u, WakeUnlock).(lock := u);
      s' := At(s7, u, Print).(lock := FREE);
      Extend(s6, u, s7, start, false);
      Extend(s7, u, s', start, false);
    }
  }

  // ----- the invariant shared by both programs

  /** A thread that has printed but not yet been woken for its next turn. */
  predicate Owes(pc: Pc) {
    pc.SignalLock? || pc.Signal? || pc.SignalUnlock? || pc.WaitLock? || pc.Wait? || pc.Asleep?
  }

  /** A thread that has printed but not yet signalled. */
  predicate Unsent(pc: Pc) {
    pc.SignalLock? || pc.Signal?
  }

  /** How a thread's three counts and its point agree. A thread that starts by waiting has
      one print fewer for the same wakeups. */
  ghost predicate ThreadInv(s: State, t: nat, waitsFirst: bool)
    requires WellFormed(s) && t < |s.pcs|
  {
    && s.printed[t] + (if waitsFirst then 1 else 0) == s.woken[t] + (if Owes(s.pcs[t]) then 1 else 0)
    && s.sent[t] + (if Unsent(s.pcs[t]) then 1 else 0) == s.printed[t]
  }

  /** Every wakeup was caused by a signal of the predecessor. */
  ghost predicate WakeInv(s: State, t: nat)
    requires WellFormed(s) && t < |s.pcs|
  {
    s.woken[Next(t, |s.pcs|)] <= s.sent[t]
  }

  ghost predicate Inv(s: State, start: seq<Pc>) {
    && WellFormed(s) && |s.pcs| == |start|
    && (forall t | 0 <= t < |s.pcs| :: Holds(s.pcs[t]) <==> s.lock == t)
    && (forall t | 0 <= t < |s.pcs| :: ThreadInv(s, t, start[t].WaitLock?))
    && (forall t | 0 <= t < |s.pcs| :: WakeInv(s, t))
  }

  /** The counts of prints are the counts of lines in the output. */
  ghost predicate PrintInv(s: State) {
    forall t | 0 <= t < |s.printed| :: s.printed[t] == multiset(s.output)[t]
  }

  ghost predicate Starts(start: seq<Pc>) {
    forall t | 0 <= t < |start| :: start[t] == Print || start[t] == WaitLock
  }

  lemma InitInv(start: seq<Pc>)
    requires Starts(start)
    ensures Inv(Init(start), start) && PrintInv(Init(start))
  {
  }

  lemma PlainStepKept(s: State, t: nat, s': State, start: seq<Pc>)
    requires Inv(s, start) && StepOf(s, t, s', false) && !s.pcs[t].Signal?
    ensures Inv(s', start)
  {
    forall u | 0 <= u < |s'.pcs|
      ensures ThreadInv(s', u, start[u].WaitLock?) && WakeInv(s', u)
    {
      assert ThreadInv(s, u, start[u].WaitLock?) && WakeInv(s, u);
    }
  }

  lemma SignalKept(s: State, t: nat, start: seq<Pc>)
    requires Inv(s, start) && t < |s.pcs| && s.pcs[t].Signal?
    ensures Inv(Signalled(s, t), start)
  {
    var s' := Signalled(s, t);
    var n := |s.pcs|;
    forall u | 0 <= u < n
      ensures ThreadInv(s', u, start[u].WaitLock?)
    {
      assert ThreadInv(s, u, start[u].WaitLock?);
    }
    forall u | 0 <= u < n
      ensures WakeInv(s', u)
    {
      assert WakeInv(s, u);
      NextInjective(t, u, n);
    }
  }

  lemma NextInjective(t: nat, u: nat, n: nat)
    requires t < n && u < n
    ensures Next(t, n) < n && (Next(t, n) == Next(u, n) <==> t == u)
  {
    NextIs(t, n);
    NextIs(u, n);
  }

  lemma NextIs(t: nat, n: nat)
    requires t < n
    ensures Next(t, n) == if t + 1 == n then 0 else t + 1
  {
  }

  lemma PrintKept(s: State, t: nat, s': State, spurious: bool)
    requires PrintInv(s) && StepOf(s, t, s', spurious)
    ensures PrintInv(s')
  {
  }

  lemma StepKept(s: State, t: nat, s': State, start: seq<Pc>)
    requires Inv(s, start) && StepOf(s, t, s', false)
    ensures Inv(s', start)
  {
    if s.pcs[t].Signal? { SignalKept(s, t, start); } else { PlainStepKept(s, t, s', start); }
  }

  lemma ReachableInv(s: State, start: seq<Pc>)
    requires Reachable(s, start, false) && Starts(start)
    ensures Inv(s, start) && PrintInv(s)
  {
    hide Inv, PrintInv, StepOf;
    var inv := (s: State) => Inv(s, start) && PrintInv(s);
    InitInv(start);
    forall s, s' | inv(s) && Step(s, s', false)
      ensures inv(s')
    {
      var t: nat :| StepOf(s, t, s', false);
      StepKept(s, t, s', start);
      PrintKept(s, t, s', false);
    }
    ReachedKeeps(s, Init(start), Steps(false), inv);
  }
}

/** `produce` and `consume` over the slots, any number of threads of each kind. */
module ProducerConsumer {
  import opened Runs

  const RESOURCE_UNITS := 3

  datatype Role = Producer | Consumer

  /** Points between which another thread may run. Those marked (m) hold the resource mutex. */
  datatype Pc =
    | Lock
    | Scan(i: nat)     // (m) about to look at slot i
    | Change(i: nat)   // (m) about to fill or clear slot i
    | Signal           // (m)
    | Unlock           // (m) after a change
    | GiveUp           // (m) no slot was suitable: about to unlock and wait
    | WaitLock
    | Wait             // (m) about to sleep, releasing the mutex
    | Asleep
    | Awake
    | WakeUnlock       // (m)

  datatype State = State(filled: seq<bool>, lock: int, pcs: seq<Pc>, produced: nat, consumed: nat)

  predicate Holds(pc: Pc) {
    pc.Scan? || pc.Change? || pc.Signal? || pc.Unlock? || pc.GiveUp? || pc.Wait? || pc.WakeUnlock?
  }

  /** A producer looks for an available slot, a consumer for a filled one. */
  predicate Suits(role: Role, filled: bool) {
    filled <==> role.Consumer?
  }

  ghost function Init(threads: nat): State {
    State(seq(RESOURCE_UNITS, _ => false), FREE, seq(threads, _ => Lock), 0, 0)
  }

  ghost function At(s: State, t: nat, pc: Pc): State
    requires t < |s.pcs|
  {
    s.(pcs := s.pcs[t := pc])
  }

  /** Filling or clearing a slot, with the count that records it. */
  ghost function Changed(s: State, role: Role, i: nat): State
    requires i < |s.filled|
  {
    if role.Producer? then s.(filled := s.filled[i := true], produced := s.produced + 1)
    else s.(filled := s.filled[i := false], consumed := s.consumed + 1)
  }

  /** One step of thread t. A wait may end at any time, by a signal or spuriously. */
  ghost predicate StepOf(s: State, roles: seq<Role>, t: nat, s': State) {
    t < |s.pcs| && t < |roles| &&
    match s.pcs[t]
    case Lock => s.lock == FREE && s' == At(s, t, Scan(0)).(lock := t)
    case Scan(i) =>
      s' == At(s, t, if i >= |s.filled| then GiveUp
                     else if Suits(roles[t], s.filled[i]) then Change(i) else Scan(i + 1))
    case Change(i) => i < |s.filled| && s' == Changed(At(s, t, Signal), roles[t], i)
    case Signal => s' == At(s, t, Unlock)
    case Unlock => s' == At(s, t, Lock).(lock := FREE)
    case GiveUp => s' == At(s, t, WaitLock).(lock := FREE)
    case WaitLock => s.lock == FREE && s' == At(s, t, Wait).(lock := t)
    case Wait => s' == At(s, t, Asleep).(lock := FREE)
    case Asleep => s' == At(s, t, Awake)
    case Awake => s.lock == FREE && s' == At(s, t, WakeUnlock).(lock := t)
    case WakeUnlock => s' == At(s, t, Lock).(lock := FREE)
  }

  ghost predicate Step(s: State, roles: seq<Role>, s': State) {
    exists t: nat :: StepOf(s, roles, t, s')
  }

  ghost function Steps(roles: seq<Role>): (State, State) -> bool {
    (s, s') => Step(s, roles, s')
  }

  ghost predicate Reachable(s: State, roles: seq<Role>) {
    Reached(s, Init(|roles|), Steps(roles))
  }

  function Filled(filled: seq<bool>): nat {
    if filled == [] then 0 else Filled(filled[..|filled| - 1]) + (if filled[|filled| - 1] then 1 else 0)
  }

  lemma {:induction false} FilledUpdate(filled: seq<bool>, i: nat, f: bool)
    requires i < |filled|
    ensures Filled(filled[i := f]) == Filled(filled) - (if filled[i] then 1 else 0) + (if f then 1 else 0)
  {
    var n := |filled| - 1;
    if i == n {
      assert filled[i := f][..n] == filled[..n];
    } else {
      FilledUpdate(filled[..n], i, f);
      assert filled[i := f][..n] == filled[..n][i := f];
    }
  }

  lemma {:induction false} FilledAtMost(filled: seq<bool>)
    ensures Filled(filled) <= |filled|
  {
    if filled != [] { FilledAtMost(filled[..|filled| - 1]); }
  }

  lemma {:induction false} AllFilled(filled: seq<bool>)
    ensures Filled(filled) == |filled| <==> false !in filled
  {
    if filled != [] {
      var n := |filled| - 1;
      FilledAtMost(filled[..n]);
      AllFilled(filled[..n]);
      assert filled == filled[..n] + [filled[n]];
    }
  }

  lemma {:induction false} NoneFilled(filled: seq<bool>)
    ensures Filled(filled) == 0 <==> true !in filled
  {
    if filled != [] {
      var n := |filled| - 1;
      NoneFilled(filled[..n]);
      assert filled == filled[..n] + [filled[n]];
    }
  }

  lemma FilledBounds(filled: seq<bool>)
    ensures Filled(filled) <= |filled|
    ensures Filled(filled) == |filled| <==> false !in filled
    ensures Filled(filled) == 0 <==> true !in filled
  {
    hide Filled;
    FilledAtMost(filled);
    AllFilled(filled);
    NoneFilled(filled);
  }

  /** What the thread at each point knows of the slots. */
  ghost predicate Knows(pc: Pc, role: Role, filled: seq<bool>) {
    match pc
    case Scan(i) => i <= |filled| && forall k | 0 <= k < i :: !Suits(role, filled[k])
    case Change(i) => i < |filled| && Suits(role, filled[i])
    case GiveUp => forall k | 0 <= k < |filled| :: !Suits(role, filled[k])
    case _ => true
  }

  /** The mutex excludes: its owner is the one thread at a point that holds it. */
  ghost predicate MutexInv(s: State) {
    && (s.lock == FREE || 0 <= s.lock < |s.pcs|)
    && forall t | 0 <= t < |s.pcs| :: Holds(s.pcs[t]) <==> s.lock == t
  }

  ghost predicate SlotInv(s: State, roles: seq<Role>)
    requires |s.pcs| == |roles|
  {
    |s.filled| == RESOURCE_UNITS && forall t | 0 <= t < |s.pcs| :: Knows(s.pcs[t], roles[t], s.filled)
  }

  ghost predicate CountInv(s: State, roles: seq<Role>) {
    && s.produced == s.consumed + Filled(s.filled)
    && (s.produced > 0 ==> Producer in roles) && (s.consumed > 0 ==> Consumer in roles)
  }

  ghost predicate Inv(s: State, roles: seq<Role>) {
    |s.pcs| == |roles| && MutexInv(s) && SlotInv(s, roles) && CountInv(s, roles)
  }

  lemma InitInv(roles: seq<Role>)
    ensures Inv(Init(|roles|), roles)
  {
    FilledBounds(Init(|roles|).filled);
  }

  lemma MutexKept(s: State, roles: seq<Role>, t: nat, s': State)
    requires MutexInv(s) && StepOf(s, roles, t, s')
    ensures |s'.pcs| == |s.pcs| && MutexInv(s')
  {
  }

  lemma SlotsKept(s: State, roles: seq<Role>, t: nat, s': State)
    requires |s.pcs| == |s'.pcs| == |roles| && MutexInv(s) && SlotInv(s, roles) && StepOf(s, roles, t, s')
    ensures SlotInv(s', roles)
  {
  }

  lemma CountsKept(s: State, roles: seq<Role>, t: nat, s': State)
    requires |s.pcs| == |roles| && SlotInv(s, roles) && CountInv(s, roles) && StepOf(s, roles, t, s')
    ensures CountInv(s', roles)
  {
    assert roles[t] in roles;
    if s.pcs[t].Change? {
      assert Knows(s.pcs[t], roles[t], s.filled);
      FilledUpdate(s.filled, s.pcs[t].i, roles[t].Producer?);
    }
  }

  lemma StepKept(s: State, roles: seq<Role>, t: nat, s': State)
    requires Inv(s, roles) && StepOf(s, roles, t, s')
    ensures Inv(s', roles)
  {
    hide StepOf, MutexInv, SlotInv, CountInv;
    MutexKept(s, roles, t, s');
    SlotsKept(s, roles, t, s');
    CountsKept(s, roles, t, s');
  }

  lemma ReachableInv(s: State, roles: seq<Role>)
    requires Reachable(s, roles)
    ensures Inv(s, roles)
  {
    hide StepOf, Inv;
    var inv := (s: State) => Inv(s, roles);
    InitInv(roles);
    forall s, s' | inv(s) && Step(s, roles, s')
      ensures inv(s')
    {
      var t: nat :| StepOf(s, roles, t, s');
      StepKept(s, roles, t, s');
    }
    ReachedKeeps(s, Init(|roles|), Steps(roles), inv);
  }

  /** Conservation: what was produced and not consumed is in the slots, so the difference
      stays between zero and their number. */
  lemma Conservation(s: State, roles: seq<Role>)
    requires Reachable(s, roles)
    ensures s.produced - s.consumed == Filled(s.filled)
    ensures 0 <= s.produced - s.consumed <= 3
  {
    ReachableInv(s, roles);
    FilledBounds(s.filled);
  }

  /** A producer gives up only while every slot is filled, a consumer only while none is. */
  lemma GiveUpJustified(s: State, roles: seq<Role>, t: nat)
    requires Reachable(s, roles) && t < |s.pcs| && t < |roles| && s.pcs[t].GiveUp?
    ensures s.produced - s.consumed == if roles[t].Producer? then 3 else 0
  {
    ReachableInv(s, roles);
    assert Knows(s.pcs[t], roles[t], s.filled);
    FilledBounds(s.filled);
  }

  // ----- what a thread does by its own steps

  ghost function StepsOf(roles: seq<Role>, t: nat): (State, State) -> bool {
    (s, s') => StepOf(s, roles, t, s')
  }

  /** Steps of thread t alone lead from one state to the other. */
  ghost predicate Alone(s: State, roles: seq<Role>, t: nat, s': State) {
    Reached(s', s, StepsOf(roles, t))
  }

  lemma AloneHere(s: State, roles: seq<Role>, t: nat)
    ensures Alone(s, roles, t, s)
  {
    ReachedInit(s, StepsOf(roles, t));
  }

  lemma AloneStep(s: State, roles: seq<Role>, t: nat, first: State, s': State)
    requires StepOf(s, roles, t, first) && Alone(first, roles, t, s')
    ensures Alone(s, roles, t, s')
  {
    hide StepOf;
    ReachedFirst(s', first, s, StepsOf(roles, t));
  }

  /** Steps of any threads lead from one state to the other. */
  ghost predicate Leads(s: State, roles: seq<Role>, s': State) {
    Reached(s', s, Steps(roles))
  }

  lemma AloneLeads(s: State, roles: seq<Role>, t: nat, s': State)
    requires Alone(s, roles, t, s')
    ensures Leads(s, roles, s')
  {
    hide StepOf;
    ReachedInit(s, Steps(roles));
    forall a, b | StepsOf(roles, t)(a, b)
      ensures Steps(roles)(a, b)
    {
      assert StepOf(a, roles, t, b);
    }
    ReachedOn(s', s, s, Steps(roles), StepsOf(roles, t));
  }

  lemma LeadsOn(s: State, roles: seq<Role>, middle: State, s': State)
    requires Leads(s, roles, middle) && Leads(middle, roles, s')
    ensures Leads(s, roles, s')
  {
    hide StepOf;
    ReachedOn(s', middle, s, Steps(roles), Steps(roles));
  }

  lemma ReachableOn(s: State, roles: seq<Role>, s': State)
    requires Reachable(s, roles) && Leads(s, roles, s')
    ensures Reachable(s', roles)
  {
    hide StepOf;
    ReachedOn(s', s, Init(|roles|), Steps(roles), Steps(roles));
  }

  /** The scan passes the slots that do not suit. */
  lemma {:induction false} ScanPasses(s: State, roles: seq<Role>, t: nat, k: nat, s': State)
    requires t < |s.pcs| && t < |roles| && s.pcs[t].Scan? && s.pcs[t].i <= k <= |s.filled|
    requires forall j | s.pcs[t].i <= j < k :: !Suits(roles[t], s.filled[j])
    requires Alone(At(s, t, Scan(k)), roles, t, s')
    ensures Alone(s, roles, t, s')
    decreases k - s.pcs[t].i
  {
    hide Alone;
    if s.pcs[t].i == k {
      assert At(s, t, Scan(k)) == s;
    } else {
      var first := At(s, t, Scan(s.pcs[t].i + 1));
      assert At(first, t, Scan(k)) == At(s, t, Scan(k));
      ScanPasses(first, roles, t, k, s');
      AloneStep(s, roles, t, first, s');
    }
  }

  /** A turn from the lock to the unlock: the lowest slot that suits is changed, and nothing else. */
  lemma Turn(s: State, roles: seq<Role>, t: nat, k: nat)
    requires t < |s.pcs| && t < |roles| && s.pcs[t] == Lock && s.lock == FREE
    requires k < |s.filled| && Suits(roles[t], s.filled[k])
    requires forall j | 0 <= j < k :: !Suits(roles[t], s.filled[j])
    ensures Alone(s, roles, t, Changed(s, roles[t], k))
  {
    hide Alone;
    var s1 := At(s, t, Scan(0)).(lock := t);
    var s2 := At(s1, t, Scan(k));
    var s3 := At(s1, t, Change(k));
    var s4 := Changed(At(s1, t, Signal), roles[t], k);
    var s5 := At(s4, t, Unlock);
    var s' := Changed(s, roles[t], k);
    assert At(s5, t, Lock).(lock := FREE) == s';
    AloneHere(s', roles, t);
    AloneStep(s5, roles, t, s', s');
    AloneStep(s4, roles, t, s5, s');
    AloneStep(s3, roles, t, s4, s');
    AloneStep(s2, roles, t, s3, s');
    ScanPasses(s1, roles, t, k, s');
    AloneStep(s, roles, t, s1, s');
  }

  /** An undisturbed turn of a producer fills exactly the lowest slot that is not filled. */
  lemma ProducerTurn(s: State, roles: seq<Role>, t: nat, k: nat)
    requires t < |s.pcs| && t < |roles| && roles[t] == Producer && s.pcs[t] == Lock && s.lock == FREE
    requires k < |s.filled| && !s.filled[k] && forall j | 0 <= j < k :: s.filled[j]
    ensures Alone(s, roles, t, s.(filled := s.filled[k := true], produced := s.produced + 1))
  {
    Turn(s, roles, t, k);
  }

  /** An undisturbed turn of a consumer clears exactly the lowest slot that is filled. */
  lemma ConsumerTurn(s: State, roles: seq<Role>, t: nat, k: nat)
    requires t < |s.pcs| && t < |roles| && roles[t] == Consumer && s.pcs[t] == Lock && s.lock == FREE
    requires k < |s.filled| && s.filled[k] && forall j | 0 <= j < k :: !s.filled[j]
    ensures Alone(s, roles, t, s.(filled := s.filled[k := false], consumed := s.consumed + 1))
  {
    Turn(s, roles, t, k);
  }

  /** Without a slot that suits, the turn ends in sleep, with nothing changed and the mutex free. */
  lemma IdleTurn(s: State, roles: seq<Role>, t: nat)
    requires t < |s.pcs| && t < |roles| && s.pcs[t] == Lock && s.lock == FREE
    requires forall j | 0 <= j < |s.filled| :: s.filled[j] == roles[t].Producer?
    ensures Alone(s, roles, t, s.(pcs := s.pcs[t := Asleep]))
  {
    hide Alone;
    var s1 := At(s, t, Scan(0)).(lock := t);
    var s2 := At(s1, t, Scan(|s.filled|));
    var s3 := At(s1, t, GiveUp);
    var s4 := At(s, t, WaitLock);
    var s5 := At(s1, t, Wait);
    var s' := At(s, t, Asleep);
    AloneHere(s', roles, t);
    AloneStep(s5, roles, t, s', s');
    AloneStep(s4, roles, t, s5, s');
    AloneStep(s3, roles, t, s4, s');
    AloneStep(s2, roles, t, s3, s');
    ScanPasses(s1, roles, t, |s.filled|, s');
    AloneStep(s, roles, t, s1, s');
  }

  // ----- exactly which counts are possible

  /** The lowest slot with a given content. */
  lemma {:induction false} Lowest(filled: seq<bool>, f: bool) returns (k: nat)
    requires f in filled
    ensures k < |filled| && filled[k] == f && forall j | 0 <= j < k :: filled[j] != f
  {
    if filled[0] == f {
      k := 0;
    } else {
      assert filled == [filled[0]] + filled[1..];
      k := Lowest(filled[1..], f);
      k := k + 1;
    }
  }

  /** No thread has begun a turn. */
  ghost predicate AtRest(s: State, roles: seq<Role>) {
    s.lock == FREE && |s.pcs| == |roles| && forall t | 0 <= t < |s.pcs| :: s.pcs[t] == Lock
  }

  /** One more production or consumption, from rest to rest. */
  lemma OneMore(s: State, roles: seq<Role>, role: Role) returns (s': State)
    requires Reachable(s, roles) && AtRest(s, roles) && role in roles
    requires if role.Producer? then s.produced < s.consumed + RESOURCE_UNITS else s.consumed < s.produced
    ensures Reachable(s', roles) && AtRest(s', roles)
    ensures s'.produced == s.produced + (if role.Producer? then 1 else 0)
    ensures s'.consumed == s.consumed + (if role.Consumer? then 1 else 0)
  {
    hide Leads, Alone, Reachable, Filled, StepOf;
    ReachableInv(s, roles);
    FilledBounds(s.filled);
    var t :| 0 <= t < |roles| && roles[t] == role;
    var k := Lowest(s.filled, role.Consumer?);
    Turn(s, roles, t, k);
    s' := Changed(s, role, k);
    AloneLeads(s, roles, t, s');
    ReachableOn(s, roles, s');
  }

  lemma {:induction false} CountsReached(roles: seq<Role>, p: nat, c: nat) returns (s: State)
    requires 0 <= p - c <= RESOURCE_UNITS && (p > 0 ==> Producer in roles) && (c > 0 ==> Consumer in roles)
    ensures Reachable(s, roles) && AtRest(s, roles) && s.produced == p && s.consumed == c
    decreases p + c
  {
    hide Reachable;
    if p == 0 {
      s := Init(|roles|);
      InitReachable(roles);
    } else if p == c {
      s := CountsReached(roles, p, c - 1);
      s := OneMore(s, roles, Consumer);
    } else {
      s := CountsReached(roles, p - 1, c);
      s := OneMore(s, roles, Producer);
    }
  }

  lemma InitReachable(roles: seq<Role>)
    ensures Reachable(Init(|roles|), roles)
  {
    ReachedInit(Init(|roles|), Steps(roles));
  }

  /** So many productions and consumptions happen in some run exactly when they differ by no more
      than the three slots allow and there are threads for them. */
  lemma CountsIff(roles: seq<Role>, p: nat, c: nat)
    ensures (exists s :: Reachable(s, roles) && s.produced == p && s.consumed == c)
            <==> 0 <= p - c <= 3 && (p > 0 ==> Producer in roles) && (c > 0 ==> Consumer in roles)
  {
    hide Reachable;
    if 0 <= p - c <= 3 && (p > 0 ==> Producer in roles) && (c > 0 ==> Consumer in roles) {
      var s := CountsReached(roles, p, c);
    }
    forall s | Reachable(s, roles)
      ensures 0 <= s.produced - s.consumed <= 3
      ensures (s.produced > 0 ==> Producer in roles) && (s.consumed > 0 ==> Consumer in roles)
    {
      ReachableInv(s, roles);
      FilledBounds(s.filled);
    }
  }

  // ----- no thread is shut out

  /** How many steps a thread is from the lock, with room for the slots it may still look at. */
  function Left(pc: Pc, slots: nat): nat {
    match pc
    case Lock => 0
    case WakeUnlock => 1
    case Awake => 2
    case Asleep => 3
    case Wait => 4
    case WaitLock => 5
    case GiveUp => 6
    case Unlock => 1
    case Signal => 2
    case Change(_) => 3
    case Scan(i) => if i < slots then 7 + slots - i else 7
  }

  /** A thread that holds the mutex, or finds it free, gets back to the lock by its own steps,
      and leaves the mutex free. */
  lemma {:induction false} BackToLock(s: State, roles: seq<Role>, t: nat) returns (s': State)
    requires t < |s.pcs| && t < |roles| && s.lock == (if Holds(s.pcs[t]) then t else FREE)
    requires Knows(s.pcs[t], roles[t], s.filled)
    ensures Alone(s, roles, t, s') && s'.lock == FREE && |s'.pcs| == |s.pcs| && s'.pcs[t] == Lock
    decreases Left(s.pcs[t], |s.filled|)
  {
    hide Alone;
    s' := s;
    AloneHere(s, roles, t);
    if s.pcs[t] != Lock {
      var first := match s.pcs[t]
        case Lock => s
        case Scan(i) =>
          At(s, t, if i >= |s.filled| then GiveUp else if Suits(roles[t], s.filled[i]) then Change(i) else Scan(i + 1))
        case Change(i) => Changed(At(s, t, Signal), roles[t], i)
        case Signal => At(s, t, Unlock)
        case Unlock => At(s, t, Lock).(lock := FREE)
        case GiveUp => At(s, t, WaitLock).(lock := FREE)
        case WaitLock => At(s, t, Wait).(lock := t)
        case Wait => At(s, t, Asleep).(lock := FREE)
        case Asleep => At(s, t, Awake)
        case Awake => At(s, t, WakeUnlock).(lock := t)
        case WakeUnlock => At(s, t, Lock).(lock := FREE);
      assert StepOf(s, roles, t, first);
      s' := BackToLock(first, roles, t);
      AloneStep(s, roles, t, first, s');
    }
  }

  /** Whatever has happened, every thread can still get to the start of its loop and find the mutex
      free, as wakeups may come at any time. */
  lemma NeverShutOut(s: State, roles: seq<Role>, t: nat) returns (s': State)
    requires Reachable(s, roles) && t < |roles|
    ensures Leads(s, roles, s') && Reachable(s', roles)
    ensures s'.lock == FREE && |s'.pcs| == |roles| && s'.pcs[t] == Lock
  {
    hide Leads, Alone, Reachable, StepOf, Knows;
    ReachableInv(s, roles);
    var h := if s.lock == FREE then t else s.lock;
    var middle := BackToLock(s, roles, h);
    AloneLeads(s, roles, h, middle);
    ReachableOn(s, roles, middle);
    ReachableInv(middle, roles);
    s' := BackToLock(middle, roles, t);
    AloneLeads(middle, roles, t, s');
    LeadsOn(s, roles, middle, s');
    ReachableOn(s, roles, s');
  }
}

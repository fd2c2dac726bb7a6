/** The two threads of `Alternation.c`: one starts by printing, the other by waiting. */
module Alternation {
  import opened CondRing
  import opened Runs

  ghost const START: seq<Pc> := [Print, WaitLock]

  ghost predicate Alternating(output: seq<nat>) {
    forall k | 0 <= k < |output| :: output[k] == k % 2
  }

  ghost predicate OutputInv(s: State)
    requires WellFormed(s) && |s.pcs| == 2
  {
    && Alternating(s.output) && |s.output| == s.printed[0] + s.printed[1]
    && s.printed[1] <= s.printed[0] <= s.printed[1] + 1
  }

  lemma Bounds(s: State)
    requires Inv(s, START)
    ensures s.printed[0] <= s.printed[1] + 1 && s.printed[1] <= s.printed[0]
    ensures s.pcs[0].Print? ==> s.printed[0] <= s.printed[1]
    ensures s.pcs[1].Print? ==> s.printed[1] < s.printed[0]
  {
    assert ThreadInv(s, 0, START[0].WaitLock?) && ThreadInv(s, 1, START[1].WaitLock?);
    assert WakeInv(s, 0) && WakeInv(s, 1);
  }

  lemma OutputKept(s: State, t: nat, s': State)
    requires Inv(s, START) && OutputInv(s) && StepOf(s, t, s', false) && Inv(s', START)
    ensures OutputInv(s')
  {
    Bounds(s);
    Bounds(s');
  }

  lemma StartAlternates()
    ensures |Init(START).pcs| == 2 && OutputInv(Init(START))
  {
  }

  /** Without spurious wakeups the output of every run is a prefix of 0, 1, 0, 1, ... */
  lemma StrictAlternation(s: State)
    requires Reachable(s, START, false)
    ensures forall k | 0 <= k < |s.output| :: s.output[k] == k % 2
  {
    hide StepOf, ThreadInv, WakeInv;
    var inv := (s: State) => Inv(s, START) && OutputInv(s);
    InitInv(START);
    StartAlternates();
    forall s, s' | inv(s) && Step(s, s', false)
      ensures inv(s')
    {
      var t: nat :| StepOf(s, t, s', false);
      StepKept(s, t, s', START);
      OutputKept(s, t, s');
    }
    ReachedKeeps(s, Init(START), Steps(false), inv);
  }

  /** Thread 0 prints, signals and falls asleep before thread 1 has started to wait. */
  lemma FirstRound(spurious: bool) returns (s: State)
    ensures Reachable(s, START, spurious)
    ensures s == State(FREE, [Asleep, WaitLock], [0], [1, 0], [1, 0], [0, 0])
  {
    hide Reachable;
    InitReachable(START, spurious);
    var s0 := Init(START);
    var s1 := State(FREE, [SignalLock, WaitLock], [0], [1, 0], [0, 0], [0, 0]);
    var s2 := State(0, [Signal, WaitLock], [0], [1, 0], [0, 0], [0, 0]);
    var s3 := State(0, [SignalUnlock, WaitLock], [0], [1, 0], [1, 0], [0, 0]);
    var s4 := State(FREE, [WaitLock, WaitLock], [0], [1, 0], [1, 0], [0, 0]);
    var s5 := State(0, [Wait, WaitLock], [0], [1, 0], [1, 0], [0, 0]);
    s := State(FREE, [Asleep, WaitLock], [0], [1, 0], [1, 0], [0, 0]);
    Extend(s0, 0, s1, START, spurious);
    Extend(s1, 0, s2, START, spurious);
    Extend(s2, 0, s3, START, spurious);
    Extend(s3, 0, s4, START, spurious);
    Extend(s4, 0, s5, START, spurious);
    Extend(s5, 0, s, START, spurious);
  }

  /** A spurious wakeup breaks the alternation: thread 0 can print twice in a row. */
  lemma SpuriousBreaks() returns (s: State)
    ensures Reachable(s, START, true) && s.output == [0, 0] && !Alternating(s.output)
  {
    hide Reachable;
    var s0 := FirstRound(true);
    var s1 := State(FREE, [Awake, WaitLock], [0], [1, 0], [1, 0], [1, 0]);
    var s2 := State(0, [WakeUnlock, WaitLock], [0], [1, 0], [1, 0], [1, 0]);
    var s3 := State(FREE, [Print, WaitLock], [0], [1, 0], [1, 0], [1, 0]);
    s := State(FREE, [SignalLock, WaitLock], [0, 0], [2, 0], [1, 0], [1, 0]);
    Extend(s0, 0, s1, START, true);
    Extend(s1, 0, s2, START, true);
    Extend(s2, 0, s3, START, true);
    Extend(s3, 0, s, START, true);
    assert s.output[1] != 1 % 2;
  }

  /** The alternation holds in every run exactly when wakeups are never spurious. */
  lemma AlternationIff(spurious: bool)
    ensures (forall s | Reachable(s, START, spurious) :: Alternating(s.output)) <==> !spurious
  {
    if spurious {
      var s := SpuriousBreaks();
    } else {
      forall s | Reachable(s, START, false)
        ensures Alternating(s.output)
      {
        StrictAlternation(s);
      }
    }
  }

  /** After so many lines the thread whose turn it is prints next, and the other is asleep. */
  lemma {:induction false} LinesPrinted(n: nat) returns (s: State)
    ensures Reachable(s, START, false) && WellFormed(s) && s.lock == FREE
    ensures Alternating(s.output) && |s.output| == n
    ensures s.pcs == if n % 2 == 0 then [Print, Asleep] else [Asleep, Print]
  {
    hide Reachable;
    if n == 0 {
      InitReachable(START, false);
      var s1 := Init(START).(lock := 1, pcs := [Print, Wait]);
      s := Init(START).(pcs := [Print, Asleep]);
      Extend(Init(START), 1, s1, START, false);
      Extend(s1, 1, s, START, false);
    } else {
      var t := (n - 1) % 2;
      var before := LinesPrinted(n - 1);
      NextIs(t, 2);
      s := Turn(before, t, START);
    }
  }

  /** Without spurious wakeups the outputs of the runs are exactly the prefixes of 0, 1, 0, 1, ... */
  lemma OutputsIff(output: seq<nat>)
    ensures (exists s :: Reachable(s, START, false) && s.output == output) <==>
      forall k | 0 <= k < |output| :: output[k] == k % 2
  {
    hide Reachable;
    if Alternating(output) {
      var s := LinesPrinted(|output|);
      assert s.output == output;
    }
    forall s | Reachable(s, START, false)
      ensures Alternating(s.output)
    {
      StrictAlternation(s);
    }
  }

  /** Safety is all there is: thread 0's first signal may come before thread 1 waits, and
      then both sleep for ever. */
  lemma SignalCanBeLost() returns (s: State)
    ensures Reachable(s, START, false)
    ensures forall t: nat, s' :: !StepOf(s, t, s', false)
  {
    hide Reachable;
    var s0 := FirstRound(false);
    var s1 := State(1, [Asleep, Wait], [0], [1, 0], [1, 0], [0, 0]);
    s := State(FREE, [Asleep, Asleep], [0], [1, 0], [1, 0], [0, 0]);
    Extend(s0, 1, s1, START, false);
    Extend(s1, 1, s, START, false);
  }
}

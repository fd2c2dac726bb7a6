/** The ring of `sequence.c`: every thread starts by printing. */
module Ring {
  import opened CondRing
  import opened Runs

  ghost function Start(threads: nat): seq<Pc> {
    seq(threads, _ => Print)
  }

  /** (i - j) mod N: how many signals it takes to get from thread j round to thread i. */
  function Distance(j: nat, i: nat, threads: nat): nat
    requires j < threads && i < threads
  {
    if i >= j then i - j else i + threads - j
  }

  /** A thread is at most one print ahead of its predecessor: it printed at most once since
      it was last woken, and every wakeup followed a print of the predecessor. */
  lemma OneAhead(s: State, threads: nat, t: nat)
    requires Inv(s, Start(threads)) && t < threads
    ensures Next(t, threads) < threads && s.printed[Next(t, threads)] <= s.printed[t] + 1
  {
    var u, start := Next(t, threads), Start(threads);
    NextIs(t, threads);
    assert ThreadInv(s, u, start[u].WaitLock?) && ThreadInv(s, t, start[t].WaitLock?) && WakeInv(s, t);
  }

  lemma {:induction false} Ahead(s: State, threads: nat, i: nat, j: nat)
    requires Inv(s, Start(threads)) && i < threads && j < threads
    ensures s.printed[i] <= s.printed[j] + Distance(j, i, threads)
    decreases Distance(j, i, threads)
  {
    if i != j {
      var p := if i == 0 then threads - 1 else i - 1;
      Ahead(s, threads, p, j);
      NextIs(p, threads);
      OneAhead(s, threads, p);
    }
  }

  /** In every reachable state thread i has printed at most (i - j) mod N times more than
      thread j, hence at most N - 1 times more, although signals may be lost. */
  lemma Drift(s: State, threads: nat, i: nat, j: nat)
    requires Reachable(s, Start(threads), false) && i < threads && j < threads
    ensures |s.printed| == threads
    ensures s.printed[i] == multiset(s.output)[i] && s.printed[j] == multiset(s.output)[j]
    ensures s.printed[i] <= s.printed[j] + Distance(j, i, threads)
    ensures s.printed[i] <= s.printed[j] + (threads - 1)
  {
    ReachableInv(s, Start(threads));
    Ahead(s, threads, i, j);
  }

  // ----- the bound is attained

  /** The thread at a distance from thread j. */
  function ThreadAt(j: nat, l: nat, threads: nat): (t: nat)
    requires j < threads && l < threads
    ensures t < threads && Distance(j, t, threads) == l
  {
    if j + l < threads then j + l else j + l - threads
  }

  lemma NextDistance(j: nat, t: nat, threads: nat)
    requires j < threads && t < threads
    ensures
      var l := Distance(j, t, threads);
      Next(t, threads) < threads &&
      Distance(j, Next(t, threads), threads) == if l + 1 == threads then 0 else l + 1
  {
    NextIs(t, threads);
  }

  /** The state of a thread at distance l from thread j in stage k, when the threads at distances
      k to m - 1 have had their turn of it. */
  ghost predicate Placed(pc: Pc, printed: nat, l: nat, d: nat, k: nat, m: nat) {
    if l < k || d < l then pc == Print && printed == 0
    else if l < m then pc == Asleep && printed == l - k + 1
    else pc == (if l == m then Print else Asleep) && printed == l - k
  }

  ghost predicate Stage(s: State, threads: nat, j: nat, d: nat, k: nat, m: nat)
    requires j < threads
  {
    && WellFormed(s) && |s.pcs| == threads && s.lock == FREE
    && forall t | 0 <= t < threads :: Placed(s.pcs[t], s.printed[t], Distance(j, t, threads), d, k, m)
  }

  /** The next thread's turn. */
  lemma StageStep(s: State, threads: nat, j: nat, d: nat, k: nat, m: nat) returns (s': State)
    requires j < threads && 1 <= k <= m <= d < threads
    requires Reachable(s, Start(threads), false) && Stage(s, threads, j, d, k, m)
    ensures Reachable(s', Start(threads), false) && Stage(s', threads, j, d, k, m + 1)
  {
    hide Reachable, Next;
    var t := ThreadAt(j, m, threads);
    s' := Turn(s, t, Start(threads));
    NextDistance(j, t, threads);
    forall v | 0 <= v < threads
      ensures Placed(s'.pcs[v], s'.printed[v], Distance(j, v, threads), d, k, m + 1)
    {
      assert Placed(s.pcs[v], s.printed[v], Distance(j, v, threads), d, k, m);
    }
  }

  /** Stage k begins where stage k + 1 has ended. */
  lemma {:induction false} StageReached(threads: nat, j: nat, d: nat, k: nat, m: nat) returns (s: State)
    requires j < threads && 1 <= k <= m <= d + 1 && k <= d < threads
    ensures Reachable(s, Start(threads), false) && Stage(s, threads, j, d, k, m)
    decreases d - k, m
  {
    if k < m {
      s := StageReached(threads, j, d, k, m - 1);
      s := StageStep(s, threads, j, d, k, m - 1);
    } else if k < d {
      s := StageReached(threads, j, d, k + 1, d + 1);
    } else {
      s := Init(Start(threads));
      InitReachable(Start(threads), false);
    }
  }

  /** However far thread i is from thread j, it can get that far ahead: no smaller bound holds. */
  lemma DriftAttained(threads: nat, i: nat, j: nat) returns (s: State)
    requires i < threads && j < threads
    ensures Reachable(s, Start(threads), false) && |s.printed| == threads
    ensures s.printed[i] == s.printed[j] + Distance(j, i, threads)
  {
    if i == j {
      s := Init(Start(threads));
      InitReachable(Start(threads), false);
    } else {
      var d := Distance(j, i, threads);
      s := StageReached(threads, j, d, 1, d + 1);
      assert Placed(s.pcs[i], s.printed[i], d, d, 1, d + 1);
      assert Placed(s.pcs[j], s.printed[j], Distance(j, j, threads), d, 1, d + 1);
    }
  }

  // ----- spurious wakeups

  /** Thread 0 has printed k times and is about to print again; the others have not run. */
  ghost function Alone(k: nat, threads: nat): State
    requires threads > 0
  {
    var counts := seq(threads, i => if i == 0 then k else 0);
    State(FREE, Start(threads), seq(k, _ => 0), counts, counts, counts)
  }

  /** One turn of thread 0, ended by a spurious wakeup: its signal finds no one asleep. */
  lemma RoundAlone(k: nat, threads: nat)
    requires threads > 1 && Reachable(Alone(k, threads), Start(threads), true)
    ensures Reachable(Alone(k + 1, threads), Start(threads), true)
  {
    hide Reachable;
    var start, s := Start(threads), Alone(k, threads);
    var s1 := At(s, 0, SignalLock).(output := s.output + [0], printed := s.printed[0 := k + 1]);
    var s2 := At(s1, 0, Signal).(lock := 0);
    var s3 := At(s2, 0, SignalUnlock).(sent := s.sent[0 := k + 1]);
    var s4 := At(s3, 0, WaitLock).(lock := FREE);
    var s5 := At(s4, 0, Wait).(lock := 0);
    var s6 := At(s5, 0, Asleep).(lock := FREE);
    var s7 := Wake(s6, 0);
    var s8 := At(s7, 0, WakeUnlock).(lock := 0);
    var s9 := At(s8, 0, Print).(lock := FREE);
    NextIs(0, threads);
    Extend(s, 0, s1, start, true);
    Extend(s1, 0, s2, start, true);
    Extend(s2, 0, s3, start, true);
    Extend(s3, 0, s4, start, true);
    Extend(s4, 0, s5, start, true);
    Extend(s5, 0, s6, start, true);
    Extend(s6, 0, s7, start, true);
    Extend(s7, 0, s8, start, true);
    Extend(s8, 0, s9, start, true);
    assert s9 == Alone(k + 1, threads);
  }

  lemma {:induction false} AloneReachable(k: nat, threads: nat)
    requires threads > 1
    ensures Reachable(Alone(k, threads), Start(threads), true)
  {
    if k == 0 {
      assert Alone(0, threads) == Init(Start(threads));
      InitReachable(Start(threads), true);
    } else {
      AloneReachable(k - 1, threads);
      RoundAlone(k - 1, threads);
    }
  }

  ghost predicate DriftBounded(s: State, threads: nat) {
    |s.printed| == threads &&
    forall i, j | 0 <= i < threads && 0 <= j < threads :: s.printed[i] <= s.printed[j] + Distance(j, i, threads)
  }

  /** The bound on the drift holds in every reachable state exactly when no wakeup is spurious;
      with spurious wakeups there is no bound at all. */
  lemma DriftIff(threads: nat, spurious: bool)
    requires threads > 1
    ensures (forall s | Reachable(s, Start(threads), spurious) :: DriftBounded(s, threads)) <==> !spurious
  {
    if spurious {
      var s := Alone(threads, threads);
      AloneReachable(threads, threads);
      assert s.printed[0] > s.printed[1] + Distance(1, 0, threads);
    } else {
      forall s | Reachable(s, Start(threads), false)
        ensures DriftBounded(s, threads)
      {
        ReachableInv(s, Start(threads));
        forall i, j | 0 <= i < threads && 0 <= j < threads
          ensures s.printed[i] <= s.printed[j] + Distance(j, i, threads)
        {
          Drift(s, threads, i, j);
        }
      }
    }
  }
}

/** The pool of blocked threads: a fixed array of slots, scanned linearly. */
module BlockedPool {

  datatype Slot = Empty | Held(thread: nat)

  /** Result code of the pool operations that fail. */
  const FAILURE := -1

  // ----- what the scans compute

  /** The lowest index below n holding the thread. */
  ghost predicate IsIndexOf(slots: seq<Slot>, thread: nat, i: int) {
    if i == FAILURE then Held(thread) !in slots
    else 0 <= i < |slots| && slots[i] == Held(thread) && Held(thread) !in slots[..i]
  }

  /** The highest index of an empty slot. */
  ghost predicate IsEmptySlot(slots: seq<Slot>, i: int) {
    if i == FAILURE then Empty !in slots
    else 0 <= i < |slots| && slots[i] == Empty && Empty !in slots[i + 1..]
  }

  /** The thread in the highest occupied slot. */
  ghost predicate IsBlockedThread(slots: seq<Slot>, found: Slot) {
    if found == Empty then forall k | 0 <= k < |slots| :: slots[k] == Empty
    else exists i | 0 <= i < |slots| :: slots[i] == found && forall k | i < k < |slots| :: slots[k] == Empty
  }

  /** No thread twice. */
  ghost predicate Distinct(slots: seq<Slot>) {
    forall i, j | 0 <= i < j < |slots| && slots[i].Held? :: slots[i] != slots[j]
  }

  /** What putting a thread into the pool does: a failure changes nothing; otherwise exactly the
      highest empty slot is filled. The size test is on unsigned numbers, so it never fails a
      pool of size zero. */
  ghost predicate PutIn(before: seq<Slot>, after: seq<Slot>, thread: nat, rc: int) {
    if (0 < |before| <= thread) || Empty !in before
    then rc == FAILURE && after == before
    else IsEmptySlot(before, rc) && rc != FAILURE && after == before[rc := Held(thread)]
  }

  /** What adding a thread does: one that is there is refused. */
  ghost predicate Added(before: seq<Slot>, after: seq<Slot>, thread: nat, rc: int) {
    if Held(thread) in before then rc == FAILURE && after == before
    else PutIn(before, after, thread, rc)
  }

  /** What removing a thread does. */
  ghost predicate Removed(before: seq<Slot>, after: seq<Slot>, thread: nat, rc: int) {
    if 0 < |before| <= thread then rc == FAILURE && after == before
    else IsIndexOf(before, thread, rc) && after == if rc == FAILURE then before else before[rc := Empty]
  }

  class Pool {
    const slots: array<Slot>

    constructor (size: nat)
      ensures fresh(slots) && slots.Length == size
      ensures forall i | 0 <= i < size :: slots[i] == Empty
    {
      slots := new Slot[size](_ => Empty);
    }

    method GetBlockedThread() returns (found: Slot)
      ensures IsBlockedThread(slots[..], found)
    {
      var i := slots.Length - 1;
      while i >= 0
        invariant -1 <= i < slots.Length
        invariant forall k | i < k < slots.Length :: slots[k] == Empty
      {
        if slots[i].Held? { return slots[i]; }
        i := i - 1;
      }
      return Empty;
    }

    method IsThreadIn(thread: nat) returns (index: int)
      ensures IsIndexOf(slots[..], thread, index)
    {
      var i := 0;
      while i < slots.Length
        invariant 0 <= i <= slots.Length
        invariant Held(thread) !in slots[..i]
      {
        if slots[i] == Held(thread) { return i; }
        i := i + 1;
      }
      return FAILURE;
    }

    method GetEmptySlot() returns (index: int)
      ensures IsEmptySlot(slots[..], index)
    {
      var i := slots.Length - 1;
      while i >= 0
        invariant -1 <= i < slots.Length
        invariant Empty !in slots[i + 1..]
      {
        if slots[i] == Empty { return i; }
        i := i - 1;
      }
      return FAILURE;
    }

    method PoolAdd(thread: nat) returns (rc: int)
      modifies slots
      ensures PutIn(old(slots[..]), slots[..], thread, rc)
    {
      if 0 < slots.Length <= thread { return FAILURE; }
      rc := GetEmptySlot();
      if rc > -1 { slots[rc] := Held(thread); }
    }

    method AddThread(thread: nat) returns (rc: int)
      modifies slots
      ensures Added(old(slots[..]), slots[..], thread, rc)
    {
      var index := IsThreadIn(thread);
      if index < 0 {
        rc := PoolAdd(thread);
      } else {
        rc := FAILURE;
      }
    }

    method RemoveThread(thread: nat) returns (loc: int)
      modifies slots
      ensures Removed(old(slots[..]), slots[..], thread, loc)
    {
      if 0 < slots.Length <= thread { return FAILURE; }
      loc := IsThreadIn(thread);
      if loc > -1 { slots[loc] := Empty; }
    }
  }

  // ----- what the operations keep

  lemma AddKeepsDistinct(before: seq<Slot>, after: seq<Slot>, thread: nat, rc: int)
    requires Distinct(before) && Added(before, after, thread, rc)
    ensures Distinct(after)
    ensures rc != FAILURE ==> Held(thread) in after
  {
    if rc != FAILURE { assert after[rc] == Held(thread); }
  }

  lemma LastEmpty(slots: seq<Slot>) returns (i: int)
    ensures IsEmptySlot(slots, i)
  {
    i := |slots| - 1;
    while i >= 0 && slots[i] != Empty
      invariant -1 <= i < |slots|
      invariant Empty !in slots[i + 1..]
    {
      i := i - 1;
    }
  }

  lemma FirstIndex(slots: seq<Slot>, thread: nat) returns (i: int)
    ensures IsIndexOf(slots, thread, i)
  {
    i := 0;
    while i < |slots| && slots[i] != Held(thread)
      invariant 0 <= i <= |slots|
      invariant Held(thread) !in slots[..i]
    {
      i := i + 1;
    }
    if i == |slots| { i := FAILURE; }
  }

  /** Adding and removing always have a result. */
  lemma SomeAdded(before: seq<Slot>, thread: nat) returns (after: seq<Slot>, rc: int)
    ensures Added(before, after, thread, rc)
  {
    rc := LastEmpty(before);
    if Held(thread) in before || 0 < |before| <= thread || Empty !in before { rc := FAILURE; }
    after := if rc == FAILURE then before else before[rc := Held(thread)];
  }

  lemma SomeRemoved(before: seq<Slot>, thread: nat) returns (after: seq<Slot>, rc: int)
    ensures Removed(before, after, thread, rc)
  {
    rc := FirstIndex(before, thread);
    if 0 < |before| <= thread { rc := FAILURE; }
    after := if rc == FAILURE then before else before[rc := Empty];
  }

  /** In a pool without duplicates removal leaves no trace of the thread. */
  lemma RemoveRemoves(before: seq<Slot>, after: seq<Slot>, thread: nat, rc: int)
    requires Distinct(before) && Removed(before, after, thread, rc)
    ensures Distinct(after)
    ensures thread < |before| || |before| == 0 ==> Held(thread) !in after
    ensures forall other | other != Held(thread) && other.Held? :: other in before <==> other in after
  {
    forall other | other != Held(thread) && other.Held?
      ensures other in before <==> other in after
    {
      if other in before {
        var i :| 0 <= i < |before| && before[i] == other;
        assert after[i] == other;
      }
    }
  }

  /** Adding and removing a thread that was not there restores the pool. */
  lemma RemoveUndoesAdd(before: seq<Slot>, middle: seq<Slot>, after: seq<Slot>, thread: nat, i: int, j: int)
    requires Added(before, middle, thread, i) && i != FAILURE && Removed(middle, after, thread, j)
    ensures after == before && i == j
  {
    assert middle[i] == Held(thread);
    assert Held(thread) !in before;
    assert forall k | 0 <= k < |middle| && k != i :: middle[k] == before[k];
    assert forall k | 0 <= k < |middle| && k != i :: middle[k] != Held(thread);
  }

  // ----- a pool as large as the number of threads cannot be full for one outside it

  ghost function Threads(slots: seq<Slot>): set<nat> {
    set i | 0 <= i < |slots| && slots[i].Held? :: slots[i].thread
  }

  lemma {:induction false} FullPoolSize(slots: seq<Slot>)
    requires Distinct(slots) && Empty !in slots
    ensures |Threads(slots)| == |slots|
  {
    if slots == [] {
      assert Threads(slots) == {};
    } else {
      var n := |slots| - 1;
      var front := slots[..n];
      FullPoolSize(front);
      assert slots[n].Held?;
      assert Threads(slots) == Threads(front) + {slots[n].thread};
      assert slots[n].thread !in Threads(front);
    }
  }

  ghost function Below(n: nat): (b: set<nat>)
    ensures forall t: nat :: t in b <==> t < n
    ensures |b| == n
  {
    if n == 0 then {} else Below(n - 1) + {n - 1}
  }

  lemma SubsetSize(a: set<nat>, b: set<nat>)
    requires a <= b
    ensures |a| <= |b|
  {
    if a != {} {
      var x :| x in a;
      SubsetSize(a - {x}, b - {x});
    }
  }

  lemma RoomForOneMore(slots: seq<Slot>, threads: nat, thread: nat)
    requires Distinct(slots) && Held(thread) !in slots && thread < threads <= |slots|
    requires forall i | 0 <= i < |slots| && slots[i].Held? :: slots[i].thread < threads
    ensures Empty in slots
  {
    if Empty !in slots {
      FullPoolSize(slots);
      SubsetSize(Threads(slots), Below(threads) - {thread});
      assert false;
    }
  }
}

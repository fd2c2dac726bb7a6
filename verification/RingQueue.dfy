/** The pointer queue: a ring buffer whose indices move downwards. */
module RingQueue {

  const Q_DEFAULT_SIZE := 50

  datatype Pointer<T> = Null | To(value: T)

  /** The slot k places behind the front, going down and wrapping round; also, as it is its
      own inverse, how many places behind the front slot k is. */
  function Index(front: nat, k: nat): nat
    requires front < Q_DEFAULT_SIZE && k <= Q_DEFAULT_SIZE
  {
    if k <= front then front - k else front + Q_DEFAULT_SIZE - k
  }

  /** The slots within the window from front down to rear are filled, all others NULL. */
  ghost predicate Window<T>(elem: seq<Pointer<T>>, front: nat, rear: nat, count: nat) {
    && |elem| == Q_DEFAULT_SIZE
    && front < Q_DEFAULT_SIZE && rear < Q_DEFAULT_SIZE && count <= Q_DEFAULT_SIZE
    && rear == (if count == 0 then front else Index(front, count - 1))
    && forall j | 0 <= j < Q_DEFAULT_SIZE :: elem[j].To? <==> Index(front, j) < count
  }

  /** The window's elements in the order in which they entered. */
  ghost function Read<T>(elem: seq<Pointer<T>>, front: nat, rear: nat, count: nat): (s: seq<T>)
    requires Window(elem, front, rear, count)
    ensures |s| == count
  {
    seq(count, k requires 0 <= k < count => elem[Index(front, k)].value)
  }

  lemma Pushed<T>(elem: seq<Pointer<T>>, front: nat, rear: nat, count: nat, slot: nat, value: T)
    requires Window(elem, front, rear, count) && count < Q_DEFAULT_SIZE
    requires slot == if count == 0 then rear else if rear == 0 then Q_DEFAULT_SIZE - 1 else rear - 1
    ensures Window(elem[slot := To(value)], front, slot, count + 1)
    ensures Read(elem[slot := To(value)], front, slot, count + 1) == Read(elem, front, rear, count) + [value]
  {
  }

  lemma Popped<T>(elem: seq<Pointer<T>>, front: nat, rear: nat, count: nat, next: nat)
    requires Window(elem, front, rear, count) && 0 < count
    requires next == if front == rear then front else if front == 0 then Q_DEFAULT_SIZE - 1 else front - 1
    ensures elem[front] == To(Read(elem, front, rear, count)[0])
    ensures Window(elem[front := Null], next, rear, count - 1)
    ensures Read(elem[front := Null], next, rear, count - 1) == Read(elem, front, rear, count)[1..]
  {
  }

  class Queue<T> {
    const elem: array<Pointer<T>>
    var front: nat
    var rear: nat
    var count: nat

    ghost predicate Valid()
      reads this, elem
    {
      Window(elem[..], front, rear, count)
    }

    /** The elements in the order in which they entered. */
    ghost function Contents(): (s: seq<T>)
      requires Valid()
      reads this, elem
      ensures |s| == count
    {
      Read(elem[..], front, rear, count)
    }

    constructor ()
      ensures Valid() && fresh(elem) && Contents() == []
    {
      elem := new Pointer<T>[Q_DEFAULT_SIZE](_ => Null);
      rear := Q_DEFAULT_SIZE - 1;
      front := Q_DEFAULT_SIZE - 1;
      count := 0;
    }

    method Enqueue(ptr: Pointer<T>) returns (added: bool)
      requires Valid()
      modifies this, elem
      ensures Valid()
      ensures added <==> ptr.To? && |old(Contents())| < 50
      ensures Contents() == if added then old(Contents()) + [ptr.value] else old(Contents())
    {
      hide Read, Index;
      ghost var slots := elem[..];
      if ptr == Null { return false; }
      if count == Q_DEFAULT_SIZE { return false; }
      if count == 0 {
        Pushed(slots, front, rear, count, rear, ptr.value);
        elem[rear] := ptr;
        assert elem[..] == slots[rear := ptr];
        count := count + 1;
        return true;
      }
      if rear == 0 {
        if front == Q_DEFAULT_SIZE - 1 && count == Q_DEFAULT_SIZE { assert false; }
        Pushed(slots, front, rear, count, Q_DEFAULT_SIZE - 1, ptr.value);
        rear := Q_DEFAULT_SIZE - 1;
        elem[rear] := ptr;
        assert elem[..] == slots[rear := ptr];
        count := count + 1;
        return true;
      }
      Pushed(slots, front, rear, count, rear - 1, ptr.value);
      rear := rear - 1;
      elem[rear] := ptr;
      assert elem[..] == slots[rear := ptr];
      count := count + 1;
      return true;
    }

    method Deque() returns (ptr: Pointer<T>)
      requires Valid()
      modifies this, elem
      ensures Valid()
      ensures ptr == if old(Contents()) == [] then Null else To(old(Contents())[0])
      ensures Contents() == if old(Contents()) == [] then [] else old(Contents())[1..]
    {
      hide Read, Index;
      ghost var slots := elem[..];
      if count == 0 { return Null; }
      Popped(slots, front, rear, count,
             if front == rear then front else if front == 0 then Q_DEFAULT_SIZE - 1 else front - 1);
      ptr := elem[front];
      elem[front] := Null;
      assert elem[..] == slots[front := Null];
      if front == rear {
        count := count - 1;
        return;
      }
      if front == 0 {
        front := Q_DEFAULT_SIZE - 1;
      } else {
        front := front - 1;
      }
      count := count - 1;
    }
  }

  // ----- every run refines a bounded first-in first-out queue

  datatype Op<T> = In(ptr: Pointer<T>) | Out

  /** What a call returns. */
  datatype Reply<T> = Added(added: bool) | Got(ptr: Pointer<T>)

  /** One call on the bounded queue. */
  function Serve<T>(held: seq<T>, op: Op<T>): (seq<T>, Reply<T>) {
    match op
    case In(ptr) =>
      if ptr.To? && |held| < Q_DEFAULT_SIZE then (held + [ptr.value], Added(true)) else (held, Added(false))
    case Out =>
      if held == [] then (held, Got(Null)) else (held[1..], Got(To(held[0])))
  }

  /** The bounded queue: what it holds and what it has replied. */
  function Fifo<T>(ops: seq<Op<T>>): (s: (seq<T>, seq<Reply<T>>))
    ensures |s.1| == |ops|
  {
    if ops == [] then ([], [])
    else
      var (held, replies) := Fifo(ops[..|ops| - 1]);
      var (held', reply) := Serve(held, ops[|ops| - 1]);
      (held', replies + [reply])
  }

  /** The element a call brings in, if its reply says so, and the one a reply hands out. */
  function Entering<T>(op: Op<T>, reply: Reply<T>): seq<T> {
    if op.In? && op.ptr.To? && reply == Added(true) then [op.ptr.value] else []
  }

  function Leaving<T>(reply: Reply<T>): seq<T> {
    if reply.Got? && reply.ptr.To? then [reply.ptr.value] else []
  }

  /** The elements accepted, going by the replies. */
  function Accepted<T>(ops: seq<Op<T>>, replies: seq<Reply<T>>): seq<T>
    requires |ops| == |replies|
  {
    if ops == [] then []
    else
      var n := |ops| - 1;
      Accepted(ops[..n], replies[..n]) + Entering(ops[n], replies[n])
  }

  /** The elements delivered. */
  function Delivered<T>(replies: seq<Reply<T>>): seq<T> {
    if replies == [] then []
    else
      var n := |replies| - 1;
      Delivered(replies[..n]) + Leaving(replies[n])
  }

  lemma OneCall<T>(held: seq<T>, op: Op<T>)
    requires |held| <= Q_DEFAULT_SIZE
    ensures
      var (held', reply) := Serve(held, op);
      Leaving(reply) + held' == held + Entering(op, reply) && |held'| <= Q_DEFAULT_SIZE
  {
  }

  lemma Regroup<T>(a: seq<T>, b: seq<T>, c: seq<T>, d: seq<T>, e: seq<T>)
    requires b + c == d + e
    ensures (a + b) + c == (a + d) + e
  {
    assert (a + b) + c == a + (b + c);
    assert (a + d) + e == a + (d + e);
  }

  /** Nothing accepted is lost, repeated or overtaken. */
  lemma {:induction false} InOrder<T>(ops: seq<Op<T>>)
    ensures
      var (held, replies) := Fifo(ops);
      Delivered(replies) + held == Accepted(ops, replies) && |held| <= 50
  {
    if ops != [] {
      var n := |ops| - 1;
      hide Serve, Entering, Leaving;
      var (held, replies) := Fifo(ops[..n]);
      var (held', reply) := Serve(held, ops[n]);
      InOrder(ops[..n]);
      OneCall(held, ops[n]);
      assert (replies + [reply])[..n] == replies;
      Regroup(Delivered(replies), Leaving(reply), held', held, Entering(ops[n], reply));
    }
  }

  function AllIn<T>(values: seq<T>): (ops: seq<Op<T>>)
    ensures |ops| == |values|
  {
    seq(|values|, i requires 0 <= i < |values| => In(To(values[i])))
  }

  /** Of elements only brought in, the first 50 are accepted and held, and every later one is refused. */
  lemma {:induction false} FirstFifty<T>(values: seq<T>)
    ensures
      var (held, replies) := Fifo(AllIn(values));
      && held == (if |values| <= 50 then values else values[..50])
      && forall i | 0 <= i < |values| :: replies[i] == Added(i < 50)
  {
    if values != [] {
      var n := |values| - 1;
      FirstFifty(values[..n]);
      assert AllIn(values)[..n] == AllIn(values[..n]);
      assert values[..n] + [values[n]] == values;
    }
  }

  /** The ring buffer, run through any sequence of calls from the start, replies to every call
      as the bounded queue does and ends up holding the same. */
  method Run<T>(ops: seq<Op<T>>) returns (q: Queue<T>, replies: seq<Reply<T>>)
    ensures fresh(q) && q.Valid()
    ensures (q.Contents(), replies) == Fifo(ops)
  {
    q := new Queue<T>();
    replies := [];
    for i := 0 to |ops|
      invariant q.Valid() && fresh(q) && fresh(q.elem)
      invariant (q.Contents(), replies) == Fifo(ops[..i])
    {
      assert ops[..i + 1][..i] == ops[..i];
      match ops[i]
      case In(ptr) =>
        var added := q.Enqueue(ptr);
        replies := replies + [Added(added)];
      case Out =>
        var ptr := q.Deque();
        replies := replies + [Got(ptr)];
    }
    assert ops[..|ops|] == ops;
  }
}

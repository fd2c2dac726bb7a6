/** The singly linked list with its node count, reversal in place, and removal by copying the next
    node over the one removed. */
module LinkedList {
  import opened Common

  class Node<T> {
    var data: T
    var next: Node?<T>

    constructor (data: T)
      ensures this.data == data && next == null
    {
      this.data := data;
      next := null;
    }
  }

  lemma ReversedTwice<T>(s: seq<T>)
    ensures Reversed(Reversed(s)) == s
  {
    hide Reversed;
  }

  ghost function NodeAt<T>(nodes: seq<Node<T>>, i: nat): Node?<T> {
    if i < |nodes| then nodes[i] else null
  }

  /** No node twice, each pointing to the one after it. */
  ghost predicate Linked<T>(nodes: seq<Node<T>>)
    reads nodes
  {
    && (forall i {:trigger nodes[i].next} | 0 <= i < |nodes| :: nodes[i].next == NodeAt(nodes, i + 1))
    && forall i, j | 0 <= i < j < |nodes| :: nodes[i] != nodes[j]
  }

  lemma ShortReversed<T>(s: seq<T>)
    ensures |s| <= 1 ==> Reversed(s) == s
  {
  }

  /** Nodes each pointing to the one before it. */
  ghost predicate LinkedBack<T>(nodes: seq<Node<T>>, i: nat)
    requires i <= |nodes|
    reads nodes
  {
    forall j {:trigger nodes[j].next} | 0 <= j < i :: nodes[j].next == if j == 0 then null else nodes[j - 1]
  }

  lemma ReversedLinked<T>(nodes: seq<Node<T>>)
    requires LinkedBack(nodes, |nodes|)
    requires forall i, j | 0 <= i < j < |nodes| :: nodes[i] != nodes[j]
    ensures Linked(Reversed(nodes))
  {
    hide Reversed;
    var r, n := Reversed(nodes), |nodes|;
    forall i | 0 <= i < n
      ensures r[i].next == NodeAt(r, i + 1)
    {
      var j := n - 1 - i;
      assert r[i] == nodes[j] && nodes[j].next == if j == 0 then null else nodes[j - 1];
      if j > 0 { assert r[i + 1] == nodes[j - 1]; }
    }
    ReversedDistinct(nodes);
  }

  lemma ReversedDistinct<T>(s: seq<T>)
    requires forall i, j | 0 <= i < j < |s| :: s[i] != s[j]
    ensures forall i, j | 0 <= i < j < |s| :: Reversed(s)[i] != Reversed(s)[j]
  {
    hide Reversed;
    forall i, j | 0 <= i < j < |s|
      ensures Reversed(s)[i] != Reversed(s)[j]
    {
      assert Reversed(s)[i] == s[|s| - 1 - i] && Reversed(s)[j] == s[|s| - 1 - j];
    }
  }

  ghost function DataOf<T>(nodes: seq<Node<T>>): (s: seq<T>)
    reads nodes
    ensures |s| == |nodes|
  {
    seq(|nodes|, i requires 0 <= i < |nodes| reads nodes => nodes[i].data)
  }

  lemma LinkedAt<T>(nodes: seq<Node<T>>, k: nat)
    requires Linked(nodes) && k < |nodes|
    ensures nodes[k].next == NodeAt(nodes, k + 1)
  {
  }

  lemma LinkedNone<T>()
    ensures Linked<T>([]) && DataOf<T>([]) == []
  {
  }

  lemma DataPrefix<T>(nodes: seq<Node<T>>, k: nat)
    requires k <= |nodes|
    ensures DataOf(nodes[..k]) == DataOf(nodes)[..k]
  {
  }

  class List<T(==)> {
    var head: Node?<T>
    var nodeCount: nat
    ghost var nodes: seq<Node<T>>

    ghost predicate Valid()
      reads this, nodes
    {
      && nodeCount == |nodes|
      && head == (if nodes == [] then null else nodes[0])
      && Linked(nodes)
    }

    /** The values from the head on. */
    ghost function Values(): (s: seq<T>)
      reads this, nodes
      ensures |s| == |nodes|
    {
      DataOf(nodes)
    }

    constructor ()
      ensures Valid() && nodes == []
    {
      head := null;
      nodeCount := 0;
      nodes := [];
    }

    /** Into an empty list the node goes as it is, so it must not point anywhere. */
    method AddNode(node: Node<T>)
      requires Valid() && node !in nodes && (nodes == [] ==> node.next == null)
      modifies this, node
      ensures Valid() && nodes == [node] + old(nodes) && node.data == old(node.data)
      ensures Values() == [node.data] + old(Values())
    {
      if head == null {
        head := node;
        nodeCount := nodeCount + 1;
        nodes := [node];
        return;
      }
      node.next := head;
      head := node;
      nodeCount := nodeCount + 1;
      nodes := [node] + nodes;
    }

    /** Removal of a node: a node that has a successor takes over the successor's value and the
        successor leaves the list. Whichever it is, exactly one position's value goes. */
    method RemoveNode(node: Node?<T>, ghost k: nat)
      requires Valid()
      requires node != null && nodes != [] ==> k < |nodes| && nodes[k] == node
      modifies this, nodes
      ensures Valid()
      ensures node == null || old(nodes) == [] ==> nodes == old(nodes) && Values() == old(Values())
      ensures node != null && old(nodes) != [] ==> Values() == old(Values())[..k] + old(Values())[k + 1..]
      ensures node != null && old(nodes) != [] ==>
        nodes == if k + 1 < |old(nodes)| then old(nodes)[..k + 1] + old(nodes)[k + 2..] else old(nodes)[..k]
    {
      hide Linked, DataOf;
      if head == null || node == null { return; }
      LinkedAt(nodes, k);
      if node.next != null {
        TakeOver(node, k);
        nodeCount := nodeCount - 1;
        nodes := nodes[..k + 1] + nodes[k + 2..];
        return;
      }
      if nodeCount == 1 && head == node {
        head := null;
        nodeCount := nodeCount - 1;
        nodes := [];
        LinkedNone<T>();
        return;
      }
      CutOff(node);
      DataPrefix(nodes, k);
      nodeCount := nodeCount - 1;
      nodes := nodes[..k];
    }

    /** The node takes over its successor's value and the successor is bypassed. */
    method TakeOver(node: Node<T>, ghost k: nat)
      requires Linked(nodes) && k + 1 < |nodes| && node == nodes[k]
      modifies node`data, node`next
      ensures Linked(nodes[..k + 1] + nodes[k + 2..])
      ensures DataOf(nodes[..k + 1] + nodes[k + 2..]) == old(DataOf(nodes))[..k] + old(DataOf(nodes))[k + 1..]
    {
      ghost var rest, values := nodes[..k + 1] + nodes[k + 2..], DataOf(nodes);
      assert nodes[k].next == NodeAt(nodes, k + 1) && nodes[k + 1].next == NodeAt(nodes, k + 2);
      node.data := node.next.data;
      node.next := node.next.next;
      forall i | 0 <= i < |rest|
        ensures rest[i].next == NodeAt(rest, i + 1) && rest[i].data == (values[..k] + values[k + 1..])[i]
      {
        assert rest[i] == nodes[if i <= k then i else i + 1];
      }
    }

    /** The last node, not the only one, is cut off: its predecessor is found from the head. */
    method CutOff(node: Node<T>)
      requires Linked(nodes) && |nodes| > 1 && head == nodes[0] && node == nodes[|nodes| - 1]
      modifies nodes`next
      ensures Linked(nodes[..|nodes| - 1]) && DataOf(nodes) == old(DataOf(nodes))
    {
      var trav := head;
      ghost var i := 0;
      while trav.next != node
        invariant 0 <= i < |nodes| - 1 && trav == nodes[i]
        decreases |nodes| - i
      {
        trav := trav.next;
        i := i + 1;
      }
      trav.next := null;
    }

    method Reverse()
      requires Valid()
      modifies this, nodes
      ensures Valid() && nodes == Reversed(old(nodes))
      ensures Values() == Reversed(old(Values()))
    {
      hide Reversed;
      ShortReversed(nodes);
      ShortReversed(Values());
      if nodeCount == 0 { return; }
      if nodeCount == 1 { return; }
      ghost var ns, n := nodes, |nodes|;
      var p1, p2 := head, head.next;
      p1.next := null;
      ghost var i := 1;
      while true
        invariant nodes == ns && nodeCount == n && 1 <= i < n && p1 == ns[i - 1] && p2 == ns[i]
        invariant LinkedBack(ns, i)
        invariant forall j {:trigger ns[j].next} | i <= j < n :: ns[j].next == NodeAt(ns, j + 1)
        invariant forall j {:trigger ns[j].data} | 0 <= j < n :: ns[j].data == old(ns[j].data)
        decreases n - i
      {
        var p3 := p2.next;
        p2.next := p1;
        p1 := p2;
        p2 := p3;
        i := i + 1;
        if p3 == null { break; }
      }
      head := p1;
      nodes := Reversed(ns);
      assert LinkedBack(ns, n);
      ReversedLinked(ns);
      assert Values() == Reversed(old(Values()));
    }

    /** The first node from the head whose value is the key. */
    method Lookup(key: T) returns (found: Node?<T>)
      requires Valid()
      ensures found == null <==> key !in Values()
      ensures found != null ==> exists k | 0 <= k < |nodes| ::
        nodes[k] == found && Values()[k] == key && key !in Values()[..k]
    {
      found := head;
      ghost var k := 0;
      while found != null
        invariant 0 <= k <= |nodes|
        invariant found == if k < |nodes| then nodes[k] else null
        invariant key !in Values()[..k]
        decreases |nodes| - k
      {
        if key == found.data {
          assert Values()[k] == key;
          return;
        }
        found := found.next;
        k := k + 1;
      }
    }
  }

  /** Reversing a list twice restores it, node by node. */
  method ReverseTwice<T(==)>(list: List<T>)
    requires list.Valid()
    modifies list, list.nodes
    ensures list.Valid() && list.nodes == old(list.nodes) && list.Values() == old(list.Values())
  {
    hide Reversed;
    ghost var nodes, values := list.nodes, list.Values();
    list.Reverse();
    ReversedTwice(nodes);
    ReversedTwice(values);
    ReversedMembers(nodes);
    list.Reverse();
  }

  lemma ReversedMembers<T>(s: seq<T>)
    ensures forall x :: x in Reversed(s) <==> x in s
  {
    hide Reversed;
    forall x | x in s
      ensures x in Reversed(s)
    {
      var k :| 0 <= k < |s| && s[k] == x;
      assert Reversed(s)[|s| - 1 - k] == x;
    }
  }

  /** Adding values one by one leaves the newest first. */
  method Build<T(==)>(values: seq<T>) returns (list: List<T>)
    ensures fresh(list) && list.Valid() && list.Values() == Reversed(values)
  {
    list := new List<T>();
    for i := 0 to |values|
      invariant list.Valid() && fresh(list) && fresh(set n | n in list.nodes)
      invariant list.Values() == Reversed(values[..i])
    {
      var node := new Node<T>(values[i]);
      list.AddNode(node);
      ReversedAppend(values[..i], values[i]);
      assert values[..i] + [values[i]] == values[..i + 1];
    }
    assert values[..|values|] == values;
  }

  lemma ReversedAppend<T>(s: seq<T>, x: T)
    ensures Reversed(s + [x]) == [x] + Reversed(s)
  {
    hide Reversed;
    var r := Reversed(s + [x]);
    forall k | 0 <= k < |r|
      ensures r[k] == ([x] + Reversed(s))[k]
    {
      if k > 0 { assert Reversed(s)[k - 1] == s[|s| - k]; }
    }
  }

  /** The first match from the head is the newest value equal to the key. */
  lemma FirstIsNewest<T>(values: seq<T>, key: T, k: nat)
    requires k < |values| && Reversed(values)[k] == key && key !in Reversed(values)[..k]
    ensures values[|values| - 1 - k] == key && key !in values[|values| - k..]
  {
    hide Reversed;
    var n := |values|;
    forall j | n - k <= j < n
      ensures values[j] != key
    {
      assert Reversed(values)[n - 1 - j] == values[j];
      assert Reversed(values)[..k][n - 1 - j] == values[j];
    }
  }

  /** In a list built by additions a lookup finds the node of the newest value equal to the key. */
  method BuildAndLookup<T(==)>(values: seq<T>, key: T) returns (list: List<T>, found: Node?<T>, ghost k: nat)
    ensures list.Valid() && list.Values() == Reversed(values)
    ensures found == null <==> key !in values
    ensures found != null ==>
      k < |values| && values[k] == key == found.data && key !in values[k + 1..] &&
      |list.nodes| == |values| && found == list.nodes[|values| - 1 - k]
  {
    hide Reversed;
    list := Build(values);
    found := list.Lookup(key);
    k := 0;
    if found == null {
      forall i | 0 <= i < |values|
        ensures values[i] != key
      {
        assert list.Values()[|values| - 1 - i] == values[i];
      }
    } else {
      ghost var i: nat :|
        i < |list.nodes| && list.nodes[i] == found && list.Values()[i] == key && key !in list.Values()[..i];
      FirstIsNewest(values, key, i);
      k := |values| - 1 - i;
    }
  }
}

/** The binary search tree: insertion by a loop, lookup by recursion. */
module SearchTree {

  class TreeNode {
    var left: TreeNode?
    var right: TreeNode?
    const key: int

    constructor (key: int)
      ensures this.key == key && left == null && right == null
    {
      this.key := key;
      left := null;
      right := null;
    }
  }

  /** The shape of a tree, with the node at each place. */
  datatype Shape = Nil | Bin(l: Shape, node: TreeNode, r: Shape)

  ghost function Nodes(s: Shape): set<TreeNode> {
    if s.Nil? then {} else Nodes(s.l) + {s.node} + Nodes(s.r)
  }

  ghost predicate Distinct(s: Shape) {
    s.Bin? ==>
      Distinct(s.l) && Distinct(s.r) && s.node !in Nodes(s.l) && s.node !in Nodes(s.r) && Nodes(s.l) !! Nodes(s.r)
  }

  /** The pointers in the heap draw the shape. */
  ghost predicate Matches(p: TreeNode?, s: Shape)
    reads Nodes(s)
  {
    if s.Nil? then p == null
    else p == s.node && Matches(s.node.left, s.l) && Matches(s.node.right, s.r)
  }

  // ----- insertion and lookup on shapes

  ghost function Insert(s: Shape, n: TreeNode): Shape {
    if s.Nil? then Bin(Nil, n, Nil)
    else if n.key < s.node.key then s.(l := Insert(s.l, n))
    else s.(r := Insert(s.r, n))
  }

  /** The node under which the insertion hangs the new one. */
  ghost function Parent(s: Shape, n: TreeNode): TreeNode
    requires s.Bin?
  {
    var side := if n.key < s.node.key then s.l else s.r;
    if side.Nil? then s.node else Parent(side, n)
  }

  ghost function Find(s: Shape, key: int): TreeNode? {
    if s.Nil? then null
    else if s.node.key == key then s.node
    else if s.node.key < key then Find(s.r, key)
    else Find(s.l, key)
  }

  ghost function Inorder(s: Shape): seq<int> {
    if s.Nil? then [] else Inorder(s.l) + [s.node.key] + Inorder(s.r)
  }

  /** Left of every node only smaller keys, right of it none smaller. */
  ghost predicate Ordered(s: Shape) {
    s.Bin? ==>
      && Ordered(s.l) && Ordered(s.r)
      && (forall m | m in Nodes(s.l) :: m.key < s.node.key)
      && (forall m | m in Nodes(s.r) :: s.node.key <= m.key)
  }

  lemma {:induction false} InsertNodes(s: Shape, n: TreeNode)
    requires Distinct(s) && n !in Nodes(s)
    ensures Nodes(Insert(s, n)) == Nodes(s) + {n} && Distinct(Insert(s, n))
  {
    if s.Bin? {
      if n.key < s.node.key { InsertNodes(s.l, n); } else { InsertNodes(s.r, n); }
    }
  }

  lemma {:induction false} InsertOrdered(s: Shape, n: TreeNode)
    requires Ordered(s) && Distinct(s) && n !in Nodes(s)
    ensures Ordered(Insert(s, n))
  {
    if s.Bin? {
      if n.key < s.node.key {
        InsertOrdered(s.l, n);
        InsertNodes(s.l, n);
      } else {
        InsertOrdered(s.r, n);
        InsertNodes(s.r, n);
      }
    }
  }

  lemma {:induction false} InsertKeys(s: Shape, n: TreeNode)
    ensures multiset(Inorder(Insert(s, n))) == multiset(Inorder(s)) + multiset{n.key}
  {
    if s.Bin? {
      if n.key < s.node.key { InsertKeys(s.l, n); } else { InsertKeys(s.r, n); }
    }
  }

  ghost predicate Sorted(keys: seq<int>) {
    forall i, j | 0 <= i < j < |keys| :: keys[i] <= keys[j]
  }

  lemma {:induction false} KeysOfNodes(s: Shape, k: nat)
    requires k < |Inorder(s)|
    ensures exists m :: m in Nodes(s) && m.key == Inorder(s)[k]
  {
    var a := |Inorder(s.l)|;
    if k < a {
      KeysOfNodes(s.l, k);
    } else if k == a {
      assert s.node in Nodes(s);
    } else {
      KeysOfNodes(s.r, k - a - 1);
    }
  }

  lemma {:induction false} OrderedSorted(s: Shape)
    requires Ordered(s)
    ensures Sorted(Inorder(s))
  {
    if s.Bin? {
      var a, keys := |Inorder(s.l)|, Inorder(s);
      OrderedSorted(s.l);
      OrderedSorted(s.r);
      forall k | 0 <= k < a
        ensures keys[k] < s.node.key
      {
        KeysOfNodes(s.l, k);
      }
      forall k | a < k < |keys|
        ensures s.node.key <= keys[k]
      {
        KeysOfNodes(s.r, k - a - 1);
        assert keys[k] == Inorder(s.r)[k - a - 1];
      }
    }
  }

  // ----- runs of insertions

  ghost function Grow(history: seq<TreeNode>): Shape {
    if history == [] then Nil else Insert(Grow(history[..|history| - 1]), history[|history| - 1])
  }

  ghost function Keys(history: seq<TreeNode>): (keys: seq<int>)
    ensures |keys| == |history|
  {
    seq(|history|, i requires 0 <= i < |history| => history[i].key)
  }

  ghost function Members(history: seq<TreeNode>): set<TreeNode> {
    set m | m in history
  }

  ghost predicate NoRepeats(history: seq<TreeNode>) {
    forall i, j | 0 <= i < j < |history| :: history[i] != history[j]
  }

  lemma {:induction false} GrowNodes(history: seq<TreeNode>)
    requires NoRepeats(history)
    ensures Distinct(Grow(history))
    ensures forall m :: m in Nodes(Grow(history)) <==> m in history
  {
    if history != [] {
      var n := |history| - 1;
      GrowNodes(history[..n]);
      assert history == history[..n] + [history[n]];
      InsertNodes(Grow(history[..n]), history[n]);
    }
  }

  lemma {:induction false} GrowOrdered(history: seq<TreeNode>)
    requires NoRepeats(history)
    ensures Ordered(Grow(history))
  {
    if history != [] {
      var n := |history| - 1;
      GrowOrdered(history[..n]);
      GrowNodes(history[..n]);
      InsertOrdered(Grow(history[..n]), history[n]);
    }
  }

  lemma {:induction false} GrowKeys(history: seq<TreeNode>)
    ensures multiset(Inorder(Grow(history))) == multiset(Keys(history))
  {
    if history != [] {
      hide Inorder, Insert;
      var n := |history| - 1;
      GrowKeys(history[..n]);
      InsertKeys(Grow(history[..n]), history[n]);
      KeysAppend(history[..n], history[n]);
      assert history == history[..n] + [history[n]];
    } else {
      NoKeys();
    }
  }

  lemma NoKeys()
    ensures Inorder(Grow([])) == Keys([])
  {
  }

  lemma KeysAppend(history: seq<TreeNode>, n: TreeNode)
    ensures Keys(history + [n]) == Keys(history) + [n.key]
  {
  }

  /** Whatever is inserted in whatever order: the tree is a search tree, and its keys from left
      to right are the inserted keys, sorted. */
  lemma GrowSorts(history: seq<TreeNode>)
    requires NoRepeats(history)
    ensures Ordered(Grow(history))
    ensures Sorted(Inorder(Grow(history)))
    ensures multiset(Inorder(Grow(history))) == multiset(Keys(history))
  {
    GrowOrdered(history);
    GrowKeys(history);
    OrderedSorted(Grow(history));
  }

  /** The earliest node of the history with the key. */
  ghost function Earliest(history: seq<TreeNode>, key: int): TreeNode? {
    if history == [] then null
    else
      var found := Earliest(history[..|history| - 1], key);
      if found != null then found
      else if history[|history| - 1].key == key then history[|history| - 1]
      else null
  }

  lemma {:induction false} EarliestIs(history: seq<TreeNode>, key: int)
    ensures Earliest(history, key) == null <==> key !in Keys(history)
    ensures Earliest(history, key) != null ==>
      exists k | 0 <= k < |history| ::
        history[k] == Earliest(history, key) && Keys(history)[k] == key && key !in Keys(history)[..k]
  {
    if history != [] {
      var n := |history| - 1;
      EarliestIs(history[..n], key);
      assert Keys(history) == Keys(history[..n]) + [history[n].key];
      if Earliest(history[..n], key) == null && history[n].key == key {
        assert Keys(history)[..n] == Keys(history[..n]);
      } else if Earliest(history[..n], key) != null {
        var k :| 0 <= k < n && history[..n][k] == Earliest(history[..n], key) &&
                 Keys(history[..n])[k] == key && key !in Keys(history[..n])[..k];
        assert Keys(history)[..k] == Keys(history[..n])[..k];
      }
    }
  }

  /** A search for the key takes the path the insertion of the key took, so inserting changes
      the answer only where there was none. */
  lemma {:induction false} FindAfterInsert(s: Shape, n: TreeNode, key: int)
    ensures Find(Insert(s, n), key) ==
      if Find(s, key) != null then Find(s, key) else if n.key == key then n else null
  {
    if s.Bin? {
      FindAfterInsert(s.l, n, key);
      FindAfterInsert(s.r, n, key);
    }
  }

  lemma {:induction false} FindEarliest(history: seq<TreeNode>, key: int)
    ensures Find(Grow(history), key) == Earliest(history, key)
  {
    if history != [] {
      var n := |history| - 1;
      FindEarliest(history[..n], key);
      FindAfterInsert(Grow(history[..n]), history[n], key);
    }
  }

  // ----- the tree in the heap

  /** The pointers of a set of nodes, as they are now. */
  ghost function Lefts(nodes: set<TreeNode>): map<TreeNode, TreeNode?>
    reads nodes
  {
    map m | m in nodes :: m.left
  }

  ghost function Rights(nodes: set<TreeNode>): map<TreeNode, TreeNode?>
    reads nodes
  {
    map m | m in nodes :: m.right
  }

  /** Recorded pointers draw the shape. */
  ghost predicate Draws(p: TreeNode?, s: Shape, left: map<TreeNode, TreeNode?>, right: map<TreeNode, TreeNode?>) {
    if s.Nil? then p == null
    else
      && p == s.node && s.node in left && s.node in right
      && Draws(left[s.node], s.l, left, right) && Draws(right[s.node], s.r, left, right)
  }

  lemma {:induction false} MatchesIffDraws(p: TreeNode?, s: Shape, nodes: set<TreeNode>)
    requires Nodes(s) <= nodes
    ensures Matches(p, s) <==> Draws(p, s, Lefts(nodes), Rights(nodes))
    decreases s
  {
    if s.Bin? {
      MatchesIffDraws(s.node.left, s.l, nodes);
      MatchesIffDraws(s.node.right, s.r, nodes);
    }
  }

  lemma {:induction false} DrawsSame(p: TreeNode?, s: Shape,
                                     left: map<TreeNode, TreeNode?>, right: map<TreeNode, TreeNode?>,
                                     left': map<TreeNode, TreeNode?>, right': map<TreeNode, TreeNode?>)
    requires Draws(p, s, left, right)
    requires forall m | m in Nodes(s) ::
      (m in left ==> m in left' && left'[m] == left[m]) && (m in right ==> m in right' && right'[m] == right[m])
    ensures Draws(p, s, left', right')
    decreases s
  {
    if s.Bin? {
      DrawsSame(left[s.node], s.l, left, right, left', right');
      DrawsSame(right[s.node], s.r, left, right, left', right');
    }
  }

  /** Hanging node n under its parent q, and changing no other pointer, turns the shape into the
      one with n inserted. */
  lemma {:induction false} Attach(p: TreeNode?, s: Shape, n: TreeNode, q: TreeNode,
                                  left: map<TreeNode, TreeNode?>, right: map<TreeNode, TreeNode?>,
                                  left': map<TreeNode, TreeNode?>, right': map<TreeNode, TreeNode?>)
    requires s.Bin? && Distinct(s) && n !in Nodes(s) && q == Parent(s, n)
    requires Draws(p, s, left, right) && n in left && n in right && left[n] == right[n] == null
    requires left' == (if n.key < q.key then left[q := n] else left)
    requires right' == (if n.key < q.key then right else right[q := n])
    ensures Draws(p, Insert(s, n), left', right')
    decreases s
  {
    ParentIn(s, n);
    if n.key < s.node.key {
      if s.l.Bin? { ParentIn(s.l, n); Attach(left[s.node], s.l, n, q, left, right, left', right'); }
      DrawsSame(right[s.node], s.r, left, right, left', right');
    } else {
      if s.r.Bin? { ParentIn(s.r, n); Attach(right[s.node], s.r, n, q, left, right, left', right'); }
      DrawsSame(left[s.node], s.l, left, right, left', right');
    }
  }

  /** The tree grown from a history has its nodes, each once. */
  ghost predicate Grown(history: seq<TreeNode>) {
    NoRepeats(history) && Nodes(Grow(history)) == Members(history) && Distinct(Grow(history))
  }

  lemma GrownNothing()
    ensures Grown([]) && Grow([]) == Nil
  {
  }

  lemma InHistory(history: seq<TreeNode>, m: TreeNode)
    requires Grown(history) && m in Nodes(Grow(history))
    ensures m in history
  {
    hide Grow, Nodes;
  }

  lemma GrowAppend(history: seq<TreeNode>, n: TreeNode)
    requires Grown(history) && n !in history
    ensures Grown(history + [n]) && Grow(history + [n]) == Insert(Grow(history), n)
    ensures Distinct(Grow(history)) && n !in Nodes(Grow(history))
  {
    hide Members, Nodes, Distinct, Insert;
    GrowOne(history, n);
    MembersAppend(history, n);
    InsertNodes(Grow(history), n);
  }

  lemma GrowOne(history: seq<TreeNode>, n: TreeNode)
    ensures Grow(history + [n]) == Insert(Grow(history), n)
  {
    assert (history + [n])[..|history|] == history;
  }

  lemma MembersAppend(history: seq<TreeNode>, n: TreeNode)
    ensures Members(history + [n]) == Members(history) + {n}
    ensures n in Members(history) <==> n in history
  {
  }

  /** The same, read off the heap after the change. */
  lemma HungMatches(p: TreeNode?, s: Shape, n: TreeNode, q: TreeNode,
                    left: map<TreeNode, TreeNode?>, right: map<TreeNode, TreeNode?>)
    requires s.Bin? && Distinct(s) && n !in Nodes(s) && q == Parent(s, n)
    requires Draws(p, s, left, right) && left.Keys == right.Keys == Nodes(s) + {n}
    requires left[n] == right[n] == null
    requires forall m | m in Nodes(s) + {n} :: m.left == if m == q && n.key < q.key then n else left[m]
    requires forall m | m in Nodes(s) + {n} :: m.right == if m == q && q.key <= n.key then n else right[m]
    ensures Matches(p, Insert(s, n))
  {
    var nodes := Nodes(s) + {n};
    ParentIn(s, n);
    InsertNodes(s, n);
    Attach(p, s, n, q, left, right, Lefts(nodes), Rights(nodes));
    MatchesIffDraws(p, Insert(s, n), nodes);
  }

  lemma {:induction false} ParentIn(s: Shape, n: TreeNode)
    requires s.Bin?
    ensures Parent(s, n) in Nodes(s)
  {
    var side := if n.key < s.node.key then s.l else s.r;
    if side.Bin? { ParentIn(side, n); }
  }

  /** The empty tree is the null pointer, and a first leaf is a tree of its own. */
  lemma NullIsNil(p: TreeNode?, s: Shape, n: TreeNode)
    requires Matches(p, s) && n.left == null && n.right == null
    ensures p == null <==> s == Nil
    ensures Matches(n, Insert(Nil, n))
  {
  }

  function TreeKeyCompare(a: int, b: int): int {
    if a < b then -1 else if a == b then 0 else 1
  }

  class Tree {
    var root: TreeNode?
    ghost var history: seq<TreeNode>

    ghost predicate Valid()
      reads this, Members(history)
    {
      Grown(history) && Matches(root, Grow(history))
    }

    constructor ()
      ensures Valid() && history == []
    {
      root := null;
      history := [];
      new;
      GrownNothing();
    }

    /** The loop of the insertion: down to where the search for the key ends. */
    static method WalkDown(root: TreeNode, node: TreeNode, ghost shape: Shape) returns (parent: TreeNode)
      requires Matches(root, shape)
      ensures shape.Bin? && parent == Parent(shape, node) && parent in Nodes(shape)
    {
      ParentIn(shape, node);
      var walk: TreeNode? := root;
      parent := root;
      ghost var rest := shape;
      while walk != null
        invariant Matches(walk, rest)
        invariant rest.Bin? ==> Parent(shape, node) == Parent(rest, node)
        invariant rest.Nil? ==> parent == Parent(shape, node)
        decreases rest
      {
        parent := walk;
        walk := if TreeKeyCompare(node.key, walk.key) < 0 then walk.left else walk.right;
        rest := if node.key < rest.node.key then rest.l else rest.r;
      }
    }

    /** The node must be a fresh leaf, as its constructor leaves it. */
    method AddTreeNode(node: TreeNode?) returns (added: TreeNode?)
      requires Valid()
      requires node != null ==> node !in history && node.left == null && node.right == null
      modifies this, history
      ensures Valid() && added == node
      ensures history == if node == null then old(history) else old(history) + [node]
    {
      if node == null { return null; }
      hide Distinct, Grow, Grown, Insert, Parent, NoRepeats, Matches, Nodes, Members;
      ghost var shape := Grow(history);
      ghost var after: seq<TreeNode> := history + [node];

      GrowAppend(history, node);
      NullIsNil(root, shape, node);
      if root == null {
        root := node;
        history := after;
        return node;
      }
      var parent := WalkDown(root, node, shape);
      InHistory(history, parent);
      Hang(parent, node, root, shape);
      history := after;
      return node;
    }

    /** The end of the insertion: the new node goes on the side its key belongs to. */
    static method Hang(parent: TreeNode, node: TreeNode, ghost root: TreeNode, ghost shape: Shape)
      requires Matches(root, shape) && shape.Bin? && Distinct(shape) && node !in Nodes(shape)
      requires parent == Parent(shape, node) && parent in Nodes(shape)
      requires node.left == null && node.right == null
      modifies parent`left, parent`right
      ensures Matches(root, Insert(shape, node))
    {
      ghost var nodes := Nodes(shape) + {node};
      MatchesIffDraws(root, shape, nodes);
      ghost var left, right := Lefts(nodes), Rights(nodes);
      if TreeKeyCompare(node.key, parent.key) < 0 {
        parent.left := node;
      } else {
        parent.right := node;
      }
      HungMatches(root, shape, node, parent, left, right);
    }

    /** The recursive search. */
    static function LookupFrom(p: TreeNode?, key: int, ghost s: Shape): (found: TreeNode?)
      requires Matches(p, s)
      reads Nodes(s)
      ensures found == Find(s, key)
      decreases s
    {
      if p == null then null
      else if TreeKeyCompare(p.key, key) == 0 then p
      else if TreeKeyCompare(p.key, key) < 0 then LookupFrom(p.right, key, s.r)
      else LookupFrom(p.left, key, s.l)
    }

    /** Found exactly when the key was inserted, and then the earliest node with it. */
    method Lookup(key: int) returns (found: TreeNode?)
      requires Valid()
      ensures found == Earliest(history, key)
      ensures found == null <==> key !in Keys(history)
    {
      if root == null {
        assert Grow(history) == Nil;
        FindEarliest(history, key);
        EarliestIs(history, key);
        return null;
      }
      found := LookupFrom(root, key, Grow(history));
      FindEarliest(history, key);
      EarliestIs(history, key);
    }
  }
}

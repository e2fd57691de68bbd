// ProcessTreeNode and ProcessTree: the transient tree a snapshot is built
// into, and its breadth-first flattening into (record, parent pid) pairs.

module ProcessTree {
  import opened Records

  /** A tree node: its record, a back link to its parent (null for the
      synthetic root) and the ordered list of its children. */
  class ProcessTreeNode {
    var data: ProcessInfo
    var parent: ProcessTreeNode?
    var children: seq<ProcessTreeNode>

    constructor (info: ProcessInfo, p: ProcessTreeNode?)
      ensures data == info && parent == p && children == []
    {
      data := info;
      parent := p;
      children := [];
    }
  }

  /** The local shape every tree handed to the flattening has: the root has no
      parent and is nobody's child, every child points back to the node whose
      list holds it, no list holds a node twice, and every other node sits in
      its parent's list. */
  ghost predicate Shaped(root: ProcessTreeNode, nodes: set<ProcessTreeNode>)
    reads nodes
  {
    && root in nodes
    && root.parent == null
    && (forall n, i :: n in nodes && 0 <= i < |n.children| ==>
          n.children[i] in nodes && n.children[i].parent == n && n.children[i] != root)
    && (forall n, i, j :: n in nodes && 0 <= i < j < |n.children| ==>
          n.children[i] != n.children[j])
    && (forall n :: n in nodes && n != root ==>
          n.parent != null && n.parent in nodes && n in n.parent.children)
  }

  /** The node d parent links above n (null once the chain runs out). */
  ghost function Ancestor(n: ProcessTreeNode?, d: nat, nodes: set<ProcessTreeNode>): (a: ProcessTreeNode?)
    reads nodes
    decreases d
  {
    if d == 0 || n == null || n !in nodes then (if d == 0 then n else null)
    else Ancestor(n.parent, d - 1, nodes)
  }

  /** A node whose chain of parents meets the root. */
  ghost predicate Reachable(n: ProcessTreeNode, root: ProcessTreeNode, nodes: set<ProcessTreeNode>)
    reads nodes
  {
    exists d: nat :: Ancestor(n, d, nodes) == root
  }

  /** The flat entry the walk emits for a node: its record, and its parent's
      pid, or 0 when it has no parent. */
  ghost function EntryOf(n: ProcessTreeNode): (e: FlatProcessNode)
    reads n, n.parent
    ensures e.info == n.data
  {
    FlatProcessNode(n.data, if n.parent != null then n.parent.data.pid else 0)
  }

  /** A sequence holds no node twice. */
  ghost predicate NoDuplicates(s: seq<ProcessTreeNode>)
  {
    forall i, j :: 0 <= i < j < |s| ==> s[i] != s[j]
  }

  class ProcessTree {
    var root: ProcessTreeNode?
    /** The nodes the tree is made of: the footprint of its shape invariant. */
    ghost var Nodes: set<ProcessTreeNode>

    ghost predicate Valid()
      reads this, Nodes
    {
      root != null ==> Shaped(root, Nodes)
    }

    /** A default-constructed tree has no root. */
    constructor ()
      ensures root == null && Nodes == {} && Valid()
    {
      root := null;
      Nodes := {};
    }

    /** getRoot returns the stored root. */
    method GetRoot() returns (r: ProcessTreeNode?)
      ensures r == root
    {
      r := root;
    }

    /** setRoot stores the given root; `nodes` records its footprint. */
    method SetRoot(newRoot: ProcessTreeNode?, ghost nodes: set<ProcessTreeNode>)
      modifies this
      ensures root == newRoot && Nodes == nodes
    {
      root := newRoot;
      Nodes := nodes;
    }

    /** Breadth-first flattening from the root's children. `order` lists the
        nodes in the order their entries are emitted. Every node reachable
        from the root is emitted exactly once, the root never, and every
        entry comes after the entry of its parent. */
    method GetFlatTree() returns (flat: seq<FlatProcessNode>, ghost order: seq<ProcessTreeNode>)
      requires Valid()
      ensures root == null ==> flat == [] && order == []
      ensures root != null ==> FlatOfTree(root, Nodes, flat, order)
    {
      flat, order := [], [];
      if root == null {
        return;
      }
      var queue := root.children;
      WalkStarts(root, Nodes);
      while queue != []
        invariant |flat| == |order|
        invariant forall i :: 0 <= i < |order| ==> flat[i] == EntryOf(order[i])
        invariant WalkInv(root, Nodes, order, queue)
        decreases |Nodes - set x | x in order|
      {
        var current := queue[0];
        var parentPid := if current.parent != null then current.parent.data.pid else 0;
        flat := flat + [FlatProcessNode(current.data, parentPid)];
        WalkStep(root, Nodes, order, queue);
        order, queue := order + [current], queue[1..] + current.children;
      }
      WalkDone(root, Nodes, flat, order);
    }
  }

  /** What the breadth-first walk keeps true: emitted and queued nodes are
      distinct non-root nodes of the tree, each has its parent emitted (or is a
      child of the root), parents are emitted before their children, and the
      children of the root and of every emitted node are emitted or queued. */
  ghost predicate WalkInv(root: ProcessTreeNode, nodes: set<ProcessTreeNode>,
                          order: seq<ProcessTreeNode>, queue: seq<ProcessTreeNode>)
    reads nodes
  {
    && Shaped(root, nodes)
    && (forall i :: 0 <= i < |order| ==> order[i] in nodes && order[i] != root)
    && (forall i :: 0 <= i < |queue| ==> queue[i] in nodes && queue[i] != root)
    && NoDuplicates(order + queue)
    && (forall x :: x in order + queue ==> x.parent == root || x.parent in order)
    && (forall i, j :: 0 <= i < |order| && 0 <= j < |order| && order[j] == order[i].parent ==> j < i)
    && (forall n, k :: n in nodes && (n == root || n in order) && 0 <= k < |n.children| ==>
          n.children[k] in order + queue)
  }

  lemma WalkStarts(root: ProcessTreeNode, nodes: set<ProcessTreeNode>)
    requires Shaped(root, nodes)
    ensures WalkInv(root, nodes, [], root.children)
  {
    assert [] + root.children == root.children;
  }

  /** One dequeue-emit-enqueue step keeps the walk invariant and emits a node
      that had not been emitted. */
  lemma WalkStep(root: ProcessTreeNode, nodes: set<ProcessTreeNode>,
                 order: seq<ProcessTreeNode>, queue: seq<ProcessTreeNode>)
    requires WalkInv(root, nodes, order, queue) && queue != []
    ensures WalkInv(root, nodes, order + [queue[0]], queue[1..] + queue[0].children)
    ensures queue[0] in nodes && queue[0] !in order
    ensures |nodes - set x | x in order + [queue[0]]| < |nodes - set x | x in order|
  {
    var cur := queue[0];
    var order', queue' := order + [cur], queue[1..] + cur.children;
    DequeuedIsNew(order, queue);
    WalkStepTo(root, nodes, order, queue, order', queue');
    WalkStepCount(nodes, order, cur);
  }

  /** The step, with the next emitted list and queue named. */
  lemma WalkStepTo(root: ProcessTreeNode, nodes: set<ProcessTreeNode>,
                   order: seq<ProcessTreeNode>, queue: seq<ProcessTreeNode>,
                   order': seq<ProcessTreeNode>, queue': seq<ProcessTreeNode>)
    requires WalkInv(root, nodes, order, queue) && queue != []
    requires order' == order + [queue[0]] && queue' == queue[1..] + queue[0].children
    ensures WalkInv(root, nodes, order', queue')
  {
    var cur := queue[0];
    DequeuedIsNew(order, queue);
    ChildrenAreNew(root, nodes, order, queue);
    assert order' + queue' == (order + queue) + cur.children;
    ConcatNoDuplicates(order + queue, cur.children);
    WalkStepMembers(root, nodes, order, queue, order', queue');
    WalkStepParents(root, nodes, order, queue, order', queue');
    ParentsFirstStep(root, nodes, order, queue);
    WalkStepClosed(root, nodes, order, queue, order', queue');
  }

  /** After one step every emitted or queued node is a non-root node. */
  lemma WalkStepMembers(root: ProcessTreeNode, nodes: set<ProcessTreeNode>,
                        order: seq<ProcessTreeNode>, queue: seq<ProcessTreeNode>,
                        order': seq<ProcessTreeNode>, queue': seq<ProcessTreeNode>)
    requires WalkInv(root, nodes, order, queue) && queue != []
    requires order' == order + [queue[0]] && queue' == queue[1..] + queue[0].children
    ensures forall i :: 0 <= i < |order'| ==> order'[i] in nodes && order'[i] != root
    ensures forall i :: 0 <= i < |queue'| ==> queue'[i] in nodes && queue'[i] != root
  {
    var cur := queue[0];
    forall i | 0 <= i < |queue'|
      ensures queue'[i] in nodes && queue'[i] != root
    {
      if i < |queue| - 1 {
        assert queue'[i] == queue[i + 1];
      } else {
        assert queue'[i] == cur.children[i - (|queue| - 1)];
      }
    }
  }

  /** After one step every emitted or queued node still has the root or an
      emitted node as its parent. */
  lemma WalkStepParents(root: ProcessTreeNode, nodes: set<ProcessTreeNode>,
                        order: seq<ProcessTreeNode>, queue: seq<ProcessTreeNode>,
                        order': seq<ProcessTreeNode>, queue': seq<ProcessTreeNode>)
    requires WalkInv(root, nodes, order, queue) && queue != []
    requires order' == order + [queue[0]] && queue' == queue[1..] + queue[0].children
    ensures forall x :: x in order' + queue' ==> x.parent == root || x.parent in order'
  {
    var cur := queue[0];
    assert order' + queue' == (order + queue) + cur.children;
    forall x: ProcessTreeNode | x in order' + queue'
      ensures x.parent == root || x.parent in order'
    {
      if x !in order + queue {
        var k :| 0 <= k < |cur.children| && cur.children[k] == x;
        assert cur in nodes;
      }
    }
  }

  /** After one step the children of the root and of every emitted node are
      still emitted or queued. */
  lemma WalkStepClosed(root: ProcessTreeNode, nodes: set<ProcessTreeNode>,
                       order: seq<ProcessTreeNode>, queue: seq<ProcessTreeNode>,
                       order': seq<ProcessTreeNode>, queue': seq<ProcessTreeNode>)
    requires WalkInv(root, nodes, order, queue) && queue != []
    requires order' == order + [queue[0]] && queue' == queue[1..] + queue[0].children
    ensures forall n, k :: n in nodes && (n == root || n in order') && 0 <= k < |n.children| ==>
              n.children[k] in order' + queue'
  {
    var cur := queue[0];
    assert order' + queue' == (order + queue) + cur.children;
    forall n, k | n in nodes && (n == root || n in order') && 0 <= k < |n.children|
      ensures n.children[k] in order' + queue'
    {
      if n != cur {
        assert n.children[k] in order + queue;
      } else {
        assert n.children[k] in cur.children;
      }
    }
  }

  /** Emitting a node not yet emitted shrinks the set of nodes left. */
  lemma WalkStepCount(nodes: set<ProcessTreeNode>, order: seq<ProcessTreeNode>, cur: ProcessTreeNode)
    requires cur in nodes && cur !in order
    ensures |nodes - set x | x in order + [cur]| < |nodes - set x | x in order|
  {
    ghost var before := set x | x in order;
    assert (set x | x in order + [cur]) == before + {cur};
    assert nodes - (set x | x in order + [cur]) == (nodes - before) - {cur};
  }

  /** The node at the head of the queue has not been emitted yet. */
  lemma DequeuedIsNew(order: seq<ProcessTreeNode>, queue: seq<ProcessTreeNode>)
    requires NoDuplicates(order + queue) && queue != []
    ensures queue[0] !in order
  {
    assert queue[0] == (order + queue)[|order|];
    forall i | 0 <= i < |order| ensures order[i] != queue[0] {
      assert order[i] == (order + queue)[i];
    }
  }

  /** The children of the node at the head of the queue are neither emitted
      nor queued: only their parent could have put them there. */
  lemma ChildrenAreNew(root: ProcessTreeNode, nodes: set<ProcessTreeNode>,
                       order: seq<ProcessTreeNode>, queue: seq<ProcessTreeNode>)
    requires WalkInv(root, nodes, order, queue) && queue != []
    ensures forall c :: c in queue[0].children ==> c !in order + queue
  {
    var cur := queue[0];
    DequeuedIsNew(order, queue);
    forall c | c in cur.children
      ensures c !in order + queue
    {
      var k :| 0 <= k < |cur.children| && cur.children[k] == c;
      assert c.parent == cur;
    }
  }

  /** Appending distinct new elements keeps a sequence free of duplicates. */
  lemma ConcatNoDuplicates(s: seq<ProcessTreeNode>, t: seq<ProcessTreeNode>)
    requires NoDuplicates(s) && NoDuplicates(t)
    requires forall x :: x in t ==> x !in s
    ensures NoDuplicates(s + t)
  {
    forall i, j | 0 <= i < j < |s + t|
      ensures (s + t)[i] != (s + t)[j]
    {
      if j >= |s| {
        assert (s + t)[j] == t[j - |s|];
        if i < |s| {
          assert (s + t)[i] == s[i];
          assert t[j - |s|] in t;
        }
      }
    }
  }

  /** Emitting the head of the queue keeps parents before their children. */
  lemma ParentsFirstStep(root: ProcessTreeNode, nodes: set<ProcessTreeNode>,
                         order: seq<ProcessTreeNode>, queue: seq<ProcessTreeNode>)
    requires WalkInv(root, nodes, order, queue) && queue != []
    ensures forall i, j ::
              (0 <= i < |order| + 1 && 0 <= j < |order| + 1 &&
               (order + [queue[0]])[j] == (order + [queue[0]])[i].parent) ==> j < i
  {
    var order' := order + [queue[0]];
    DequeuedIsNew(order, queue);
    forall i, j | 0 <= i < |order'| && 0 <= j < |order'| && order'[j] == order'[i].parent
      ensures j < i
    {
    }
  }

  /** `flat` is a breadth-first flattening of the tree under `root`, emitted
      in the order of `order`: one entry per node, each entry the node's
      record and its parent's pid; no node twice; exactly the nodes below the
      root (never the root itself); and every node after its parent. */
  ghost predicate FlatOfTree(root: ProcessTreeNode, nodes: set<ProcessTreeNode>,
                             flat: seq<FlatProcessNode>, order: seq<ProcessTreeNode>)
    reads nodes
  {
    && Shaped(root, nodes)
    && |flat| == |order|
    && (forall i :: 0 <= i < |order| ==>
          order[i] in nodes && order[i] != root && flat[i] == EntryOf(order[i]))
    && NoDuplicates(order)
    && (forall n :: n in nodes ==> (n in order <==> n != root && Reachable(n, root, nodes)))
    && (forall i :: 0 <= i < |order| ==>
          (order[i].parent == root || exists j :: 0 <= j < i && order[j] == order[i].parent))
  }

  /** When the queue runs dry, the emitted nodes are exactly the nodes below
      the root, each once, parents first. */
  lemma WalkDone(root: ProcessTreeNode, nodes: set<ProcessTreeNode>,
                 flat: seq<FlatProcessNode>, order: seq<ProcessTreeNode>)
    requires WalkInv(root, nodes, order, [])
    requires |flat| == |order| && forall i :: 0 <= i < |order| ==> flat[i] == EntryOf(order[i])
    ensures FlatOfTree(root, nodes, flat, order)
    ensures forall i :: 0 <= i < |order| ==> order[i] in nodes
    ensures NoDuplicates(order)
    ensures forall n :: n in nodes ==> (n in order <==> n != root && Reachable(n, root, nodes))
    ensures forall i :: 0 <= i < |order| ==>
              (order[i].parent == root || exists j :: 0 <= j < i && order[j] == order[i].parent)
  {
    assert order + [] == order;
    ReachableIsEmitted(root, nodes, order);
    EmittedIsReachable(root, nodes, order);
    forall n | n in nodes && n in order
      ensures n != root && Reachable(n, root, nodes)
    {
      var i :| 0 <= i < |order| && order[i] == n;
    }
  }

  /** After the walk: a node whose chain of parents meets the root was emitted. */
  lemma ReachableIsEmitted(root: ProcessTreeNode, nodes: set<ProcessTreeNode>, order: seq<ProcessTreeNode>)
    requires Shaped(root, nodes)
    requires forall n, k :: n in nodes && (n == root || n in order) && 0 <= k < |n.children| ==>
               n.children[k] in order
    ensures forall n :: n in nodes && n != root && Reachable(n, root, nodes) ==> n in order
  {
    forall n | n in nodes && n != root && Reachable(n, root, nodes)
      ensures n in order
    {
      var d: nat :| Ancestor(n, d, nodes) == root;
      ReachableIsEmittedAt(root, nodes, order, n, d);
    }
  }

  lemma {:induction false} ReachableIsEmittedAt(root: ProcessTreeNode, nodes: set<ProcessTreeNode>,
                                                order: seq<ProcessTreeNode>, n: ProcessTreeNode, d: nat)
    requires Shaped(root, nodes)
    requires forall n, k :: n in nodes && (n == root || n in order) && 0 <= k < |n.children| ==>
               n.children[k] in order
    requires n in nodes && n != root && Ancestor(n, d, nodes) == root
    ensures n in order
    decreases d
  {
    var p := n.parent;
    assert d > 0;
    assert Ancestor(p, d - 1, nodes) == root;
    var k :| 0 <= k < |p.children| && p.children[k] == n;
    if p != root {
      ReachableIsEmittedAt(root, nodes, order, p, d - 1);
    }
  }

  /** After the walk: every emitted node's chain of parents meets the root. */
  lemma EmittedIsReachable(root: ProcessTreeNode, nodes: set<ProcessTreeNode>, order: seq<ProcessTreeNode>)
    requires Shaped(root, nodes)
    requires forall i :: 0 <= i < |order| ==> order[i] in nodes && order[i] != root
    requires forall x :: x in order ==> x.parent == root || x.parent in order
    requires forall i, j :: 0 <= i < |order| && 0 <= j < |order| && order[j] == order[i].parent ==> j < i
    ensures forall i :: 0 <= i < |order| ==> Reachable(order[i], root, nodes)
    ensures forall i :: 0 <= i < |order| ==>
              (order[i].parent == root || exists j :: 0 <= j < i && order[j] == order[i].parent)
  {
    forall i | 0 <= i < |order|
      ensures Reachable(order[i], root, nodes)
    {
      var d := EmittedDepth(root, nodes, order, i);
      assert Ancestor(order[i], d, nodes) == root;
    }
    forall i | 0 <= i < |order| && order[i].parent != root
      ensures exists j :: 0 <= j < i && order[j] == order[i].parent
    {
      assert order[i] in order;
      var j :| 0 <= j < |order| && order[j] == order[i].parent;
    }
  }

  /** The number of links from the i-th emitted node up to the root. */
  lemma {:induction false} EmittedDepth(root: ProcessTreeNode, nodes: set<ProcessTreeNode>,
                                        order: seq<ProcessTreeNode>, i: nat) returns (d: nat)
    requires Shaped(root, nodes)
    requires forall i :: 0 <= i < |order| ==> order[i] in nodes && order[i] != root
    requires forall x :: x in order ==> x.parent == root || x.parent in order
    requires forall i, j :: 0 <= i < |order| && 0 <= j < |order| && order[j] == order[i].parent ==> j < i
    requires i < |order|
    ensures Ancestor(order[i], d, nodes) == root
    decreases i
  {
    var n := order[i];
    assert n in order;
    if n.parent == root {
      d := 1;
    } else {
      var j :| 0 <= j < |order| && order[j] == n.parent;
      var e := EmittedDepth(root, nodes, order, j);
      d := e + 1;
    }
  }
}

// WindowsProcessTreeBuilder::buildTree: one node per distinct non-zero pid
// (the later record wins), each node hung under the node of its parent pid
// or, when that pid has no node, under a synthetic root holding pid 0.
// The pid-level functions below say what the heap tree is; the lemmas say
// which nodes the flattening of such a tree reaches.

module WindowsProcessTreeBuilder {
  import opened Records
  import opened ProcessTree

  // ---------------------------------------------------------------------
  // Pid-level specification

  /** The node map of a snapshot: one record per non-zero pid, the last
      record with that pid winning. */
  function NodeRecords(ps: seq<ProcessInfo>): (m: map<Pid, ProcessInfo>)
    ensures 0 !in m
    ensures forall p :: p in m ==> m[p].pid == p
  {
    if ps == [] then map[]
    else
      var m := NodeRecords(ps[..|ps| - 1]);
      var last := ps[|ps| - 1];
      if last.pid != 0 then m[last.pid := last] else m
  }

  /** A pid gets a node iff it is non-zero and some record carries it. */
  lemma {:induction false} NodeRecordsKeys(ps: seq<ProcessInfo>, p: Pid)
    ensures p in NodeRecords(ps) <==> p != 0 && exists i :: 0 <= i < |ps| && ps[i].pid == p
    decreases |ps|
  {
    if ps != [] {
      var init, last := ps[..|ps| - 1], ps[|ps| - 1];
      NodeRecordsKeys(init, p);
      if p != 0 && (exists i :: 0 <= i < |ps| && ps[i].pid == p) {
        var i :| 0 <= i < |ps| && ps[i].pid == p;
        if i < |init| {
          assert init[i].pid == p;
        }
      }
      if p in NodeRecords(ps) && last.pid != p {
        var i :| 0 <= i < |init| && init[i].pid == p;
        assert ps[i].pid == p;
      }
    }
  }

  /** The node of a pid holds the last record that carries it. */
  lemma {:induction false} NodeRecordsLastWins(ps: seq<ProcessInfo>, p: Pid)
    requires p in NodeRecords(ps)
    ensures exists i :: 0 <= i < |ps| && ps[i] == NodeRecords(ps)[p] &&
                        forall j :: i < j < |ps| ==> ps[j].pid != p
    decreases |ps|
  {
    var init, last := ps[..|ps| - 1], ps[|ps| - 1];
    if last.pid == p {
      assert ps[|ps| - 1] == NodeRecords(ps)[p];
    } else {
      assert p in NodeRecords(init);
      NodeRecordsLastWins(init, p);
      var i :| 0 <= i < |init| && init[i] == NodeRecords(init)[p] &&
               forall j :: i < j < |init| ==> init[j].pid != p;
      assert ps[i] == init[i];
      assert forall j :: i < j < |ps| ==> ps[j].pid != p by {
        forall j | i < j < |ps|
          ensures ps[j].pid != p
        {
          if j < |init| {
            assert ps[j] == init[j];
          }
        }
      }
    }
  }

  /** The pid of the node a node is attached to: its parent pid when that pid
      has a node, otherwise 0, the synthetic root. */
  function Attach(m: map<Pid, ProcessInfo>, p: Pid): (a: Pid)
    requires p in m
    ensures a == 0 || a in m
    ensures a == m[p].parentPID || (a == 0 && m[p].parentPID !in m)
  {
    if m[p].parentPID in m then m[p].parentPID else 0
  }

  /** The pid d attachment links above p; pids without a node (0 above all)
      stay where they are. */
  function Up(m: map<Pid, ProcessInfo>, p: Pid, d: nat): (q: Pid)
    decreases d
  {
    if d == 0 || p !in m then p else Up(m, Attach(m, p), d - 1)
  }

  /** The attachment chain of p ends at the synthetic root: exactly the nodes
      the flattening reaches. */
  ghost predicate Reaches(m: map<Pid, ProcessInfo>, p: Pid)
  {
    exists d: nat :: Up(m, p, d) == 0
  }

  /** A node is reached iff it is attached to the root or to a reached node. */
  lemma ReachesStep(m: map<Pid, ProcessInfo>, p: Pid)
    requires 0 !in m && p in m
    ensures Reaches(m, p) <==> Attach(m, p) == 0 || Reaches(m, Attach(m, p))
  {
    var a := Attach(m, p);
    if Reaches(m, p) {
      var d: nat :| Up(m, p, d) == 0;
      assert d > 0;
      assert Up(m, a, d - 1) == 0;
    }
    if a == 0 {
      assert Up(m, p, 1) == 0;
    } else if Reaches(m, a) {
      var d: nat :| Up(m, a, d) == 0;
      assert Up(m, p, d + 1) == 0;
    }
  }

  /** A record whose parent pid has no node (0, an exited process, a
      placeholder such as the kernel's pid 4) is reached. */
  lemma OrphanIsReached(m: map<Pid, ProcessInfo>, p: Pid)
    requires 0 !in m && p in m && m[p].parentPID !in m
    ensures Reaches(m, p)
  {
    assert Up(m, p, 1) == 0;
  }

  /** Walking k links and then d more is walking k + d links. */
  lemma {:induction false} UpAdd(m: map<Pid, ProcessInfo>, p: Pid, k: nat, d: nat)
    ensures Up(m, Up(m, p, k), d) == Up(m, p, k + d)
    decreases k
  {
    if k > 0 && p in m {
      UpAdd(m, Attach(m, p), k - 1, d);
    } else if k > 0 {
      UpNotInMap(m, p, d);
      UpNotInMap(m, p, k + d);
    }
  }

  lemma {:induction false} UpNotInMap(m: map<Pid, ProcessInfo>, p: Pid, d: nat)
    requires p !in m
    ensures Up(m, p, d) == p
  {
  }

  /** A pid on an attachment cycle (Up(m, p, k) == p with k >= 1) is never
      reached: the cycle is hung inside itself, not under the root. */
  lemma CycleIsNotReached(m: map<Pid, ProcessInfo>, p: Pid, k: nat)
    requires 0 !in m && p in m && k >= 1 && Up(m, p, k) == p
    ensures !Reaches(m, p)
  {
    if Reaches(m, p) {
      var d: nat :| Up(m, p, d) == 0;
      UpPeriodic(m, p, k, d);
      UpZeroStays(m, p, d, d * k);
      assert false;
    }
  }

  /** On a cycle of length k, every multiple of k links leads back to p. */
  lemma {:induction false} UpPeriodic(m: map<Pid, ProcessInfo>, p: Pid, k: nat, n: nat)
    requires Up(m, p, k) == p
    ensures Up(m, p, n * k) == p
    decreases n
  {
    if n > 0 {
      UpPeriodic(m, p, k, n - 1);
      UpAdd(m, p, (n - 1) * k, k);
      assert (n - 1) * k + k == n * k;
    }
  }

  /** Once the chain reaches the root it stays there. */
  lemma UpZeroStays(m: map<Pid, ProcessInfo>, p: Pid, d: nat, e: nat)
    requires 0 !in m && Up(m, p, d) == 0 && d <= e
    ensures Up(m, p, e) == 0
  {
    UpAdd(m, p, d, e - d);
    UpNotInMap(m, 0, e - d);
  }

  /** A record that names itself as its parent is not reached. */
  lemma SelfParentIsNotReached(m: map<Pid, ProcessInfo>, p: Pid)
    requires 0 !in m && p in m && m[p].parentPID == p
    ensures !Reaches(m, p)
  {
    assert Up(m, p, 1) == Up(m, p, 0);
    CycleIsNotReached(m, p, 1);
  }

  /** Two records naming each other as parents are not reached. */
  lemma MutualParentsAreNotReached(m: map<Pid, ProcessInfo>, p: Pid, q: Pid)
    requires 0 !in m && p in m && q in m && m[p].parentPID == q && m[q].parentPID == p
    ensures !Reaches(m, p) && !Reaches(m, q)
  {
    assert Up(m, q, 1) == p;
    assert Up(m, p, 2) == Up(m, q, 1);
    CycleIsNotReached(m, p, 2);
    assert Up(m, p, 1) == q;
    assert Up(m, q, 2) == Up(m, p, 1);
    CycleIsNotReached(m, q, 2);
  }

  // ---------------------------------------------------------------------
  // The heap tree

  /** The node a pid is attached to in a built tree. */
  ghost function NodeFor(root: ProcessTreeNode, nodeOf: map<Pid, ProcessTreeNode>, a: Pid): (n: ProcessTreeNode)
  {
    if a in nodeOf then nodeOf[a] else root
  }

  /** `root`, `nodes` and `nodeOf` are the tree buildTree makes of `ps`: a root
      holding the default record, one distinct node per key of the node map
      holding that key's record, each node's parent the node of its
      attachment pid, and the local tree shape. */
  ghost predicate BuiltFrom(ps: seq<ProcessInfo>, root: ProcessTreeNode, nodes: set<ProcessTreeNode>,
                            nodeOf: map<Pid, ProcessTreeNode>)
    reads nodes
  {
    var m := NodeRecords(ps);
    && Shaped(root, nodes)
    && root.data == DefaultInfo
    && nodes == {root} + nodeOf.Values
    && nodeOf.Keys == m.Keys
    && (forall p :: p in nodeOf ==> nodeOf[p] != root && nodeOf[p].data == m[p])
    && (forall p, q :: p in nodeOf && q in nodeOf && p != q ==> nodeOf[p] != nodeOf[q])
    && (forall p :: p in nodeOf ==> nodeOf[p].parent == NodeFor(root, nodeOf, Attach(m, p)))
  }

  /** The record held by each node. */
  ghost function DataOf(nodes: set<ProcessTreeNode>): (d: map<ProcessTreeNode, ProcessInfo>)
    reads nodes
    ensures d.Keys == nodes && forall n :: n in nodes ==> d[n] == n.data
  {
    map n | n in nodes :: n.data
  }

  /** The parent link of each node. */
  ghost function ParentsOf(nodes: set<ProcessTreeNode>): (ps: map<ProcessTreeNode, ProcessTreeNode?>)
    reads nodes
    ensures ps.Keys == nodes && forall n :: n in nodes ==> ps[n] == n.parent
  {
    map n | n in nodes :: n.parent
  }

  /** The children list of each node. */
  ghost function KidsOf(nodes: set<ProcessTreeNode>): (ks: map<ProcessTreeNode, seq<ProcessTreeNode>>)
    reads nodes
    ensures ks.Keys == nodes && forall n :: n in nodes ==> ks[n] == n.children
  {
    map n | n in nodes :: n.children
  }


  /** What the attaching loop of buildTree keeps true while `todo` holds the
      pids not yet attached, stated over a snapshot of the nodes' fields
      (`data`, `par`, `kids`): every node holds its record; attached nodes
      point to the node of their attachment pid and sit in its children; nodes
      still to do point to the root and sit in no list; children point back to
      the node whose list holds them; no list holds a node twice. */
  ghost predicate AttachState(m: map<Pid, ProcessInfo>, r: ProcessTreeNode, nodes: set<ProcessTreeNode>,
                              nodeMap: map<Pid, ProcessTreeNode>, todo: set<Pid>,
                              data: map<ProcessTreeNode, ProcessInfo>,
                              par: map<ProcessTreeNode, ProcessTreeNode?>,
                              kids: map<ProcessTreeNode, seq<ProcessTreeNode>>)
  {
    && data.Keys == nodes && par.Keys == nodes && kids.Keys == nodes
    && nodes == {r} + nodeMap.Values
    && todo <= nodeMap.Keys && nodeMap.Keys == m.Keys && 0 !in m
    && data[r] == DefaultInfo && par[r] == null
    && (forall p :: p in m ==> m[p].pid == p)
    && (forall p :: p in nodeMap ==> nodeMap[p] != r && data[nodeMap[p]] == m[p])
    && (forall p, q :: p in nodeMap && q in nodeMap && p != q ==> nodeMap[p] != nodeMap[q])
    && (forall p :: p in todo ==> par[nodeMap[p]] == r)
    && (forall p :: p in nodeMap && p !in todo ==>
          par[nodeMap[p]] == NodeFor(r, nodeMap, Attach(m, p)) &&
          nodeMap[p] in kids[NodeFor(r, nodeMap, Attach(m, p))])
    && (forall n, k :: n in nodes && 0 <= k < |kids[n]| ==>
          && kids[n][k] in nodes && kids[n][k] != r
          && data[kids[n][k]].pid !in todo
          && par[kids[n][k]] == n)
    && (forall n, k, l :: n in nodes && 0 <= k < l < |kids[n]| ==> kids[n][k] != kids[n][l])
  }

  /** The attaching invariant on the current heap. */
  ghost predicate AttachInv(m: map<Pid, ProcessInfo>, r: ProcessTreeNode, nodes: set<ProcessTreeNode>,
                            nodeMap: map<Pid, ProcessTreeNode>, todo: set<Pid>)
    reads nodes
  {
    AttachState(m, r, nodes, nodeMap, todo, DataOf(nodes), ParentsOf(nodes), KidsOf(nodes))
  }

  /** Before the attaching loop every node is parented to the root and has no
      children. */
  lemma AttachStart(m: map<Pid, ProcessInfo>, r: ProcessTreeNode, nodes: set<ProcessTreeNode>,
                    nodeMap: map<Pid, ProcessTreeNode>)
    requires nodes == {r} + nodeMap.Values && nodeMap.Keys == m.Keys && 0 !in m
    requires r.data == DefaultInfo && r.parent == null && r.children == []
    requires forall p :: p in m ==> m[p].pid == p
    requires forall p :: p in nodeMap ==>
               nodeMap[p] != r && nodeMap[p].data == m[p] && nodeMap[p].parent == r && nodeMap[p].children == []
    requires forall p, q :: p in nodeMap && q in nodeMap && p != q ==> nodeMap[p] != nodeMap[q]
    ensures AttachInv(m, r, nodes, nodeMap, nodeMap.Keys)
  {
    forall n | n in nodes
      ensures n.children == []
    {
      if n != r {
        var p :| p in nodeMap && nodeMap[p] == n;
      }
    }
  }

  /** The node a pid is attached to is one of the nodes. */
  lemma NodeForIsNode(r: ProcessTreeNode, nodes: set<ProcessTreeNode>, nodeMap: map<Pid, ProcessTreeNode>, a: Pid)
    requires nodes == {r} + nodeMap.Values
    ensures NodeFor(r, nodeMap, a) in nodes
  {
    if a in nodeMap {
      assert nodeMap[a] in nodeMap.Values;
    }
  }

  /** Attaching the node of `pid` to the node of its attachment pid keeps the
      parent links of the attaching invariant, with `pid` done. */
  lemma AttachStepParents(m: map<Pid, ProcessInfo>, r: ProcessTreeNode, nodes: set<ProcessTreeNode>,
                          nodeMap: map<Pid, ProcessTreeNode>, todo: set<Pid>,
                          data: map<ProcessTreeNode, ProcessInfo>,
                          par: map<ProcessTreeNode, ProcessTreeNode?>,
                          kids: map<ProcessTreeNode, seq<ProcessTreeNode>>, pid: Pid)
    requires AttachState(m, r, nodes, nodeMap, todo, data, par, kids) && pid in todo
    ensures var t := NodeFor(r, nodeMap, Attach(m, pid));
            var par' := par[nodeMap[pid] := t];
            var kids' := kids[t := kids[t] + [nodeMap[pid]]];
            && t in nodes
            && (forall p :: p in todo - {pid} ==> par'[nodeMap[p]] == r)
            && (forall p :: p in nodeMap && p !in todo - {pid} ==>
                  par'[nodeMap[p]] == NodeFor(r, nodeMap, Attach(m, p)) &&
                  nodeMap[p] in kids'[NodeFor(r, nodeMap, Attach(m, p))])
  {
    var node, t := nodeMap[pid], NodeFor(r, nodeMap, Attach(m, pid));
    NodeForIsNode(r, nodes, nodeMap, Attach(m, pid));
    var par', kids' := par[node := t], kids[t := kids[t] + [node]];
    forall p | p in nodeMap && p !in todo - {pid}
      ensures par'[nodeMap[p]] == NodeFor(r, nodeMap, Attach(m, p)) &&
              nodeMap[p] in kids'[NodeFor(r, nodeMap, Attach(m, p))]
    {
      var tp := NodeFor(r, nodeMap, Attach(m, p));
      if p != pid {
        assert nodeMap[p] in kids[tp];
        assert kids[tp] <= kids'[tp];
      } else {
        assert kids'[t][|kids'[t]| - 1] == node;
      }
    }
  }

  /** The children lists after one attachment. */
  lemma AttachStepChildren(m: map<Pid, ProcessInfo>, r: ProcessTreeNode, nodes: set<ProcessTreeNode>,
                           nodeMap: map<Pid, ProcessTreeNode>, todo: set<Pid>,
                           data: map<ProcessTreeNode, ProcessInfo>,
                           par: map<ProcessTreeNode, ProcessTreeNode?>,
                           kids: map<ProcessTreeNode, seq<ProcessTreeNode>>, pid: Pid)
    requires AttachState(m, r, nodes, nodeMap, todo, data, par, kids) && pid in todo
    ensures var t := NodeFor(r, nodeMap, Attach(m, pid));
            var par' := par[nodeMap[pid] := t];
            var kids' := kids[t := kids[t] + [nodeMap[pid]]];
            && (forall n, k :: n in nodes && 0 <= k < |kids'[n]| ==>
                  && kids'[n][k] in nodes && kids'[n][k] != r
                  && data[kids'[n][k]].pid !in todo - {pid}
                  && par'[kids'[n][k]] == n)
            && (forall n, k, l :: n in nodes && 0 <= k < l < |kids'[n]| ==> kids'[n][k] != kids'[n][l])
  {
    var node, t := nodeMap[pid], NodeFor(r, nodeMap, Attach(m, pid));
    NodeForIsNode(r, nodes, nodeMap, Attach(m, pid));
    var par', kids' := par[node := t], kids[t := kids[t] + [node]];
    assert node in nodes;
    forall n, k | n in nodes && 0 <= k < |kids'[n]|
      ensures && kids'[n][k] in nodes && kids'[n][k] != r
              && data[kids'[n][k]].pid !in todo - {pid}
              && par'[kids'[n][k]] == n
    {
      if n == t && k == |kids'[n]| - 1 {
        assert kids'[n][k] == node;
      } else {
        assert kids'[n][k] == kids[n][k];
        assert data[kids[n][k]].pid !in todo;
        assert kids[n][k] != node by {
          assert data[node].pid == pid;
        }
      }
    }
    forall n, k, l | n in nodes && 0 <= k < l < |kids'[n]|
      ensures kids'[n][k] != kids'[n][l]
    {
      if n == t && l == |kids'[n]| - 1 {
        assert kids'[n][k] == kids[n][k];
        assert data[kids[n][k]].pid != pid;
        assert data[node].pid == pid;
      }
    }
  }

  /** One attachment keeps the attaching invariant, with `pid` done. */
  lemma AttachStep(m: map<Pid, ProcessInfo>, r: ProcessTreeNode, nodes: set<ProcessTreeNode>,
                   nodeMap: map<Pid, ProcessTreeNode>, todo: set<Pid>,
                   data: map<ProcessTreeNode, ProcessInfo>,
                   par: map<ProcessTreeNode, ProcessTreeNode?>,
                   kids: map<ProcessTreeNode, seq<ProcessTreeNode>>, pid: Pid)
    requires AttachState(m, r, nodes, nodeMap, todo, data, par, kids) && pid in todo
    ensures var t := NodeFor(r, nodeMap, Attach(m, pid));
            && t in nodes
            && AttachState(m, r, nodes, nodeMap, todo - {pid}, data,
                           par[nodeMap[pid] := t], kids[t := kids[t] + [nodeMap[pid]]])
  {
    AttachStepParents(m, r, nodes, nodeMap, todo, data, par, kids, pid);
    AttachStepChildren(m, r, nodes, nodeMap, todo, data, par, kids, pid);
    assert nodeMap[pid] != r;
  }

  /** After the heap writes of one attachment, the nodes' fields are the
      earlier snapshot with that attachment applied. */
  lemma SnapshotAfterAttach(nodes: set<ProcessTreeNode>, node: ProcessTreeNode, target: ProcessTreeNode,
                            data0: map<ProcessTreeNode, ProcessInfo>,
                            par0: map<ProcessTreeNode, ProcessTreeNode?>,
                            kids0: map<ProcessTreeNode, seq<ProcessTreeNode>>)
    requires data0.Keys == nodes && par0.Keys == nodes && kids0.Keys == nodes
    requires node in nodes && target in nodes
    requires forall n :: n in nodes ==> n.data == data0[n]
    requires node.parent == target
    requires forall n :: n in nodes && n != node ==> n.parent == par0[n]
    requires target.children == kids0[target] + [node]
    requires forall n :: n in nodes && n != target ==> n.children == kids0[n]
    ensures DataOf(nodes) == data0
    ensures ParentsOf(nodes) == par0[node := target]
    ensures KidsOf(nodes) == kids0[target := kids0[target] + [node]]
  {
  }

  /** Makes `node` a child of `parent`: its parent link is set and it is
      appended to the parent's children; the snapshot of the nodes' fields
      changes by exactly that. */
  method Adopt(parent: ProcessTreeNode, node: ProcessTreeNode, ghost nodes: set<ProcessTreeNode>,
               ghost data0: map<ProcessTreeNode, ProcessInfo>,
               ghost par0: map<ProcessTreeNode, ProcessTreeNode?>,
               ghost kids0: map<ProcessTreeNode, seq<ProcessTreeNode>>)
    requires node in nodes && parent in nodes
    requires data0 == DataOf(nodes) && par0 == ParentsOf(nodes) && kids0 == KidsOf(nodes)
    modifies node, parent
    ensures node.parent == parent && parent.children == old(parent.children) + [node]
    ensures DataOf(nodes) == data0
    ensures ParentsOf(nodes) == par0[node := parent]
    ensures KidsOf(nodes) == kids0[parent := kids0[parent] + [node]]
  {
    node.parent := parent;
    parent.children := parent.children + [node];
    SnapshotAfterAttach(nodes, node, parent, data0, par0, kids0);
  }

  /** With nothing left to attach, the nodes have the local tree shape. */
  lemma AttachDoneShape(m: map<Pid, ProcessInfo>, r: ProcessTreeNode, nodes: set<ProcessTreeNode>,
                        nodeMap: map<Pid, ProcessTreeNode>)
    requires AttachInv(m, r, nodes, nodeMap, {})
    ensures Shaped(r, nodes)
  {
    var par, kids := ParentsOf(nodes), KidsOf(nodes);
    forall n, i | n in nodes && 0 <= i < |n.children|
      ensures n.children[i] in nodes && n.children[i].parent == n && n.children[i] != r
    {
      assert n.children[i] == kids[n][i];
    }
    forall n | n in nodes && n != r
      ensures n.parent != null && n.parent in nodes && n in n.parent.children
    {
      var p :| p in nodeMap && nodeMap[p] == n;
      NodeForIsNode(r, nodes, nodeMap, Attach(m, p));
    }
  }

  /** With nothing left to attach, the invariant is the built tree. */
  lemma AttachDone(ps: seq<ProcessInfo>, r: ProcessTreeNode, nodes: set<ProcessTreeNode>,
                   nodeMap: map<Pid, ProcessTreeNode>)
    requires AttachInv(NodeRecords(ps), r, nodes, nodeMap, {})
    ensures BuiltFrom(ps, r, nodes, nodeMap)
  {
    var m := NodeRecords(ps);
    AttachDoneShape(m, r, nodes, nodeMap);
    forall p | p in nodeMap
      ensures nodeMap[p] != r && nodeMap[p].data == m[p]
      ensures nodeMap[p].parent == NodeFor(r, nodeMap, Attach(m, p))
    {
      assert nodeMap[p] in nodes;
    }
  }

  /** One step of buildTree's attaching loop: the node of `pid` is appended to
      the children of its parent pid's node, or of the root when that pid has
      no node. */
  method AttachOne(tree: ProcessTree, r: ProcessTreeNode, nodeMap: map<Pid, ProcessTreeNode>,
                   ghost m: map<Pid, ProcessInfo>, ghost nodes: set<ProcessTreeNode>,
                   ghost todo: set<Pid>, pid: Pid)
    requires tree.root == r
    requires AttachInv(m, r, nodes, nodeMap, todo) && pid in todo
    modifies nodeMap[pid], NodeFor(r, nodeMap, Attach(m, pid))
    ensures AttachInv(m, r, nodes, nodeMap, todo - {pid})
  {
    var node := nodeMap[pid];
    var ppid := node.data.parentPID;
    var parent := if ppid in nodeMap then nodeMap[ppid] else null;
    ghost var target := NodeFor(r, nodeMap, Attach(m, pid));
    ghost var data0, par0, kids0 := DataOf(nodes), ParentsOf(nodes), KidsOf(nodes);
    AttachStep(m, r, nodes, nodeMap, todo, data0, par0, kids0, pid);
    assert node in nodes && data0[node] == m[pid];
    assert parent == (if target == r then null else target);
    if parent != null {
      Adopt(parent, node, nodes, data0, par0, kids0);
    } else {
      var root := tree.GetRoot();
      Adopt(root, node, nodes, data0, par0, kids0);
    }
  }

  /** The first loop of buildTree: one fresh node per record with a non-zero
      pid, a later record overwriting an earlier one with the same pid, each
      provisionally parented to the root and childless. */
  method CreateNodes(tree: ProcessTree, processes: seq<ProcessInfo>)
    returns (nodeMap: map<Pid, ProcessTreeNode>, ghost nodes: set<ProcessTreeNode>)
    requires tree.root != null
    requires tree.root.data == DefaultInfo && tree.root.parent == null && tree.root.children == []
    modifies tree
    ensures tree.root == old(tree.root) && tree.Nodes == nodes
    ensures nodes == {tree.root} + nodeMap.Values
    ensures forall n :: n in nodes && n != tree.root ==> fresh(n)
    ensures AttachInv(NodeRecords(processes), tree.root, nodes, nodeMap, nodeMap.Keys)
  {
    nodeMap := map[];
    var i := 0;
    while i < |processes|
      invariant 0 <= i <= |processes|
      invariant tree.root == old(tree.root) && tree.root != null
      invariant tree.root.data == DefaultInfo && tree.root.parent == null && tree.root.children == []
      invariant nodeMap.Keys == NodeRecords(processes[..i]).Keys
      invariant forall p :: p in nodeMap ==>
                  && fresh(nodeMap[p]) && nodeMap[p] != tree.root
                  && nodeMap[p].data == NodeRecords(processes[..i])[p]
                  && nodeMap[p].parent == tree.root && nodeMap[p].children == []
      invariant forall p, q :: p in nodeMap && q in nodeMap && p != q ==> nodeMap[p] != nodeMap[q]
    {
      assert processes[..i + 1][..i] == processes[..i];
      var info := processes[i];
      if info.pid != 0 {
        var root := tree.GetRoot();
        var node := new ProcessTreeNode(info, root);
        nodeMap := nodeMap[info.pid := node];
      }
      i := i + 1;
    }
    assert processes[..i] == processes;
    nodes := {tree.root} + nodeMap.Values;
    tree.Nodes := nodes;
    forall n | n in nodes && n != tree.root
      ensures fresh(n)
    {
      var p :| p in nodeMap && nodeMap[p] == n;
    }
    AttachStart(NodeRecords(processes), tree.root, nodes, nodeMap);
  }

  /** The second loop of buildTree: every node is attached, in the hash's
      unspecified order. */
  method AttachAll(tree: ProcessTree, r: ProcessTreeNode, nodeMap: map<Pid, ProcessTreeNode>,
                   ghost ps: seq<ProcessInfo>, ghost nodes: set<ProcessTreeNode>)
    requires tree.root == r
    requires AttachInv(NodeRecords(ps), r, nodes, nodeMap, nodeMap.Keys)
    modifies nodes
    ensures BuiltFrom(ps, r, nodes, nodeMap)
  {
    ghost var m := NodeRecords(ps);
    var todo := nodeMap.Keys;
    while todo != {}
      invariant AttachInv(m, r, nodes, nodeMap, todo)
      decreases todo
    {
      var pid :| pid in todo;
      AttachOne(tree, r, nodeMap, m, nodes, todo, pid);
      todo := todo - {pid};
    }
    AttachDone(ps, r, nodes, nodeMap);
  }

  /** buildTree: first one fresh node per record with a non-zero pid (a later
      record overwriting an earlier one with the same pid), all provisionally
      parented to the root; then, in the hash's unspecified order, each node
      is appended to the children of its parent pid's node, or of the root when
      that pid has no node. */
  method BuildTree(processes: seq<ProcessInfo>) returns (tree: ProcessTree, ghost nodeOf: map<Pid, ProcessTreeNode>)
    ensures fresh(tree) && tree.root != null && fresh(tree.root)
    ensures tree.Valid()
    ensures BuiltFrom(processes, tree.root, tree.Nodes, nodeOf)
  {
    tree := new ProcessTree();
    var r := new ProcessTreeNode(DefaultInfo, null);
    tree.SetRoot(r, {r});
    var nodeMap, nodes := CreateNodes(tree, processes);
    AttachAll(tree, r, nodeMap, processes, nodes);
    nodeOf := nodeMap;
  }

  // ---------------------------------------------------------------------
  // From the heap tree back to pids

  /** The parent links of a built tree, which is all the reachability
      lemmas below use of it. */
  ghost predicate LinkedBy(m: map<Pid, ProcessInfo>, root: ProcessTreeNode, nodes: set<ProcessTreeNode>,
                           nodeOf: map<Pid, ProcessTreeNode>)
    reads nodes
  {
    && 0 !in m && nodeOf.Keys == m.Keys && root in nodes
    && (forall p :: p in nodeOf ==>
          && nodeOf[p] in nodes && nodeOf[p] != root
          && nodeOf[p].parent == NodeFor(root, nodeOf, Attach(m, p)))
  }

  /** A built tree has the parent links of its node map. */
  lemma BuiltIsLinked(ps: seq<ProcessInfo>, root: ProcessTreeNode, nodes: set<ProcessTreeNode>,
                      nodeOf: map<Pid, ProcessTreeNode>)
    requires BuiltFrom(ps, root, nodes, nodeOf)
    ensures LinkedBy(NodeRecords(ps), root, nodes, nodeOf)
  {
    forall p | p in nodeOf
      ensures nodeOf[p] in nodes
    {
      assert nodeOf[p] in nodeOf.Values;
    }
  }

  /** A parent-link path from a node of a built tree to the root is an
      attachment chain from its pid to the root. */
  lemma {:induction false} AncestorToUp(m: map<Pid, ProcessInfo>, root: ProcessTreeNode, nodes: set<ProcessTreeNode>,
                                        nodeOf: map<Pid, ProcessTreeNode>, p: Pid, d: nat)
    requires LinkedBy(m, root, nodes, nodeOf)
    requires p in nodeOf && Ancestor(nodeOf[p], d, nodes) == root
    ensures Up(m, p, d) == 0
    decreases d
  {
    assert d > 0;
    var a := Attach(m, p);
    assert Ancestor(nodeOf[p], d, nodes) == Ancestor(nodeOf[p].parent, d - 1, nodes);
    if a == 0 {
      UpNotInMap(m, 0, d - 1);
    } else {
      AncestorToUp(m, root, nodes, nodeOf, a, d - 1);
    }
  }

  /** An attachment chain from a pid to the root is a parent-link path from
      its node to the root. */
  lemma {:induction false} UpToAncestor(m: map<Pid, ProcessInfo>, root: ProcessTreeNode, nodes: set<ProcessTreeNode>,
                                        nodeOf: map<Pid, ProcessTreeNode>, p: Pid, d: nat)
    requires LinkedBy(m, root, nodes, nodeOf)
    requires p in nodeOf && Up(m, p, d) == 0
    ensures Reachable(nodeOf[p], root, nodes)
    decreases d
  {
    var a := Attach(m, p);
    if a == 0 {
      assert Ancestor(nodeOf[p], 1, nodes) == Ancestor(root, 0, nodes);
    } else {
      UpToAncestor(m, root, nodes, nodeOf, a, d - 1);
      var e: nat :| Ancestor(nodeOf[a], e, nodes) == root;
      assert Ancestor(nodeOf[p], e + 1, nodes) == root;
    }
  }

  /** A node of a built tree is reachable from the root iff its pid's
      attachment chain ends at the root. */
  lemma ReachableIffReaches(ps: seq<ProcessInfo>, root: ProcessTreeNode, nodes: set<ProcessTreeNode>,
                            nodeOf: map<Pid, ProcessTreeNode>, p: Pid)
    requires BuiltFrom(ps, root, nodes, nodeOf)
    requires p in nodeOf
    ensures Reachable(nodeOf[p], root, nodes) <==> Reaches(NodeRecords(ps), p)
  {
    var m := NodeRecords(ps);
    BuiltIsLinked(ps, root, nodes, nodeOf);
    if Reachable(nodeOf[p], root, nodes) {
      var d: nat :| Ancestor(nodeOf[p], d, nodes) == root;
      AncestorToUp(m, root, nodes, nodeOf, p, d);
    }
    if Reaches(m, p) {
      var d: nat :| Up(m, p, d) == 0;
      UpToAncestor(m, root, nodes, nodeOf, p, d);
    }
  }

  /** In a built tree every non-root node sits in exactly one children list:
      its parent's. */
  lemma ChildOfExactlyOne(ps: seq<ProcessInfo>, root: ProcessTreeNode, nodes: set<ProcessTreeNode>,
                          nodeOf: map<Pid, ProcessTreeNode>, n: ProcessTreeNode, holder: ProcessTreeNode)
    requires BuiltFrom(ps, root, nodes, nodeOf)
    requires n in nodes && n != root && holder in nodes
    ensures n in holder.children <==> holder == n.parent
  {
    if n in holder.children {
      var k :| 0 <= k < |holder.children| && holder.children[k] == n;
    }
  }

  // ---------------------------------------------------------------------
  // The flat snapshot

  /** What the flat list of a snapshot of `ps` is, at the level of pids:
      no pid twice; each entry holds the record that won for its pid and the
      pid it was attached to (0 for the root); a pid of the node map is
      emitted iff its attachment chain ends at the root; an entry with a
      non-zero parent pid comes after the entry of that parent. */
  ghost predicate IsSnapshot(ps: seq<ProcessInfo>, flat: seq<FlatProcessNode>)
  {
    var m := NodeRecords(ps);
    && DistinctPids(flat)
    && (forall i :: 0 <= i < |flat| ==>
          && flat[i].info.pid in m
          && flat[i].info == m[flat[i].info.pid]
          && flat[i].parentPID == Attach(m, flat[i].info.pid))
    && (forall p :: p in m ==> (p in PidsOf(flat) <==> Reaches(m, p)))
    && (forall i :: 0 <= i < |flat| && flat[i].parentPID != 0 ==>
          exists j :: 0 <= j < i && flat[j].info.pid == flat[i].parentPID)
  }

  /** A non-root node of a built tree is the node of its own pid. */
  lemma NodeOfOwnPid(ps: seq<ProcessInfo>, root: ProcessTreeNode, nodes: set<ProcessTreeNode>,
                     nodeOf: map<Pid, ProcessTreeNode>, n: ProcessTreeNode)
    requires BuiltFrom(ps, root, nodes, nodeOf)
    requires n in nodes && n != root
    ensures n.data.pid in nodeOf && nodeOf[n.data.pid] == n
  {
    var p :| p in nodeOf && nodeOf[p] == n;
  }

  /** The entry emitted for a non-root node of a built tree holds the record
      of its pid and the pid it is attached to. */
  lemma EntryOfBuilt(ps: seq<ProcessInfo>, root: ProcessTreeNode, nodes: set<ProcessTreeNode>,
                     nodeOf: map<Pid, ProcessTreeNode>, n: ProcessTreeNode)
    requires BuiltFrom(ps, root, nodes, nodeOf)
    requires n in nodes && n != root
    ensures n.data.pid in NodeRecords(ps)
    ensures EntryOf(n).info == NodeRecords(ps)[n.data.pid]
    ensures EntryOf(n).parentPID == Attach(NodeRecords(ps), n.data.pid)
  {
    var m := NodeRecords(ps);
    NodeOfOwnPid(ps, root, nodes, nodeOf, n);
    var a := Attach(m, n.data.pid);
    if a != 0 {
      assert nodeOf[a].data == m[a];
    }
  }

  /** The flattening of a built tree is a snapshot of the records. */
  lemma SnapshotOfBuiltTree(ps: seq<ProcessInfo>, root: ProcessTreeNode, nodes: set<ProcessTreeNode>,
                            nodeOf: map<Pid, ProcessTreeNode>, flat: seq<FlatProcessNode>,
                            order: seq<ProcessTreeNode>)
    requires BuiltFrom(ps, root, nodes, nodeOf)
    requires FlatOfTree(root, nodes, flat, order)
    ensures IsSnapshot(ps, flat)
  {
    var m := NodeRecords(ps);
    forall i | 0 <= i < |flat|
      ensures && flat[i].info.pid in m
              && flat[i].info == m[flat[i].info.pid]
              && flat[i].parentPID == Attach(m, flat[i].info.pid)
    {
      EntryOfBuilt(ps, root, nodes, nodeOf, order[i]);
    }
    forall i, j | 0 <= i < j < |flat|
      ensures flat[i].info.pid != flat[j].info.pid
    {
      NodeOfOwnPid(ps, root, nodes, nodeOf, order[i]);
      NodeOfOwnPid(ps, root, nodes, nodeOf, order[j]);
    }
    forall p | p in m
      ensures p in PidsOf(flat) <==> Reaches(m, p)
    {
      assert nodeOf[p] in nodes && nodeOf[p] != root;
      ReachableIffReaches(ps, root, nodes, nodeOf, p);
      if p in PidsOf(flat) {
        var i :| 0 <= i < |flat| && flat[i].info.pid == p;
        NodeOfOwnPid(ps, root, nodes, nodeOf, order[i]);
      }
      if nodeOf[p] in order {
        var i :| 0 <= i < |order| && order[i] == nodeOf[p];
        assert flat[i].info.pid == p;
      }
    }
    forall i | 0 <= i < |flat| && flat[i].parentPID != 0
      ensures exists j :: 0 <= j < i && flat[j].info.pid == flat[i].parentPID
    {
      var n := order[i];
      EntryOfBuilt(ps, root, nodes, nodeOf, n);
      assert n.parent != root;
      var j :| 0 <= j < i && order[j] == n.parent;
      NodeOfOwnPid(ps, root, nodes, nodeOf, n);
      assert flat[j].info.pid == flat[i].parentPID;
    }
  }

  /** One refresh's data path, `buildTree(data)` followed by `getFlatTree()`. */
  method Snapshot(processes: seq<ProcessInfo>) returns (flat: seq<FlatProcessNode>)
    ensures IsSnapshot(processes, flat)
  {
    var tree;
    ghost var nodeOf, order;
    tree, nodeOf := BuildTree(processes);
    flat, order := tree.GetFlatTree();
    SnapshotOfBuiltTree(processes, tree.root, tree.Nodes, nodeOf, flat, order);
  }
}

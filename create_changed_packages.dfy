/** `createChangedPackagesGraph(graphA, graphB)`: the subgraph of B holding the
    nodes of every dependency package of B whose id is not among A's dependency
    package ids, and all their ancestors. The changed nodes are added first with
    their parent links queued; the queue is then drained, each parent added once
    (a `visited` set starting with the root) and linked to the child that
    queued it, even when already visited. */
module ChangedPackages {
  import opened Wrappers
  import opened Graphs
  import opened Types
  import opened DepGraphs
  import opened Builders
  import opened FilterWalk
  import opened FilterFromGraph
  import opened Replay
  import PruneWalk

  // ---------------------------------------------------------------------------
  // The changed packages

  /** `new Set(graphA.getDepPkgs().map(DepGraphImpl.getPkgId))`. */
  function PkgIds(pkgs: seq<Pkg>): (r: set<PkgId>)
    ensures forall p :: p in pkgs ==> GetPkgId(p) in r
    ensures forall id :: id in r ==> exists p :: p in pkgs && GetPkgId(p) == id
  {
    set p | p in pkgs :: GetPkgId(p)
  }

  /** `pkgs.filter((pkg) => !ids.has(DepGraphImpl.getPkgId(pkg)))`, in order. */
  function KeepNew(pkgs: seq<Pkg>, ids: set<PkgId>): (r: seq<Pkg>)
    ensures |r| <= |pkgs|
    ensures forall p :: p in r <==> p in pkgs && GetPkgId(p) !in ids
  {
    if pkgs == [] then []
    else
      var rest := KeepNew(pkgs[1..], ids);
      if GetPkgId(pkgs[0]) !in ids then [pkgs[0]] + rest else rest
  }

  /** `addedOrUpdatedPackages`: the dependency packages of B whose id no
      dependency package of A has. */
  function ChangedPkgs(a: DepGraph, b: DepGraph): (r: seq<Pkg>)
    requires a.Valid() && b.Valid()
    ensures forall p :: p in r <==>
      p in b.GetDepPkgs() && forall q :: q in a.GetDepPkgs() ==> GetPkgId(q) != GetPkgId(p)
  {
    KeepNew(b.GetDepPkgs(), PkgIds(a.GetDepPkgs()))
  }

  /** The node ids of a list, as a set. */
  function Elems(ids: seq<NodeId>): set<NodeId> {
    set n | n in ids
  }

  /** `getNodeInfo(depGraph, nodeId)`: the node's information, or nothing when
      it is empty. */
  function GetNodeInfo(g: DepGraph, nodeId: NodeId): (r: Option<NodeInfo>)
    requires nodeId in g.graph.labelOf
    ensures r == PruneWalk.InfoOf(g, nodeId)
    ensures r.None? <==> IsEmptyInfo(g.graph.labelOf[nodeId].info)
  {
    var nodeInfo := g.GetNode(nodeId).value;
    if nodeInfo == NoInfo then None else Some(nodeInfo)
  }

  /** The label a node of B is added with. */
  function Label(g: DepGraph, n: NodeId): GraphNode {
    GraphNode(GetPkgId(PkgOf(g, n)), PruneWalk.InfoOf(g, n))
  }

  // ---------------------------------------------------------------------------
  // What the builder's state holds

  /** Every node but the root is a node of B with its own package and information. */
  ghost predicate Copied(g: DepGraph, s: DepGraph) {
    forall n :: n in s.graph.labelOf && n != RootNodeId ==> n in g.graph.labelOf && s.graph.labelOf[n] == Label(g, n)
  }

  /** Every edge is an edge of B. */
  ghost predicate EdgesOf(g: DepGraph, s: DepGraph) {
    forall a, c :: s.graph.HasEdge(a, c) ==> g.graph.HasEdge(a, c)
  }

  /** The `i`-th node added is a parent in B of a non-root node added before it. */
  ghost predicate ParentOfEarlier(g: DepGraph, nodes: seq<NodeId>, i: nat)
    requires i < |nodes|
  {
    exists j :: 0 <= j < i && nodes[j] != RootNodeId && g.graph.HasEdge(nodes[i], nodes[j])
  }

  /** Each node added is the root, a changed node, or a parent of an earlier one. */
  ghost predicate Supported(g: DepGraph, changed: set<NodeId>, nodes: seq<NodeId>) {
    forall i :: 0 <= i < |nodes| ==> nodes[i] == RootNodeId || nodes[i] in changed || ParentOfEarlier(g, nodes, i)
  }

  ghost predicate Sound(g: DepGraph, changed: set<NodeId>, s: DepGraph) {
    Copied(g, s) && EdgesOf(g, s) && Supported(g, changed, s.graph.nodes)
  }

  /** Every queued pair is an edge of B from a node of B to a non-root node
      already added. */
  ghost predicate QueueOk(g: DepGraph, s: DepGraph, queue: seq<(NodeId, NodeId)>) {
    forall k :: 0 <= k < |queue| ==>
      queue[k].0 in g.graph.labelOf && queue[k].1 in s.graph.labelOf && queue[k].1 != RootNodeId &&
      g.graph.HasEdge(queue[k].0, queue[k].1)
  }

  /** Each parent of a node whose parents were queued is still queued, or is
      linked and visited. */
  ghost predicate Waiting(g: DepGraph, s: DepGraph, queue: seq<(NodeId, NodeId)>, visited: set<NodeId>, done: set<NodeId>) {
    forall x, p :: x in done && p in Next(g.graph.pred, x) ==> (p, x) in queue || (s.graph.HasEdge(p, x) && p in visited)
  }

  /** The result holds each parent of each of its nodes but the root, linked. */
  ghost predicate UpClosed(g: DepGraph, s: DepGraph) {
    forall x, p :: x in s.graph.labelOf && x != RootNodeId && p in Next(g.graph.pred, x) ==>
      p in s.graph.labelOf && s.graph.HasEdge(p, x)
  }

  // ---------------------------------------------------------------------------
  // One builder call at a time

  /** Adding a node of B with its own package and information, when it is a
      changed node or a parent of a node already added, keeps the state sound. */
  lemma AddSound(g: DepGraph, changed: set<NodeId>, s: DepGraph, n: NodeId, child: NodeId)
    requires s.graph.Valid() && Sound(g, changed, s) && n in g.graph.labelOf
    requires AddPkgNodeTo(s, PkgOf(g, n), n, PruneWalk.InfoOf(g, n)).Ok?
    requires n in changed || (child in s.graph.labelOf && child != RootNodeId && g.graph.HasEdge(n, child))
    ensures Sound(g, changed, AddPkgNodeTo(s, PkgOf(g, n), n, PruneWalk.InfoOf(g, n)).value)
  {
    var s' := AddPkgNodeTo(s, PkgOf(g, n), n, PruneWalk.InfoOf(g, n)).value;
    AddCopied(g, s, s', n);
    assert EdgesOf(g, s');
    if n !in s.graph.labelOf {
      var nodes := s.graph.nodes;
      assert s'.graph.nodes == nodes + [n];
      if n in changed {
        AppendSupported(g, changed, nodes, n, 0);
      } else {
        assert child in nodes;
        var j :| 0 <= j < |nodes| && nodes[j] == child;
        AppendSupported(g, changed, nodes, n, j);
      }
    }
  }

  lemma AddCopied(g: DepGraph, s: DepGraph, s': DepGraph, n: NodeId)
    requires Copied(g, s) && n in g.graph.labelOf
    requires s'.graph.labelOf == s.graph.labelOf[n := Label(g, n)]
    ensures Copied(g, s')
  {
    forall m | m in s'.graph.labelOf && m != RootNodeId
      ensures m in g.graph.labelOf && s'.graph.labelOf[m] == Label(g, m)
    {
      if m != n {
        assert m in s.graph.labelOf;
      }
    }
  }

  /** Appending a changed node, or a parent of a non-root node listed at `j`,
      keeps the list supported. */
  lemma AppendSupported(g: DepGraph, changed: set<NodeId>, nodes: seq<NodeId>, n: NodeId, j: nat)
    requires Supported(g, changed, nodes)
    requires n in changed || (j < |nodes| && nodes[j] != RootNodeId && g.graph.HasEdge(n, nodes[j]))
    ensures Supported(g, changed, nodes + [n])
  {
    var nodes' := nodes + [n];
    forall i | 0 <= i < |nodes'|
      ensures nodes'[i] == RootNodeId || nodes'[i] in changed || ParentOfEarlier(g, nodes', i)
    {
      if i == |nodes| {
        if n !in changed {
          assert nodes'[j] == nodes[j];
        }
      } else if nodes[i] != RootNodeId && nodes[i] !in changed {
        assert ParentOfEarlier(g, nodes, i);
        var k :| 0 <= k < i && nodes[k] != RootNodeId && g.graph.HasEdge(nodes[i], nodes[k]);
        assert nodes'[k] == nodes[k];
      }
    }
  }

  /** Linking two added nodes along an edge of B keeps the state sound. */
  lemma ConnectSound(g: DepGraph, changed: set<NodeId>, s: DepGraph, a: NodeId, c: NodeId)
    requires KeysAgree(s) && Sound(g, changed, s) && g.graph.HasEdge(a, c)
    requires ConnectDepIn(s, a, c).Ok?
    ensures Sound(g, changed, ConnectDepIn(s, a, c).value)
  {
  }

  /** Queuing `(parentId, nodeId)` for each parent of an added non-root node of
      B keeps the queue well formed and queues every such pair. */
  lemma PushParentsOk(g: DepGraph, s: DepGraph, queue: seq<(NodeId, NodeId)>, n: NodeId)
    requires g.Valid() && QueueOk(g, s, queue)
    requires n in g.graph.labelOf && n in s.graph.labelOf && n != RootNodeId
    ensures QueueOk(g, s, queue + Pushed(g.graph.pred[n], n))
    ensures forall p :: p in Next(g.graph.pred, n) ==> (p, n) in queue + Pushed(g.graph.pred[n], n)
  {
    var ps := g.graph.pred[n];
    var q := queue + Pushed(ps, n);
    forall k | 0 <= k < |q|
      ensures q[k].0 in g.graph.labelOf && q[k].1 in s.graph.labelOf && q[k].1 != RootNodeId && g.graph.HasEdge(q[k].0, q[k].1)
    {
      if k >= |queue| {
        assert q[k] == (ps[k - |queue|], n);
        ParentEdge(g, n, ps[k - |queue|]);
      }
    }
    forall p | p in Next(g.graph.pred, n) ensures (p, n) in q {
      var j :| 0 <= j < |ps| && ps[j] == p;
      assert q[|queue| + j] == (p, n);
    }
  }

  /** A parent of a node of B is a node of B with an edge to it. */
  lemma ParentEdge(g: DepGraph, n: NodeId, p: NodeId)
    requires g.Valid() && n in g.graph.labelOf && p in g.graph.pred[n]
    ensures p in g.graph.labelOf && g.graph.HasEdge(p, n)
  {
    ValidMirror(g.graph);
    assert p in Next(g.graph.pred, n);
    assert n in Next(g.graph.succ, p);
  }

  /** A node may be excused as changed by a larger set too. */
  lemma SupportedMono(g: DepGraph, changed: set<NodeId>, changed': set<NodeId>, nodes: seq<NodeId>)
    requires Supported(g, changed, nodes) && changed <= changed'
    ensures Supported(g, changed', nodes)
  {
  }

  // ---------------------------------------------------------------------------
  // The changed nodes

  /** Edges are only ever added. */
  ghost predicate EdgesGrow(s: DepGraph, s': DepGraph) {
    forall a, c :: s.graph.HasEdge(a, c) ==> s'.graph.HasEdge(a, c)
  }

  /** Queuing the parents of `n` after the graph grew marks `n` done. */
  lemma WaitingPush(g: DepGraph, s: DepGraph, s': DepGraph, queue: seq<(NodeId, NodeId)>, pushed: seq<(NodeId, NodeId)>,
                    visited: set<NodeId>, done: set<NodeId>, n: NodeId)
    requires Waiting(g, s, queue, visited, done) && EdgesGrow(s, s')
    requires forall p :: p in Next(g.graph.pred, n) ==> (p, n) in queue + pushed
    ensures Waiting(g, s', queue + pushed, visited, done + {n})
  {
    forall x, p | x in done + {n} && p in Next(g.graph.pred, x)
      ensures (p, x) in queue + pushed || (s'.graph.HasEdge(p, x) && p in visited)
    {
      if x != n && (p, x) in queue {
        assert (queue + pushed)[IndexOf(queue, (p, x))] == (p, x);
      }
    }
  }

  /** Where a pair sits in the queue. */
  function IndexOf(queue: seq<(NodeId, NodeId)>, e: (NodeId, NodeId)): (k: nat)
    requires e in queue
    ensures k < |queue| && queue[k] == e
  {
    if queue[0] == e then 0 else 1 + IndexOf(queue[1..], e)
  }

  /** What holds while the changed nodes are added: the builder holds the root
      and the nodes `done`, soundly, and each of their parents is queued. */
  ghost predicate Gathered(g: DepGraph, done: set<NodeId>, s: DepGraph, queue: seq<(NodeId, NodeId)>) {
    && Sound(g, done, s) && QueueOk(g, s, queue)
    && Waiting(g, s, queue, {g.rootNodeId}, done)
    && s.graph.labelOf.Keys == {RootNodeId} + done
  }

  /** One changed node added and its parents queued: the phase's facts move
      from `done` to `done + {n}`. */
  lemma AddChangedStep(g: DepGraph, done: set<NodeId>, s: DepGraph, n: NodeId, queue: seq<(NodeId, NodeId)>)
    requires g.Valid() && s.graph.Valid() && s.rootNodeId == RootNodeId && n in g.graph.labelOf
    requires Gathered(g, done, s, queue)
    requires AddPkgNodeTo(s, PkgOf(g, n), n, PruneWalk.InfoOf(g, n)).Ok?
    ensures Gathered(g, done + {n}, AddPkgNodeTo(s, PkgOf(g, n), n, PruneWalk.InfoOf(g, n)).value,
                     queue + Pushed(g.graph.pred[n], n))
  {
    var s' := AddPkgNodeTo(s, PkgOf(g, n), n, PruneWalk.InfoOf(g, n)).value;
    SupportedMono(g, done, done + {n}, s.graph.nodes);
    AddSound(g, done + {n}, s, n, n);
    QueueGrows(g, s, s', queue);
    PushParentsOk(g, s', queue, n);
    AddEdgesGrow(s, PkgOf(g, n), n, PruneWalk.InfoOf(g, n));
    WaitingPush(g, s, s', queue, Pushed(g.graph.pred[n], n), {g.rootNodeId}, done, n);
    AddedKeys(s, PkgOf(g, n), n, PruneWalk.InfoOf(g, n));
    KeysStep(s.graph.labelOf.Keys, s'.graph.labelOf.Keys, done, n);
  }

  /** Adding a node adds its id to the keys. */
  lemma AddedKeys(s: DepGraph, pkg: Pkg, n: NodeId, info: Option<NodeInfo>)
    requires AddPkgNodeTo(s, pkg, n, info).Ok?
    ensures AddPkgNodeTo(s, pkg, n, info).value.graph.labelOf.Keys == s.graph.labelOf.Keys + {n}
  {
  }

  lemma KeysStep(keys: set<NodeId>, keys': set<NodeId>, done: set<NodeId>, n: NodeId)
    requires keys == {RootNodeId} + done && keys' == keys + {n}
    ensures keys' == {RootNodeId} + (done + {n})
  {
  }

  /** Adding a node keeps every edge. */
  lemma AddEdgesGrow(s: DepGraph, pkg: Pkg, n: NodeId, info: Option<NodeInfo>)
    requires s.graph.Valid() && AddPkgNodeTo(s, pkg, n, info).Ok?
    ensures EdgesGrow(s, AddPkgNodeTo(s, pkg, n, info).value)
  {
  }

  /** A queue stays well formed as nodes are added. */
  lemma QueueGrows(g: DepGraph, s: DepGraph, s': DepGraph, queue: seq<(NodeId, NodeId)>)
    requires QueueOk(g, s, queue) && s.graph.labelOf.Keys <= s'.graph.labelOf.Keys
    ensures QueueOk(g, s', queue)
  {
  }

  /** `getNodePkg(id)` of a node of B is its package. */
  lemma NodePkg(g: DepGraph, n: NodeId)
    requires g.Valid() && n in g.graph.labelOf
    ensures g.GetNodePkg(n).Ok? && g.GetNodePkg(n).value == PkgOf(g, n)
  {
  }

  /** `getNodeParentsNodeIds(id)` of a node of B is its predecessor list. */
  lemma NodeParents(g: DepGraph, n: NodeId)
    requires g.Valid() && n in g.graph.labelOf
    ensures g.GetNodeParentsNodeIds(n) == Ok(g.graph.pred[n])
  {
  }

  /** `addPkgNode(getNodePkg(id), id, getNodeInfo(depGraph, id))` for one
      changed node, then `(parentId, id)` queued for each of its parents. It
      throws only for 'root-node'. */
  method AddChangedNode(g: DepGraph, b: DepGraphBuilder, ghost done: set<NodeId>, nodeId: NodeId, queue: seq<(NodeId, NodeId)>)
    returns (r: Outcome, queue': seq<(NodeId, NodeId)>)
    requires g.Valid() && b.Valid() && nodeId in g.graph.labelOf
    requires Gathered(g, done, b.state, queue)
    modifies b
    ensures b.Valid()
    ensures r.Fail? <==> nodeId == RootNodeId
    ensures r.Pass? ==> Gathered(g, done + {nodeId}, b.state, queue')
  {
    NodePkg(g, nodeId);
    var pkg := g.GetNodePkg(nodeId).value;
    var info := GetNodeInfo(g, nodeId);
    ghost var s := b.state;
    r := b.AddPkgNode(pkg, nodeId, info);
    if r.Fail? {
      return r, queue;
    }
    AddChangedStep(g, done, s, nodeId, queue);
    NodeParents(g, nodeId);
    var parents := g.GetNodeParentsNodeIds(nodeId).value;
    queue' := PushAll(queue, parents, nodeId);
  }

  /** `for (const changedNodeId of depGraph.getPkgNodeIds(changedPackage))`: the
      changed nodes of one package, after those of `acc`. */
  method AddPkgNodes(g: DepGraph, b: DepGraphBuilder, ids: seq<NodeId>, ghost acc: seq<NodeId>, queue: seq<(NodeId, NodeId)>)
    returns (r: Outcome, queue': seq<(NodeId, NodeId)>)
    requires g.Valid() && b.Valid() && forall n :: n in ids ==> n in g.graph.labelOf
    requires Gathered(g, Elems(acc), b.state, queue)
    modifies b
    ensures b.Valid()
    ensures r.Fail? <==> RootNodeId in ids
    ensures r.Pass? ==> Gathered(g, Elems(acc + ids), b.state, queue')
  {
    queue' := queue;
    ghost var done := Elems(acc);
    Whole(acc);
    Whole(ids);
    for j := 0 to |ids|
      invariant b.Valid() && RootNodeId !in ids[..j]
      invariant done == Elems(acc + ids[..j])
      invariant Gathered(g, done, b.state, queue')
    {
      ElemsSnoc(acc, ids, j);
      r, queue' := AddChangedNode(g, b, done, ids[j], queue');
      if r.Fail? {
        return;
      }
      done := done + {ids[j]};
      PrefixSnoc(ids, j);
    }
    Whole(ids);
    r := Pass;
  }

  /** A sequence is its whole prefix and suffix, and empty sequences add nothing to it. */
  lemma Whole<T>(xs: seq<T>)
    ensures xs[..|xs|] == xs && xs[..0] == [] && xs[0..] == xs && xs[|xs|..] == [] && xs + [] == xs && [] + xs == xs
  {
  }

  lemma PrefixSnoc(ids: seq<NodeId>, j: nat)
    requires j < |ids|
    ensures ids[..j + 1] == ids[..j] + [ids[j]]
  {
  }

  lemma ElemsSnoc(acc: seq<NodeId>, ids: seq<NodeId>, j: nat)
    requires j < |ids|
    ensures Elems(acc + ids[..j + 1]) == Elems(acc + ids[..j]) + {ids[j]}
  {
    assert acc + ids[..j + 1] == (acc + ids[..j]) + [ids[j]];
  }

  /** Gathering starts with nothing gathered and every package still to come. */
  lemma GatherStart(g: DepGraph, packages: seq<Pkg>)
    requires g.Valid()
    ensures PkgNodeIdsOf(g, packages) == Then([], PkgNodeIdsOf(g, packages[0..]))
    ensures Elems([]) == {}
  {
    Whole(packages);
    if PkgNodeIdsOf(g, packages).Ok? {
      Whole(PkgNodeIdsOf(g, packages).value);
    }
  }

  /** Gathering ends with everything gathered. */
  lemma GatherEnd(g: DepGraph, packages: seq<Pkg>, acc: seq<NodeId>)
    requires g.Valid() && PkgNodeIdsOf(g, packages) == Then(acc, PkgNodeIdsOf(g, packages[|packages|..]))
    ensures PkgNodeIdsOf(g, packages) == Ok(acc)
  {
    Whole(packages);
    Whole(acc);
  }

  /** The body of the outer loop: `getPkgNodeIds(changedPackage)`, which throws
      for a package the graph does not hold, then each of its nodes. */
  method AddPackage(g: DepGraph, b: DepGraphBuilder, pkg: Pkg, ghost acc: seq<NodeId>, queue: seq<(NodeId, NodeId)>)
    returns (r: Outcome, queue': seq<(NodeId, NodeId)>)
    requires g.Valid() && b.Valid() && Gathered(g, Elems(acc), b.state, queue)
    modifies b
    ensures b.Valid()
    ensures g.GetPkgNodeIds(pkg).Err? ==> r == Fail(g.GetPkgNodeIds(pkg).msg)
    ensures g.GetPkgNodeIds(pkg).Ok? ==> (r.Fail? <==> RootNodeId in g.GetPkgNodeIds(pkg).value)
    ensures r.Pass? ==> g.GetPkgNodeIds(pkg).Ok? && Gathered(g, Elems(acc + g.GetPkgNodeIds(pkg).value), b.state, queue')
  {
    var nodeIds := g.GetPkgNodeIds(pkg);
    if nodeIds.Err? {
      return Fail(nodeIds.msg), queue;
    }
    r, queue' := AddPkgNodes(g, b, nodeIds.value, acc, queue);
  }

  /** The outer loop over `addedOrUpdatedPackages`: every node of each changed
      package is added with its parent links queued. It throws when a package
      is not in the graph or a changed node is 'root-node'. */
  method AddChangedNodes(g: DepGraph, b: DepGraphBuilder, packages: seq<Pkg>)
    returns (r: Outcome, queue: seq<(NodeId, NodeId)>)
    requires g.Valid() && b.Valid()
    requires Gathered(g, {}, b.state, [])
    modifies b
    ensures b.Valid()
    ensures r.Pass? <==> PkgNodeIdsOf(g, packages).Ok? && RootNodeId !in PkgNodeIdsOf(g, packages).value
    ensures r.Pass? ==> Gathered(g, Elems(PkgNodeIdsOf(g, packages).value), b.state, queue)
  {
    queue := [];
    ghost var acc: seq<NodeId> := [];
    ghost var done: set<NodeId> := {};
    GatherStart(g, packages);
    for i := 0 to |packages|
      invariant b.Valid() && RootNodeId !in acc && done == Elems(acc)
      invariant PkgNodeIdsOf(g, packages) == Then(acc, PkgNodeIdsOf(g, packages[i..]))
      invariant Gathered(g, done, b.state, queue)
    {
      GatherStep(g, packages, i, acc);
      r, queue := AddPackage(g, b, packages[i], acc, queue);
      if r.Fail? {
        if g.GetPkgNodeIds(packages[i]).Ok? {
          ThenHolds(acc + g.GetPkgNodeIds(packages[i]).value, PkgNodeIdsOf(g, packages[i + 1..]), RootNodeId);
        }
        return;
      }
      acc := acc + g.GetPkgNodeIds(packages[i]).value;
      done := Elems(acc);
    }
    GatherEnd(g, packages, acc);
    r := Pass;
  }

  /** What the gathered ids hold stays in them when more follow. */
  lemma ThenHolds(acc: seq<NodeId>, r: Result<seq<NodeId>>, n: NodeId)
    requires n in acc
    ensures Then(acc, r).Ok? ==> n in Then(acc, r).value
  {
  }
  // ---------------------------------------------------------------------------
  // The parents

  /** What holds while the parent queue drains: `visited` holds B's root and
      the parents added so far, and each changed or visited node but B's root
      has every parent still queued, or linked and visited. */
  ghost predicate Draining(g: DepGraph, changed: set<NodeId>, s: DepGraph, queue: seq<(NodeId, NodeId)>, visited: set<NodeId>) {
    && g.rootNodeId in visited && visited <= g.graph.labelOf.Keys
    && Sound(g, changed, s) && QueueOk(g, s, queue)
    && Waiting(g, s, queue, visited, changed + (visited - {g.rootNodeId}))
    && s.graph.labelOf.Keys == {RootNodeId} + changed + (visited - {g.rootNodeId})
  }

  /** The first phase leaves the queue ready to drain with only B's root visited. */
  lemma DrainStart(g: DepGraph, changed: set<NodeId>, s: DepGraph, queue: seq<(NodeId, NodeId)>)
    requires g.rootNodeId in g.graph.labelOf && Gathered(g, changed, s, queue)
    ensures Draining(g, changed, s, queue, {g.rootNodeId})
  {
    assert changed + ({g.rootNodeId} - {g.rootNodeId}) == changed;
  }

  /** The top of the queue is an edge of B into an added node, and the rest of
      the queue stays well formed. */
  lemma QueueTop(g: DepGraph, s: DepGraph, below: seq<(NodeId, NodeId)>, top: (NodeId, NodeId))
    requires QueueOk(g, s, below + [top])
    ensures QueueOk(g, s, below)
    ensures top.0 in g.graph.labelOf && top.1 in s.graph.labelOf && top.1 != RootNodeId && g.graph.HasEdge(top.0, top.1)
  {
    var q := below + [top];
    assert q[|below|] == top;
    forall k | 0 <= k < |below|
      ensures below[k].0 in g.graph.labelOf && below[k].1 in s.graph.labelOf && below[k].1 != RootNodeId &&
        g.graph.HasEdge(below[k].0, below[k].1)
    {
      assert q[k] == below[k];
    }
  }

  /** Popping a pair once it is linked and its parent visited keeps every
      parent waiting. */
  lemma WaitingPop(g: DepGraph, s: DepGraph, s': DepGraph, below: seq<(NodeId, NodeId)>, top: (NodeId, NodeId),
                   visited: set<NodeId>, visited': set<NodeId>, done: set<NodeId>)
    requires Waiting(g, s, below + [top], visited, done) && EdgesGrow(s, s') && visited <= visited'
    requires s'.graph.HasEdge(top.0, top.1) && top.0 in visited'
    ensures Waiting(g, s', below, visited', done)
  {
    var q := below + [top];
    forall x, p | x in done && p in Next(g.graph.pred, x)
      ensures (p, x) in below || (s'.graph.HasEdge(p, x) && p in visited')
    {
      if (p, x) in q && (p, x) != top {
        var k := IndexOf(q, (p, x));
        assert k < |below| && below[k] == (p, x);
      }
    }
  }

  /** Linking two existing nodes keeps every edge and adds the new one. */
  lemma ConnectEdgesGrow(s: DepGraph, a: NodeId, c: NodeId)
    requires KeysAgree(s) && ConnectDepIn(s, a, c).Ok?
    ensures EdgesGrow(s, ConnectDepIn(s, a, c).value) && ConnectDepIn(s, a, c).value.graph.HasEdge(a, c)
  {
  }

  /** With B's root the builder's root, every visited node is in the builder. */
  lemma VisitedKnown(g: DepGraph, changed: set<NodeId>, s: DepGraph, queue: seq<(NodeId, NodeId)>, visited: set<NodeId>, n: NodeId)
    requires Draining(g, changed, s, queue, visited) && n in visited && g.rootNodeId == RootNodeId
    ensures n in s.graph.labelOf
  {
  }

  /** A popped pair whose parent is visited: `connectDep(nodeId, dependencyNodeId)`. */
  lemma LinkVisited(g: DepGraph, changed: set<NodeId>, s: DepGraph, below: seq<(NodeId, NodeId)>, top: (NodeId, NodeId),
                    visited: set<NodeId>)
    requires s.graph.Valid() && Draining(g, changed, s, below + [top], visited)
    requires top.0 in visited && ConnectDepIn(s, top.0, top.1).Ok?
    ensures Draining(g, changed, ConnectDepIn(s, top.0, top.1).value, below, visited)
  {
    var s' := ConnectDepIn(s, top.0, top.1).value;
    QueueTop(g, s, below, top);
    ConnectSound(g, changed, s, top.0, top.1);
    QueueGrows(g, s, s', below);
    ConnectEdgesGrow(s, top.0, top.1);
    WaitingPop(g, s, s', below, top, visited, visited, changed + (visited - {g.rootNodeId}));
  }

  /** A popped pair whose parent is new: once the parent is added, the link
      between the two can be made. */
  lemma ParentLinkable(g: DepGraph, changed: set<NodeId>, s: DepGraph, s1: DepGraph, below: seq<(NodeId, NodeId)>,
                       top: (NodeId, NodeId), visited: set<NodeId>)
    requires Draining(g, changed, s, below + [top], visited)
    requires AddPkgNodeTo(s, PkgOf(g, top.0), top.0, PruneWalk.InfoOf(g, top.0)).Ok?
    requires s1 == AddPkgNodeTo(s, PkgOf(g, top.0), top.0, PruneWalk.InfoOf(g, top.0)).value && s1.graph.Valid()
    ensures ConnectDepIn(s1, top.0, top.1).Ok?
  {
    QueueTop(g, s, below, top);
  }

  /** A popped pair whose parent is new: the parent is added, linked to the
      node that queued it, marked visited, and its own parents are queued. */
  lemma AddParent(g: DepGraph, changed: set<NodeId>, s: DepGraph, s1: DepGraph, s2: DepGraph,
                  below: seq<(NodeId, NodeId)>, top: (NodeId, NodeId), visited: set<NodeId>)
    requires g.Valid() && s.graph.Valid() && s.rootNodeId == RootNodeId
    requires Draining(g, changed, s, below + [top], visited) && top.0 !in visited && top.0 in g.graph.pred
    requires AddPkgNodeTo(s, PkgOf(g, top.0), top.0, PruneWalk.InfoOf(g, top.0)).Ok?
    requires s1 == AddPkgNodeTo(s, PkgOf(g, top.0), top.0, PruneWalk.InfoOf(g, top.0)).value && s1.graph.Valid()
    requires ConnectDepIn(s1, top.0, top.1).Ok? && s2 == ConnectDepIn(s1, top.0, top.1).value
    ensures Draining(g, changed, s2, below + Pushed(g.graph.pred[top.0], top.0), visited + {top.0})
  {
    var n := top.0;
    var done := changed + (visited - {g.rootNodeId});
    QueueTop(g, s, below, top);
    AddParentSound(g, changed, s, s1, s2, n, top.1);
    QueueGrows(g, s, s2, below);
    PushParentsOk(g, s2, below, n);
    WaitingPop(g, s, s2, below, top, visited, visited + {n}, done);
    WaitingPush(g, s2, s2, below, Pushed(g.graph.pred[n], n), visited + {n}, done, n);
    VisitedGrows(changed, visited, g.rootNodeId, n);
  }

  /** Adding the parent and linking it to its child keeps the state sound,
      keeps every edge and adds the link. */
  lemma AddParentSound(g: DepGraph, changed: set<NodeId>, s: DepGraph, s1: DepGraph, s2: DepGraph, n: NodeId, x: NodeId)
    requires s.graph.Valid() && Sound(g, changed, s) && n in g.graph.labelOf
    requires x in s.graph.labelOf && x != RootNodeId && g.graph.HasEdge(n, x)
    requires AddPkgNodeTo(s, PkgOf(g, n), n, PruneWalk.InfoOf(g, n)).Ok?
    requires s1 == AddPkgNodeTo(s, PkgOf(g, n), n, PruneWalk.InfoOf(g, n)).value && KeysAgree(s1)
    requires ConnectDepIn(s1, n, x).Ok? && s2 == ConnectDepIn(s1, n, x).value
    ensures Sound(g, changed, s2) && EdgesGrow(s, s2) && s2.graph.HasEdge(n, x)
    ensures s2.graph.labelOf.Keys == s.graph.labelOf.Keys + {n}
  {
    AddSound(g, changed, s, n, x);
    ConnectSound(g, changed, s1, n, x);
    AddEdgesGrow(s, PkgOf(g, n), n, PruneWalk.InfoOf(g, n));
    ConnectEdgesGrow(s1, n, x);
  }

  /** Visiting a new node moves it into the nodes whose parents are queued. */
  lemma VisitedGrows(changed: set<NodeId>, visited: set<NodeId>, root: NodeId, n: NodeId)
    requires root in visited && n !in visited
    ensures changed + (visited - {root}) + {n} == changed + ((visited + {n}) - {root})
    ensures {RootNodeId} + changed + (visited - {root}) + {n} == {RootNodeId} + changed + ((visited + {n}) - {root})
  {
  }

  /** A non-empty queue is its front followed by its last pair. */
  lemma SplitLast(queue: seq<(NodeId, NodeId)>)
    requires queue != []
    ensures queue == queue[..|queue| - 1] + [queue[|queue| - 1]]
  {
  }

  /** An empty queue leaves every parent of every node linked. */
  lemma DrainEnd(g: DepGraph, changed: set<NodeId>, s: DepGraph, visited: set<NodeId>)
    requires KeysAgree(s) && Waiting(g, s, [], visited, changed + (visited - {g.rootNodeId}))
    requires s.graph.labelOf.Keys == {RootNodeId} + changed + (visited - {g.rootNodeId})
    ensures UpClosed(g, s) && changed <= s.graph.labelOf.Keys
  {
    forall x, p | x in s.graph.labelOf && x != RootNodeId && p in Next(g.graph.pred, x)
      ensures p in s.graph.labelOf && s.graph.HasEdge(p, x)
    {
      assert x in changed + (visited - {g.rootNodeId});
      assert s.graph.HasEdge(p, x);
    }
  }

  /** A popped pair whose parent is visited: `connectDep(nodeId,
      dependencyNodeId)` links it again. It fails only for B's root when that
      is not 'root-node', which the builder does not hold. */
  method LinkVisitedParent(g: DepGraph, b: DepGraphBuilder, ghost changed: set<NodeId>, below: seq<(NodeId, NodeId)>,
                           top: (NodeId, NodeId), visited: set<NodeId>)
    returns (r: Outcome)
    requires b.Valid() && Draining(g, changed, b.state, below + [top], visited) && top.0 in visited
    modifies b
    ensures b.Valid()
    ensures g.rootNodeId == RootNodeId ==> r.Pass?
    ensures r.Pass? ==> Draining(g, changed, b.state, below, visited)
  {
    ghost var s := b.state;
    if g.rootNodeId == RootNodeId {
      VisitedKnown(g, changed, s, below + [top], visited, top.0);
      QueueTop(g, s, below, top);
    }
    r := b.ConnectDep(top.0, top.1);
    if r.Pass? {
      LinkVisited(g, changed, s, below, top, visited);
    }
  }

  /** A popped pair whose parent is new: the parent is marked visited, added
      with its own package and information, linked to the node that queued it,
      and its parents are queued. Adding fails only for 'root-node', which is
      then not B's root. */
  method AddNewParent(g: DepGraph, b: DepGraphBuilder, ghost changed: set<NodeId>, below: seq<(NodeId, NodeId)>,
                      top: (NodeId, NodeId), visited: set<NodeId>)
    returns (r: Outcome, queue': seq<(NodeId, NodeId)>, visited': set<NodeId>)
    requires g.Valid() && b.Valid() && Draining(g, changed, b.state, below + [top], visited) && top.0 !in visited
    modifies b
    ensures b.Valid()
    ensures visited' == visited + {top.0} && top.0 in g.graph.labelOf
    ensures g.rootNodeId == RootNodeId ==> r.Pass?
    ensures r.Pass? ==> Draining(g, changed, b.state, queue', visited')
  {
    var nodeId, dependencyNodeId := top.0, top.1;
    ghost var s := b.state;
    QueueTop(g, s, below, top);
    visited' := visited + {nodeId};
    NodePkg(g, nodeId);
    NodeParents(g, nodeId);
    var pkg := g.GetNodePkg(nodeId).value;
    var info := GetNodeInfo(g, nodeId);
    r := b.AddPkgNode(pkg, nodeId, info);
    if r.Fail? {
      return r, below, visited';
    }
    ghost var s1 := b.state;
    ParentLinkable(g, changed, s, s1, below, top, visited);
    r := b.ConnectDep(nodeId, dependencyNodeId);
    AddParent(g, changed, s, s1, b.state, below, top, visited);
    var parents := g.GetNodeParentsNodeIds(nodeId).value;
    queue' := PushAll(below, parents, nodeId);
  }

  /** One turn of the loop: pop the last pair and link or add its parent. */
  method PopParent(g: DepGraph, b: DepGraphBuilder, ghost changed: set<NodeId>, queue: seq<(NodeId, NodeId)>, visited: set<NodeId>)
    returns (r: Outcome, queue': seq<(NodeId, NodeId)>, visited': set<NodeId>)
    requires g.Valid() && b.Valid() && queue != [] && Draining(g, changed, b.state, queue, visited)
    modifies b
    ensures b.Valid()
    ensures g.rootNodeId == RootNodeId ==> r.Pass?
    ensures r.Pass? ==> Draining(g, changed, b.state, queue', visited')
    ensures r.Pass? ==>
      |g.graph.labelOf.Keys - visited'| < |g.graph.labelOf.Keys - visited| ||
      (visited' == visited && |queue'| < |queue|)
  {
    var top := queue[|queue| - 1];
    var below := queue[..|queue| - 1];
    SplitLast(queue);
    if top.0 in visited {
      r := LinkVisitedParent(g, b, changed, below, top, visited);
      queue', visited' := below, visited;
    } else {
      r, queue', visited' := AddNewParent(g, b, changed, below, top, visited);
      FilterWalk.Smaller(g.graph.labelOf.Keys - visited', g.graph.labelOf.Keys - visited, top.0);
    }
  }

  /** The `while (parentQueue.length > 0)` loop: each turn pops the last pair;
      a visited parent is linked, a new one added, linked, visited and has its
      parents queued. It fails only when B's root is not 'root-node'. */
  method DrainQueue(g: DepGraph, b: DepGraphBuilder, ghost changed: set<NodeId>, parentQueue: seq<(NodeId, NodeId)>)
    returns (r: Outcome)
    requires g.Valid() && b.Valid() && Draining(g, changed, b.state, parentQueue, {g.rootNodeId})
    modifies b
    ensures b.Valid()
    ensures g.rootNodeId == RootNodeId ==> r.Pass?
    ensures r.Pass? ==> Sound(g, changed, b.state) && UpClosed(g, b.state) && changed <= b.state.graph.labelOf.Keys
  {
    var queue := parentQueue;
    var visited := {g.rootNodeId};
    while queue != []
      invariant b.Valid() && Draining(g, changed, b.state, queue, visited)
      decreases |g.graph.labelOf.Keys - visited|, |queue|
    {
      r, queue, visited := PopParent(g, b, changed, queue, visited);
      if r.Fail? {
        return;
      }
    }
    DrainEnd(g, changed, b.state, visited);
    r := Pass;
  }
  // ---------------------------------------------------------------------------
  // The whole operation

  /** A new builder's state holds the root alone, with nothing queued. */
  lemma GatheredStart(g: DepGraph, pkgManager: PkgManager, rootPkg: Option<Pkg>)
    ensures Gathered(g, {}, NewGraph(pkgManager, rootPkg), [])
  {
    var s := NewGraph(pkgManager, rootPkg);
    assert s.graph.labelOf.Keys == {RootNodeId};
    assert s.graph.succ.Keys == {RootNodeId} && s.graph.succ[RootNodeId] == [];
    assert Supported(g, {}, s.graph.nodes) by {
      assert s.graph.nodes == [RootNodeId];
    }
  }

  /** `createChangedPackagesGraph(graphA, graphB)`: B's nodes of the packages
      whose id A does not have, each parent of each of those nodes but B's root,
      transitively, and the edges between them, built on B's root package. It
      fails when a changed package is not in B or a changed node is
      'root-node', and when B's root is not 'root-node' and reached. */
  method CreateChangedPackagesGraph(graphA: DepGraphImpl, graphB: DepGraphImpl) returns (r: Result<DepGraphImpl>)
    requires graphA.data.Valid() && graphB.data.Valid()
    ensures var ids := PkgNodeIdsOf(graphB.data, ChangedPkgs(graphA.data, graphB.data));
      && (ids.Err? ==> r.Err?)
      && (graphB.data.rootNodeId == RootNodeId ==> (r.Ok? <==> ids.Ok? && RootNodeId !in ids.value))
      && (r.Ok? ==> ids.Ok? && RootNodeId !in ids.value)
    ensures r.Ok? ==>
      var changed := Elems(PkgNodeIdsOf(graphB.data, ChangedPkgs(graphA.data, graphB.data)).value);
      && fresh(r.value) && r.value.data.Valid() && r.value.data.rootNodeId == RootNodeId
      && Sound(graphB.data, changed, r.value.data) && UpClosed(graphB.data, r.value.data)
      && changed <= r.value.data.graph.labelOf.Keys
  {
    var depGraph := graphB.data;
    var graphAPackageIds := PkgIds(graphA.data.GetDepPkgs());
    var addedOrUpdatedPackages := KeepNew(depGraph.GetDepPkgs(), graphAPackageIds);
    var depGraphBuilder := new DepGraphBuilder(depGraph.pkgManager, Some(depGraph.RootPkg()));
    GatheredStart(depGraph, depGraph.pkgManager, Some(depGraph.RootPkg()));
    var outcome, parentQueue := AddChangedNodes(depGraph, depGraphBuilder, addedOrUpdatedPackages);
    if outcome.Fail? {
      return Err(outcome.msg);
    }
    ghost var changed := Elems(PkgNodeIdsOf(depGraph, addedOrUpdatedPackages).value);
    DrainStart(depGraph, changed, depGraphBuilder.state, parentQueue);
    outcome := DrainQueue(depGraph, depGraphBuilder, changed, parentQueue);
    if outcome.Fail? {
      return Err(outcome.msg);
    }
    var built := depGraphBuilder.Build();
    return Ok(built);
  }

  // ---------------------------------------------------------------------------
  // What the result holds

  /** A set of node ids holding the root and the changed nodes, and each parent
      of each of its other nodes. */
  ghost predicate ParentClosed(g: DepGraph, changed: set<NodeId>, S: set<NodeId>) {
    && RootNodeId in S && changed <= S
    && forall x, p :: x in S && x != RootNodeId && p in Next(g.graph.pred, x) ==> p in S
  }

  /** A supported node list stays supported when cut short. */
  lemma SupportedPrefix(g: DepGraph, changed: set<NodeId>, nodes: seq<NodeId>, k: nat)
    requires Supported(g, changed, nodes) && k <= |nodes|
    ensures Supported(g, changed, nodes[..k])
  {
    var front := nodes[..k];
    forall i | 0 <= i < |front|
      ensures front[i] == RootNodeId || front[i] in changed || ParentOfEarlier(g, front, i)
    {
      if front[i] != RootNodeId && front[i] !in changed {
        assert front[i] == nodes[i];
        assert ParentOfEarlier(g, nodes, i);
        var j :| 0 <= j < i && nodes[j] != RootNodeId && g.graph.HasEdge(nodes[i], nodes[j]);
        assert front[j] == nodes[j];
      }
    }
  }

  /** Each edge of B is listed among its target's parents. */
  ghost predicate ParentsListed(g: DepGraph) {
    forall p, x :: g.graph.HasEdge(p, x) ==> p in Next(g.graph.pred, x)
  }

  lemma ValidParentsListed(g: DepGraph)
    requires g.Valid()
    ensures ParentsListed(g)
  {
    ValidMirror(g.graph);
    forall p, x | g.graph.HasEdge(p, x) ensures p in Next(g.graph.pred, x) {
      assert x in Next(g.graph.succ, p);
    }
  }

  /** Every node of a supported list is in every parent-closed set: the list
      holds nothing but the root, the changed nodes and their ancestors. */
  lemma {:induction false} SupportedLeast(g: DepGraph, changed: set<NodeId>, nodes: seq<NodeId>, S: set<NodeId>)
    requires ParentsListed(g) && Supported(g, changed, nodes) && ParentClosed(g, changed, S)
    ensures forall i :: 0 <= i < |nodes| ==> nodes[i] in S
  {
    if nodes != [] {
      var last := |nodes| - 1;
      var front := nodes[..last];
      SupportedPrefix(g, changed, nodes, last);
      SupportedLeast(g, changed, front, S);
      forall i | 0 <= i < |nodes| ensures nodes[i] in S {
        if i < last {
          assert front[i] == nodes[i];
        } else if nodes[i] != RootNodeId && nodes[i] !in changed {
          assert ParentOfEarlier(g, nodes, i);
          var j :| 0 <= j < i && nodes[j] != RootNodeId && g.graph.HasEdge(nodes[i], nodes[j]);
          assert front[j] == nodes[j];
        }
      }
    }
  }

  /** A sound, upward-closed state holding the changed nodes holds exactly the
      root, the changed nodes and their ancestors (stopping at the root): its
      nodes form the least parent-closed set. */
  lemma ChangedExactly(g: DepGraph, changed: set<NodeId>, d: DepGraph)
    requires g.Valid() && d.Valid() && d.rootNodeId == RootNodeId
    requires Sound(g, changed, d) && UpClosed(g, d) && changed <= d.graph.labelOf.Keys
    ensures ParentClosed(g, changed, d.graph.labelOf.Keys)
    ensures forall S :: ParentClosed(g, changed, S) ==> d.graph.labelOf.Keys <= S
  {
    ValidParentsListed(g);
    KeysListed(d);
    KeysClosed(g, changed, d);
    forall S | ParentClosed(g, changed, S) ensures d.graph.labelOf.Keys <= S {
      KeysLeast(g, changed, d, S);
    }
  }

  lemma KeysClosed(g: DepGraph, changed: set<NodeId>, d: DepGraph)
    requires UpClosed(g, d) && changed <= d.graph.labelOf.Keys && RootNodeId in d.graph.labelOf
    ensures ParentClosed(g, changed, d.graph.labelOf.Keys)
  {
  }

  /** The keys of a graph are its listed nodes. */
  lemma KeysListed(d: DepGraph)
    requires d.Valid()
    ensures Listed(d.graph.nodes, d.graph.labelOf.Keys)
  {
  }

  lemma KeysLeast(g: DepGraph, changed: set<NodeId>, d: DepGraph, S: set<NodeId>)
    requires ParentsListed(g) && Supported(g, changed, d.graph.nodes) && ParentClosed(g, changed, S)
    requires Listed(d.graph.nodes, d.graph.labelOf.Keys)
    ensures d.graph.labelOf.Keys <= S
  {
    SupportedLeast(g, changed, d.graph.nodes, S);
    forall n | n in d.graph.labelOf ensures n in S {
      assert n in d.graph.nodes;
      var k :| 0 <= k < |d.graph.nodes| && d.graph.nodes[k] == n;
    }
  }

  /** Keeping the packages whose id is not in the empty set keeps them all. */
  lemma {:induction false} KeepNewNone(pkgs: seq<Pkg>)
    ensures KeepNew(pkgs, {}) == pkgs
  {
    if pkgs != [] {
      KeepNewNone(pkgs[1..]);
    }
  }

  /** When A holds only its root, every dependency package of B is changed, and
      a result holding the changed nodes holds every node of B that does not
      belong to B's root package. */
  lemma OnlyRootInA(a: DepGraph, b: DepGraph, d: DepGraph)
    requires a.Valid() && b.Valid() && PkgsKeyed(b) && a.GetDepPkgs() == []
    requires PkgNodeIdsOf(b, ChangedPkgs(a, b)).Ok?
    requires Elems(PkgNodeIdsOf(b, ChangedPkgs(a, b)).value) <= d.graph.labelOf.Keys
    ensures ChangedPkgs(a, b) == b.GetDepPkgs()
    ensures forall n :: n in b.graph.labelOf && b.graph.labelOf[n].pkgId != b.RootPkgId() ==> n in d.graph.labelOf
  {
    KeepNewNone(b.GetDepPkgs());
    assert PkgIds(a.GetDepPkgs()) == {};
    var ids := PkgNodeIdsOf(b, ChangedPkgs(a, b)).value;
    PkgNodeIdsMeaning(b, ChangedPkgs(a, b));
    forall n | n in b.graph.labelOf && b.graph.labelOf[n].pkgId != b.RootPkgId() ensures n in d.graph.labelOf {
      var k := b.graph.labelOf[n].pkgId;
      assert k in b.pkgs.m;
      var p := b.pkgs.m[k];
      assert p in b.GetDepPkgs();
      assert n in ids;
      assert n in Elems(ids);
    }
  }
}

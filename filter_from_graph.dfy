/** `filterNodesFromGraph` and `filterPackagesFromGraph`: the graph is rebuilt
    through the builder by popping `[nodeId, parentNodeId]` pairs off a stack,
    leaving out the listed nodes. The builder's state after the loop is the one
    the walk of `FilterWalk` computes. */
module FilterFromGraph {
  import opened Wrappers
  import opened Graphs
  import opened Types
  import opened DepGraphs
  import opened Builders
  import opened FilterWalk
  import PruneGraph

  // ---------------------------------------------------------------------------
  // The nodes to leave out

  /** `nodeIdsToFilterOut.filter((nodeId) => existingNodeIds.has(nodeId))`. */
  function KeepExisting(g: DepGraph, ids: seq<NodeId>): (r: seq<NodeId>)
    ensures |r| <= |ids|
    ensures forall n :: n in r <==> n in ids && n in g.graph.labelOf
  {
    if ids == [] then []
    else
      var rest := KeepExisting(g, ids[1..]);
      if ids[0] in g.graph.labelOf then [ids[0]] + rest else rest
  }

  /** The listed nodes the graph has: a node not in the graph is ignored. */
  function Existing(g: DepGraph, ids: seq<NodeId>): (r: set<NodeId>)
    ensures r <= g.graph.labelOf.Keys
    ensures r == {} <==> KeepExisting(g, ids) == []
  {
    var kept := KeepExisting(g, ids);
    var r := set n | n in kept;
    assert kept != [] ==> kept[0] in r;
    r
  }

  /** Leaving nodes out never makes the walk longer: a graph with no cycle
      reachable from its root can be filtered by any list. */
  lemma AcyclicWalkable(g: DepGraph, filtered: set<NodeId>)
    requires !CycleReachable(g.graph.succ, g.rootNodeId)
    ensures Walkable(g, filtered)
  {
    var cut := Cut(g.graph.succ, filtered);
    forall p | IsWalk(cut, p) && |p| > 0 && p[0] == g.rootNodeId ensures Distinct(p) {
      forall i | 0 <= i < |p| - 1 ensures p[i + 1] in Next(g.graph.succ, p[i]) {
        assert p[i + 1] in Next(cut, p[i]);
      }
      assert IsWalk(g.graph.succ, p);
    }
  }

  // ---------------------------------------------------------------------------
  // filterNodesFromGraph

  /** `filterNodesFromGraph(originalDepGraph, nodeIdsToFilterOut)`: with no
      listed node in the graph the input is returned as it is. Otherwise the
      result is a new graph built by the walk from the root that skips the
      listed nodes; a builder error is the `Err` result. The walk ends only when
      no cycle is reachable from the root once the listed nodes lead nowhere,
      which the precondition states. */
  method FilterNodesFromGraph(originalDepGraph: DepGraphImpl, nodeIdsToFilterOut: seq<NodeId>) returns (r: Result<DepGraphImpl>)
    requires originalDepGraph.data.Valid()
    requires Existing(originalDepGraph.data, nodeIdsToFilterOut) != {} ==>
      Walkable(originalDepGraph.data, Existing(originalDepGraph.data, nodeIdsToFilterOut))
    ensures Existing(originalDepGraph.data, nodeIdsToFilterOut) == {} ==> r == Ok(originalDepGraph)
    ensures var filtered := Existing(originalDepGraph.data, nodeIdsToFilterOut);
      filtered != {} ==>
        && (r.Err? <==> Filtered(originalDepGraph.data, filtered).0.Fail?)
        && (r.Err? ==> r.msg == Filtered(originalDepGraph.data, filtered).0.msg)
        && (r.Ok? ==> fresh(r.value) && r.value.data == Filtered(originalDepGraph.data, filtered).1)
  {
    if nodeIdsToFilterOut == [] {
      return Ok(originalDepGraph);
    }
    var depGraph := originalDepGraph.data;
    var ids := KeepExisting(depGraph, nodeIdsToFilterOut);
    if ids == [] {
      return Ok(originalDepGraph);
    }
    var depGraphBuilder := new DepGraphBuilder(depGraph.pkgManager, Some(depGraph.RootPkg()));
    var nodeIdsToFilterOutSet := Existing(depGraph, nodeIdsToFilterOut);
    var queue: seq<(NodeId, NodeId)> := [(depGraph.rootNodeId, "")];
    StackStart(depGraph, nodeIdsToFilterOutSet, depGraphBuilder.state);
    while queue != []
      invariant depGraphBuilder.Valid() && fresh(depGraphBuilder)
      invariant Queued(depGraph, nodeIdsToFilterOutSet, queue)
      invariant StackRun(depGraph, nodeIdsToFilterOutSet, depGraphBuilder.state, queue) == Filtered(depGraph, nodeIdsToFilterOutSet)
      decreases StackCount(depGraph, nodeIdsToFilterOutSet, queue)
    {
      var outcome;
      outcome, queue := Pop(depGraph, nodeIdsToFilterOutSet, depGraphBuilder, queue);
      if outcome.Fail? {
        assert Filtered(depGraph, nodeIdsToFilterOutSet) == (outcome, depGraphBuilder.state);
        return Err(outcome.msg);
      }
    }
    assert Filtered(depGraph, nodeIdsToFilterOutSet) == (Pass, depGraphBuilder.state);
    var built := depGraphBuilder.Build();
    return Ok(built);
  }

  /** One turn of the loop: the pair on top is popped; a listed node is
      skipped, any other is added under its parent (the root has none) and its
      dependencies are pushed in reverse. The rest of the walk is unchanged by
      the turn, and the pops left fall. */
  method Pop(g: DepGraph, filtered: set<NodeId>, b: DepGraphBuilder, queue: seq<(NodeId, NodeId)>)
    returns (r: Outcome, queue': seq<(NodeId, NodeId)>)
    requires Readable(g) && Walkable(g, filtered) && b.Valid()
    requires Queued(g, filtered, queue) && queue != []
    modifies b
    ensures b.Valid()
    ensures r.Pass? ==> Queued(g, filtered, queue')
    ensures r.Pass? ==> StackCount(g, filtered, queue') < StackCount(g, filtered, queue)
    ensures StackRun(g, filtered, old(b.state), queue) ==
      if r.Fail? then (r, b.state) else StackRun(g, filtered, b.state, queue')
  {
    var top := queue[|queue| - 1];
    var below := queue[..|queue| - 1];
    var nodeId, parentNodeId := top.0, top.1;
    StackPop(g, filtered, b.state, queue, top, below);
    StackCountPop(g, filtered, queue, top, below);
    if nodeId in filtered {
      return Pass, below;
    }
    ghost var s := b.state;
    ExpandEnters(g, filtered, s, nodeId, parentNodeId);
    r := PruneGraph.AddAndConnect(b, parentNodeId, PkgOf(g, nodeId), nodeId, InfoOf(g, nodeId));
    if r.Fail? {
      return r, below;
    }
    var dependencies := Reverse(g.graph.succ[nodeId]);
    queue' := PushAll(below, dependencies, nodeId);
    assert g.graph.succ[nodeId][0..] == g.graph.succ[nodeId];
    QueuedPush(g, filtered, below, nodeId, 0);
    StackDeps(g, filtered, b.state, below, nodeId, 0);
    CountPushed(g, filtered, below, nodeId, 0);
  }

  /** `for (const depNodeId of dependencies) queue.push([depNodeId, nodeId])`. */
  method PushAll(queue: seq<(NodeId, NodeId)>, dependencies: seq<NodeId>, nodeId: NodeId) returns (queue': seq<(NodeId, NodeId)>)
    ensures queue' == queue + Pushed(dependencies, nodeId)
  {
    queue' := queue;
    for i := 0 to |dependencies|
      invariant queue' == queue + Pushed(dependencies[..i], nodeId)
    {
      assert Pushed(dependencies[..i + 1], nodeId) == Pushed(dependencies[..i], nodeId) + [(dependencies[i], nodeId)];
      queue' := queue' + [(dependencies[i], nodeId)];
    }
    assert dependencies[..|dependencies|] == dependencies;
  }

  /** What the rebuilt graph holds: a well-formed graph rooted at 'root-node'
      with only nodes and edges of the input that the walk passes, and, on a
      plain input, no builder error and every such node and edge. */
  lemma FilterNodesMeaning(g: DepGraph, filtered: set<NodeId>)
    requires g.Valid() && Walkable(g, filtered)
    ensures var w := Filtered(g, filtered);
      && w.1.graph.Valid() && w.1.rootNodeId == RootNodeId
      && KeptEdges(g, filtered, w.1) && KeptNodes(g, filtered, w.1)
      && (FilterWalk.Plain(g) ==> w.0.Pass? && (g.rootNodeId !in filtered ==> Covered(g, filtered, w.1, g.rootNodeId)))
  {
    FilterKeepsOnly(g, filtered);
    if FilterWalk.Plain(g) {
      FilterKeepsAll(g, filtered);
    }
  }

  // ---------------------------------------------------------------------------
  // filterPackagesFromGraph

  /** An entry of `packagesToFilterOut`: a bare name or a name and version. */
  datatype PkgFilter = ByName(name: string) | ByPkg(pkg: Pkg)

  /** `isString(pkgToFilter) ? existingPkg.name === pkgToFilter : name and version equal`. */
  predicate Matches(p: Pkg, f: PkgFilter) {
    match f
    case ByName(n) => p.name == n
    case ByPkg(q) => p.name == q.name && p.version == q.version
  }

  /** `getDepPkgs().filter(existingPkg => packagesToFilterOut.some(...))`, in order. */
  function Matching(pkgs: seq<Pkg>, filters: seq<PkgFilter>): (r: seq<Pkg>)
    ensures |r| <= |pkgs|
    ensures forall p :: p in r <==> p in pkgs && exists f :: f in filters && Matches(p, f)
  {
    if pkgs == [] then []
    else
      var rest := Matching(pkgs[1..], filters);
      if exists f :: f in filters && Matches(pkgs[0], f) then [pkgs[0]] + rest else rest
  }

  /** The node ids of the packages, one package after the other, or the
      "no such pkg" error of the first one the graph does not hold. */
  function PkgNodeIdsOf(g: DepGraph, pkgs: seq<Pkg>): (r: Result<seq<NodeId>>)
    requires g.Valid()
  {
    if pkgs == [] then Ok([])
    else
      var ids :- g.GetPkgNodeIds(pkgs[0]);
      var rest :- PkgNodeIdsOf(g, pkgs[1..]);
      Ok(ids + rest)
  }

  /** The gathered list fails exactly on a package the graph does not hold, and
      otherwise holds graph nodes only, and every node of each package. */
  lemma {:induction false} PkgNodeIdsMeaning(g: DepGraph, pkgs: seq<Pkg>)
    requires g.Valid()
    ensures var r := PkgNodeIdsOf(g, pkgs);
      && (r.Ok? <==> forall p :: p in pkgs ==> GetPkgId(p) in g.pkgs.m)
      && (r.Ok? ==> forall n :: n in r.value ==> n in g.graph.labelOf)
      && (r.Ok? ==> forall p, n :: p in pkgs && n in g.graph.labelOf && g.graph.labelOf[n].pkgId == GetPkgId(p) ==> n in r.value)
  {
    if pkgs != [] {
      PkgNodeIdsMeaning(g, pkgs[1..]);
      var r := PkgNodeIdsOf(g, pkgs);
      if r.Ok? {
        forall p | p in pkgs ensures GetPkgId(p) in g.pkgs.m {
          if p != pkgs[0] {
            assert p in pkgs[1..];
          }
        }
      }
      if forall p :: p in pkgs ==> GetPkgId(p) in g.pkgs.m {
        forall p | p in pkgs[1..] ensures GetPkgId(p) in g.pkgs.m {
          assert p in pkgs;
        }
      }
    }
  }

  /** The ids gathered so far followed by those still to come. */
  function Then(acc: seq<NodeId>, r: Result<seq<NodeId>>): Result<seq<NodeId>> {
    if r.Ok? then Ok(acc + r.value) else r
  }

  /** Gathering the ids of `pkgs[i..]` after `acc` is gathering those of
      `pkgs[i]` and then those of `pkgs[i+1..]`. */
  lemma GatherStep(g: DepGraph, pkgs: seq<Pkg>, i: nat, acc: seq<NodeId>)
    requires g.Valid() && i < |pkgs|
    ensures var ids := g.GetPkgNodeIds(pkgs[i]);
      Then(acc, PkgNodeIdsOf(g, pkgs[i..])) ==
        if ids.Err? then Err(ids.msg) else Then(acc + ids.value, PkgNodeIdsOf(g, pkgs[i + 1..]))
  {
    assert pkgs[i..][1..] == pkgs[i + 1..];
    var ids := g.GetPkgNodeIds(pkgs[i]);
    var rest := PkgNodeIdsOf(g, pkgs[i + 1..]);
    if ids.Ok? && rest.Ok? {
      assert acc + (ids.value + rest.value) == (acc + ids.value) + rest.value;
    }
  }

  /** `for (const nodeId of nodeIds) nodeIdsToFilterOut.push(nodeId)`. */
  method PushIds(acc: seq<NodeId>, nodeIds: seq<NodeId>) returns (acc': seq<NodeId>)
    ensures acc' == acc + nodeIds
  {
    acc' := acc;
    for j := 0 to |nodeIds|
      invariant acc' == acc + nodeIds[..j]
    {
      assert nodeIds[..j + 1] == nodeIds[..j] + [nodeIds[j]];
      acc' := acc' + [nodeIds[j]];
    }
    assert nodeIds[..|nodeIds|] == nodeIds;
  }

  /** `for (const pkg of packages) for (const nodeId of depGraph.getPkgNodeIds(pkg)) nodeIdsToFilterOut.push(nodeId)`. */
  method GatherNodeIds(g: DepGraph, packages: seq<Pkg>) returns (r: Result<seq<NodeId>>)
    requires g.Valid()
    ensures r == PkgNodeIdsOf(g, packages)
  {
    var nodeIdsToFilterOut: seq<NodeId> := [];
    assert packages[0..] == packages;
    ghost var all := PkgNodeIdsOf(g, packages);
    if all.Ok? {
      assert [] + all.value == all.value;
    }
    for i := 0 to |packages|
      invariant PkgNodeIdsOf(g, packages) == Then(nodeIdsToFilterOut, PkgNodeIdsOf(g, packages[i..]))
    {
      GatherStep(g, packages, i, nodeIdsToFilterOut);
      var nodeIds := g.GetPkgNodeIds(packages[i]);
      if nodeIds.Err? {
        return Err(nodeIds.msg);
      }
      nodeIdsToFilterOut := PushIds(nodeIdsToFilterOut, nodeIds.value);
    }
    assert packages[|packages|..] == [];
    assert nodeIdsToFilterOut + [] == nodeIdsToFilterOut;
    return Ok(nodeIdsToFilterOut);
  }

  /** The listed nodes of `filterPackagesFromGraph`, when the graph holds every
      matching package. */
  function PkgFilterIds(g: DepGraph, filters: seq<PkgFilter>): Result<seq<NodeId>>
    requires g.Valid()
  {
    PkgNodeIdsOf(g, Matching(g.GetDepPkgs(), filters))
  }

  /** `filterPackagesFromGraph(originalDepGraph, packagesToFilterOut)`: with no
      filter the input is returned as it is; otherwise every node of a
      non-root package matching a filter is left out, as
      `filterNodesFromGraph` does. */
  method FilterPackagesFromGraph(originalDepGraph: DepGraphImpl, packagesToFilterOut: seq<PkgFilter>) returns (r: Result<DepGraphImpl>)
    requires originalDepGraph.data.Valid()
    requires packagesToFilterOut != [] && PkgFilterIds(originalDepGraph.data, packagesToFilterOut).Ok? ==>
      var filtered := Existing(originalDepGraph.data, PkgFilterIds(originalDepGraph.data, packagesToFilterOut).value);
      filtered != {} ==> Walkable(originalDepGraph.data, filtered)
    ensures packagesToFilterOut == [] ==> r == Ok(originalDepGraph)
    ensures packagesToFilterOut != [] ==>
      var ids := PkgFilterIds(originalDepGraph.data, packagesToFilterOut);
      && (ids.Err? ==> r == Err(ids.msg))
      && (ids.Ok? && Existing(originalDepGraph.data, ids.value) == {} ==> r == Ok(originalDepGraph))
      && (ids.Ok? && Existing(originalDepGraph.data, ids.value) != {} ==>
            var w := Filtered(originalDepGraph.data, Existing(originalDepGraph.data, ids.value));
            (r.Err? <==> w.0.Fail?) && (r.Ok? ==> fresh(r.value) && r.value.data == w.1))
  {
    if packagesToFilterOut == [] {
      return Ok(originalDepGraph);
    }
    var depGraph := originalDepGraph.data;
    var packages := Matching(depGraph.GetDepPkgs(), packagesToFilterOut);
    var ids := GatherNodeIds(depGraph, packages);
    if ids.Err? {
      return Err(ids.msg);
    }
    r := FilterNodesFromGraph(originalDepGraph, ids.value);
  }

  /** Every node id `filterPackagesFromGraph` leaves out belongs to a non-root
      package matching a filter, and every node of such a package is left out. */
  lemma PkgFilterMeaning(g: DepGraph, filters: seq<PkgFilter>)
    requires g.Valid() && PkgFilterIds(g, filters).Ok?
    ensures forall n :: n in Existing(g, PkgFilterIds(g, filters).value) ==> n in g.graph.labelOf
    ensures forall n, p ::
      (p in g.GetDepPkgs() && (exists f :: f in filters && Matches(p, f)) &&
       n in g.graph.labelOf && g.graph.labelOf[n].pkgId == GetPkgId(p)) ==> n in Existing(g, PkgFilterIds(g, filters).value)
  {
    PkgNodeIdsMeaning(g, Matching(g.GetDepPkgs(), filters));
  }
}

/** `mapToNonCyclicGraph`: a graph with a cycle reachable from its root is
    rebuilt through the builder by a depth-first walk from the root, each edge
    that closes a cycle leading instead to a childless `<id>_pruned` leaf. The
    builder's state after each call is the one the walk of `NonCyclicWalk`
    computes. */
module MapToNonCyclic {
  import opened Wrappers
  import opened Graphs
  import opened Types
  import opened DepGraphs
  import opened Builders
  import PruneWalk
  import PruneGraph
  import opened CutCycles
  import opened NonCyclicWalk

  /** `dfsBuildGraph`: the builder ends in the state the walk computes, and the
      shared memoization set is handed back. */
  method DfsBuildGraph(g: DepGraph, b: DepGraphBuilder, nodeId: NodeId, ancestors: seq<NodeId>, memo: set<NodeId>)
    returns (r: Outcome, memo': set<NodeId>)
    requires Readable(g) && b.Valid()
    requires nodeId in g.graph.labelOf && forall a :: a in ancestors ==> a in g.graph.labelOf
    modifies b
    ensures b.Valid()
    ensures Mapped(r, b.state, memo') == Walk(g, old(b.state), nodeId, ancestors, memo)
    decreases |g.graph.labelOf.Keys - PruneWalk.AncSet(ancestors)|, 1, 0
  {
    var parentNodeId := PruneWalk.Parent(ancestors);
    var pkgInfo := PkgOf(g, nodeId);
    var nodeInfo := NodeInfoOf(g, nodeId);
    var id := nodeId;
    var walkDeps := true;
    if nodeId in ancestors {
      id := PruneWalk.PrunedId(nodeId);
      nodeInfo := Some(PruneWalk.MarkPruned(nodeInfo, CyclicLabel));
      walkDeps := false;
    } else if nodeId in memo {
      walkDeps := false;
    }
    r := PruneGraph.AddAndConnect(b, parentNodeId, pkgInfo, id, nodeInfo);
    if r.Fail? {
      return r, memo;
    }
    memo' := memo;
    if walkDeps {
      r, memo' := VisitDeps(g, b, nodeId, ancestors, memo);
      if r.Fail? {
        return;
      }
    }
    memo' := memo' + {id};
  }

  /** `for (const dep of dependencies) dfsBuildGraph(dep, ..., ancestors.concat(nodeId), memoizationSet)`. */
  method VisitDeps(g: DepGraph, b: DepGraphBuilder, v: NodeId, ancestors: seq<NodeId>, memo: set<NodeId>)
    returns (r: Outcome, memo': set<NodeId>)
    requires Readable(g) && b.Valid()
    requires v in g.graph.labelOf && v !in ancestors && forall a :: a in ancestors ==> a in g.graph.labelOf
    modifies b
    ensures b.Valid()
    ensures Mapped(r, b.state, memo') == WalkDeps(g, old(b.state), v, ancestors, memo, 0)
    decreases |g.graph.labelOf.Keys - PruneWalk.AncSet(ancestors)|, 0, |g.graph.succ[v]| + 1
  {
    ghost var s0 := b.state;
    memo' := memo;
    for k := 0 to |g.graph.succ[v]|
      invariant b.Valid()
      invariant WalkDeps(g, s0, v, ancestors, memo, 0) == WalkDeps(g, b.state, v, ancestors, memo', k)
    {
      r, memo' := VisitDep(g, b, v, ancestors, memo', k);
      if r.Fail? {
        return;
      }
    }
    r := Pass;
  }

  /** One turn of the loop: the walk of the `k`-th dependency. */
  method VisitDep(g: DepGraph, b: DepGraphBuilder, v: NodeId, ancestors: seq<NodeId>, memo: set<NodeId>, k: nat)
    returns (r: Outcome, memo': set<NodeId>)
    requires Readable(g) && b.Valid()
    requires v in g.graph.labelOf && v !in ancestors && forall a :: a in ancestors ==> a in g.graph.labelOf
    requires k < |g.graph.succ[v]|
    modifies b
    ensures b.Valid()
    ensures WalkDeps(g, old(b.state), v, ancestors, memo, k) ==
      if r.Fail? then Mapped(r, b.state, memo') else WalkDeps(g, b.state, v, ancestors, memo', k + 1)
    decreases |g.graph.labelOf.Keys - PruneWalk.AncSet(ancestors)|, 0, |g.graph.succ[v]| - k
  {
    PruneWalk.Shrinks(g.graph.labelOf.Keys, ancestors, v);
    ghost var s := b.state;
    WalkDepsStep(g, s, v, ancestors, memo, k);
    r, memo' := DfsBuildGraph(g, b, g.graph.succ[v][k], ancestors + [v], memo);
    DepStep(g, s, v, ancestors, memo, k, r, b.state, memo');
  }

  /** `mapToNonCyclicGraph(depGraphToMap)`: a graph with no cycle reachable from
      its root is returned as it is. Otherwise the result is a new graph holding
      nothing that is not in the input (up to cyclic leaves); on a plain input
      it is built without error, keeps every reachable node and edge, and has
      no cycle. An error thrown by the builder is the `Err` result. */
  method MapToNonCyclicGraph(depGraphToMap: DepGraphImpl) returns (r: Result<DepGraphImpl>)
    requires depGraphToMap.data.Valid()
    ensures !CycleReachable(depGraphToMap.data.graph.succ, depGraphToMap.data.rootNodeId) ==> r == Ok(depGraphToMap)
    ensures CycleReachable(depGraphToMap.data.graph.succ, depGraphToMap.data.rootNodeId) && r.Ok? ==>
      fresh(r.value) && r.value.data.Valid() && Derived(depGraphToMap.data, r.value.data) &&
      r.value.data.rootNodeId == RootNodeId
    ensures CycleReachable(depGraphToMap.data.graph.succ, depGraphToMap.data.rootNodeId) && PruneWalk.Plain(depGraphToMap.data) ==>
      r.Ok? && PruneWalk.Complete(depGraphToMap.data, r.value.data) && Acyclic(r.value.data.graph.succ)
  {
    var depGraph := depGraphToMap.data;
    var cyclic := HasCycles(depGraph);
    if !cyclic {
      return Ok(depGraphToMap);
    }
    ValidReadable(depGraph);
    var builder := new DepGraphBuilder(depGraph.pkgManager, Some(depGraph.RootPkg()));
    ghost var s0 := builder.state;
    var outcome, memo := DfsBuildGraph(depGraph, builder, depGraph.rootNodeId, [], {});
    MapDerived(depGraph, s0, outcome, builder.state, memo);
    if PruneWalk.Plain(depGraph) {
      MapPlain(depGraph, s0, outcome, builder.state, memo);
      MapAcyclic(depGraph, s0, outcome, builder.state, memo);
    }
    if outcome.Fail? {
      return Err(outcome.msg);
    }
    var built := builder.Build();
    return Ok(built);
  }
}

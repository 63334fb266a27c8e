/** `pruneGraph`: a copy of a graph, built through the builder by a depth-first
    walk from the root. The builder's state after each call is the one the walk
    of `PruneWalk` computes. */
module PruneGraph {
  import opened Wrappers
  import opened Graphs
  import opened Types
  import opened DepGraphs
  import opened Builders
  import opened PruneWalk

  // ---------------------------------------------------------------------------
  // The walk on the builder

  /** `dfsBuildGraph`: the builder ends in the state the walk computes, and the
      shared deduplication set is handed back. */
  method DfsBuildGraph(g: DepGraph, b: DepGraphBuilder, nodeId: NodeId, ancestors: seq<NodeId>,
                       dedup: Option<set<NodeId>>)
    returns (r: Outcome, dedup': Option<set<NodeId>>)
    requires Readable(g) && b.Valid()
    requires nodeId in g.graph.labelOf && forall a :: a in ancestors ==> a in g.graph.labelOf
    modifies b
    ensures b.Valid()
    ensures Walked(r, b.state, dedup') == Walk(g, old(b.state), nodeId, ancestors, dedup)
    decreases |g.graph.labelOf.Keys - AncSet(ancestors)|, 1, 0
  {
    var parentNodeId := Parent(ancestors);
    var pkgInfo := PkgOf(g, nodeId);
    var nodeInfo := InfoOf(g, nodeId);
    if nodeId in ancestors {
      r := b.ConnectDep(parentNodeId, nodeId);
      return r, dedup;
    }
    var id := nodeId;
    if dedup.Some? && nodeId in dedup.value {
      id := PrunedId(nodeId);
      nodeInfo := Some(MarkPruned(nodeInfo, "true"));
    }
    dedup' := if dedup.Some? then Some(dedup.value + {id}) else None;
    r := AddAndConnect(b, parentNodeId, pkgInfo, id, nodeInfo);
    if r.Fail? || id != nodeId {
      // A pruned copy has no dependencies to walk.
      return;
    }
    r, dedup' := VisitDeps(g, b, nodeId, ancestors, dedup');
  }

  /** The two builder calls below a truthy parent. */
  method AddAndConnect(b: DepGraphBuilder, parent: NodeId, pkg: Pkg, id: NodeId, info: Option<NodeInfo>)
    returns (r: Outcome)
    requires b.Valid()
    modifies b
    ensures b.Valid()
    ensures (r, b.state) == AddUnder(old(b.state), parent, pkg, id, info)
  {
    r := Pass;
    if parent != "" {
      r := b.AddPkgNode(pkg, id, info);
      if r.Fail? {
        return;
      }
      r := b.ConnectDep(parent, id);
    }
  }

  /** `for (const dep of dependencies) dfsBuildGraph(dep, ..., ancestors.concat(nodeId), deduplicationSet || new Set())`. */
  method VisitDeps(g: DepGraph, b: DepGraphBuilder, v: NodeId, ancestors: seq<NodeId>, dedup: Option<set<NodeId>>)
    returns (r: Outcome, dedup': Option<set<NodeId>>)
    requires Readable(g) && b.Valid()
    requires v in g.graph.labelOf && v !in ancestors && forall a :: a in ancestors ==> a in g.graph.labelOf
    modifies b
    ensures b.Valid()
    ensures Walked(r, b.state, dedup') == WalkDeps(g, old(b.state), v, ancestors, dedup, 0)
    decreases |g.graph.labelOf.Keys - AncSet(ancestors)|, 0, |g.graph.succ[v]| + 1
  {
    ghost var s0 := b.state;
    dedup' := dedup;
    for k := 0 to |g.graph.succ[v]|
      invariant b.Valid()
      invariant WalkDeps(g, s0, v, ancestors, dedup, 0) == WalkDeps(g, b.state, v, ancestors, dedup', k)
    {
      r, dedup' := VisitDep(g, b, v, ancestors, dedup', k);
      if r.Fail? {
        return;
      }
    }
    r := Pass;
  }

  /** One turn of the loop: the walk of the `k`-th dependency. */
  method VisitDep(g: DepGraph, b: DepGraphBuilder, v: NodeId, ancestors: seq<NodeId>, dedup: Option<set<NodeId>>, k: nat)
    returns (r: Outcome, dedup': Option<set<NodeId>>)
    requires Readable(g) && b.Valid()
    requires v in g.graph.labelOf && v !in ancestors && forall a :: a in ancestors ==> a in g.graph.labelOf
    requires k < |g.graph.succ[v]|
    modifies b
    ensures b.Valid()
    ensures WalkDeps(g, old(b.state), v, ancestors, dedup, k) ==
      if r.Fail? then Walked(r, b.state, dedup') else WalkDeps(g, b.state, v, ancestors, dedup', k + 1)
    decreases |g.graph.labelOf.Keys - AncSet(ancestors)|, 0, |g.graph.succ[v]| - k
  {
    Shrinks(g.graph.labelOf.Keys, ancestors, v);
    ghost var s := b.state;
    var childDedup := if dedup.Some? then dedup else Some({});
    var d;
    r, d := DfsBuildGraph(g, b, g.graph.succ[v][k], ancestors + [v], childDedup);
    DepStep(g, s, v, ancestors, dedup, k, r, b.state, d);
    dedup' := if dedup.Some? then d else None;
  }

  // ---------------------------------------------------------------------------
  // pruneGraph

  /** `pruneGraph(depGraph)`: the copy holds nothing that is not in the input (up
      to pruned copies), its pruned copies are leaves, and on a plain input it is
      built without error and keeps every reachable node and edge. An error thrown
      by the builder is the `Err` result. */
  method PruneGraph(baseDepGraph: DepGraphImpl) returns (r: Result<DepGraphImpl>)
    requires baseDepGraph.data.Valid()
    ensures r.Ok? ==> fresh(r.value) && r.value.data.Valid() && Sound(baseDepGraph.data, r.value.data)
    ensures r.Ok? ==> r.value.data.rootNodeId == RootNodeId && r.value.data.RootPkgId() == GetPkgId(baseDepGraph.data.RootPkg())
    ensures Plain(baseDepGraph.data) ==> r.Ok? && Complete(baseDepGraph.data, r.value.data)
    ensures r.Ok? && Plain(baseDepGraph.data) ==> forall n, c :: IsPrunedId(n) ==> !r.value.data.graph.HasEdge(n, c)
  {
    var g := baseDepGraph.data;
    ValidReadable(g);
    var builder := new DepGraphBuilder(g.pkgManager, Some(g.RootPkg()));
    ghost var s0 := builder.state;
    var outcome, dedup := DfsBuildGraph(g, builder, g.rootNodeId, [], None);
    PruneSound(g, s0, outcome, builder.state, dedup);
    if Plain(g) {
      PrunePlain(g, s0, outcome, builder.state, dedup);
    }
    if outcome.Fail? {
      return Err(outcome.msg);
    }
    var built := builder.Build();
    return Ok(built);
  }
}

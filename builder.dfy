/** `DepGraphBuilder` (`src/core/builder.ts`): the only way graphs are made. It
    starts from a root node, adds package nodes and connects them, and hands the
    result to `DepGraphImpl`. */
module Builders {
  import opened Wrappers
  import opened Graphs
  import opened OrderedMaps
  import opened Types
  import opened Helpers
  import opened DepGraphs

  const RootNodeId: NodeId := "root-node"

  /** The root package used when none is given. */
  const DefaultRootPkg := Pkg("_root", Some("0.0.0"))

  const RootOverrideError := "DepGraphBuilder.addPkgNode() cant override root node"

  /** The state of a new builder: the root node alone, owned by the root package. */
  function NewGraph(pkgManager: PkgManager, rootPkg: Option<Pkg>): (d: DepGraph)
    ensures d.Valid()
    ensures d.rootNodeId == RootNodeId && d.graph.nodes == [RootNodeId]
    ensures d.graph.succ[RootNodeId] == [] && d.graph.pred[RootNodeId] == []
    ensures var pkg := if rootPkg.Some? then rootPkg.value else DefaultRootPkg;
            d.RootPkgId() == GetPkgId(pkg) && d.pkgs.keys == [GetPkgId(pkg)] && d.RootPkg() == pkg &&
            d.pkgNodes == map[GetPkgId(pkg) := [RootNodeId]] &&
            d.graph.labelOf == map[RootNodeId := GraphNode(GetPkgId(pkg), None)]
    ensures d.pkgManager == pkgManager
  {
    var pkg := if rootPkg.Some? then rootPkg.value else DefaultRootPkg;
    var id := GetPkgId(pkg);
    var graph := EmptyGraph<GraphNode>().SetNode(RootNodeId, GraphNode(id, None));
    RootGraph(graph, id);
    var d := DepGraph(graph, RootNodeId, EmptyMap<PkgId, Pkg>().Set(id, pkg), map[id := [RootNodeId]], pkgManager);
    RootOnly(d, pkg);
    d
  }

  /** A graph object holding the root node alone, owned by `pkg`. */
  lemma RootOnly(d: DepGraph, pkg: Pkg)
    requires d.graph.Valid() && d.graph.labelOf == map[RootNodeId := GraphNode(GetPkgId(pkg), None)]
    requires d.rootNodeId == RootNodeId && d.pkgs == EmptyMap<PkgId, Pkg>().Set(GetPkgId(pkg), pkg)
    requires d.pkgNodes == map[GetPkgId(pkg) := [RootNodeId]]
    ensures d.Valid() && d.RootPkgId() == GetPkgId(pkg) && d.pkgs.keys == [GetPkgId(pkg)] && d.RootPkg() == pkg
  {
  }

  /** The graph holding the root node alone. */
  lemma RootGraph(graph: Graph<GraphNode>, id: PkgId)
    requires graph == EmptyGraph<GraphNode>().SetNode(RootNodeId, GraphNode(id, None))
    ensures graph.Valid() && graph.nodes == [RootNodeId] && graph.labelOf == map[RootNodeId := GraphNode(id, None)]
    ensures RootNodeId in graph.succ && graph.succ[RootNodeId] == [] && graph.pred[RootNodeId] == []
  {
  }

  /** The node list a package has after `nodeId` joins it. */
  function JoinPkg(pkgNodes: map<PkgId, seq<NodeId>>, id: PkgId, nodeId: NodeId): map<PkgId, seq<NodeId>> {
    pkgNodes[id := SetAdd(if id in pkgNodes then pkgNodes[id] else [], nodeId)]
  }

  /** `addPkgNode(pkg, nodeId, info)`: the root node cannot be overridden;
      otherwise the package is stored under its id, the node joins the package's
      node list and is set to that package and information. */
  function AddPkgNodeTo(d: DepGraph, pkg: Pkg, nodeId: NodeId, info: Option<NodeInfo>): (r: Result<DepGraph>)
    ensures r.Err? <==> nodeId == d.rootNodeId
    ensures r.Err? ==> r.msg == RootOverrideError
    ensures r.Ok? ==> r.value.rootNodeId == d.rootNodeId && r.value.pkgManager == d.pkgManager
    ensures r.Ok? ==> r.value.pkgs == d.pkgs.Set(GetPkgId(pkg), pkg)
    ensures r.Ok? ==> r.value.graph.labelOf == d.graph.labelOf[nodeId := GraphNode(GetPkgId(pkg), info)]
    ensures r.Ok? ==> r.value.graph.nodes == if nodeId in d.graph.labelOf then d.graph.nodes else d.graph.nodes + [nodeId]
    ensures r.Ok? && d.graph.Valid() ==> forall a, b :: r.value.graph.HasEdge(a, b) <==> d.graph.HasEdge(a, b)
    ensures r.Ok? ==> GetPkgId(pkg) in r.value.pkgNodes && nodeId in r.value.pkgNodes[GetPkgId(pkg)]
    ensures r.Ok? ==> forall k :: k in d.pkgNodes ==> k in r.value.pkgNodes && forall n :: n in d.pkgNodes[k] ==> n in r.value.pkgNodes[k]
  {
    if nodeId == d.rootNodeId then Err(RootOverrideError)
    else
      var id := GetPkgId(pkg);
      Ok(DepGraph(d.graph.SetNode(nodeId, GraphNode(id, info)), d.rootNodeId, d.pkgs.Set(id, pkg),
                  JoinPkg(d.pkgNodes, id, nodeId), d.pkgManager))
  }

  lemma JoinPkgKnown(labelOf: map<NodeId, GraphNode>, pkgNodes: map<PkgId, seq<NodeId>>, id: PkgId, nodeId: NodeId, l: GraphNode)
    requires PkgNodesKnown(labelOf, pkgNodes)
    ensures PkgNodesKnown(labelOf[nodeId := l], JoinPkg(pkgNodes, id, nodeId))
  {
  }

  lemma JoinPkgListed(labelOf: map<NodeId, GraphNode>, pkgNodes: map<PkgId, seq<NodeId>>, id: PkgId, nodeId: NodeId, info: Option<NodeInfo>)
    requires NodesListed(labelOf, pkgNodes)
    ensures NodesListed(labelOf[nodeId := GraphNode(id, info)], JoinPkg(pkgNodes, id, nodeId))
  {
    var l2 := labelOf[nodeId := GraphNode(id, info)];
    var p2 := JoinPkg(pkgNodes, id, nodeId);
    forall n | n in l2 ensures l2[n].pkgId in p2 && n in p2[l2[n].pkgId] {
      if n != nodeId {
        assert n in pkgNodes[labelOf[n].pkgId];
      }
    }
  }

  /** Adding a node keeps everything the graph object relies on, and the root
      node keeps its package. */
  lemma AddPkgNodeValid(d: DepGraph, id: PkgId, pkg: Pkg, nodeId: NodeId, info: Option<NodeInfo>)
    requires d.Valid() && nodeId != d.rootNodeId
    ensures var e := DepGraph(d.graph.SetNode(nodeId, GraphNode(id, info)), d.rootNodeId, d.pkgs.Set(id, pkg),
                              JoinPkg(d.pkgNodes, id, nodeId), d.pkgManager);
            e.Valid() && e.RootPkgId() == d.RootPkgId()
  {
    var e := DepGraph(d.graph.SetNode(nodeId, GraphNode(id, info)), d.rootNodeId, d.pkgs.Set(id, pkg),
                      JoinPkg(d.pkgNodes, id, nodeId), d.pkgManager);
    assert e.graph.Valid() && e.pkgs.Valid();
    assert e.pkgNodes.Keys == e.pkgs.m.Keys;
    JoinPkgKnown(d.graph.labelOf, d.pkgNodes, id, nodeId, GraphNode(id, info));
    JoinPkgListed(d.graph.labelOf, d.pkgNodes, id, nodeId, info);
  }

  /** Storing a package under its id keeps every package under its id. */
  lemma KeyedSet(d: DepGraph, e: DepGraph, pkg: Pkg)
    requires PkgsKeyed(d) && e.pkgs == d.pkgs.Set(GetPkgId(pkg), pkg)
    ensures PkgsKeyed(e)
  {
  }

  /** `connectDep(parent, dep)`: both ends must exist; the edge is added once. */
  function ConnectDepIn(d: DepGraph, parent: NodeId, dep: NodeId): (r: Result<DepGraph>)
    requires d.graph.succ.Keys == d.graph.labelOf.Keys && d.graph.pred.Keys == d.graph.labelOf.Keys
    ensures r.Err? <==> !d.graph.HasNode(parent) || !d.graph.HasNode(dep)
    ensures r.Err? ==> r.msg == if !d.graph.HasNode(parent) then "parentNodeId does not exist" else "depNodeId does not exist"
    ensures r.Ok? ==> d.Valid() ==> r.value.Valid()
    ensures r.Ok? ==> r.value.graph.nodes == d.graph.nodes && r.value.graph.labelOf == d.graph.labelOf
    ensures r.Ok? ==> r.value.pkgs == d.pkgs && r.value.pkgNodes == d.pkgNodes && r.value.rootNodeId == d.rootNodeId
    ensures r.Ok? ==> forall a, b :: r.value.graph.HasEdge(a, b) <==> d.graph.HasEdge(a, b) || (a == parent && b == dep)
  {
    if !d.graph.HasNode(parent) then Err("parentNodeId does not exist")
    else if !d.graph.HasNode(dep) then Err("depNodeId does not exist")
    else Ok(DepGraph(d.graph.SetEdge(parent, dep), d.rootNodeId, d.pkgs, d.pkgNodes, d.pkgManager))
  }

  /** The graph is not a multigraph: connecting a pair that is already connected
      changes nothing, so connecting twice is connecting once. */
  lemma ConnectTwice(d: DepGraph, parent: NodeId, dep: NodeId)
    requires d.Valid() && ConnectDepIn(d, parent, dep).Ok?
    ensures ConnectDepIn(ConnectDepIn(d, parent, dep).value, parent, dep) == ConnectDepIn(d, parent, dep)
    ensures |ConnectDepIn(d, parent, dep).value.graph.succ[parent]| <= |d.graph.succ[parent]| + 1
  {
    var e := ConnectDepIn(d, parent, dep).value;
    assert e.graph.HasEdge(parent, dep);
    assert e.graph.SetEdge(parent, dep) == e.graph;
  }

  /** The builder. Its three maps `_pkgs`, `_pkgNodes` and `_graph`, the root
      node id and the package manager are held together as one `DepGraph` value,
      which every method replaces. */
  class DepGraphBuilder {
    const rootPkgId: PkgId
    var state: DepGraph

    /** The root node is 'root-node' and keeps the root package for good, and
        every package is stored under its id. */
    ghost predicate Valid()
      reads this
    {
      state.Valid() && state.rootNodeId == RootNodeId && state.RootPkgId() == rootPkgId && PkgsKeyed(state)
    }

    constructor(pkgManager: PkgManager, rootPkg: Option<Pkg>)
      ensures Valid()
      ensures state == NewGraph(pkgManager, rootPkg)
    {
      var pkg := if rootPkg.Some? then rootPkg.value else DefaultRootPkg;
      var id := GetPkgId(pkg);
      var graph := EmptyGraph<GraphNode>().SetNode(RootNodeId, GraphNode(id, None));
      rootPkgId := id;
      state := DepGraph(graph, RootNodeId, EmptyMap<PkgId, Pkg>().Set(id, pkg), map[id := [RootNodeId]], pkgManager);
    }

    /** `rootNodeId`. */
    function RootNode(): (r: NodeId)
      reads this
      requires Valid()
      ensures r == RootNodeId && r in state.graph.labelOf
    {
      state.rootNodeId
    }

    /** `getPkgs()`: the packages in the order their ids were first stored. */
    function GetPkgs(): (r: seq<Pkg>)
      reads this
      requires Valid()
      ensures |r| == |state.pkgs.keys|
      ensures forall i :: 0 <= i < |r| ==> r[i] == state.pkgs.m[state.pkgs.keys[i]]
    {
      state.pkgs.Values()
    }

    method AddPkgNode(pkg: Pkg, nodeId: NodeId, info: Option<NodeInfo>) returns (r: Outcome)
      requires Valid()
      modifies this
      ensures Valid()
      ensures r.Fail? <==> AddPkgNodeTo(old(state), pkg, nodeId, info).Err?
      ensures r.Fail? ==> r.msg == RootOverrideError && state == old(state)
      ensures r.Pass? ==> state == AddPkgNodeTo(old(state), pkg, nodeId, info).value
    {
      if nodeId == state.rootNodeId {
        return Fail(RootOverrideError);
      }
      var id := GetPkgId(pkg);
      AddPkgNodeValid(state, id, pkg, nodeId, info);
      ghost var old_state := state;
      state := DepGraph(state.graph.SetNode(nodeId, GraphNode(id, info)), state.rootNodeId, state.pkgs.Set(id, pkg),
                        JoinPkg(state.pkgNodes, id, nodeId), state.pkgManager);
      KeyedSet(old_state, state, pkg);
      return Pass;
    }

    method ConnectDep(parent: NodeId, dep: NodeId) returns (r: Outcome)
      requires Valid()
      modifies this
      ensures Valid()
      ensures r.Fail? <==> ConnectDepIn(old(state), parent, dep).Err?
      ensures r.Fail? ==> r.msg == ConnectDepIn(old(state), parent, dep).msg && state == old(state)
      ensures r.Pass? ==> state == ConnectDepIn(old(state), parent, dep).value
    {
      if !state.graph.HasNode(parent) {
        return Fail("parentNodeId does not exist");
      }
      if !state.graph.HasNode(dep) {
        return Fail("depNodeId does not exist");
      }
      state := DepGraph(state.graph.SetEdge(parent, dep), state.rootNodeId, state.pkgs, state.pkgNodes, state.pkgManager);
      return Pass;
    }

    /** `build()`: a graph object over the builder's state, with an empty cache. */
    method Build() returns (g: DepGraphImpl)
      requires Valid()
      ensures fresh(g) && g.data == state && g.data.Valid() && g.countCache == map[]
    {
      g := new DepGraphImpl(state);
    }
  }
}

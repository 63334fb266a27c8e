/** `getGraphMaps` (`src/cycles/get-graph-maps.ts`): the node, edge and package
    maps that cutting and reconnecting cycles work on, read off the JSON form of
    a graph. */
module GraphMaps {
  import opened Wrappers
  import opened Graphs
  import opened OrderedMaps
  import opened Types
  import opened DepGraphs
  import opened Dfs

  /** The node ids of a JSON node list, in list order. */
  function Ids(nodes: seq<JsonNode>): (r: seq<NodeId>)
    ensures |r| == |nodes|
    ensures forall i :: 0 <= i < |nodes| ==> r[i] == nodes[i].nodeId
  {
    seq(|nodes|, i requires 0 <= i < |nodes| => nodes[i].nodeId)
  }

  lemma IdsSnoc(nodes: seq<JsonNode>, n: JsonNode)
    ensures Ids(nodes + [n]) == Ids(nodes) + [n.nodeId]
  {
    assert forall i :: 0 <= i < |nodes| ==> (nodes + [n])[i] == nodes[i];
  }

  /** Node `i` is the last one of the list with its id. */
  predicate LastWithId(nodes: seq<JsonNode>, i: int)
    requires 0 <= i < |nodes|
  {
    forall j :: i < j < |nodes| ==> nodes[j].nodeId != nodes[i].nodeId
  }

  /** `nodes.reduce((map, n) => map.set(n.nodeId, n), new Map())`: one entry per
      id, in first-occurrence order. */
  function NodesMapOf(nodes: seq<JsonNode>): (r: OMap<NodeId, JsonNode>)
    ensures r.Valid()
    ensures forall n :: n in r.m <==> n in Ids(nodes)
  {
    if nodes == [] then EmptyMap()
    else
      var init := nodes[..|nodes| - 1];
      var last := nodes[|nodes| - 1];
      assert Ids(nodes) == Ids(init) + [last.nodeId];
      NodesMapOf(init).Set(last.nodeId, last)
  }

  /** Every entry is keyed by its own id, and a later node with the same id
      replaces an earlier one. */
  lemma {:induction false} NodesMapEntries(nodes: seq<JsonNode>)
    ensures forall n :: n in NodesMapOf(nodes).m ==> NodesMapOf(nodes).m[n].nodeId == n
    ensures forall i :: 0 <= i < |nodes| && LastWithId(nodes, i) ==> NodesMapOf(nodes).m[nodes[i].nodeId] == nodes[i]
  {
    if nodes != [] {
      var init := nodes[..|nodes| - 1];
      var last := nodes[|nodes| - 1];
      NodesMapEntries(init);
      var r0 := NodesMapOf(init);
      var r := NodesMapOf(nodes);
      assert r.m == r0.m[last.nodeId := last];
      forall i | 0 <= i < |nodes| && LastWithId(nodes, i)
        ensures r.m[nodes[i].nodeId] == nodes[i]
      {
        if i < |nodes| - 1 {
          assert nodes[i].nodeId != last.nodeId;
          assert init[i] == nodes[i];
          assert LastWithId(init, i);
        }
      }
    }
  }

  /** With distinct ids the keys are the ids in list order. */
  lemma {:induction false} NodesMapKeys(nodes: seq<JsonNode>)
    requires Distinct(Ids(nodes))
    ensures NodesMapOf(nodes).keys == Ids(nodes)
  {
    if nodes != [] {
      var init := nodes[..|nodes| - 1];
      assert Ids(nodes) == Ids(init) + [nodes[|nodes| - 1].nodeId];
      NodesMapKeys(init);
    }
  }

  /** `nodes.reduce((map, n) => map.set(n.nodeId, n.deps.map(d => d.nodeId)), new Map())`. */
  function EdgesMapOf(nodes: seq<JsonNode>): (r: OMap<NodeId, seq<NodeId>>)
    ensures r.Valid()
  {
    if nodes == [] then EmptyMap()
    else EdgesMapOf(nodes[..|nodes| - 1]).Set(nodes[|nodes| - 1].nodeId, nodes[|nodes| - 1].deps)
  }

  /** The edge map is the node map with each node replaced by its dependencies:
      both maps have the same keys in the same order. */
  lemma {:induction false} EdgesFollowNodes(nodes: seq<JsonNode>)
    ensures EdgesMapOf(nodes).keys == NodesMapOf(nodes).keys
    ensures forall n :: n in NodesMapOf(nodes).m ==> n in EdgesMapOf(nodes).m && EdgesMapOf(nodes).m[n] == NodesMapOf(nodes).m[n].deps
    ensures EdgesMapOf(nodes).m.Keys == NodesMapOf(nodes).m.Keys
  {
    if nodes != [] {
      EdgesFollowNodes(nodes[..|nodes| - 1]);
    }
  }

  /** `pkgs.reduce((map, p) => map.set(p.id, p.info), new Map())`: one entry per
      id; a later entry with the same id wins. */
  function PkgsInfoOf(pkgs: seq<PkgEntry>): (r: map<PkgId, Pkg>)
    ensures forall k :: k in r <==> k in PkgIds(pkgs)
  {
    if pkgs == [] then map[]
    else
      var init := pkgs[..|pkgs| - 1];
      var last := pkgs[|pkgs| - 1];
      assert PkgIds(pkgs) == PkgIds(init) + [last.id];
      PkgsInfoOf(init)[last.id := last.info]
  }

  /** A later entry with the same id replaces an earlier one. */
  lemma {:induction false} PkgsInfoOfLast(pkgs: seq<PkgEntry>, i: nat)
    requires i < |pkgs| && forall j :: i < j < |pkgs| ==> pkgs[j].id != pkgs[i].id
    ensures PkgsInfoOf(pkgs)[pkgs[i].id] == pkgs[i].info
  {
    if i < |pkgs| - 1 {
      var init := pkgs[..|pkgs| - 1];
      assert init[i] == pkgs[i];
      assert forall j :: i < j < |init| ==> init[j] == pkgs[j];
      PkgsInfoOfLast(init, i);
    }
  }

  datatype Maps = Maps(nodesMap: OMap<NodeId, JsonNode>, edgesMap: OMap<NodeId, seq<NodeId>>, pkgsInfoMap: map<PkgId, Pkg>)

  /** `getGraphMaps(depGraph)`. */
  function GetGraphMaps(g: DepGraph): (r: Maps)
    requires g.Valid()
  {
    var d := ToJSON(g);
    Maps(NodesMapOf(d.graph.nodes), EdgesMapOf(d.graph.nodes), PkgsInfoOf(d.pkgs))
  }

  /** With distinct ids, node `i` is the entry of its id in both maps. */
  lemma {:induction false} DistinctNodesMap(ns: seq<JsonNode>)
    requires Distinct(Ids(ns))
    ensures NodesMapOf(ns).keys == Ids(ns) && EdgesMapOf(ns).keys == Ids(ns)
    ensures forall i :: 0 <= i < |ns| ==> NodesMapOf(ns).m[ns[i].nodeId] == ns[i] && EdgesMapOf(ns).m[ns[i].nodeId] == ns[i].deps
  {
    NodesMapKeys(ns);
    EdgesFollowNodes(ns);
    if ns != [] {
      var init := ns[..|ns| - 1];
      var last := ns[|ns| - 1];
      assert Ids(ns) == Ids(init) + [last.nodeId];
      DistinctNodesMap(init);
      forall i | 0 <= i < |ns| - 1
        ensures NodesMapOf(ns).m[ns[i].nodeId] == ns[i] && EdgesMapOf(ns).m[ns[i].nodeId] == ns[i].deps
      {
        assert Ids(ns)[i] != Ids(ns)[|ns| - 1];
        assert init[i] == ns[i];
      }
    }
  }

  /** The ids of a package entry list, in list order. */
  function PkgIds(pkgs: seq<PkgEntry>): (r: seq<PkgId>)
    ensures |r| == |pkgs|
    ensures forall i :: 0 <= i < |pkgs| ==> r[i] == pkgs[i].id
  {
    seq(|pkgs|, i requires 0 <= i < |pkgs| => pkgs[i].id)
  }

  /** The package entries of an insertion-ordered map give that map back. */
  lemma {:induction false} PkgsInfoOfEntries(pkgs: seq<PkgEntry>, om: OMap<PkgId, Pkg>)
    requires om.Valid() && PkgIds(pkgs) == om.keys
    requires forall i :: 0 <= i < |pkgs| ==> pkgs[i].info == om.m[om.keys[i]]
    ensures PkgsInfoOf(pkgs) == om.m
  {
    var pm := PkgsInfoOf(pkgs);
    forall k | k in om.m
      ensures pm[k] == om.m[k]
    {
      var i :| 0 <= i < |om.keys| && om.keys[i] == k;
      PkgsInfoOfDistinct(pkgs, i);
    }
  }

  lemma PkgsInfoOfDistinct(pkgs: seq<PkgEntry>, i: nat)
    requires Distinct(PkgIds(pkgs)) && i < |pkgs|
    ensures PkgsInfoOf(pkgs)[pkgs[i].id] == pkgs[i].info
  {
    forall j | i < j < |pkgs| ensures pkgs[j].id != pkgs[i].id {
      assert PkgIds(pkgs)[j] != PkgIds(pkgs)[i];
    }
    PkgsInfoOfLast(pkgs, i);
  }

  /** The JSON node list of a graph lists its nodes, each once. */
  lemma JsonIds(g: DepGraph)
    requires g.Valid()
    ensures Ids(ToJSON(g).graph.nodes) == g.graph.nodes
    ensures Distinct(g.graph.nodes) && forall n :: n in g.graph.labelOf <==> n in g.graph.nodes
  {
  }

  /** Both maps list the graph's nodes, in graph order. */
  lemma GraphMapsKeys(g: DepGraph)
    requires g.Valid()
    ensures var r := GetGraphMaps(g);
      r.nodesMap.keys == g.graph.nodes && r.edgesMap.keys == g.graph.nodes &&
      r.nodesMap.m.Keys == g.graph.labelOf.Keys && r.edgesMap.m.Keys == g.graph.labelOf.Keys
  {
    var ns := ToJSON(g).graph.nodes;
    JsonIds(g);
    NodeMapsKeys(ns);
    SameKeys(NodesMapOf(ns).m, g.graph.nodes, g.graph.labelOf);
    SameKeys(EdgesMapOf(ns).m, g.graph.nodes, g.graph.labelOf);
  }

  lemma SameKeys<V, W>(a: map<NodeId, V>, ns: seq<NodeId>, b: map<NodeId, W>)
    requires forall k :: k in a <==> k in ns
    requires forall k :: k in b <==> k in ns
    ensures a.Keys == b.Keys
  {
  }

  /** With distinct ids, both maps list the ids in node order. */
  lemma NodeMapsKeys(ns: seq<JsonNode>)
    requires Distinct(Ids(ns))
    ensures NodesMapOf(ns).keys == Ids(ns) && EdgesMapOf(ns).keys == Ids(ns)
    ensures forall k :: k in NodesMapOf(ns).m <==> k in Ids(ns)
    ensures forall k :: k in EdgesMapOf(ns).m <==> k in Ids(ns)
  {
    DistinctNodesMap(ns);
    EdgesFollowNodes(ns);
  }

  /** The entry of the `i`-th graph node is the node's JSON form. */
  lemma GraphMapsAt(g: DepGraph, i: nat)
    requires g.Valid() && i < |g.graph.nodes|
    ensures var r := GetGraphMaps(g); var n := g.graph.nodes[i];
      n in r.nodesMap.m && n in r.edgesMap.m && r.nodesMap.m[n] == JsonNodeOf(g, n) && r.edgesMap.m[n] == g.graph.succ[n]
  {
    var ns := ToJSON(g).graph.nodes;
    JsonIds(g);
    DistinctNodesMap(ns);
    assert ns[i] == JsonNodeOf(g, g.graph.nodes[i]);
  }

  /** Each graph node's entry is the node's JSON form (its package id, its
      information unless empty, its successors), and its edge list is the node's
      successor list. */
  lemma GraphMapsNodes(g: DepGraph)
    requires g.Valid()
    ensures var r := GetGraphMaps(g);
      forall n :: n in g.graph.labelOf ==>
        n in r.nodesMap.m && n in r.edgesMap.m &&
        r.nodesMap.m[n] == JsonNodeOf(g, n) && r.edgesMap.m[n] == g.graph.succ[n]
  {
    var nodes := g.graph.nodes;
    JsonIds(g);
    forall n | n in g.graph.labelOf
      ensures var r := GetGraphMaps(g);
        n in r.nodesMap.m && n in r.edgesMap.m && r.nodesMap.m[n] == JsonNodeOf(g, n) && r.edgesMap.m[n] == g.graph.succ[n]
    {
      var i :| 0 <= i < |nodes| && nodes[i] == n;
      GraphMapsAt(g, i);
    }
  }

  /** The package map holds every package of the graph under its id. */
  lemma GraphMapsPkgs(g: DepGraph)
    requires g.Valid()
    ensures GetGraphMaps(g).pkgsInfoMap == g.pkgs.m
  {
    var d := ToJSON(g);
    assert g.pkgs.Valid();
    assert PkgIds(d.pkgs) == g.pkgs.keys;
    PkgsInfoOfEntries(d.pkgs, g.pkgs);
  }

  /** What cutting and reconnecting rely on: both maps list the same nodes in
      the same order, each node entry is keyed by its own id, names a known
      package, and has as edge list its (repeat-free) dependencies, which are
      all nodes. */
  ghost predicate Coherent(mp: Maps) {
    mp.nodesMap.Valid() && mp.edgesMap.Valid() && mp.edgesMap.keys == mp.nodesMap.keys &&
    mp.edgesMap.m.Keys == mp.nodesMap.m.Keys &&
    forall n :: n in mp.nodesMap.m ==>
      mp.nodesMap.m[n].nodeId == n && mp.nodesMap.m[n].pkgId in mp.pkgsInfoMap &&
      mp.edgesMap.m[n] == mp.nodesMap.m[n].deps && Distinct(mp.edgesMap.m[n]) &&
      forall t :: t in mp.edgesMap.m[n] ==> t in mp.nodesMap.m
  }

  /** The facts about a graph object that make its maps coherent. */
  lemma GraphFacts(g: DepGraph)
    requires g.Valid()
    ensures AdjClosed(g.graph.succ) && g.graph.succ.Keys == g.graph.labelOf.Keys && ListsDistinct(g.graph.succ)
    ensures forall n :: n in g.graph.labelOf ==> g.graph.labelOf[n].pkgId in g.pkgs.m
  {
    ValidAdjClosed(g.graph);
    forall n | n in g.graph.labelOf ensures g.graph.labelOf[n].pkgId in g.pkgs.m {
      assert g.graph.labelOf[n].pkgId in g.pkgNodes;
    }
  }

  /** The maps of a graph object are coherent. */
  lemma GraphMapsCoherent(g: DepGraph)
    requires g.Valid()
    ensures Coherent(GetGraphMaps(g))
  {
    var mp := GetGraphMaps(g);
    GraphMapsKeys(g);
    GraphMapsNodes(g);
    GraphMapsPkgs(g);
    GraphFacts(g);
    forall n | n in mp.nodesMap.m
      ensures mp.nodesMap.m[n].nodeId == n && mp.nodesMap.m[n].pkgId in mp.pkgsInfoMap
      ensures mp.edgesMap.m[n] == mp.nodesMap.m[n].deps && Distinct(mp.edgesMap.m[n])
      ensures forall t :: t in mp.edgesMap.m[n] ==> t in mp.nodesMap.m
    {
      assert mp.edgesMap.m[n] == g.graph.succ[n];
    }
  }

  /** The maps of graph `g`, described by their contents rather than by how they
      are computed. */
  ghost predicate MapsOf(g: DepGraph, mp: Maps)
    requires g.Valid()
  {
    mp.nodesMap.Valid() && mp.edgesMap.Valid() &&
    mp.nodesMap.keys == g.graph.nodes && mp.edgesMap.keys == g.graph.nodes &&
    mp.nodesMap.m.Keys == g.graph.labelOf.Keys && mp.edgesMap.m.Keys == g.graph.labelOf.Keys &&
    mp.pkgsInfoMap == g.pkgs.m &&
    forall v :: v in g.graph.labelOf ==> mp.nodesMap.m[v] == JsonNodeOf(g, v) && mp.edgesMap.m[v] == g.graph.succ[v]
  }

  lemma GraphMapsOf(g: DepGraph)
    requires g.Valid()
    ensures MapsOf(g, GetGraphMaps(g)) && Coherent(GetGraphMaps(g))
  {
    GraphMapsKeys(g);
    GraphMapsNodes(g);
    GraphMapsPkgs(g);
    GraphMapsCoherent(g);
  }
}

/** Replaying a node list and an edge map through the builder, as cutting and
    reconnecting cycles do to rebuild a graph: `addPkgNode` for every node, then
    `connectDep` for every edge of every node, in map order. */
module Replay {
  import opened Wrappers
  import opened Graphs
  import opened OrderedMaps
  import opened Types
  import opened DepGraphs
  import opened Builders

  /** The arguments of one `addPkgNode` call. */
  datatype NodeEntry = NodeEntry(pkg: Pkg, nodeId: NodeId, info: Option<NodeInfo>)

  function EntryIds(es: seq<NodeEntry>): (r: seq<NodeId>)
    ensures |r| == |es| && forall i :: 0 <= i < |es| ==> r[i] == es[i].nodeId
  {
    seq(|es|, i requires 0 <= i < |es| => es[i].nodeId)
  }

  lemma EntryIdsSnoc(es: seq<NodeEntry>, e: NodeEntry)
    ensures EntryIds(es + [e]) == EntryIds(es) + [e.nodeId]
  {
    assert forall i :: 0 <= i < |es| ==> (es + [e])[i] == es[i];
  }

  /** `addPkgNode` for each entry in turn; none of them names the root node. */
  function AddAll(d: DepGraph, es: seq<NodeEntry>): (r: DepGraph)
    requires d.rootNodeId !in EntryIds(es)
    ensures r.rootNodeId == d.rootNodeId && r.pkgManager == d.pkgManager
    decreases |es|
  {
    if es == [] then d
    else
      var e := es[|es| - 1];
      assert EntryIds(es[..|es| - 1]) <= EntryIds(es);
      AddPkgNodeTo(AddAll(d, es[..|es| - 1]), e.pkg, e.nodeId, e.info).value
  }

  /** No node has a successor. */
  ghost predicate NoEdges(d: DepGraph) {
    forall v :: v in d.graph.succ ==> d.graph.succ[v] == []
  }

  /** Adding one more entry is one more `addPkgNode` call. */
  lemma AddAllSnoc(d: DepGraph, es: seq<NodeEntry>, e: NodeEntry)
    requires d.rootNodeId !in EntryIds(es) && e.nodeId != d.rootNodeId
    ensures d.rootNodeId !in EntryIds(es + [e])
    ensures AddAll(d, es + [e]) == AddPkgNodeTo(AddAll(d, es), e.pkg, e.nodeId, e.info).value
  {
    assert (es + [e])[..|es|] == es;
    assert EntryIds(es + [e]) == EntryIds(es) + [e.nodeId];
  }

  /** Every package stored in `m` is the package `pkgs` holds under that id. */
  ghost predicate PkgsWithin(m: map<PkgId, Pkg>, pkgs: map<PkgId, Pkg>) {
    forall k :: k in m ==> k in pkgs && m[k] == pkgs[k]
  }

  /** Every entry's package is the one `pkgs` holds under the package's id. */
  ghost predicate EntriesFrom(es: seq<NodeEntry>, pkgs: map<PkgId, Pkg>) {
    forall i :: 0 <= i < |es| ==> GetPkgId(es[i].pkg) in pkgs && pkgs[GetPkgId(es[i].pkg)] == es[i].pkg
  }

  /** Adding nodes whose packages come from `pkgs` stores only packages of `pkgs`. */
  lemma {:induction false} AddAllPkgs(d: DepGraph, es: seq<NodeEntry>, pkgs: map<PkgId, Pkg>)
    requires d.rootNodeId !in EntryIds(es) && PkgsWithin(d.pkgs.m, pkgs) && EntriesFrom(es, pkgs)
    ensures PkgsWithin(AddAll(d, es).pkgs.m, pkgs)
    decreases |es|
  {
    if es != [] {
      var init := es[..|es| - 1];
      assert EntryIds(init) <= EntryIds(es);
      assert EntriesFrom(init, pkgs) by {
        forall i | 0 <= i < |init| ensures GetPkgId(init[i].pkg) in pkgs && pkgs[GetPkgId(init[i].pkg)] == init[i].pkg {
          assert init[i] == es[i];
        }
      }
      AddAllPkgs(d, init, pkgs);
    }
  }

  /** Adding nodes keeps the graph object's invariant and its root package, and
      adds no edge. */
  lemma {:induction false} AddAllValid(d: DepGraph, es: seq<NodeEntry>)
    requires d.Valid() && d.rootNodeId !in EntryIds(es)
    ensures AddAll(d, es).Valid() && AddAll(d, es).RootPkgId() == d.RootPkgId()
    ensures NoEdges(d) ==> NoEdges(AddAll(d, es))
    decreases |es|
  {
    if es != [] {
      var e := es[|es| - 1];
      var init := es[..|es| - 1];
      assert EntryIds(init) <= EntryIds(es);
      AddAllValid(d, init);
      var d0 := AddAll(d, init);
      AddPkgNodeValid(d0, GetPkgId(e.pkg), e.pkg, e.nodeId, e.info);
      var d1 := AddAll(d, es);
      if NoEdges(d) {
        forall v | v in d1.graph.succ ensures d1.graph.succ[v] == [] {
          if v in d0.graph.succ {
            assert d1.graph.succ[v] == d0.graph.succ[v];
          }
        }
      }
    }
  }

  /** Entry `i` is the last one for its node id. */
  predicate LastEntry(es: seq<NodeEntry>, i: int)
    requires 0 <= i < |es|
  {
    forall j :: i < j < |es| ==> es[j].nodeId != es[i].nodeId
  }

  /** The nodes after adding are the nodes before and the entries' nodes. */
  lemma {:induction false} AddAllKeys(d: DepGraph, es: seq<NodeEntry>)
    requires d.rootNodeId !in EntryIds(es)
    ensures forall v :: v in AddAll(d, es).graph.labelOf <==> v in d.graph.labelOf || v in EntryIds(es)
    decreases |es|
  {
    if es != [] {
      var init := es[..|es| - 1];
      assert EntryIds(es) == EntryIds(init) + [es[|es| - 1].nodeId];
      AddAllKeys(d, init);
    }
  }

  /** Every entry's node is in the graph, labelled by its package id and
      information; a later entry for the same id wins; other nodes keep their
      labels. */
  lemma {:induction false} AddAllLabels(d: DepGraph, es: seq<NodeEntry>)
    requires d.rootNodeId !in EntryIds(es)
    ensures var r := AddAll(d, es);
      (forall v :: v in r.graph.labelOf <==> v in d.graph.labelOf || v in EntryIds(es)) &&
      (forall v :: v in d.graph.labelOf && v !in EntryIds(es) ==> r.graph.labelOf[v] == d.graph.labelOf[v]) &&
      (forall i :: 0 <= i < |es| && LastEntry(es, i) ==>
         r.graph.labelOf[es[i].nodeId] == GraphNode(GetPkgId(es[i].pkg), es[i].info))
    decreases |es|
  {
    if es != [] {
      var init := es[..|es| - 1];
      var e := es[|es| - 1];
      assert es == init + [e];
      assert EntryIds(es) == EntryIds(init) + [e.nodeId];
      AddAllLabels(d, init);
      AddAllSnoc(d, init, e);
      forall i | 0 <= i < |es| - 1 && LastEntry(es, i) ensures LastEntry(init, i) && init[i] == es[i] {
      }
    }
  }

  /** With distinct ids that are new to the graph, the nodes are appended in
      entry order. */
  lemma {:induction false} AddAllNodes(d: DepGraph, es: seq<NodeEntry>)
    requires d.rootNodeId !in EntryIds(es)
    requires Distinct(EntryIds(es)) && forall v :: v in EntryIds(es) ==> v !in d.graph.labelOf
    ensures AddAll(d, es).graph.nodes == d.graph.nodes + EntryIds(es)
    decreases |es|
  {
    if es != [] {
      var init := es[..|es| - 1];
      var e := es[|es| - 1];
      assert es == init + [e];
      assert EntryIds(es) == EntryIds(init) + [e.nodeId];
      AddAllNodes(d, init);
      AddAllKeys(d, init);
      AddAllSnoc(d, init, e);
    }
  }

  // ---------------------------------------------------------------------------
  // Edges.

  /** Both ends of every pair are nodes of `d`. */
  ghost predicate PairsIn(ps: seq<(NodeId, NodeId)>, labelOf: map<NodeId, GraphNode>) {
    forall i :: 0 <= i < |ps| ==> ps[i].0 in labelOf && ps[i].1 in labelOf
  }

  /** Successor and predecessor lists exist exactly for the nodes. */
  ghost predicate KeysAgree(d: DepGraph) {
    d.graph.succ.Keys == d.graph.labelOf.Keys && d.graph.pred.Keys == d.graph.labelOf.Keys
  }

  /** `connectDep` for each pair in turn, between nodes that all exist. */
  function ConnectAll(d: DepGraph, ps: seq<(NodeId, NodeId)>): (r: DepGraph)
    requires KeysAgree(d) && PairsIn(ps, d.graph.labelOf)
    ensures KeysAgree(r)
    ensures r.graph.labelOf == d.graph.labelOf && r.graph.nodes == d.graph.nodes
    ensures r.pkgs == d.pkgs && r.pkgNodes == d.pkgNodes && r.rootNodeId == d.rootNodeId && r.pkgManager == d.pkgManager
    decreases |ps|
  {
    if ps == [] then d
    else
      var p := ps[|ps| - 1];
      var r0 := ConnectAll(d, ps[..|ps| - 1]);
      ConnectDepIn(r0, p.0, p.1).value
  }

  /** Connecting keeps the graph object's invariant. */
  lemma {:induction false} ConnectAllValid(d: DepGraph, ps: seq<(NodeId, NodeId)>)
    requires d.Valid() && PairsIn(ps, d.graph.labelOf)
    ensures KeysAgree(d) && ConnectAll(d, ps).Valid()
    decreases |ps|
  {
    if ps != [] {
      ConnectAllValid(d, ps[..|ps| - 1]);
    }
  }

  /** `s` is what replaying `ps` on `s0` gives. */
  ghost predicate Replayed(s: DepGraph, s0: DepGraph, ps: seq<(NodeId, NodeId)>) {
    KeysAgree(s0) && PairsIn(ps, s0.graph.labelOf) && s == ConnectAll(s0, ps)
  }

  /** Connecting one more pair is one more `connectDep` call, which succeeds. */
  lemma ReplayStep(s: DepGraph, s0: DepGraph, ps: seq<(NodeId, NodeId)>, p: (NodeId, NodeId))
    requires Replayed(s, s0, ps) && p.0 in s0.graph.labelOf && p.1 in s0.graph.labelOf
    ensures KeysAgree(s) && ConnectDepIn(s, p.0, p.1).Ok?
    ensures Replayed(ConnectDepIn(s, p.0, p.1).value, s0, ps + [p])
  {
    assert (ps + [p])[..|ps|] == ps;
  }

  /** Replaying `a + b` is replaying `a`, then `b`. */
  lemma {:induction false} ConnectAllAppend(d: DepGraph, a: seq<(NodeId, NodeId)>, b: seq<(NodeId, NodeId)>)
    requires KeysAgree(d) && PairsIn(a + b, d.graph.labelOf)
    ensures PairsIn(a, d.graph.labelOf) && PairsIn(b, ConnectAll(d, a).graph.labelOf)
    ensures ConnectAll(d, a + b) == ConnectAll(ConnectAll(d, a), b)
    decreases |b|
  {
    assert forall i :: 0 <= i < |a| ==> (a + b)[i] == a[i];
    assert forall i :: 0 <= i < |b| ==> (a + b)[|a| + i] == b[i];
    if b == [] {
      assert a + b == a;
    } else {
      var init := b[..|b| - 1];
      assert (a + b)[..|a + b| - 1] == a + init;
      ConnectAllAppend(d, a, init);
    }
  }

  /** The targets paired with `v`, in pair order. */
  function TargetsOf(ps: seq<(NodeId, NodeId)>, v: NodeId): seq<NodeId>
    decreases |ps|
  {
    if ps == [] then []
    else TargetsOf(ps[..|ps| - 1], v) + (if ps[|ps| - 1].0 == v then [ps[|ps| - 1].1] else [])
  }

  /** `s` followed by the members of `ts` it does not hold yet, each once. */
  function AppendNew(s: seq<NodeId>, ts: seq<NodeId>): seq<NodeId>
    decreases |ts|
  {
    if ts == [] then s
    else
      var r := AppendNew(s, ts[..|ts| - 1]);
      if ts[|ts| - 1] in r then r else r + [ts[|ts| - 1]]
  }

  /** A node's successors after the replay are its old successors followed by
      the new targets it was connected to, without repeats. */
  lemma {:induction false} ConnectAllSucc(d: DepGraph, ps: seq<(NodeId, NodeId)>, v: NodeId)
    requires KeysAgree(d) && PairsIn(ps, d.graph.labelOf) && v in d.graph.labelOf
    ensures v in ConnectAll(d, ps).graph.succ
    ensures ConnectAll(d, ps).graph.succ[v] == AppendNew(d.graph.succ[v], TargetsOf(ps, v))
    decreases |ps|
  {
    if ps != [] {
      var init := ps[..|ps| - 1];
      var p := ps[|ps| - 1];
      ConnectAllSucc(d, init, v);
      var r0 := ConnectAll(d, init);
      ConnectOneSucc(r0, p.0, p.1, v);
      if p.0 == v {
        assert TargetsOf(ps, v) == TargetsOf(init, v) + [p.1];
        assert TargetsOf(ps, v)[..|TargetsOf(ps, v)| - 1] == TargetsOf(init, v);
      } else {
        assert TargetsOf(ps, v) == TargetsOf(init, v);
      }
    }
  }

  lemma ConnectOneSucc(d: DepGraph, a: NodeId, b: NodeId, v: NodeId)
    requires KeysAgree(d) && a in d.graph.labelOf && b in d.graph.labelOf && v in d.graph.labelOf
    ensures ConnectDepIn(d, a, b).Ok?
    ensures var s := ConnectDepIn(d, a, b).value.graph.succ;
      v in s && s[v] == if a == v && b !in d.graph.succ[v] then d.graph.succ[v] + [b] else d.graph.succ[v]
  {
  }

  lemma {:induction false} AppendNewDistinct(ts: seq<NodeId>)
    requires Distinct(ts)
    ensures AppendNew([], ts) == ts
    decreases |ts|
  {
    if ts != [] {
      var init := ts[..|ts| - 1];
      AppendNewDistinct(init);
      assert ts[|ts| - 1] !in init;
      assert ts == init + [ts[|ts| - 1]];
    }
  }

  /** Every pair `(k, t)` for the targets `t` of `k`, in target order. */
  function PairsFrom(k: NodeId, ts: seq<NodeId>): (r: seq<(NodeId, NodeId)>)
    ensures |r| == |ts| && forall i :: 0 <= i < |ts| ==> r[i] == (k, ts[i])
  {
    seq(|ts|, i requires 0 <= i < |ts| => (k, ts[i]))
  }

  /** Every listed node and every target of its list is a node of the graph. */
  ghost predicate EdgesIn(keys: seq<NodeId>, m: map<NodeId, seq<NodeId>>, labelOf: map<NodeId, GraphNode>) {
    forall k :: k in keys ==> k in m && k in labelOf && forall t :: t in m[k] ==> t in labelOf
  }

  /** The pairs of the first `i + 1` keys extend those of the first `i`. */
  lemma EdgePairsNext(keys: seq<NodeId>, m: map<NodeId, seq<NodeId>>, labelOf: map<NodeId, GraphNode>, i: nat)
    requires EdgesIn(keys, m, labelOf) && i < |keys|
    ensures EdgesIn(keys[..i], m, labelOf) && EdgesIn(keys[..i + 1], m, labelOf)
    ensures keys[i] in m && keys[i] in labelOf && forall t :: t in m[keys[i]] ==> t in labelOf
    ensures EdgePairs(keys[..i + 1], m) == EdgePairs(keys[..i], m) + PairsFrom(keys[i], m[keys[i]])
  {
    assert keys[..i + 1][..i] == keys[..i];
  }

  lemma PairsFromSnoc(ps: seq<(NodeId, NodeId)>, k: NodeId, ts: seq<NodeId>, j: nat)
    requires j < |ts|
    ensures ps + PairsFrom(k, ts[..j + 1]) == (ps + PairsFrom(k, ts[..j])) + [(k, ts[j])]
  {
    assert PairsFrom(k, ts[..j + 1]) == PairsFrom(k, ts[..j]) + [(k, ts[j])];
  }

  /** The `connectDep` calls of `for (const [from, to] of edges.entries())
      to.forEach(t => connectDep(from, t))`. */
  function EdgePairs(keys: seq<NodeId>, m: map<NodeId, seq<NodeId>>): seq<(NodeId, NodeId)>
    requires forall k :: k in keys ==> k in m
    decreases |keys|
  {
    if keys == [] then []
    else EdgePairs(keys[..|keys| - 1], m) + PairsFrom(keys[|keys| - 1], m[keys[|keys| - 1]])
  }

  lemma {:induction false} TargetsOfAppend(a: seq<(NodeId, NodeId)>, b: seq<(NodeId, NodeId)>, v: NodeId)
    ensures TargetsOf(a + b, v) == TargetsOf(a, v) + TargetsOf(b, v)
    decreases |b|
  {
    if b == [] {
      assert a + b == a;
    } else {
      var init := b[..|b| - 1];
      assert (a + b)[..|a + b| - 1] == a + init;
      TargetsOfAppend(a, init, v);
    }
  }

  lemma {:induction false} TargetsOfPairsFrom(k: NodeId, ts: seq<NodeId>, v: NodeId)
    ensures TargetsOf(PairsFrom(k, ts), v) == if k == v then ts else []
    decreases |ts|
  {
    if ts != [] {
      var init := ts[..|ts| - 1];
      assert PairsFrom(k, ts)[..|ts| - 1] == PairsFrom(k, init);
      TargetsOfPairsFrom(k, init, v);
    }
  }

  /** Replaying an edge map connects each listed node to exactly its list. */
  lemma {:induction false} TargetsOfEdgePairs(keys: seq<NodeId>, m: map<NodeId, seq<NodeId>>, v: NodeId)
    requires Distinct(keys) && forall k :: k in keys ==> k in m
    ensures TargetsOf(EdgePairs(keys, m), v) == if v in keys then m[v] else []
    decreases |keys|
  {
    if keys != [] {
      var init := keys[..|keys| - 1];
      var k := keys[|keys| - 1];
      assert k !in init;
      TargetsOfEdgePairs(init, m, v);
      TargetsOfAppend(EdgePairs(init, m), PairsFrom(k, m[k]), v);
      TargetsOfPairsFrom(k, m[k], v);
    }
  }

  lemma {:induction false} EdgePairsIn(keys: seq<NodeId>, m: map<NodeId, seq<NodeId>>, labelOf: map<NodeId, GraphNode>)
    requires forall k :: k in keys ==> k in m && k in labelOf && forall t :: t in m[k] ==> t in labelOf
    ensures PairsIn(EdgePairs(keys, m), labelOf)
    decreases |keys|
  {
    if keys != [] {
      EdgePairsIn(keys[..|keys| - 1], m, labelOf);
    }
  }

  /** The edge lists of a replay: starting from a graph without edges, each
      listed node ends with exactly its (repeat-free) list as successors, and
      every other node with none. */
  /** Replaying the pairs of lists that may repeat a target gives each node
      its list without the repeats. */
  lemma ReplayedLists(d: DepGraph, keys: seq<NodeId>, m: map<NodeId, seq<NodeId>>, r: DepGraph)
    requires KeysAgree(d) && NoEdges(d) && Distinct(keys) && (forall k :: k in keys ==> k in m)
    requires Replayed(r, d, EdgePairs(keys, m))
    ensures forall v :: v in d.graph.labelOf ==>
      v in r.graph.succ && r.graph.succ[v] == AppendNew([], if v in keys then m[v] else [])
  {
    var ps := EdgePairs(keys, m);
    forall v | v in d.graph.labelOf
      ensures v in r.graph.succ && r.graph.succ[v] == AppendNew([], if v in keys then m[v] else [])
    {
      ConnectAllSucc(d, ps, v);
      TargetsOfEdgePairs(keys, m, v);
    }
  }

  lemma ReplayedSucc(d: DepGraph, keys: seq<NodeId>, m: map<NodeId, seq<NodeId>>)
    requires KeysAgree(d) && NoEdges(d) && Distinct(keys)
    requires forall k :: k in keys ==> k in m && k in d.graph.labelOf && Distinct(m[k]) && forall t :: t in m[k] ==> t in d.graph.labelOf
    ensures PairsIn(EdgePairs(keys, m), d.graph.labelOf)
    ensures var r := ConnectAll(d, EdgePairs(keys, m));
      forall v :: v in r.graph.succ <==> v in d.graph.labelOf
    ensures var r := ConnectAll(d, EdgePairs(keys, m));
      forall v :: v in d.graph.labelOf ==> r.graph.succ[v] == if v in keys then m[v] else []
  {
    EdgePairsIn(keys, m, d.graph.labelOf);
    var ps := EdgePairs(keys, m);
    var r := ConnectAll(d, ps);
    forall v | v in d.graph.labelOf
      ensures v in r.graph.succ && r.graph.succ[v] == if v in keys then m[v] else []
    {
      ConnectAllSucc(d, ps, v);
      TargetsOfEdgePairs(keys, m, v);
      assert d.graph.succ[v] == [];
      if v in keys {
        AppendNewDistinct(m[v]);
      }
    }
  }
}

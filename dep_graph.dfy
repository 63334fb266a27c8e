/** The dependency graph `DepGraphImpl`: a graph whose nodes carry a package id
    and optional node information, the packages by id, the node ids of each
    package, and the package manager. Lookups, paths up to the root and their
    count, structural equality, direct dependencies leading to a package and the
    JSON form. */
module DepGraphs {
  import opened Wrappers
  import opened Strings
  import opened Sorting
  import opened Graphs
  import opened OrderedMaps
  import opened Types
  import opened Dfs

  const SchemaVersion := "1.2.0"

  /** Every id listed for a package is a node of the graph, and is listed once. */
  ghost predicate PkgNodesKnown(labelOf: map<NodeId, GraphNode>, pkgNodes: map<PkgId, seq<NodeId>>) {
    forall k :: k in pkgNodes ==> Distinct(pkgNodes[k]) && forall n :: n in pkgNodes[k] ==> n in labelOf
  }

  /** Every node is listed under the package it belongs to. */
  ghost predicate NodesListed(labelOf: map<NodeId, GraphNode>, pkgNodes: map<PkgId, seq<NodeId>>) {
    forall n :: n in labelOf ==> labelOf[n].pkgId in pkgNodes && n in pkgNodes[labelOf[n].pkgId]
  }

  datatype DepGraph = DepGraph(graph: Graph<GraphNode>, rootNodeId: NodeId, pkgs: OMap<PkgId, Pkg>,
                               pkgNodes: map<PkgId, seq<NodeId>>, pkgManager: PkgManager)
  {
    /** What the builder keeps true: the root is a node, packages and package
        node lists have the same ids, and every node is listed under its package.
        A node re-added under another package stays listed under the old one too. */
    ghost predicate Valid() {
      graph.Valid() && pkgs.Valid() && rootNodeId in graph.labelOf &&
      pkgNodes.Keys == pkgs.m.Keys &&
      PkgNodesKnown(graph.labelOf, pkgNodes) && NodesListed(graph.labelOf, pkgNodes)
    }

    function RootPkgId(): PkgId
      requires rootNodeId in graph.labelOf
    {
      graph.labelOf[rootNodeId].pkgId
    }

    /** `rootPkg`. */
    function RootPkg(): (p: Pkg)
      requires Valid()
      ensures RootPkgId() in pkgs.m && p == pkgs.m[RootPkgId()]
    {
      pkgs.m[RootPkgId()]
    }

    /** `getPkgs()`: every package once, in insertion order of the package ids. */
    function GetPkgs(): (r: seq<Pkg>)
      requires Valid()
      ensures |r| == |pkgs.keys|
      ensures forall p :: p in r <==> exists k :: k in pkgs.m && pkgs.m[k] == p
    {
      pkgs.ValuesIn();
      pkgs.Values()
    }

    /** `getDepPkgs()`: every package except the root's. */
    function GetDepPkgs(): (r: seq<Pkg>)
      requires Valid()
      ensures |r| == |pkgs.keys| - 1
      ensures forall p :: p in r <==> exists k :: k in pkgs.m && k != RootPkgId() && pkgs.m[k] == p
    {
      assert RootPkgId() in pkgs.keys;
      PkgsOtherThan(pkgs.m, pkgs.keys, RootPkgId())
    }

    /** `getGraphNode(nodeId)`. */
    function GetGraphNode(nodeId: NodeId): (r: Result<GraphNode>)
      ensures r.Ok? <==> graph.HasNode(nodeId)
      ensures r.Ok? ==> r.value == graph.labelOf[nodeId]
      ensures r.Err? ==> r.msg == "no such node: " + nodeId
    {
      if nodeId in graph.labelOf then Ok(graph.labelOf[nodeId]) else Err("no such node: " + nodeId)
    }

    /** `getNode(nodeId)`: the node information, empty when the node has none. */
    function GetNode(nodeId: NodeId): (r: Result<NodeInfo>)
      ensures r.Ok? <==> graph.HasNode(nodeId)
      ensures r.Ok? ==> (r.value == NoInfo <==> IsEmptyInfo(graph.labelOf[nodeId].info))
      ensures r.Ok? && graph.labelOf[nodeId].info.Some? ==> r.value == graph.labelOf[nodeId].info.value
      ensures r.Err? ==> r.msg == "no such node: " + nodeId
    {
      var n :- GetGraphNode(nodeId);
      Ok(if n.info.Some? then n.info.value else NoInfo)
    }

    /** `getNodePkg(nodeId)`: the package the node belongs to. */
    function GetNodePkg(nodeId: NodeId): (r: Result<Pkg>)
      requires Valid()
      ensures r.Ok? <==> graph.HasNode(nodeId)
      ensures r.Ok? ==> graph.labelOf[nodeId].pkgId in pkgs.m && r.value == pkgs.m[graph.labelOf[nodeId].pkgId]
      ensures r.Err? ==> r.msg == "no such node: " + nodeId
    {
      var n :- GetGraphNode(nodeId);
      Ok(pkgs.m[n.pkgId])
    }

    /** `getPkgNodeIds(pkg)`: every node of the package, or "no such pkg". */
    function GetPkgNodeIds(pkg: Pkg): (r: Result<seq<NodeId>>)
      requires Valid()
      ensures r.Ok? <==> GetPkgId(pkg) in pkgs.m
      ensures r.Err? ==> r.msg == "no such pkg: " + GetPkgId(pkg)
      ensures r.Ok? ==> Distinct(r.value) && forall n :: n in r.value ==> graph.HasNode(n)
      ensures r.Ok? ==> forall n :: graph.HasNode(n) && graph.labelOf[n].pkgId == GetPkgId(pkg) ==> n in r.value
    {
      var pkgId := GetPkgId(pkg);
      if pkgId !in pkgs.m then Err("no such pkg: " + pkgId) else Ok(pkgNodes[pkgId])
    }

    /** `getPkgNodes(pkg)`: the information of each node of the package; a package
        without a node list fails as `Array.from(undefined)` does. */
    function GetPkgNodes(pkg: Pkg): (r: Result<seq<NodeInfo>>)
      requires Valid()
      ensures r.Ok? <==> GetPkgId(pkg) in pkgNodes
      ensures r.Err? ==> r.msg == "TypeError"
      ensures r.Ok? ==> |r.value| == |pkgNodes[GetPkgId(pkg)]|
      ensures r.Ok? ==> forall i :: 0 <= i < |r.value| ==>
                Ok(r.value[i]) == GetNode(pkgNodes[GetPkgId(pkg)][i])
    {
      var pkgId := GetPkgId(pkg);
      if pkgId !in pkgNodes then Err("TypeError")
      else
        var ids := pkgNodes[pkgId];
        Ok(seq(|ids|, i requires 0 <= i < |ids| =>
          var n := graph.labelOf[ids[i]]; if n.info.Some? then n.info.value else NoInfo))
    }

    /** `getNodeDepsNodeIds(nodeId)`: the successors. */
    function GetNodeDepsNodeIds(nodeId: NodeId): (r: Result<seq<NodeId>>)
      requires Valid()
      ensures r.Ok? <==> graph.HasNode(nodeId)
      ensures r.Ok? ==> forall w :: w in r.value <==> graph.HasEdge(nodeId, w)
      ensures r.Err? ==> r.msg == "no such node: " + nodeId
    {
      match graph.Successors(nodeId)
      case Some(ws) => Ok(ws)
      case None => Err("no such node: " + nodeId)
    }

    /** `getNodeParentsNodeIds(nodeId)`: the predecessors. */
    function GetNodeParentsNodeIds(nodeId: NodeId): (r: Result<seq<NodeId>>)
      requires Valid()
      ensures r.Ok? <==> graph.HasNode(nodeId)
      ensures r.Ok? ==> forall w :: w in r.value <==> graph.HasEdge(w, nodeId)
      ensures r.Err? ==> r.msg == "no such node: " + nodeId
    {
      match graph.Predecessors(nodeId)
      case Some(ws) => Ok(ws)
      case None => Err("no such node: " + nodeId)
    }
  }

  /** The packages stored under `keys`, leaving out the one under `root`. */
  function PkgsOtherThan(m: map<PkgId, Pkg>, keys: seq<PkgId>, root: PkgId): (r: seq<Pkg>)
    requires Distinct(keys) && forall k :: k in keys ==> k in m
    ensures |r| == |keys| - (if root in keys then 1 else 0)
    ensures forall p :: p in r <==> exists k :: k in keys && k != root && m[k] == p
  {
    if keys == [] then []
    else
      var rest := PkgsOtherThan(m, keys[1..], root);
      assert forall k :: k in keys <==> k == keys[0] || k in keys[1..];
      assert keys[0] == root ==> root !in keys[1..];
      if keys[0] == root then rest else [m[keys[0]]] + rest
  }

  /** The graph invariant gives closed predecessor lists. */
  lemma ValidPredClosed(g: DepGraph)
    requires g.Valid()
    ensures AdjClosed(g.graph.pred) && g.graph.pred.Keys == g.graph.labelOf.Keys
  {
    ValidMirror(g.graph);
  }

  // ---------------------------------------------------------------------------
  // Paths up to the root (`pathsFromNodeToRoot`) and their count.

  /** `p` is what `pathsFromNodeToRoot(v, seen)` may produce: it starts at `v`,
      climbs to a predecessor at each step, ends at a node without predecessors,
      and no later entry is in `seen` or among the entries before its parent. */
  ghost predicate PathToRoot(pred: Adj, p: seq<NodeId>, v: NodeId, seen: set<NodeId>) {
    |p| > 0 && p[0] == v && IsWalk(pred, p) && Next(pred, p[|p| - 1]) == [] &&
    forall j :: 1 <= j < |p| ==> p[j] !in seen && p[j] !in p[..j - 1]
  }

  function Prepend(v: NodeId, ps: seq<seq<NodeId>>): (r: seq<seq<NodeId>>)
    ensures |r| == |ps| && forall i :: 0 <= i < |ps| ==> r[i] == [v] + ps[i]
  {
    seq(|ps|, i requires 0 <= i < |ps| => [v] + ps[i])
  }

  /** `pathsFromNodeToRoot(v, seen)`: a node without parents is its own path;
      otherwise each parent outside `seen` contributes its paths (computed with
      `v` added to `seen`), with `v` in front. */
  function Paths(pred: Adj, v: NodeId, seen: set<NodeId>): seq<seq<NodeId>>
    requires AdjClosed(pred) && v in pred
    decreases pred.Keys - seen, if v in seen then 1 else 0, 1
  {
    if pred[v] == [] then [[v]] else PathsVia(pred, v, seen, pred[v])
  }

  function PathsVia(pred: Adj, v: NodeId, seen: set<NodeId>, ps: seq<NodeId>): seq<seq<NodeId>>
    requires AdjClosed(pred) && v in pred && forall p :: p in ps ==> p in pred
    decreases pred.Keys - seen, if v in seen then 1 else 0, 0, |ps|
  {
    if ps == [] then []
    else
      var here := if ps[0] in seen then [] else
        assert v !in seen ==> pred.Keys - (seen + {v}) < pred.Keys - seen;
        Prepend(v, Paths(pred, ps[0], seen + {v}));
      here + PathsVia(pred, v, seen, ps[1..])
  }

  /** Every path produced has the shape `PathToRoot` describes. */
  lemma {:induction false} PathsSound(pred: Adj, v: NodeId, seen: set<NodeId>)
    requires AdjClosed(pred) && v in pred
    ensures forall p :: p in Paths(pred, v, seen) ==> PathToRoot(pred, p, v, seen)
    decreases pred.Keys - seen, if v in seen then 1 else 0, 1
  {
    if pred[v] == [] {
      assert IsWalk(pred, [v]);
    } else {
      PathsViaSound(pred, v, seen, pred[v]);
    }
  }

  lemma {:induction false} PathsViaSound(pred: Adj, v: NodeId, seen: set<NodeId>, ps: seq<NodeId>)
    requires AdjClosed(pred) && v in pred && forall p :: p in ps ==> p in pred[v]
    ensures forall p :: p in PathsVia(pred, v, seen, ps) ==> PathToRoot(pred, p, v, seen)
    decreases pred.Keys - seen, if v in seen then 1 else 0, 0, |ps|
  {
    if ps != [] {
      PathsViaSound(pred, v, seen, ps[1..]);
      if ps[0] !in seen {
        assert v !in seen ==> pred.Keys - (seen + {v}) < pred.Keys - seen;
        var x := ps[0];
        PathsSound(pred, x, seen + {v});
        var qs := Paths(pred, x, seen + {v});
        forall q | q in qs ensures PathToRoot(pred, [v] + q, v, seen) {
          PrependPath(pred, v, seen, q);
        }
      }
    }
  }

  lemma PrependPath(pred: Adj, v: NodeId, seen: set<NodeId>, q: seq<NodeId>)
    requires |q| > 0 && q[0] in Next(pred, v) && q[0] !in seen
    requires PathToRoot(pred, q, q[0], seen + {v})
    ensures PathToRoot(pred, [v] + q, v, seen)
  {
    var p := [v] + q;
    assert IsWalk(pred, p) by {
      forall i | 0 <= i < |p| - 1 ensures p[i + 1] in Next(pred, p[i]) {
        if i > 0 { assert p[i] == q[i - 1] && p[i + 1] == q[i]; }
      }
    }
    forall j | 1 <= j < |p| ensures p[j] !in seen && p[j] !in p[..j - 1] {
      if j >= 2 {
        assert p[j] == q[j - 1];
        assert p[..j - 1] == [v] + q[..j - 2];
      }
    }
  }

  /** Every path of the shape `PathToRoot` describes is produced. */
  lemma {:induction false} PathsComplete(pred: Adj, v: NodeId, seen: set<NodeId>, p: seq<NodeId>)
    requires AdjClosed(pred) && v in pred && PathToRoot(pred, p, v, seen)
    ensures p in Paths(pred, v, seen)
    decreases |p|
  {
    if |p| == 1 {
      assert p == [v];
    } else {
      assert p[1] in Next(pred, p[0]);
      var q := p[1..];
      assert PathToRoot(pred, q, p[1], seen + {v}) by {
        assert IsWalk(pred, q) by {
          forall i | 0 <= i < |q| - 1 ensures q[i + 1] in Next(pred, q[i]) {
            assert q[i] == p[i + 1] && q[i + 1] == p[i + 2];
          }
        }
        forall j | 1 <= j < |q| ensures q[j] !in seen + {v} && q[j] !in q[..j - 1] {
          assert q[j] == p[j + 1];
          assert p[..j] == [v] + q[..j - 1];
          assert v in p[..j];
        }
      }
      PathsComplete(pred, p[1], seen + {v}, q);
      assert p == [v] + q;
      ViaHolds(pred, v, seen, pred[v], p[1], q);
    }
  }

  lemma {:induction false} ViaHolds(pred: Adj, v: NodeId, seen: set<NodeId>, ps: seq<NodeId>, x: NodeId, q: seq<NodeId>)
    requires AdjClosed(pred) && v in pred && forall p :: p in ps ==> p in pred
    requires x in ps && x !in seen && q in Paths(pred, x, seen + {v})
    ensures [v] + q in PathsVia(pred, v, seen, ps)
    decreases |ps|
  {
    if ps[0] == x {
      var k :| 0 <= k < |Paths(pred, x, seen + {v})| && Paths(pred, x, seen + {v})[k] == q;
      assert Prepend(v, Paths(pred, x, seen + {v}))[k] == [v] + q;
    } else {
      ViaHolds(pred, v, seen, ps[1..], x, q);
    }
  }

  /** The paths up to the root are exactly the sequences of the `PathToRoot` shape. */
  lemma PathsExactly(pred: Adj, v: NodeId, p: seq<NodeId>)
    requires AdjClosed(pred) && v in pred
    ensures p in Paths(pred, v, {}) <==> PathToRoot(pred, p, v, {})
  {
    PathsSound(pred, v, {});
    if PathToRoot(pred, p, v, {}) {
      PathsComplete(pred, v, {}, p);
    }
  }

  /** A node repeats on a path only right after itself, through an edge from the
      node to itself: the parent filter leaves out the nodes before the current
      one, not the current one. */
  lemma PathRepeatsOnlyAdjacent(pred: Adj, p: seq<NodeId>, v: NodeId, seen: set<NodeId>, i: nat, j: nat)
    requires PathToRoot(pred, p, v, seen) && i < j < |p| && p[i] == p[j]
    ensures j == i + 1 && p[i] in Next(pred, p[i])
  {
    assert j - 1 >= 1 ==> p[j] !in p[..j - 1];
    assert p[i + 1] in Next(pred, p[i]);
  }

  /** With `a` depending on itself and on nothing else than the root, the path
      `[a, a, root]` is produced. */
  lemma SelfLoopPath()
    ensures var pred := map["root" := [], "a" := ["root", "a"]];
            AdjClosed(pred) && ["a", "a", "root"] in Paths(pred, "a", {})
  {
    var pred := map["root" := [], "a" := ["root", "a"]];
    var p := ["a", "a", "root"];
    assert IsWalk(pred, p) by {
      assert p[1] in Next(pred, p[0]);
      assert p[2] in Next(pred, p[1]);
    }
    assert p[..1] == ["a"];
    assert PathToRoot(pred, p, "a", {});
    PathsExactly(pred, "a", p);
  }

  /** No member of `seen` can be reached from `v` by climbing predecessors. */
  ghost predicate SeenAbove(pred: Adj, v: NodeId, seen: set<NodeId>) {
    forall s :: s in seen ==> !Reaches(pred, v, s)
  }

  lemma SeenAboveParent(pred: Adj, v: NodeId, seen: set<NodeId>, x: NodeId)
    requires Acyclic(pred) && SeenAbove(pred, v, seen) && x in Next(pred, v)
    ensures v !in seen && x !in seen && SeenAbove(pred, x, seen + {v})
  {
    ReachesRefl(pred, v);
    ReachesEdge(pred, v, x);
    forall s | s in seen + {v} ensures !Reaches(pred, x, s) {
      if Reaches(pred, x, s) {
        if s == v {
          ReachesPlusSelfCyclic(pred, v);
        } else {
          ReachesStep(pred, v, x, s);
        }
      }
    }
  }

  /** In an acyclic graph the parent filter never bites on the paths that climb
      from the queried node, so which nodes were seen below does not matter. */
  lemma {:induction false} PathsSeenIrrelevant(pred: Adj, v: NodeId, s1: set<NodeId>, s2: set<NodeId>)
    requires Acyclic(pred) && AdjClosed(pred) && v in pred
    requires SeenAbove(pred, v, s1) && SeenAbove(pred, v, s2)
    ensures Paths(pred, v, s1) == Paths(pred, v, s2)
    decreases pred.Keys - s1, 1
  {
    ReachesRefl(pred, v);
    if pred[v] != [] {
      ViaSeenIrrelevant(pred, v, s1, s2, pred[v]);
    }
  }

  lemma {:induction false} ViaSeenIrrelevant(pred: Adj, v: NodeId, s1: set<NodeId>, s2: set<NodeId>, ps: seq<NodeId>)
    requires Acyclic(pred) && AdjClosed(pred) && v in pred && forall p :: p in ps ==> p in pred[v]
    requires SeenAbove(pred, v, s1) && SeenAbove(pred, v, s2)
    ensures PathsVia(pred, v, s1, ps) == PathsVia(pred, v, s2, ps)
    decreases pred.Keys - s1, 0, |ps|
  {
    if ps != [] {
      ReachesRefl(pred, v);
      assert v !in s1;
      SeenAboveParent(pred, v, s1, ps[0]);
      SeenAboveParent(pred, v, s2, ps[0]);
      assert pred.Keys - (s1 + {v}) < pred.Keys - s1;
      PathsSeenIrrelevant(pred, ps[0], s1 + {v}, s2 + {v});
      ViaSeenIrrelevant(pred, v, s1, s2, ps[1..]);
    }
  }

  /** `countNodePathsToRoot(v, seen)` with its cache, as a function of the cache
      before the call: the count and the cache after it. A cached node answers
      from the cache; otherwise the count is 1 for a node without parents, else
      the sum over the parents outside `seen`, and it is cached once known. */
  function CountNode(pred: Adj, v: NodeId, seen: set<NodeId>, cache: map<NodeId, nat>): (nat, map<NodeId, nat>)
    requires AdjClosed(pred) && v in pred
    decreases pred.Keys - seen, if v in seen then 1 else 0, 1
  {
    if v in cache then (cache[v], cache)
    else if pred[v] == [] then (1, cache[v := 1])
    else
      var r := CountVia(pred, v, seen, pred[v], 0, cache);
      (r.0, r.1[v := r.0])
  }

  function CountVia(pred: Adj, v: NodeId, seen: set<NodeId>, ps: seq<NodeId>, acc: nat, cache: map<NodeId, nat>)
    : (nat, map<NodeId, nat>)
    requires AdjClosed(pred) && v in pred && forall p :: p in ps ==> p in pred
    decreases pred.Keys - seen, if v in seen then 1 else 0, 0, |ps|
  {
    if ps == [] then (acc, cache)
    else if ps[0] in seen then CountVia(pred, v, seen, ps[1..], acc, cache)
    else
      assert v !in seen ==> pred.Keys - (seen + {v}) < pred.Keys - seen;
      var r := CountNode(pred, ps[0], seen + {v}, cache);
      CountVia(pred, v, seen, ps[1..], acc + r.0, r.1)
  }

  /** Every cached count is the number of paths from that node to the root. */
  ghost predicate CacheSound(pred: Adj, cache: map<NodeId, nat>) {
    AdjClosed(pred) &&
    forall n :: n in cache ==> n in pred && cache[n] == |Paths(pred, n, {})|
  }

  /** In an acyclic graph with a sound cache, the cached count is the number of
      paths `pathsFromNodeToRoot` produces, and the cache stays sound. */
  lemma {:induction false} CountSound(pred: Adj, v: NodeId, seen: set<NodeId>, cache: map<NodeId, nat>)
    returns (n: nat, c: map<NodeId, nat>)
    requires Acyclic(pred) && AdjClosed(pred) && v in pred
    requires CacheSound(pred, cache) && SeenAbove(pred, v, seen)
    ensures (n, c) == CountNode(pred, v, seen, cache)
    ensures n == |Paths(pred, v, seen)| && CacheSound(pred, c)
    decreases pred.Keys - seen, if v in seen then 1 else 0, 1
  {
    assert SeenAbove(pred, v, {});
    PathsSeenIrrelevant(pred, v, seen, {});
    if v in cache {
      n, c := cache[v], cache;
    } else if pred[v] == [] {
      n, c := 1, cache[v := 1];
    } else {
      var m, d := CountViaSound(pred, v, seen, pred[v], 0, cache);
      n, c := m, d[v := m];
    }
  }

  lemma {:induction false} CountViaSound(pred: Adj, v: NodeId, seen: set<NodeId>, ps: seq<NodeId>, acc: nat, cache: map<NodeId, nat>)
    returns (n: nat, c: map<NodeId, nat>)
    requires Acyclic(pred) && AdjClosed(pred) && v in pred && forall p :: p in ps ==> p in pred[v]
    requires CacheSound(pred, cache) && SeenAbove(pred, v, seen)
    ensures (n, c) == CountVia(pred, v, seen, ps, acc, cache)
    ensures n == acc + |PathsVia(pred, v, seen, ps)| && CacheSound(pred, c)
    decreases pred.Keys - seen, if v in seen then 1 else 0, 0, |ps|
  {
    if ps == [] {
      n, c := acc, cache;
    } else {
      SeenAboveParent(pred, v, seen, ps[0]);
      assert pred.Keys - (seen + {v}) < pred.Keys - seen;
      var m, d := CountSound(pred, ps[0], seen + {v}, cache);
      n, c := CountViaSound(pred, v, seen, ps[1..], acc + m, d);
      ViaStep(pred, v, seen, ps, acc, cache, m, d, n);
    }
  }

  /** One parent's step of `CountVia` and `PathsVia`, for a parent outside `seen`:
      the counts add up as the path lists do. */
  lemma ViaStep(pred: Adj, v: NodeId, seen: set<NodeId>, ps: seq<NodeId>, acc: nat, cache: map<NodeId, nat>,
                m: nat, d: map<NodeId, nat>, n: nat)
    requires AdjClosed(pred) && v in pred && forall p :: p in ps ==> p in pred
    requires ps != [] && ps[0] !in seen && v !in seen
    requires (m, d) == CountNode(pred, ps[0], seen + {v}, cache) && m == |Paths(pred, ps[0], seen + {v})|
    requires n == acc + m + |PathsVia(pred, v, seen, ps[1..])|
    ensures CountVia(pred, v, seen, ps, acc, cache) == CountVia(pred, v, seen, ps[1..], acc + m, d)
    ensures n == acc + |PathsVia(pred, v, seen, ps)|
  {
  }

  lemma PrependOne(v: NodeId, p: seq<NodeId>)
    ensures Prepend(v, [p]) == [[v] + p]
  {
    assert Prepend(v, [p])[0] == [v] + p;
  }

  /** The cache is keyed by node alone, but a node's count depends on the nodes
      already on the path: with edges root->a, root->b, a->b and b->a, counting
      from `a` caches 1 for `b`, while `b` has two paths to the root. */
  lemma CacheStaleOnCycles()
    ensures var pred := map["root" := [], "a" := ["root", "b"], "b" := ["root", "a"]];
            var c := CountNode(pred, "a", {}, map[]).1;
            AdjClosed(pred) && CountNode(pred, "b", {}, c).0 == 1 && |Paths(pred, "b", {})| == 2
  {
    var pred := map["root" := [], "a" := ["root", "b"], "b" := ["root", "a"]];
    var none: set<NodeId> := {};
    assert none + {"a"} == {"a"} && none + {"b"} == {"b"};
    assert {"a"} + {"b"} == {"a", "b"} == {"b"} + {"a"};
    assert ["root", "b"][1..] == ["b"] && ["root", "a"][1..] == ["a"];
    assert ["a"][1..] == [] && ["b"][1..] == [];
    var c1 := map["root" := 1];
    var c2 := map["root" := 1, "b" := 1];
    assert CountNode(pred, "root", {"a"}, map[]) == (1, c1);
    assert CountNode(pred, "root", {"a", "b"}, c1) == (1, c1);
    assert CountVia(pred, "b", {"a"}, ["a"], 1, c1) == (1, c1);
    assert CountVia(pred, "b", {"a"}, ["root", "a"], 0, c1) == (1, c1);
    assert CountNode(pred, "b", {"a"}, c1) == (1, c2);
    assert CountVia(pred, "a", {}, ["b"], 1, c1) == (2, c2);
    assert CountVia(pred, "a", {}, ["root", "b"], 0, map[]) == (2, c2);
    assert CountNode(pred, "a", {}, map[]) == (2, c2["a" := 2]);
    var c := CountNode(pred, "a", {}, map[]).1;
    assert "b" in c && c["b"] == 1;
    assert Paths(pred, "root", {"b"}) == [["root"]];
    assert Paths(pred, "root", {"a", "b"}) == [["root"]];
    assert PathsVia(pred, "a", {"b"}, ["b"]) == [];
    assert ["a"] + ["root"] == ["a", "root"] && ["b"] + ["root"] == ["b", "root"];
    assert ["b"] + ["a", "root"] == ["b", "a", "root"];
    PrependOne("a", ["root"]);
    PrependOne("b", ["root"]);
    PrependOne("b", ["a", "root"]);
    assert PathsVia(pred, "a", {"b"}, ["root", "b"]) == [["a", "root"]];
    assert Paths(pred, "a", {"b"}) == [["a", "root"]];
    assert PathsVia(pred, "b", {}, ["a"]) == [["b", "a", "root"]];
    assert PathsVia(pred, "b", {}, ["root", "a"]) == [["b", "root"], ["b", "a", "root"]];
  }

  /** `countNodePathsToRoot` without its cache: each call counts afresh, which is
      what the cache is meant to save time on. */
  function CountFresh(pred: Adj, v: NodeId, seen: set<NodeId>): nat
    requires AdjClosed(pred) && v in pred
    decreases pred.Keys - seen, if v in seen then 1 else 0, 1
  {
    if pred[v] == [] then 1 else CountFreshVia(pred, v, seen, pred[v])
  }

  function CountFreshVia(pred: Adj, v: NodeId, seen: set<NodeId>, ps: seq<NodeId>): nat
    requires AdjClosed(pred) && v in pred && forall p :: p in ps ==> p in pred
    decreases pred.Keys - seen, if v in seen then 1 else 0, 0, |ps|
  {
    if ps == [] then 0
    else
      var here := if ps[0] in seen then 0 else
        assert v !in seen ==> pred.Keys - (seen + {v}) < pred.Keys - seen;
        CountFresh(pred, ps[0], seen + {v});
      here + CountFreshVia(pred, v, seen, ps[1..])
  }

  /** Without the cache, the count is the number of paths `pathsFromNodeToRoot`
      produces, in every graph, cycles included. */
  lemma {:induction false} CountFreshExact(pred: Adj, v: NodeId, seen: set<NodeId>)
    requires AdjClosed(pred) && v in pred
    ensures CountFresh(pred, v, seen) == |Paths(pred, v, seen)|
    decreases pred.Keys - seen, if v in seen then 1 else 0, 1
  {
    if pred[v] != [] {
      CountFreshViaExact(pred, v, seen, pred[v]);
    }
  }

  lemma {:induction false} CountFreshViaExact(pred: Adj, v: NodeId, seen: set<NodeId>, ps: seq<NodeId>)
    requires AdjClosed(pred) && v in pred && forall p :: p in ps ==> p in pred
    ensures CountFreshVia(pred, v, seen, ps) == |PathsVia(pred, v, seen, ps)|
    decreases pred.Keys - seen, if v in seen then 1 else 0, 0, |ps|
  {
    if ps != [] {
      if ps[0] !in seen {
        assert v !in seen ==> pred.Keys - (seen + {v}) < pred.Keys - seen;
        CountFreshExact(pred, ps[0], seen + {v});
      }
      CountFreshViaExact(pred, v, seen, ps[1..]);
    }
  }

  /** `pathsFromNodeToRoot` with the current node left out of the parents too:
      a node that is its own parent is not climbed to again. */
  function SimplePaths(pred: Adj, v: NodeId, seen: set<NodeId>): seq<seq<NodeId>>
    requires AdjClosed(pred) && v in pred
    decreases pred.Keys - seen, if v in seen then 1 else 0, 1
  {
    if pred[v] == [] then [[v]] else SimplePathsVia(pred, v, seen, pred[v])
  }

  function SimplePathsVia(pred: Adj, v: NodeId, seen: set<NodeId>, ps: seq<NodeId>): seq<seq<NodeId>>
    requires AdjClosed(pred) && v in pred && forall p :: p in ps ==> p in pred
    decreases pred.Keys - seen, if v in seen then 1 else 0, 0, |ps|
  {
    if ps == [] then []
    else
      var here := if ps[0] in seen || ps[0] == v then [] else
        assert v !in seen ==> pred.Keys - (seen + {v}) < pred.Keys - seen;
        Prepend(v, SimplePaths(pred, ps[0], seen + {v}));
      here + SimplePathsVia(pred, v, seen, ps[1..])
  }

  /** A path up to the root that visits no node twice and none of `seen`. */
  ghost predicate SimplePathToRoot(pred: Adj, p: seq<NodeId>, v: NodeId, seen: set<NodeId>) {
    PathToRoot(pred, p, v, seen) && Distinct(p) && forall i :: 0 <= i < |p| ==> p[i] !in seen
  }

  /** With the current node filtered out as well, every path produced climbs to
      the root without repeating a node. */
  lemma {:induction false} SimplePathsSound(pred: Adj, v: NodeId, seen: set<NodeId>)
    requires AdjClosed(pred) && v in pred && v !in seen
    ensures forall p :: p in SimplePaths(pred, v, seen) ==> SimplePathToRoot(pred, p, v, seen)
    decreases pred.Keys - seen, 0, 1
  {
    if pred[v] == [] {
      assert IsWalk(pred, [v]);
    } else {
      SimplePathsViaSound(pred, v, seen, pred[v]);
    }
  }

  lemma {:induction false} SimplePathsViaSound(pred: Adj, v: NodeId, seen: set<NodeId>, ps: seq<NodeId>)
    requires AdjClosed(pred) && v in pred && v !in seen && forall p :: p in ps ==> p in pred[v]
    ensures forall p :: p in SimplePathsVia(pred, v, seen, ps) ==> SimplePathToRoot(pred, p, v, seen)
    decreases pred.Keys - seen, 0, 0, |ps|
  {
    if ps != [] {
      SimplePathsViaSound(pred, v, seen, ps[1..]);
      if ps[0] !in seen && ps[0] != v {
        assert pred.Keys - (seen + {v}) < pred.Keys - seen;
        var x := ps[0];
        SimplePathsSound(pred, x, seen + {v});
        forall q | q in SimplePaths(pred, x, seen + {v}) ensures SimplePathToRoot(pred, [v] + q, v, seen) {
          PrependSimple(pred, v, seen, q);
        }
      }
    }
  }

  lemma PrependSimple(pred: Adj, v: NodeId, seen: set<NodeId>, q: seq<NodeId>)
    requires |q| > 0 && q[0] in Next(pred, v) && q[0] !in seen && v !in seen
    requires SimplePathToRoot(pred, q, q[0], seen + {v})
    ensures SimplePathToRoot(pred, [v] + q, v, seen)
  {
    PrependPath(pred, v, seen, q);
    var p := [v] + q;
    forall i, j | 0 <= i < j < |p| ensures p[i] != p[j] {
      assert p[j] == q[j - 1];
      if i > 0 { assert p[i] == q[i - 1]; }
    }
    forall i | 0 <= i < |p| ensures p[i] !in seen {
      if i > 0 { assert p[i] == q[i - 1]; }
    }
  }

  /** On the self-loop graph of `SelfLoopPath`, the corrected filter yields the
      single path `[a, root]`. */
  lemma SelfLoopSimple()
    ensures var pred := map["root" := [], "a" := ["root", "a"]];
            AdjClosed(pred) && SimplePaths(pred, "a", {}) == [["a", "root"]]
  {
    var pred := map["root" := [], "a" := ["root", "a"]];
    var none: set<NodeId> := {};
    assert none + {"a"} == {"a"};
    assert ["root", "a"][1..] == ["a"] && ["a"][1..] == [];
    assert SimplePaths(pred, "root", {"a"}) == [["root"]];
    PrependOne("a", ["root"]);
    assert SimplePathsVia(pred, "a", {}, ["a"]) == [];
    assert SimplePathsVia(pred, "a", {}, ["root", "a"]) == Prepend("a", [["root"]]) + [];
    assert ["a"] + ["root"] == ["a", "root"];
    assert SimplePaths(pred, "a", {}) == SimplePathsVia(pred, "a", {}, ["root", "a"]);
  }

  // ---------------------------------------------------------------------------
  // Paths and counts over all nodes of a package.

  /** The paths of every listed node, one node after the other. */
  function AllPaths(pred: Adj, ids: seq<NodeId>): seq<seq<NodeId>>
    requires AdjClosed(pred) && forall n :: n in ids ==> n in pred
  {
    if ids == [] then [] else Paths(pred, ids[0], {}) + AllPaths(pred, ids[1..])
  }

  lemma {:induction false} AllPathsExactly(pred: Adj, ids: seq<NodeId>, p: seq<NodeId>)
    requires AdjClosed(pred) && forall n :: n in ids ==> n in pred
    ensures p in AllPaths(pred, ids) <==> exists n :: n in ids && PathToRoot(pred, p, n, {})
  {
    if ids != [] {
      AllPathsExactly(pred, ids[1..], p);
      PathsExactly(pred, ids[0], p);
      if PathToRoot(pred, p, ids[0], {}) {
        assert p in Paths(pred, ids[0], {});
      }
      assert forall n :: n in ids <==> n == ids[0] || n in ids[1..];
    }
  }

  /** The package of a node; a node outside the graph (which a path never holds)
      has an empty one. */
  function PkgOf(g: DepGraph, n: NodeId): Pkg {
    if n in g.graph.labelOf && g.graph.labelOf[n].pkgId in g.pkgs.m then g.pkgs.m[g.graph.labelOf[n].pkgId]
    else Pkg("", None)
  }

  function PkgsOfNodes(g: DepGraph, ns: seq<NodeId>): (r: seq<Pkg>)
    ensures |r| == |ns| && forall i :: 0 <= i < |ns| ==> r[i] == PkgOf(g, ns[i])
  {
    seq(|ns|, i requires 0 <= i < |ns| => PkgOf(g, ns[i]))
  }

  function PkgPaths(g: DepGraph, ps: seq<seq<NodeId>>): (r: seq<seq<Pkg>>)
    ensures |r| == |ps| && forall i :: 0 <= i < |ps| ==> r[i] == PkgsOfNodes(g, ps[i])
  {
    seq(|ps|, i requires 0 <= i < |ps| => PkgsOfNodes(g, ps[i]))
  }

  /** The comparator `(a, b) => a.length - b.length`. */
  predicate ShorterThan(a: seq<Pkg>, b: seq<Pkg>) { |a| < |b| }

  lemma ShorterThanOrder()
    ensures StrictWeakOrder(ShorterThan)
  {
  }

  /** `pkgPathsToRoot(pkg)`: the paths of every node of the package, as packages,
      shortest first (the sort is stable), or "no such pkg". */
  function PkgPathsToRoot(g: DepGraph, pkg: Pkg): (r: Result<seq<seq<Pkg>>>)
    requires g.Valid()
    ensures r.Ok? <==> GetPkgId(pkg) in g.pkgs.m
    ensures r.Err? ==> r.msg == "no such pkg: " + GetPkgId(pkg)
    ensures r.Ok? ==> AdjClosed(g.graph.pred) && forall n :: n in g.pkgNodes[GetPkgId(pkg)] ==> n in g.graph.pred
    ensures r.Ok? ==> Sorted(r.value, ShorterThan)
    ensures r.Ok? ==> multiset(r.value) == multiset(PkgPaths(g, AllPaths(g.graph.pred, g.pkgNodes[GetPkgId(pkg)])))
  {
    var ids :- g.GetPkgNodeIds(pkg);
    ValidPredClosed(g);
    ShorterThanOrder();
    SortSorted(PkgPaths(g, AllPaths(g.graph.pred, ids)), ShorterThan);
    Ok(Sort(PkgPaths(g, AllPaths(g.graph.pred, ids)), ShorterThan))
  }

  /** `countPathsToRoot` over the listed nodes, as a function of the cache. */
  function CountAll(pred: Adj, ids: seq<NodeId>, acc: nat, cache: map<NodeId, nat>): (nat, map<NodeId, nat>)
    requires AdjClosed(pred) && forall n :: n in ids ==> n in pred
  {
    if ids == [] then (acc, cache)
    else
      var r := CountNode(pred, ids[0], {}, cache);
      CountAll(pred, ids[1..], acc + r.0, r.1)
  }

  lemma {:induction false} CountAllSound(pred: Adj, ids: seq<NodeId>, acc: nat, cache: map<NodeId, nat>)
    returns (n: nat, c: map<NodeId, nat>)
    requires Acyclic(pred) && AdjClosed(pred) && forall n :: n in ids ==> n in pred
    requires CacheSound(pred, cache)
    ensures (n, c) == CountAll(pred, ids, acc, cache)
    ensures n == acc + |AllPaths(pred, ids)| && CacheSound(pred, c)
  {
    if ids == [] {
      n, c := acc, cache;
    } else {
      assert SeenAbove(pred, ids[0], {});
      var m, d := CountSound(pred, ids[0], {}, cache);
      n, c := CountAllSound(pred, ids[1..], acc + m, d);
    }
  }

  /** A graph without cycles: `countPathsToRoot` agrees with the number of paths
      `pkgPathsToRoot` lists, from an empty cache or any sound one. */
  lemma CountMatchesPaths(g: DepGraph, pkg: Pkg, cache: map<NodeId, nat>)
    requires g.Valid() && Acyclic(g.graph.pred) && CacheSound(g.graph.pred, cache)
    requires GetPkgId(pkg) in g.pkgs.m
    ensures PkgPathsToRoot(g, pkg).Ok?
    ensures var ids := g.pkgNodes[GetPkgId(pkg)];
            CountAll(g.graph.pred, ids, 0, cache).0 == |PkgPathsToRoot(g, pkg).value|
  {
    var r := PkgPathsToRoot(g, pkg);
    var ids := g.pkgNodes[GetPkgId(pkg)];
    var n, c := CountAllSound(g.graph.pred, ids, 0, cache);
    assert |r.value| == |multiset(r.value)|;
    assert |PkgPaths(g, AllPaths(g.graph.pred, ids))| == |multiset(PkgPaths(g, AllPaths(g.graph.pred, ids)))|;
  }

  // ---------------------------------------------------------------------------
  // Structural equality.

  /** What `nodeEquals` needs of a graph: successor lists exist exactly for the
      nodes and hold nodes, and every node's package is stored. */
  ghost predicate Readable(g: DepGraph) {
    g.graph.succ.Keys == g.graph.labelOf.Keys && AdjClosed(g.graph.succ) &&
    forall n :: n in g.graph.labelOf ==> g.graph.labelOf[n].pkgId in g.pkgs.m
  }

  lemma ValidReadable(g: DepGraph)
    requires g.Valid()
    ensures Readable(g)
  {
    ValidAdjClosed(g.graph);
  }

  /** Every package is stored under its own id, as the builder stores them. */
  ghost predicate PkgsKeyed(d: DepGraph) {
    forall k :: k in d.pkgs.m ==> GetPkgId(d.pkgs.m[k]) == k
  }

  /** `getPkgId(getNodePkg(n))`, the key children are sorted by. */
  function NodePkgId(g: DepGraph, n: NodeId): PkgId {
    GetPkgId(PkgOf(g, n))
  }

  /** The `localeCompare` order of the children's package ids, as code-point order. */
  function ByPkgId(g: DepGraph): (NodeId, NodeId) -> bool {
    (x: NodeId, y: NodeId) => LexLess(NodePkgId(g, x), NodePkgId(g, y))
  }

  /** The key `nodeEquals` records a compared pair under: the two ids joined by
      "_". */
  function PairKey(x: NodeId, y: NodeId): string {
    x + "_" + y
  }

  /** Every key a pair of nodes of the two graphs can be recorded under. */
  function PairKeys<K>(a: DepGraph, b: DepGraph, key: (NodeId, NodeId) -> K): set<K> {
    set x, y | x in a.graph.labelOf && y in b.graph.labelOf :: key(x, y)
  }

  lemma PairKeyIn<K>(a: DepGraph, b: DepGraph, key: (NodeId, NodeId) -> K, x: NodeId, y: NodeId)
    requires x in a.graph.labelOf && y in b.graph.labelOf
    ensures key(x, y) in PairKeys(a, b, key)
  {
  }

  /** The dependencies of a node sorted by package id: a rearrangement of its
      successors, all of them nodes. */
  lemma SortedDeps(g: DepGraph, v: NodeId, deps: seq<NodeId>)
    requires Readable(g) && v in g.graph.labelOf
    requires deps == Sort(g.graph.succ[v], ByPkgId(g))
    ensures |deps| == |g.graph.succ[v]| && forall x :: x in deps ==> x in g.graph.labelOf
  {
    forall x | x in deps ensures x in g.graph.labelOf {
      assert x in multiset(g.graph.succ[v]);
    }
  }

  /** The checks `nodeEquals` makes of a pair before its dependencies: the same
      package and the same information (unless the root is skipped), and as many
      dependencies. */
  ghost predicate PairAgrees(a: DepGraph, x: NodeId, b: DepGraph, y: NodeId, compareRoot: bool)
    requires Readable(a) && Readable(b) && x in a.graph.labelOf && y in b.graph.labelOf
  {
    ((compareRoot || (x != a.rootNodeId && y != b.rootNodeId)) ==>
       PkgOf(a, x) == PkgOf(b, y) && a.GetNode(x) == b.GetNode(y)) &&
    |a.graph.succ[x]| == |b.graph.succ[y]|
  }

  /** The dependencies of a node in the order `nodeEquals` pairs them. */
  function SortedDepsOf(g: DepGraph, v: NodeId): (r: seq<NodeId>)
    requires Readable(g) && v in g.graph.labelOf
    ensures |r| == |g.graph.succ[v]| && forall x :: x in r ==> x in g.graph.labelOf
  {
    SortedDeps(g, v, Sort(g.graph.succ[v], ByPkgId(g)));
    Sort(g.graph.succ[v], ByPkgId(g))
  }

  /** What `nodeEquals(a, x, b, y, compareRoot, t)` answers, with the set of keys
      it leaves recorded, when a compared pair is recorded under `key`
      (`nodeEquals` itself uses `PairKey`). */
  ghost function NodeEq<K>(a: DepGraph, x: NodeId, b: DepGraph, y: NodeId, compareRoot: bool, t: set<K>,
                               key: (NodeId, NodeId) -> K): (r: (bool, set<K>))
    requires Readable(a) && Readable(b) && x in a.graph.labelOf && y in b.graph.labelOf
    ensures t <= r.1
    ensures r.0 ==> PairAgrees(a, x, b, y, compareRoot)
    decreases PairKeys(a, b, key) - t, 1, 0
  {
    if !PairAgrees(a, x, b, y, compareRoot) then (false, t)
    else DepsEq(a, SortedDepsOf(a, x), b, SortedDepsOf(b, y), 0, compareRoot, t, key)
  }

  /** The loop of `nodeEquals` over the paired dependencies from position `i` on:
      a pair whose key is recorded is skipped, any other is recorded and
      compared, and the first pair that differs ends the loop with false. */
  ghost function DepsEq<K>(a: DepGraph, da: seq<NodeId>, b: DepGraph, db: seq<NodeId>, i: nat,
                               compareRoot: bool, t: set<K>, key: (NodeId, NodeId) -> K): (r: (bool, set<K>))
    requires Readable(a) && Readable(b) && |da| == |db| && i <= |da|
    requires forall x :: x in da ==> x in a.graph.labelOf
    requires forall y :: y in db ==> y in b.graph.labelOf
    ensures t <= r.1
    decreases PairKeys(a, b, key) - t, 0, |da| - i
  {
    if i == |da| then (true, t)
    else if key(da[i], db[i]) in t then DepsEq(a, da, b, db, i + 1, compareRoot, t, key)
    else
      PairKeyIn(a, b, key, da[i], db[i]);
      var sub := NodeEq(a, da[i], b, db[i], compareRoot, t + {key(da[i], db[i])}, key);
      if !sub.0 then sub else DepsEq(a, da, b, db, i + 1, compareRoot, sub.1, key)
  }

  /** `nodeEquals`: compares the package and information of the pair (unless
      the root is skipped), the number of dependencies, then the dependencies
      sorted by package id pairwise, recursing into each pair not yet traversed. */
  method NodeEquals(a: DepGraph, va: NodeId, b: DepGraph, vb: NodeId, compareRoot: bool, traversed: set<string>)
    returns (eq: bool, after: set<string>)
    requires Readable(a) && Readable(b) && va in a.graph.labelOf && vb in b.graph.labelOf
    ensures (eq, after) == NodeEq(a, va, b, vb, compareRoot, traversed, PairKey)
    decreases PairKeys(a, b, PairKey) - traversed
  {
    if compareRoot || (va != a.rootNodeId && vb != b.rootNodeId) {
      if PkgOf(a, va) != PkgOf(b, vb) {
        return false, traversed;
      }
      if a.GetNode(va) != b.GetNode(vb) {
        return false, traversed;
      }
    }
    if |a.graph.succ[va]| != |b.graph.succ[vb]| {
      return false, traversed;
    }
    var depsA := Sort(a.graph.succ[va], ByPkgId(a));
    var depsB := Sort(b.graph.succ[vb], ByPkgId(b));
    SortedDeps(a, va, depsA);
    SortedDeps(b, vb, depsB);
    after := traversed;
    for i := 0 to |depsA|
      invariant traversed <= after
      invariant DepsEq(a, depsA, b, depsB, i, compareRoot, after, PairKey) ==
                NodeEq(a, va, b, vb, compareRoot, traversed, PairKey)
    {
      var key := PairKey(depsA[i], depsB[i]);
      if key !in after {
        PairKeyIn(a, b, PairKey, depsA[i], depsB[i]);
        after := after + {key};
        var same;
        same, after := NodeEquals(a, depsA[i], b, depsB[i], compareRoot, after);
        if !same {
          return false, after;
        }
      }
    }
    return true, after;
  }

  // ---------------------------------------------------------------------------
  // Direct dependencies leading to a package.

  /** The direct dependencies, in order, from which some target can be reached
      (a dependency reaches itself). */
  ghost function LeadingTo(succ: Adj, ds: seq<NodeId>, targets: seq<NodeId>): seq<NodeId> {
    if ds == [] then []
    else
      var last := ds[|ds| - 1];
      LeadingTo(succ, ds[..|ds| - 1], targets) +
      (if exists n :: n in targets && Reaches(succ, last, n) then [last] else [])
  }

  lemma LeadingToStep(succ: Adj, ds: seq<NodeId>, i: nat, targets: seq<NodeId>, hit: bool)
    requires i < |ds|
    requires hit <==> exists n :: n in targets && Reaches(succ, ds[i], n)
    ensures LeadingTo(succ, ds[..i + 1], targets) ==
            LeadingTo(succ, ds[..i], targets) + (if hit then [ds[i]] else [])
  {
    assert ds[..i + 1][..i] == ds[..i];
  }

  /** A dependency's postorder walk meets a target exactly when the dependency
      reaches one. */
  lemma HitReaches(succ: Adj, d: NodeId, reach: seq<NodeId>, targets: seq<NodeId>)
    requires forall x :: x in reach <==> ReachableFromAny(succ, [d], x)
    ensures (exists n :: n in reach && n in targets) <==> exists n :: n in targets && Reaches(succ, d, n)
  {
    assert forall x :: ReachableFromAny(succ, [d], x) <==> Reaches(succ, d, x);
  }

  // ---------------------------------------------------------------------------
  // The JSON form.

  function JsonNodeOf(g: DepGraph, n: NodeId): (j: JsonNode)
    requires g.Valid() && n in g.graph.labelOf
    ensures j.nodeId == n && j.pkgId == g.graph.labelOf[n].pkgId && j.deps == g.graph.succ[n]
    ensures j.info.None? <==> IsEmptyInfo(g.graph.labelOf[n].info)
    ensures j.info.Some? ==> j.info == g.graph.labelOf[n].info
  {
    var nl := g.graph.labelOf[n];
    JsonNode(n, nl.pkgId, if IsEmptyInfo(nl.info) then None else nl.info, g.graph.succ[n])
  }

  /** `toJSON()`: the nodes in graph order with their successors, information
      left out when empty, and the packages in insertion order. */
  function ToJSON(g: DepGraph): (d: DepGraphData)
    requires g.Valid()
    ensures d.schemaVersion == SchemaVersion && d.pkgManager == g.pkgManager
    ensures d.graph.rootNodeId == g.rootNodeId
    ensures |d.graph.nodes| == |g.graph.nodes|
    ensures forall i :: 0 <= i < |g.graph.nodes| ==> g.graph.nodes[i] in g.graph.labelOf && d.graph.nodes[i] == JsonNodeOf(g, g.graph.nodes[i])
    ensures |d.pkgs| == |g.pkgs.keys|
    ensures forall i :: 0 <= i < |d.pkgs| ==> d.pkgs[i] == PkgEntry(g.pkgs.keys[i], g.pkgs.m[g.pkgs.keys[i]])
  {
    var ns := g.graph.nodes;
    var nodes := seq(|ns|, i requires 0 <= i < |ns| => JsonNodeOf(g, ns[i]));
    var ks := g.pkgs.keys;
    var pkgs := seq(|ks|, i requires 0 <= i < |ks| => PkgEntry(ks[i], g.pkgs.m[ks[i]]));
    DepGraphData(SchemaVersion, g.pkgManager, pkgs, JsonGraph(g.rootNodeId, nodes))
  }

  // ---------------------------------------------------------------------------
  // The graph object with its path-count cache.

  class DepGraphImpl {
    const data: DepGraph
    var countCache: map<NodeId, nat>

    constructor(data: DepGraph)
      ensures this.data == data && countCache == map[]
    {
      this.data := data;
      countCache := map[];
    }

    /** `countNodePathsToRoot(v, seen)`: the cached count, as `CountNode` states it. */
    method CountNodePathsToRoot(v: NodeId, seen: set<NodeId>) returns (r: nat)
      requires AdjClosed(data.graph.pred) && v in data.graph.pred
      modifies this
      ensures (r, countCache) == CountNode(data.graph.pred, v, seen, old(countCache))
      decreases data.graph.pred.Keys - seen, if v in seen then 1 else 0
    {
      var pred := data.graph.pred;
      if v in countCache {
        return countCache[v];
      }
      var parents := pred[v];
      if parents == [] {
        countCache := countCache[v := 1];
        return 1;
      }
      var count := 0;
      var i := 0;
      while i < |parents|
        invariant 0 <= i <= |parents|
        invariant CountVia(pred, v, seen, parents[i..], count, countCache) ==
                  CountVia(pred, v, seen, parents, 0, old(countCache))
      {
        assert parents[i..][1..] == parents[i + 1..];
        if parents[i] !in seen {
          assert v !in seen ==> pred.Keys - (seen + {v}) < pred.Keys - seen;
          var n := CountNodePathsToRoot(parents[i], seen + {v});
          count := count + n;
        }
        i := i + 1;
      }
      countCache := countCache[v := count];
      r := count;
    }

    /** `countPathsToRoot(pkg)`: the sum over the package's nodes, sharing the cache. */
    method CountPathsToRoot(pkg: Pkg) returns (r: Result<nat>)
      requires data.Valid()
      modifies this
      ensures r.Err? <==> GetPkgId(pkg) !in data.pkgs.m
      ensures r.Err? ==> r.msg == "no such pkg: " + GetPkgId(pkg) && countCache == old(countCache)
      ensures r.Ok? ==> AdjClosed(data.graph.pred) && (forall n :: n in data.pkgNodes[GetPkgId(pkg)] ==> n in data.graph.pred) &&
                        (r.value, countCache) == CountAll(data.graph.pred, data.pkgNodes[GetPkgId(pkg)], 0, old(countCache))
    {
      var ids := data.GetPkgNodeIds(pkg);
      if ids.Err? {
        return Err(ids.msg);
      }
      ValidPredClosed(data);
      var count := CountNodesPathsToRoot(ids.value);
      return Ok(count);
    }

    /** The loop of `countPathsToRoot`: the counts of `ids` added up in order. */
    method CountNodesPathsToRoot(ids: seq<NodeId>) returns (count: nat)
      requires AdjClosed(data.graph.pred) && forall n :: n in ids ==> n in data.graph.pred
      modifies this
      ensures (count, countCache) == CountAll(data.graph.pred, ids, 0, old(countCache))
    {
      var pred := data.graph.pred;
      count := 0;
      var i := 0;
      while i < |ids|
        invariant 0 <= i <= |ids|
        invariant CountAll(pred, ids[i..], count, countCache) == CountAll(pred, ids, 0, old(countCache))
      {
        assert ids[i..][1..] == ids[i + 1..];
        var n := CountNodePathsToRoot(ids[i], {});
        count := count + n;
        i := i + 1;
      }
    }

    /** `equals(other)`: `nodeEquals` from the two roots with no pair traversed. */
    method Equals(other: DepGraphImpl, compareRoot: bool) returns (eq: bool)
      requires data.Valid() && other.data.Valid()
      ensures Readable(data) && Readable(other.data) &&
              eq == NodeEq(data, data.rootNodeId, other.data, other.data.rootNodeId, compareRoot, {}, PairKey).0
    {
      ValidReadable(data);
      ValidReadable(other.data);
      var traversed;
      eq, traversed := NodeEquals(data, data.rootNodeId, other.data, other.data.rootNodeId, compareRoot, {});
    }

    /** `directDepsLeadingTo(pkg)`: the packages of the root's direct dependencies
        from which some node of the package can be reached. */
    method DirectDepsLeadingTo(pkg: Pkg) returns (r: Result<seq<Pkg>>)
      requires data.Valid()
      ensures r.Err? <==> GetPkgId(pkg) !in data.pkgs.m
      ensures r.Err? ==> r.msg == "no such pkg: " + GetPkgId(pkg)
      ensures r.Ok? ==> data.rootNodeId in data.graph.succ
      ensures r.Ok? ==> r.value == PkgsOfNodes(data, LeadingTo(data.graph.succ, data.graph.succ[data.rootNodeId],
                                                               data.pkgNodes[GetPkgId(pkg)]))
    {
      var ids := data.GetPkgNodeIds(pkg);
      if ids.Err? {
        return Err(ids.msg);
      }
      ValidAdjClosed(data.graph);
      var succ := data.graph.succ;
      var directDeps := succ[data.rootNodeId];
      var kept: seq<NodeId> := [];
      for i := 0 to |directDeps|
        invariant kept == LeadingTo(succ, directDeps[..i], ids.value)
      {
        var d := directDeps[i];
        assert d in data.graph.labelOf;
        var reach := Postorder(data.graph, [d]);
        var hit := exists n :: n in reach.value && n in ids.value;
        HitReaches(succ, d, reach.value, ids.value);
        LeadingToStep(succ, directDeps, i, ids.value, hit);
        if hit {
          kept := kept + [d];
        }
      }
      assert directDeps[..|directDeps|] == directDeps;
      return Ok(PkgsOfNodes(data, kept));
    }
  }
}

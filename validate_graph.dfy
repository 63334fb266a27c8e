/** The structural checks of a dependency graph: the root has no incoming edge,
    every node is reachable from the root, every package has a node, and the root
    package has exactly one node. The first failing check decides the error. */
module ValidateGraph {
  import opened Wrappers
  import opened Strings
  import opened Sorting
  import opened Graphs
  import opened Types
  import opened Dfs

  const NotAllReachable := "not all graph nodes are reachable from root"
  const NotAllPkgsUsed := "not all pkgs have instance nodes"
  const RootPkgNotSingle := "root pkg should have exactly one instance node"
  /** Reading `.size` of a missing package node set throws a `TypeError`. */
  const UndefinedSize := "Cannot read properties of undefined (reading 'size')"

  function NotRootMsg(rootNodeId: NodeId): string {
    "\"" + rootNodeId + "\" is not really the root"
  }

  /** `(graph.predecessors(rootNodeId) || []).length === 0`: an unknown root counts
      as having no predecessors. */
  predicate RootUnpointed(graph: Graph<GraphNode>, rootNodeId: NodeId) {
    rootNodeId !in graph.pred || graph.pred[rootNodeId] == []
  }

  ghost predicate AllReachable(graph: Graph<GraphNode>, rootNodeId: NodeId) {
    forall v :: v in graph.labelOf ==> Reaches(graph.succ, rootNodeId, v)
  }

  predicate AllPkgsUsed(pkgIds: set<PkgId>, pkgNodes: map<PkgId, set<NodeId>>) {
    forall k :: k in pkgIds ==> k in pkgNodes && |pkgNodes[k]| > 0
  }

  predicate RootPkgSingle(graph: Graph<GraphNode>, rootNodeId: NodeId, pkgNodes: map<PkgId, set<NodeId>>)
    requires rootNodeId in graph.labelOf
  {
    graph.labelOf[rootNodeId].pkgId in pkgNodes && |pkgNodes[graph.labelOf[rootNodeId].pkgId]| == 1
  }

  /** Every check passes. */
  ghost predicate GraphChecks(graph: Graph<GraphNode>, rootNodeId: NodeId, pkgIds: set<PkgId>, pkgNodes: map<PkgId, set<NodeId>>) {
    RootUnpointed(graph, rootNodeId) && rootNodeId in graph.labelOf && AllReachable(graph, rootNodeId) &&
    AllPkgsUsed(pkgIds, pkgNodes) && RootPkgSingle(graph, rootNodeId, pkgNodes)
  }

  lemma LexLessOrder()
    ensures StrictWeakOrder(LexLess)
  {
    forall a ensures !LexLess(a, a) { LexLessIrreflexive(a); }
    forall a, b, c | LexLess(a, b) && LexLess(b, c) ensures LexLess(a, c) {
      LexLessTransitive(a, b, c);
    }
    forall a, b, c | LexLess(a, c) ensures LexLess(a, b) || LexLess(b, c) {
      if !LexLess(a, b) && b != a {
        LexLessTotal(a, b);
        LexLessTransitive(b, a, c);
      }
    }
  }

  lemma {:induction false} DistinctCount(s: seq<NodeId>, x: NodeId)
    requires Distinct(s)
    ensures multiset(s)[x] == if x in s then 1 else 0
  {
    if s != [] {
      assert s == [s[0]] + s[1..];
      assert Distinct(s[1..]) by {
        forall i, j | 0 <= i < j < |s[1..]| ensures s[1..][i] != s[1..][j] {
          assert s[1..][i] == s[i + 1] && s[1..][j] == s[j + 1];
        }
      }
      DistinctCount(s[1..], x);
      assert s[0] !in s[1..] by {
        forall k | 0 <= k < |s[1..]| ensures s[1..][k] != s[0] {
          assert s[1..][k] == s[k + 1];
        }
      }
    }
  }

  /** Sorting two lists without repeats and comparing them, as
      `JSON.stringify(a.sort()) === JSON.stringify(b.sort())` does, tells exactly
      whether they hold the same ids. */
  lemma SortedEqualIffSameIds(a: seq<NodeId>, b: seq<NodeId>)
    requires Distinct(a) && Distinct(b)
    ensures Sort(a, LexLess) == Sort(b, LexLess) <==> forall x :: x in a <==> x in b
  {
    if forall x :: x in a <==> x in b {
      forall x ensures multiset(a)[x] == multiset(b)[x] {
        DistinctCount(a, x);
        DistinctCount(b, x);
      }
      assert multiset(a) == multiset(b);
      LexLessOrder();
      var sa, sb := Sort(a, LexLess), Sort(b, LexLess);
      SortSorted(a, LexLess);
      SortSorted(b, LexLess);
      forall i, j | 0 <= i < |sa| && 0 <= j < |sa| && sa[i] != sa[j]
        ensures LexLess(sa[i], sa[j]) || LexLess(sa[j], sa[i])
      {
        LexLessTotal(sa[i], sa[j]);
      }
      SortedUnique(sa, sb, LexLess);
    }
    if Sort(a, LexLess) == Sort(b, LexLess) {
      forall x ensures x in a <==> x in b {
        assert x in a <==> x in multiset(a);
        assert x in b <==> x in multiset(b);
      }
    }
  }

  /** The ids reachable from the root cover the node set exactly when every node is
      reachable, since nothing outside the graph is reachable. */
  lemma ReachListCoversIff(nodes: seq<NodeId>, adj: Adj, rootNodeId: NodeId, reach: seq<NodeId>)
    requires AdjClosed(adj) && (forall v :: v in nodes <==> v in adj) && rootNodeId in adj
    requires forall x :: x in reach <==> ReachableFromAny(adj, [rootNodeId], x)
    ensures (forall x :: x in nodes <==> x in reach) <==> forall v :: v in adj ==> Reaches(adj, rootNodeId, v)
  {
    assert Closed(adj, adj.Keys);
    forall x | x in reach ensures x in adj {
      var v :| v in [rootNodeId] && Reaches(adj, v, x);
      ClosedHoldsReach(adj, adj.Keys, rootNodeId, x);
    }
    if forall v :: v in adj ==> Reaches(adj, rootNodeId, v) {
      forall x | x in nodes ensures x in reach {
        assert rootNodeId in [rootNodeId] && Reaches(adj, rootNodeId, x);
      }
    }
    if forall x :: x in nodes <==> x in reach {
      forall v | v in adj ensures Reaches(adj, rootNodeId, v) {
        assert v in reach;
        var u :| u in [rootNodeId] && Reaches(adj, u, v);
      }
    }
  }

  /** The outcome of the checks in their order: the first that does not hold
      decides the message. An unknown root fails inside the post-order walk. */
  ghost function Expected(graph: Graph<GraphNode>, rootNodeId: NodeId, pkgIds: set<PkgId>, pkgNodes: map<PkgId, set<NodeId>>): Outcome {
    if !RootUnpointed(graph, rootNodeId) then Fail(NotRootMsg(rootNodeId))
    else if rootNodeId !in graph.labelOf then Fail("Graph does not have node: " + rootNodeId)
    else if !AllReachable(graph, rootNodeId) then Fail(NotAllReachable)
    else if !AllPkgsUsed(pkgIds, pkgNodes) then Fail(NotAllPkgsUsed)
    else if graph.labelOf[rootNodeId].pkgId !in pkgNodes then Fail(UndefinedSize)
    else if !RootPkgSingle(graph, rootNodeId, pkgNodes) then Fail(RootPkgNotSingle)
    else Pass
  }

  /** The checks pass together exactly when each of them holds. */
  lemma ExpectedPassIff(graph: Graph<GraphNode>, rootNodeId: NodeId, pkgIds: set<PkgId>, pkgNodes: map<PkgId, set<NodeId>>)
    ensures Expected(graph, rootNodeId, pkgIds, pkgNodes).Pass? <==> GraphChecks(graph, rootNodeId, pkgIds, pkgNodes)
  {
  }

  /** The second check: the post-order walk from the root, sorted, against the
      sorted node ids. */
  method ReachCheck(graph: Graph<GraphNode>, rootNodeId: NodeId) returns (r: Result<bool>)
    requires graph.Valid()
    ensures r.Err? <==> rootNodeId !in graph.labelOf
    ensures r.Err? ==> r.msg == "Graph does not have node: " + rootNodeId
    ensures r.Ok? ==> (r.value <==> AllReachable(graph, rootNodeId))
  {
    ValidAdjClosed(graph);
    r := ReachCheckOver(graph.nodes, graph.succ, rootNodeId);
  }

  /** `postorder(graph, [rootNodeId])` on the successor lists, compared sorted
      with the sorted node list. */
  method ReachCheckOver(nodes: seq<NodeId>, adj: Adj, rootNodeId: NodeId) returns (r: Result<bool>)
    requires AdjClosed(adj) && Distinct(nodes) && forall v :: v in nodes <==> v in adj
    ensures r.Err? <==> rootNodeId !in adj
    ensures r.Err? ==> r.msg == "Graph does not have node: " + rootNodeId
    ensures r.Ok? ==> (r.value <==> forall v :: v in adj ==> Reaches(adj, rootNodeId, v))
  {
    var reachableFromRoot := DfsOver(adj, [rootNodeId], true);
    if reachableFromRoot.Err? {
      return Err("Graph does not have node: " + rootNodeId);
    }
    var reach := reachableFromRoot.value;
    SortedEqualIffSameIds(nodes, reach);
    ReachListCoversIff(nodes, adj, rootNodeId, reach);
    return Ok(Sort(nodes, LexLess) == Sort(reach, LexLess));
  }

  /** `validateGraph`: passes exactly when every check holds, and otherwise fails
      with the message of the first check that does not. */
  method Validate(graph: Graph<GraphNode>, rootNodeId: NodeId, pkgs: map<PkgId, Pkg>, pkgNodes: map<PkgId, set<NodeId>>)
    returns (r: Outcome)
    requires graph.Valid()
    ensures r == Expected(graph, rootNodeId, pkgs.Keys, pkgNodes)
    ensures r.Pass? <==> GraphChecks(graph, rootNodeId, pkgs.Keys, pkgNodes)
  {
    ExpectedPassIff(graph, rootNodeId, pkgs.Keys, pkgNodes);
    if !RootUnpointed(graph, rootNodeId) {
      return Fail(NotRootMsg(rootNodeId));
    }
    var allReached := ReachCheck(graph, rootNodeId);
    if allReached.Err? {
      return Fail(allReached.msg);
    }
    if !allReached.value {
      return Fail(NotAllReachable);
    }
    if !AllPkgsUsed(pkgs.Keys, pkgNodes) {
      return Fail(NotAllPkgsUsed);
    }
    var rootPkgId := graph.labelOf[rootNodeId].pkgId;
    if rootPkgId !in pkgNodes {
      return Fail(UndefinedSize);
    }
    if |pkgNodes[rootPkgId]| != 1 {
      return Fail(RootPkgNotSingle);
    }
    return Pass;
  }
}

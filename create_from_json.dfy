/** `validateDepGraphData`, the check `createFromJSON` runs on a document before
    building a graph from it. The document is read in its keyed form: packages
    keyed by package id, nodes keyed by node id, each node listing dependency
    objects that carry a `nodeId`. The checks run in order and the first one that
    does not hold decides the message. */
module CreateFromJson {
  import opened Wrappers
  import opened Graphs
  import opened Types
  import opened OrderedMaps
  import opened Dfs
  import Topsort

  /** A dependency object `{nodeId}`. */
  datatype Dep = Dep(nodeId: NodeId)

  datatype DataNode = DataNode(pkgId: PkgId, deps: seq<Dep>)

  /** The document; an absent or `null` part is `None`. Package entries may
      themselves be `null`. Key listings are in `Object.keys` order. */
  datatype Document = Document(
    schemaVersion: Option<string>,
    pkgManager: Option<PkgManager>,
    pkgs: Option<OMap<PkgId, Option<Pkg>>>,
    graph: Option<OMap<NodeId, DataNode>>)

  /** Which per-dependency checks run: the ones the source writes, which look at
      the dependency object itself, or the ones evidently meant, which look at its
      `nodeId`. */
  datatype DepChecks = AsWritten | ByNodeId

  const SchemaMissing := "schemaVersion missing"
  const SchemaUnsupported := "schemaVersion not in \"^2.0.0\""
  const BadFormat := "bad data format"
  const PkgManagerNameMissing := ".pkgManager.name is missing"
  const RootPkgMissing := "root pkg missing"
  const RootNodeMissing := "root graph node is missing"
  const EmptyPkg := "empty pkg"
  const PkgNameMissing := "some .pkgs elements have no .name field"
  const PkgIdNotNameAtVersion := "non-root pkg id must be name@version"
  const RootPkgNotSingle := "root pkg should have exactly one instance node"
  const UnknownPkgId := "node points to a non-existing pkgId"
  const DepOnRoot := "\"root\" is not really the root"
  const UnknownDep := "node depends on a non-existing nodeId"
  const NotAllPkgsUsed := "not all pkgs have instance nodes"
  const NotAllReachable := "not all graph nodes are reachable from root"
  /** Reading `.deps` of a node id that is not in the graph throws a `TypeError`. */
  const UndefinedDeps := "Cannot read properties of undefined (reading 'deps')"
  /** The text a plain object turns into when it is used as a property key. */
  const ObjectKey := "[object Object]"

  function RootPkgIdMsg(pkgId: PkgId): string {
    "the root node .pkgId must be \"root\", but got " + pkgId
  }

  /** `semver.satisfies(v, '^2.0.0')`, reduced to its major version: the text
      starts with "2.". */
  predicate SchemaSupported(v: string) {
    |v| >= 2 && v[0] == '2' && v[1] == '.'
  }

  /** The accepted and rejected versions of the schema-version tests. */
  lemma SchemaVersionExamples()
    ensures SchemaSupported("2.9.9") && SchemaSupported("2.0.0")
    ensures !SchemaSupported("1.0.1") && !SchemaSupported("3.0.0")
  {
  }

  /** Both key listings list their maps: an object has no repeated key. */
  ghost predicate Listed(doc: Document) {
    (doc.pkgs.Some? ==> doc.pkgs.value.Valid()) && (doc.graph.Some? ==> doc.graph.value.Valid())
  }

  // ---------------------------------------------------------------------------
  // Packages

  /** A package entry is present, named, and keyed by name@version (with empty
      text for a missing version) unless it is the root package. */
  predicate PkgOk(pkgId: PkgId, pkg: Option<Pkg>) {
    pkg.Some? && pkg.value.name != "" && (pkgId == "root" || pkgId == GetPkgId(pkg.value))
  }

  /** The three assertions on one package, in order. */
  function PkgCheck(pkgId: PkgId, pkg: Option<Pkg>): (r: Outcome)
    ensures r.Pass? <==> PkgOk(pkgId, pkg)
    ensures r.Fail? ==> r.msg in {EmptyPkg, PkgNameMissing, PkgIdNotNameAtVersion}
  {
    if pkg.None? then Fail(EmptyPkg)
    else if pkg.value.name == "" then Fail(PkgNameMissing)
    else if pkgId != "root" && pkgId != GetPkgId(pkg.value) then Fail(PkgIdNotNameAtVersion)
    else Pass
  }

  /** The package loop: the first package, in key order, that fails decides. */
  function PkgsCheck(keys: seq<PkgId>, pkgs: map<PkgId, Option<Pkg>>): (r: Outcome)
    requires forall k :: k in keys ==> k in pkgs
    ensures r.Pass? <==> forall j :: 0 <= j < |keys| ==> PkgOk(keys[j], pkgs[keys[j]])
    ensures r.Fail? ==> exists j :: 0 <= j < |keys| && r == PkgCheck(keys[j], pkgs[keys[j]])
  {
    if keys == [] then Pass
    else
      var c := PkgCheck(keys[0], pkgs[keys[0]]);
      if c.Fail? then c
      else
        var rest := PkgsCheck(keys[1..], pkgs);
        assert forall j :: 1 <= j < |keys| ==> keys[j] == keys[1..][j - 1];
        rest
  }

  // ---------------------------------------------------------------------------
  // Nodes

  /** One dependency passes its checks. As written, `depNodeId !== 'root'` compares
      the object with a text and always holds, and `!data.graph[depNodeId]` looks up
      the key "[object Object]": it fails exactly when such a node exists. */
  predicate DepOk(dep: Dep, graph: map<NodeId, DataNode>, checks: DepChecks) {
    match checks
    case AsWritten => ObjectKey !in graph
    case ByNodeId => dep.nodeId != "root" && dep.nodeId in graph
  }

  function DepCheck(dep: Dep, graph: map<NodeId, DataNode>, checks: DepChecks): (r: Outcome)
    ensures r.Pass? <==> DepOk(dep, graph, checks)
    ensures r.Fail? ==> r.msg in {DepOnRoot, UnknownDep}
  {
    match checks
    case AsWritten => if ObjectKey in graph then Fail(UnknownDep) else Pass
    case ByNodeId =>
      if dep.nodeId == "root" then Fail(DepOnRoot)
      else if dep.nodeId !in graph then Fail(UnknownDep)
      else Pass
  }

  /** The dependency loop of one node: the first failing dependency decides. */
  function DepsCheck(deps: seq<Dep>, graph: map<NodeId, DataNode>, checks: DepChecks): (r: Outcome)
    ensures r.Pass? <==> forall j :: 0 <= j < |deps| ==> DepOk(deps[j], graph, checks)
    ensures r.Fail? ==> r.msg in {DepOnRoot, UnknownDep}
  {
    if deps == [] then Pass
    else
      var c := DepCheck(deps[0], graph, checks);
      if c.Fail? then c
      else
        assert forall j :: 1 <= j < |deps| ==> deps[j] == deps[1..][j - 1];
        DepsCheck(deps[1..], graph, checks)
  }

  /** Only the node "root" uses the package "root"; the node's package exists; its
      dependencies pass. */
  predicate NodeOk(nodeId: NodeId, node: DataNode, pkgs: map<PkgId, Option<Pkg>>,
                   graph: map<NodeId, DataNode>, checks: DepChecks) {
    (node.pkgId == "root" ==> nodeId == "root") &&
    node.pkgId in pkgs && pkgs[node.pkgId].Some? &&
    forall j :: 0 <= j < |node.deps| ==> DepOk(node.deps[j], graph, checks)
  }

  /** The assertions on one node, in order. */
  function NodeCheck(nodeId: NodeId, node: DataNode, pkgs: map<PkgId, Option<Pkg>>,
                     graph: map<NodeId, DataNode>, checks: DepChecks): (r: Outcome)
    ensures r.Pass? <==> NodeOk(nodeId, node, pkgs, graph, checks)
    ensures r.Fail? ==> r.msg in {RootPkgNotSingle, UnknownPkgId, DepOnRoot, UnknownDep}
  {
    if node.pkgId == "root" && nodeId != "root" then Fail(RootPkgNotSingle)
    else if node.pkgId !in pkgs || pkgs[node.pkgId].None? then Fail(UnknownPkgId)
    else DepsCheck(node.deps, graph, checks)
  }

  /** The node loop's verdict: the first node, in key order, that fails decides. */
  function NodesCheck(keys: seq<NodeId>, pkgs: map<PkgId, Option<Pkg>>,
                      graph: map<NodeId, DataNode>, checks: DepChecks): (r: Outcome)
    requires forall k :: k in keys ==> k in graph
    ensures r.Pass? <==> forall j :: 0 <= j < |keys| ==> NodeOk(keys[j], graph[keys[j]], pkgs, graph, checks)
    ensures r.Fail? ==> r.msg in {RootPkgNotSingle, UnknownPkgId, DepOnRoot, UnknownDep}
  {
    if keys == [] then Pass
    else
      var c := NodeCheck(keys[0], graph[keys[0]], pkgs, graph, checks);
      if c.Fail? then c
      else
        assert forall j :: 1 <= j < |keys| ==> keys[j] == keys[1..][j - 1];
        NodesCheck(keys[1..], pkgs, graph, checks)
  }

  /** The package ids the nodes use. */
  function PkgIdsOf(graph: map<NodeId, DataNode>): set<PkgId> {
    set n | n in graph :: graph[n].pkgId
  }

  /** The node loop: adds each node's package id to `pkgIdsSeen`, then checks the
      node. When every node passes, the ids seen are the ids the nodes use. */
  method CheckNodes(graph: OMap<NodeId, DataNode>, pkgs: map<PkgId, Option<Pkg>>, checks: DepChecks)
    returns (r: Outcome, pkgIdsSeen: set<PkgId>)
    requires graph.Valid()
    ensures r == NodesCheck(graph.keys, pkgs, graph.m, checks)
    ensures r.Pass? ==> pkgIdsSeen == PkgIdsOf(graph.m)
  {
    var keys := graph.keys;
    pkgIdsSeen := {};
    for i := 0 to |keys|
      invariant NodesCheck(keys, pkgs, graph.m, checks) == NodesCheck(keys[i..], pkgs, graph.m, checks)
      invariant pkgIdsSeen == set j | 0 <= j < i :: graph.m[keys[j]].pkgId
    {
      var nodeId := keys[i];
      var node := graph.m[nodeId];
      pkgIdsSeen := pkgIdsSeen + {node.pkgId};
      assert keys[i..][0] == nodeId && keys[i..][1..] == keys[i + 1..];
      var c := NodeCheck(nodeId, node, pkgs, graph.m, checks);
      if c.Fail? {
        return c, pkgIdsSeen;
      }
    }
    SeenAll(graph, pkgIdsSeen);
    r := Pass;
  }

  lemma SeenAll(graph: OMap<NodeId, DataNode>, seen: set<PkgId>)
    requires graph.Valid()
    requires seen == set j | 0 <= j < |graph.keys| :: graph.m[graph.keys[j]].pkgId
    ensures seen == PkgIdsOf(graph.m)
  {
    forall p | p in PkgIdsOf(graph.m) ensures p in seen {
      var n :| n in graph.m && graph.m[n].pkgId == p;
      var j :| 0 <= j < |graph.keys| && graph.keys[j] == n;
    }
  }

  /** Every package is used by some node. */
  ghost predicate AllPkgsUsed(pkgs: map<PkgId, Option<Pkg>>, graph: map<NodeId, DataNode>) {
    forall k :: k in pkgs ==> exists n :: n in graph && graph[n].pkgId == k
  }

  /** A key listing without repeats is as long as the key set. */
  lemma {:induction false} ListedSize<T>(keys: seq<T>, s: set<T>)
    requires Distinct(keys) && forall k :: k in keys <==> k in s
    ensures |keys| == |s|
    decreases |keys|
  {
    if keys != [] {
      var x := keys[|keys| - 1];
      var init := keys[..|keys| - 1];
      assert x !in init by {
        forall j | 0 <= j < |init| ensures init[j] != x {
          assert init[j] == keys[j];
        }
      }
      assert Distinct(init) by {
        forall i, j | 0 <= i < j < |init| ensures init[i] != init[j] {
          assert init[i] == keys[i] && init[j] == keys[j];
        }
      }
      forall k ensures k in init <==> k in s - {x} {
        assert keys == init + [x];
      }
      ListedSize(init, s - {x});
    }
  }

  /** `pkgIdsSeen.size === Object.keys(data.pkgs).length`: once every node's
      package exists, the sizes agree exactly when every package is used. */
  lemma SeenSizeIff(pkgs: OMap<PkgId, Option<Pkg>>, graph: map<NodeId, DataNode>, seen: set<PkgId>)
    requires pkgs.Valid() && seen == PkgIdsOf(graph)
    requires forall n :: n in graph ==> graph[n].pkgId in pkgs.m
    ensures |seen| == |pkgs.keys| <==> AllPkgsUsed(pkgs.m, graph)
  {
    ListedSize(pkgs.keys, pkgs.m.Keys);
    assert seen <= pkgs.m.Keys;
    if |seen| == |pkgs.keys| {
      Topsort.SameSizeSubset(seen, pkgs.m.Keys);
      forall k | k in pkgs.m ensures exists n :: n in graph && graph[n].pkgId == k {
        assert k in seen;
      }
    }
    if AllPkgsUsed(pkgs.m, graph) {
      forall k | k in pkgs.m.Keys ensures k in seen {
        var n :| n in graph && graph[n].pkgId == k;
      }
      assert seen == pkgs.m.Keys;
    }
  }

  // ---------------------------------------------------------------------------
  // Reachability

  function DepIds(deps: seq<Dep>): (r: seq<NodeId>)
    ensures |r| == |deps| && forall j :: 0 <= j < |deps| ==> r[j] == deps[j].nodeId
  {
    seq(|deps|, j requires 0 <= j < |deps| => deps[j].nodeId)
  }

  /** The successor lists the reachability walk follows: each node's dependency ids. */
  function DepsAdj(graph: map<NodeId, DataNode>): (adj: Adj)
    ensures adj.Keys == graph.Keys
  {
    map n | n in graph :: DepIds(graph[n].deps)
  }

  /** `nodesReachableFrom(nodeId, reachable)`: adds the node to the shared set, reads
      its dependencies and recurses into each one not yet in the set. Reading a node
      that is not in the graph throws; otherwise the set grows by nodes reachable from
      `v` and every node that has left the walk stack has all its successors in it. */
  method NodesReachableFrom(adj: Adj, v: NodeId, reachable: set<NodeId>, ghost gray: set<NodeId>)
    returns (r: Result<set<NodeId>>)
    requires v !in reachable && reachable <= adj.Keys && FinishedClosed(adj, reachable, gray)
    ensures r.Err? ==> r.msg == UndefinedDeps && exists x :: Reaches(adj, v, x) && x !in adj
    ensures r.Ok? ==> reachable + {v} <= r.value <= adj.Keys && FinishedClosed(adj, r.value, gray)
    ensures r.Ok? ==> forall x :: x in r.value - reachable ==> Reaches(adj, v, x)
    decreases adj.Keys - reachable, 1
  {
    var reached := reachable + {v};
    if v !in adj {
      ReachesRefl(adj, v);
      return Err(UndefinedDeps);
    }
    ReachesRefl(adj, v);
    r := VisitDeps(adj, v, reached, gray);
  }

  /** The loop over one node's dependencies, recursing into each unvisited one. */
  method VisitDeps(adj: Adj, v: NodeId, reachable: set<NodeId>, ghost gray: set<NodeId>)
    returns (r: Result<set<NodeId>>)
    requires v in adj && v in reachable && v !in gray && reachable <= adj.Keys
    requires FinishedClosed(adj, reachable, gray + {v})
    ensures r.Err? ==> r.msg == UndefinedDeps && exists x :: Reaches(adj, v, x) && x !in adj
    ensures r.Ok? ==> reachable <= r.value <= adj.Keys && FinishedClosed(adj, r.value, gray)
    ensures r.Ok? ==> forall x :: x in r.value - reachable ==> Reaches(adj, v, x)
    decreases adj.Keys - (reachable - {v}), 0
  {
    var deps := adj[v];
    var cur := reachable;
    ReachesRefl(adj, v);
    for k := 0 to |deps|
      invariant reachable <= cur <= adj.Keys
      invariant FinishedClosed(adj, cur, gray + {v})
      invariant forall j :: 0 <= j < k ==> deps[j] in cur
      invariant forall x :: x in cur - reachable ==> Reaches(adj, v, x)
    {
      var w := deps[k];
      if w !in cur {
        var sub := NodesReachableFrom(adj, w, cur, gray + {v});
        if sub.Err? {
          ghost var x :| Reaches(adj, w, x) && x !in adj;
          ReachesStep(adj, v, w, x);
          return Err(UndefinedDeps);
        }
        forall x | x in sub.value - reachable ensures Reaches(adj, v, x) {
          if x !in cur {
            ReachesStep(adj, v, w, x);
          }
        }
        cur := sub.value;
      }
    }
    r := Ok(cur);
  }

  /** From the root with an empty set: the walk throws exactly when it can reach a
      node id that is not in the graph, and otherwise returns exactly the nodes
      reachable from the root. */
  method ReachableFromRoot(adj: Adj) returns (r: Result<set<NodeId>>)
    requires "root" in adj
    ensures r.Err? <==> exists x :: Reaches(adj, "root", x) && x !in adj
    ensures r.Err? ==> r.msg == UndefinedDeps
    ensures r.Ok? ==> forall x :: x in r.value <==> Reaches(adj, "root", x)
  {
    r := NodesReachableFrom(adj, "root", {}, {});
    if r.Ok? {
      assert Closed(adj, r.value);
      forall x | Reaches(adj, "root", x) ensures x in r.value && x in adj {
        ClosedHoldsReach(adj, r.value, "root", x);
      }
    }
  }

  /** Every node is reachable from the root. */
  ghost predicate AllReachable(graph: map<NodeId, DataNode>) {
    forall n :: n in graph ==> Reaches(DepsAdj(graph), "root", n)
  }

  /** No node id missing from the graph is reachable from the root. */
  ghost predicate NoneMissing(graph: map<NodeId, DataNode>) {
    forall x :: Reaches(DepsAdj(graph), "root", x) ==> x in graph
  }

  /** `nodesReachableFrom('root').size === Object.keys(data.graph).length`. */
  lemma ReachSizeIff(graph: OMap<NodeId, DataNode>, reached: set<NodeId>)
    requires graph.Valid()
    requires forall x :: x in reached <==> Reaches(DepsAdj(graph.m), "root", x)
    requires NoneMissing(graph.m)
    ensures |reached| == |graph.keys| <==> AllReachable(graph.m)
  {
    ListedSize(graph.keys, graph.m.Keys);
    assert reached <= graph.m.Keys;
    if |reached| == |graph.keys| {
      Topsort.SameSizeSubset(reached, graph.m.Keys);
    }
    if AllReachable(graph.m) {
      assert reached == graph.m.Keys;
    }
  }

  // ---------------------------------------------------------------------------
  // The whole check

  /** Every package entry passes its checks. */
  predicate PkgsOk(pkgs: map<PkgId, Option<Pkg>>) {
    forall k :: k in pkgs ==> PkgOk(k, pkgs[k])
  }

  /** Every node passes its checks. */
  predicate NodesOk(pkgs: map<PkgId, Option<Pkg>>, graph: map<NodeId, DataNode>, checks: DepChecks) {
    forall n :: n in graph ==> NodeOk(n, graph[n], pkgs, graph, checks)
  }

  /** The package loop over the key listing passes exactly when every package does. */
  lemma PkgsCheckIff(pkgs: OMap<PkgId, Option<Pkg>>)
    requires pkgs.Valid()
    ensures PkgsCheck(pkgs.keys, pkgs.m).Pass? <==> PkgsOk(pkgs.m)
  {
    if PkgsCheck(pkgs.keys, pkgs.m).Pass? {
      forall k | k in pkgs.m ensures PkgOk(k, pkgs.m[k]) {
        var j :| 0 <= j < |pkgs.keys| && pkgs.keys[j] == k;
      }
    }
  }

  /** The node loop over the key listing passes exactly when every node does. */
  lemma NodesCheckIff(graph: OMap<NodeId, DataNode>, pkgs: map<PkgId, Option<Pkg>>, checks: DepChecks)
    requires graph.Valid()
    ensures NodesCheck(graph.keys, pkgs, graph.m, checks).Pass? <==> NodesOk(pkgs, graph.m, checks)
  {
    if NodesCheck(graph.keys, pkgs, graph.m, checks).Pass? {
      forall n | n in graph.m ensures NodeOk(n, graph.m[n], pkgs, graph.m, checks) {
        var j :| 0 <= j < |graph.keys| && graph.keys[j] == n;
      }
    }
  }

  /** The document's parts are present, and the root package and root node are as
      required. */
  predicate Header(doc: Document) {
    doc.schemaVersion.Some? && doc.schemaVersion.value != "" && SchemaSupported(doc.schemaVersion.value) &&
    doc.pkgManager.Some? && doc.pkgs.Some? && doc.graph.Some? &&
    doc.pkgManager.value.name != "" &&
    "root" in doc.pkgs.value.m && doc.pkgs.value.m["root"].Some? && doc.pkgs.value.m["root"].value.name != "" &&
    "root" in doc.graph.value.m && doc.graph.value.m["root"].pkgId == "root"
  }

  /** The assertions before the package loop, in order. */
  function HeaderCheck(doc: Document): (r: Outcome)
    ensures r.Pass? <==> Header(doc)
    ensures r.Fail? ==> r.msg in {SchemaMissing, SchemaUnsupported, BadFormat, PkgManagerNameMissing,
                                  RootPkgMissing, RootNodeMissing} ||
                        (doc.graph.Some? && "root" in doc.graph.value.m &&
                         r.msg == RootPkgIdMsg(doc.graph.value.m["root"].pkgId))
  {
    if doc.schemaVersion.None? || doc.schemaVersion.value == "" then Fail(SchemaMissing)
    else if !SchemaSupported(doc.schemaVersion.value) then Fail(SchemaUnsupported)
    else if doc.pkgManager.None? || doc.pkgs.None? || doc.graph.None? then Fail(BadFormat)
    else if doc.pkgManager.value.name == "" then Fail(PkgManagerNameMissing)
    else
      var pkgs, graph := doc.pkgs.value.m, doc.graph.value.m;
      if "root" !in pkgs || pkgs["root"].None? then Fail(RootPkgMissing)
      else if pkgs["root"].value.name == "" then Fail(RootPkgMissing)
      else if "root" !in graph then Fail(RootNodeMissing)
      else if graph["root"].pkgId != "root" then Fail(RootPkgIdMsg(graph["root"].pkgId))
      else Pass
  }

  /** Every package and node passes its own checks, every package is used, and the
      nodes reachable from the root are exactly the graph's nodes. */
  ghost predicate Contents(pkgs: map<PkgId, Option<Pkg>>, graph: map<NodeId, DataNode>, checks: DepChecks) {
    PkgsOk(pkgs) && NodesOk(pkgs, graph, checks) &&
    AllPkgsUsed(pkgs, graph) && NoneMissing(graph) && AllReachable(graph)
  }

  /** Every condition the checks demand, stated without their order. */
  ghost predicate WellFormed(doc: Document, checks: DepChecks) {
    Header(doc) && Contents(doc.pkgs.value.m, doc.graph.value.m, checks)
  }

  /** The outcome of the checks from the package loop on, in their order. */
  ghost function ContentsExpected(pkgs: OMap<PkgId, Option<Pkg>>, graph: OMap<NodeId, DataNode>, checks: DepChecks): Outcome
    requires pkgs.Valid() && graph.Valid()
  {
    var p := PkgsCheck(pkgs.keys, pkgs.m);
    var n := NodesCheck(graph.keys, pkgs.m, graph.m, checks);
    if p.Fail? then p
    else if n.Fail? then n
    else if !AllPkgsUsed(pkgs.m, graph.m) then Fail(NotAllPkgsUsed)
    else if !NoneMissing(graph.m) then Fail(UndefinedDeps)
    else if !AllReachable(graph.m) then Fail(NotAllReachable)
    else Pass
  }

  /** The outcome of all the checks in their order. */
  ghost function Expected(doc: Document, checks: DepChecks): Outcome
    requires Listed(doc)
  {
    if !Header(doc) then HeaderCheck(doc)
    else ContentsExpected(doc.pkgs.value, doc.graph.value, checks)
  }

  /** The ordered checks pass exactly when every condition holds. */
  lemma ExpectedPassIff(doc: Document, checks: DepChecks)
    requires Listed(doc)
    ensures Expected(doc, checks).Pass? <==> WellFormed(doc, checks)
  {
    if Header(doc) {
      PkgsCheckIff(doc.pkgs.value);
      NodesCheckIff(doc.graph.value, doc.pkgs.value.m, checks);
    }
  }

  /** `validateDepGraphData`: passes exactly when the document is well formed, and
      otherwise fails with the message of the first check that does not hold. */
  method ValidateDepGraphData(doc: Document, checks: DepChecks) returns (r: Outcome)
    requires Listed(doc)
    ensures r == Expected(doc, checks)
    ensures r.Pass? <==> WellFormed(doc, checks)
  {
    ExpectedPassIff(doc, checks);
    var header := HeaderCheck(doc);
    if header.Fail? {
      return header;
    }
    r := CheckContents(doc.pkgs.value, doc.graph.value, checks);
  }

  /** The package loop, the node loop, the count of packages seen and the walk from
      the root. */
  method CheckContents(pkgs: OMap<PkgId, Option<Pkg>>, graph: OMap<NodeId, DataNode>, checks: DepChecks)
    returns (r: Outcome)
    requires pkgs.Valid() && graph.Valid() && "root" in graph.m
    ensures r == ContentsExpected(pkgs, graph, checks)
  {
    var pkgsOutcome := PkgsCheck(pkgs.keys, pkgs.m);
    if pkgsOutcome.Fail? {
      return pkgsOutcome;
    }
    var nodesOutcome, pkgIdsSeen := CheckNodes(graph, pkgs.m, checks);
    if nodesOutcome.Fail? {
      return nodesOutcome;
    }
    NodesUsePkgs(graph, pkgs.m, checks);
    SeenSizeIff(pkgs, graph.m, pkgIdsSeen);
    if |pkgIdsSeen| != |pkgs.keys| {
      return Fail(NotAllPkgsUsed);
    }
    var reached := ReachableFromRoot(DepsAdj(graph.m));
    if reached.Err? {
      return Fail(reached.msg);
    }
    ReachSizeIff(graph, reached.value);
    if |reached.value| != |graph.keys| {
      return Fail(NotAllReachable);
    }
    return Pass;
  }

  lemma NodesUsePkgs(graph: OMap<NodeId, DataNode>, pkgs: map<PkgId, Option<Pkg>>, checks: DepChecks)
    requires graph.Valid() && NodesCheck(graph.keys, pkgs, graph.m, checks).Pass?
    ensures forall n :: n in graph.m ==> graph.m[n].pkgId in pkgs
  {
    forall n | n in graph.m ensures graph.m[n].pkgId in pkgs {
      var j :| 0 <= j < |graph.keys| && graph.keys[j] == n;
      assert NodeOk(graph.keys[j], graph.m[graph.keys[j]], pkgs, graph.m, checks);
    }
  }

  // ---------------------------------------------------------------------------
  // The per-dependency checks

  /** A root package "app", a package "a@1", and the nodes root → a → root. */
  function BackToRootDoc(): Document {
    Document(Some("2.0.0"), Some(PkgManager("npm", None, [])),
      Some(OMap(["root", "a@1"], BackPkgs())), Some(OMap(["root", "a"], BackGraph())))
  }

  function BackPkgs(): map<PkgId, Option<Pkg>> {
    map["root" := Some(Pkg("app", None)), "a@1" := Some(Pkg("a", Some("1")))]
  }

  function BackGraph(): map<NodeId, DataNode> {
    map["root" := DataNode("root", [Dep("a")]), "a" := DataNode("a@1", [Dep("root")])]
  }

  lemma BackGraphWalk()
    ensures NoneMissing(BackGraph()) && AllReachable(BackGraph())
  {
    var graph := BackGraph();
    var adj := DepsAdj(graph);
    assert adj["root"] == ["a"] && adj["a"] == ["root"];
    assert Closed(adj, adj.Keys);
    forall x | Reaches(adj, "root", x) ensures x in graph {
      ClosedHoldsReach(adj, adj.Keys, "root", x);
    }
    ReachesRefl(adj, "root");
    ReachesEdge(adj, "root", "a");
  }

  lemma BackDocChecks()
    ensures Listed(BackToRootDoc()) && Header(BackToRootDoc())
    ensures PkgsOk(BackPkgs()) && AllPkgsUsed(BackPkgs(), BackGraph())
    ensures NodesOk(BackPkgs(), BackGraph(), AsWritten)
  {
    var pkgs, graph := BackPkgs(), BackGraph();
    assert GetPkgId(Pkg("a", Some("1"))) == "a@1";
    assert graph["root"].pkgId == "root" && graph["a"].pkgId == "a@1";
    assert ObjectKey !in graph;
  }

  lemma BackDocByNodeId()
    ensures NodesCheck(["root", "a"], BackPkgs(), BackGraph(), ByNodeId) == Fail(DepOnRoot)
  {
    var pkgs, graph := BackPkgs(), BackGraph();
    assert NodeCheck("root", graph["root"], pkgs, graph, ByNodeId) == Pass;
    assert NodeCheck("a", graph["a"], pkgs, graph, ByNodeId) == Fail(DepOnRoot);
    assert ["root", "a"][1..] == ["a"];
  }

  /** As written, the per-dependency checks never look at a dependency's id: a
      document whose node "a" depends back on "root" passes every check, while the
      checks by node id reject it. */
  lemma BackToRootAccepted()
    ensures Listed(BackToRootDoc())
    ensures Expected(BackToRootDoc(), AsWritten) == Pass
    ensures Expected(BackToRootDoc(), ByNodeId) == Fail(DepOnRoot)
  {
    BackDocChecks();
    BackDocByNodeId();
    BackGraphWalk();
    ExpectedPassIff(BackToRootDoc(), AsWritten);
    PkgsCheckIff(BackToRootDoc().pkgs.value);
  }

  /** With the checks by node id, a document that passes names only existing nodes
      other than the root as dependencies: the root has no incoming edge and the
      walk from the root cannot meet a missing node. */
  lemma ByNodeIdDepsKnown(doc: Document)
    requires Listed(doc) && Expected(doc, ByNodeId).Pass?
    ensures doc.graph.Some?
    ensures forall n, j :: n in doc.graph.value.m && 0 <= j < |doc.graph.value.m[n].deps| ==>
      var d := doc.graph.value.m[n].deps[j].nodeId; d != "root" && d in doc.graph.value.m
    ensures AdjClosed(DepsAdj(doc.graph.value.m))
  {
    ExpectedPassIff(doc, ByNodeId);
    var graph := doc.graph.value.m;
    var pkgs := doc.pkgs.value.m;
    forall n, j | n in graph && 0 <= j < |graph[n].deps|
      ensures graph[n].deps[j].nodeId != "root" && graph[n].deps[j].nodeId in graph
    {
      assert NodeOk(n, graph[n], pkgs, graph, ByNodeId);
      assert DepOk(graph[n].deps[j], graph, ByNodeId);
    }
    var adj := DepsAdj(graph);
    forall v, w | v in adj && w in adj[v] ensures w in adj {
      var j :| 0 <= j < |adj[v]| && adj[v][j] == w;
      assert graph[v].deps[j].nodeId == w;
    }
  }
}

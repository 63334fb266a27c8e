/** The Go port's `DepGraph`: the decoded document plus the lookup tables that
    `BuildGraph` fills in. A Go pointer into `Pkgs` or `Graph.Nodes` is modelled
    as a position in that slice; the unexported `pkg.nodes` and `node.deps`
    pointer lists become `pkgNodes` and `nodeDeps`, parallel to `pkgs` and
    `nodes`. */
module GoDepGraph {
  import opened Wrappers
  import Types
  import GoPaths

  datatype Repository = Repository(alias: string)

  /** An empty `version` is the omitted one. */
  datatype PkgManager = PkgManager(name: string, version: string, repositories: seq<Repository>)

  datatype PkgInfo = PkgInfo(name: string, version: string, packageUrl: string)

  /** A package, without its unexported list of nodes. */
  datatype Pkg = Pkg(id: string, info: PkgInfo)

  /** A node as decoded: `deps` holds the node ids of its `Dependency` entries. */
  datatype Node = Node(nodeId: string, pkgId: string, info: Option<Types.NodeInfo>, deps: seq<string>)

  /** The panic raised by a lookup before the tables exist. */
  const BuildGraphRequired := "prior call to DepGraph.BuildGraph required"

  /** The panic raised when the search starts from a missing root node. */
  const NilDereference := "runtime error: invalid memory address or nil pointer dereference"

  /** Go's `%q` for text without characters that need escaping. */
  function Quote(s: string): string {
    "\"" + s + "\""
  }

  function PkgIds(pkgs: seq<Pkg>): (r: seq<string>)
    ensures |r| == |pkgs| && forall i :: 0 <= i < |pkgs| ==> r[i] == pkgs[i].id
  {
    seq(|pkgs|, i requires 0 <= i < |pkgs| => pkgs[i].id)
  }

  function NodeIds(nodes: seq<Node>): (r: seq<string>)
    ensures |r| == |nodes| && forall i :: 0 <= i < |nodes| ==> r[i] == nodes[i].nodeId
  {
    seq(|nodes|, i requires 0 <= i < |nodes| => nodes[i].nodeId)
  }

  /** The table left by assigning `idx[ids[i]] = i` for each `i` in order:
      every id listed maps to the last position that holds it. */
  function IdIndex(ids: seq<string>): (r: map<string, nat>)
    ensures forall id :: id in r ==> r[id] < |ids|
  {
    if ids == [] then map[]
    else IdIndex(ids[..|ids| - 1])[ids[|ids| - 1] := |ids| - 1]
  }

  /** The table holds exactly the ids listed, each at the last position that
      holds it. */
  lemma {:induction false} IdIndexSpec(ids: seq<string>)
    ensures forall id :: id in IdIndex(ids) <==> id in ids
    ensures forall id :: id in IdIndex(ids) ==> ids[IdIndex(ids)[id]] == id
    ensures forall id, j :: id in IdIndex(ids) && IdIndex(ids)[id] < j < |ids| ==> ids[j] != id
  {
    if ids != [] {
      var n := |ids| - 1;
      IdIndexSpec(ids[..n]);
      forall id | id in ids ensures id in IdIndex(ids) {
        var k :| 0 <= k < |ids| && ids[k] == id;
        if k < n {
          assert ids[..n][k] == id;
        }
      }
    }
  }

  /** Every entry of `idx` is the position of an element with that id. */
  ghost predicate IndexesInto(idx: map<string, nat>, ids: seq<string>) {
    forall id :: id in idx ==> idx[id] < |ids| && ids[idx[id]] == id
  }

  /** Every position listed in `ss` is below `n`. */
  ghost predicate Within(ss: seq<seq<nat>>, n: nat) {
    forall i, j :: 0 <= i < |ss| && 0 <= j < |ss[i]| ==> ss[i][j] < n
  }

  /** The node `i` is the one `nodeIdx` keeps for its id: no later node has it. */
  ghost predicate Kept(nodes: seq<Node>, i: nat) {
    i < |nodes| && forall j :: i < j < |nodes| ==> nodes[j].nodeId != nodes[i].nodeId
  }

  /** The positions of the nodes whose package `idx` places at `p`, in order:
      what `indexNodes` appends to `pkg.nodes`. */
  function Owners(idx: map<string, nat>, nodes: seq<Node>, p: nat): (r: seq<nat>)
    ensures forall k :: 0 <= k < |r| ==> r[k] < |nodes| && nodes[r[k]].pkgId in idx && idx[nodes[r[k]].pkgId] == p
    ensures forall i :: 0 <= i < |nodes| && nodes[i].pkgId in idx && idx[nodes[i].pkgId] == p ==> i in r
    ensures forall k, l :: 0 <= k < l < |r| ==> r[k] < r[l]
  {
    if nodes == [] then []
    else
      var n := |nodes| - 1;
      var rest := Owners(idx, nodes[..n], p);
      if nodes[n].pkgId in idx && idx[nodes[n].pkgId] == p then rest + [n] else rest
  }

  /** The positions `idx` gives to the node ids `ds`: what `indexNodes` appends
      to `node.deps`. Each names the node it points to. */
  function Resolve(idx: map<string, nat>, nodes: seq<Node>, ds: seq<string>): (r: seq<nat>)
    requires IndexesInto(idx, NodeIds(nodes)) && forall d :: d in ds ==> d in idx
    ensures |r| == |ds| && forall k :: 0 <= k < |ds| ==> r[k] < |nodes| && nodes[r[k]].nodeId == ds[k]
  {
    if ds == [] then []
    else Resolve(idx, nodes, ds[..|ds| - 1]) + [idx[ds[|ds| - 1]]]
  }

  /** The first package with id `id`: the one `GetRootPkg`'s inner loop stops at. */
  function FirstPkg(pkgs: seq<Pkg>, id: string): (r: Option<Pkg>)
    ensures r.Some? <==> id in PkgIds(pkgs)
    ensures r.Some? ==> r.value in pkgs && r.value.id == id
  {
    if pkgs == [] then None
    else if pkgs[0].id == id then Some(pkgs[0])
    else
      assert PkgIds(pkgs) == [pkgs[0].id] + PkgIds(pkgs[1..]);
      FirstPkg(pkgs[1..], id)
  }

  /** No package before the one found has its id. */
  lemma {:induction false} FirstPkgIsFirst(pkgs: seq<Pkg>, id: string)
    ensures FirstPkg(pkgs, id).Some? ==>
              exists i :: 0 <= i < |pkgs| && pkgs[i] == FirstPkg(pkgs, id).value && forall j :: 0 <= j < i ==> pkgs[j].id != id
  {
    if pkgs != [] && pkgs[0].id != id {
      FirstPkgIsFirst(pkgs[1..], id);
      if FirstPkg(pkgs, id).Some? {
        var i :| 0 <= i < |pkgs[1..]| && pkgs[1..][i] == FirstPkg(pkgs, id).value &&
                 forall j :: 0 <= j < i ==> pkgs[1..][j].id != id;
        assert pkgs[i + 1] == pkgs[1..][i];
        forall j | 0 <= j < i + 1 ensures pkgs[j].id != id {
          if j > 0 {
            assert pkgs[j] == pkgs[1..][j - 1];
          }
        }
      }
    } else if pkgs != [] {
      assert pkgs[0] == FirstPkg(pkgs, id).value;
    }
  }

  /** What `GetRootPkg`'s loops settle on: the first package of the last node
      with the root id whose package is listed. */
  function RootPkgOf(nodes: seq<Node>, pkgs: seq<Pkg>, rootId: string): (r: Option<Pkg>)
  {
    if nodes == [] then None
    else
      var n := |nodes| - 1;
      var here := if nodes[n].nodeId == rootId then FirstPkg(pkgs, nodes[n].pkgId) else None;
      if here.Some? then here else RootPkgOf(nodes[..n], pkgs, rootId)
  }

  /** Node `i` has the root id and names a listed package. */
  ghost predicate RootCandidate(nodes: seq<Node>, pkgs: seq<Pkg>, rootId: string, i: int) {
    0 <= i < |nodes| && nodes[i].nodeId == rootId && nodes[i].pkgId in PkgIds(pkgs)
  }

  /** A root package is found exactly when some node with the root id names a
      listed package. */
  lemma {:induction false} RootPkgFound(nodes: seq<Node>, pkgs: seq<Pkg>, rootId: string)
    ensures RootPkgOf(nodes, pkgs, rootId).Some? <==> exists i :: RootCandidate(nodes, pkgs, rootId, i)
  {
    if nodes != [] {
      var n := |nodes| - 1;
      RootPkgFound(nodes[..n], pkgs, rootId);
      if RootCandidate(nodes, pkgs, rootId, n) {
      } else if RootPkgOf(nodes, pkgs, rootId).Some? {
        var i :| RootCandidate(nodes[..n], pkgs, rootId, i);
        assert RootCandidate(nodes, pkgs, rootId, i);
      } else {
        forall i | 0 <= i < |nodes| ensures !RootCandidate(nodes, pkgs, rootId, i) {
          if i < n {
            assert !RootCandidate(nodes[..n], pkgs, rootId, i);
          }
        }
      }
    }
  }

  /** Node `i` is a candidate and no later node is one. */
  ghost predicate LastCandidate(nodes: seq<Node>, pkgs: seq<Pkg>, rootId: string, i: int) {
    RootCandidate(nodes, pkgs, rootId, i) && forall j :: i < j < |nodes| ==> !RootCandidate(nodes, pkgs, rootId, j)
  }

  /** The root package found is the first package of the last candidate node. */
  lemma {:induction false} RootPkgLast(nodes: seq<Node>, pkgs: seq<Pkg>, rootId: string)
    ensures RootPkgOf(nodes, pkgs, rootId).Some? ==>
              exists i :: LastCandidate(nodes, pkgs, rootId, i) &&
                RootPkgOf(nodes, pkgs, rootId) == FirstPkg(pkgs, nodes[i].pkgId)
  {
    if nodes != [] {
      var n := |nodes| - 1;
      var prefix := nodes[..n];
      RootPkgLast(prefix, pkgs, rootId);
      if RootCandidate(nodes, pkgs, rootId, n) {
        assert LastCandidate(nodes, pkgs, rootId, n);
      } else if RootPkgOf(nodes, pkgs, rootId).Some? {
        assert RootPkgOf(nodes, pkgs, rootId) == RootPkgOf(prefix, pkgs, rootId);
        var i :| LastCandidate(prefix, pkgs, rootId, i) &&
                 RootPkgOf(prefix, pkgs, rootId) == FirstPkg(pkgs, prefix[i].pkgId);
        LastCandidateExtends(nodes, pkgs, rootId, i);
      }
    }
  }

  lemma LastCandidateExtends(nodes: seq<Node>, pkgs: seq<Pkg>, rootId: string, i: int)
    requires |nodes| > 0 && !RootCandidate(nodes, pkgs, rootId, |nodes| - 1)
    requires LastCandidate(nodes[..|nodes| - 1], pkgs, rootId, i)
    ensures LastCandidate(nodes, pkgs, rootId, i)
  {
    var prefix := nodes[..|nodes| - 1];
    forall j | i < j < |nodes| ensures !RootCandidate(nodes, pkgs, rootId, j) {
      if j < |nodes| - 1 {
        assert !RootCandidate(prefix, pkgs, rootId, j);
        assert prefix[j] == nodes[j];
      }
    }
    assert prefix[i] == nodes[i];
  }

  /** Every node names a package the table knows. */
  ghost predicate PkgsKnown(idx: map<string, nat>, nodes: seq<Node>) {
    forall i :: 0 <= i < |nodes| ==> nodes[i].pkgId in idx
  }

  /** Every dependency of node `i` names a node. */
  ghost predicate DepsResolved(nodes: seq<Node>, i: nat)
    requires i < |nodes|
  {
    forall d :: d in nodes[i].deps ==> d in NodeIds(nodes)
  }

  /** Every node the node table keeps has its dependencies resolved (a node
      shadowed by a later one with the same id is never linked). */
  ghost predicate DepsKnown(nodes: seq<Node>) {
    forall i :: 0 <= i < |nodes| && Kept(nodes, i) ==> DepsResolved(nodes, i)
  }

  /** Node `i` is the first whose package is unknown. */
  ghost predicate FirstUnknownPkg(idx: map<string, nat>, nodes: seq<Node>, i: int) {
    0 <= i < |nodes| && nodes[i].pkgId !in idx && forall j :: 0 <= j < i ==> nodes[j].pkgId in idx
  }

  /** The `k`-th dependency of the kept node `i` is the first unknown one, in
      node order. */
  ghost predicate FirstDangling(nodes: seq<Node>, i: int, k: int) {
    0 <= i < |nodes| && Kept(nodes, i) && 0 <= k < |nodes[i].deps| && nodes[i].deps[k] !in NodeIds(nodes) &&
    (forall l :: 0 <= l < k ==> nodes[i].deps[l] in NodeIds(nodes)) &&
    (forall j :: 0 <= j < i && Kept(nodes, j) ==> DepsResolved(nodes, j))
  }

  function UnknownPkgMsg(n: Node): string {
    "node " + Quote(n.nodeId) + " references unknown package " + Quote(n.pkgId)
  }

  function UnknownDepMsg(n: Node, d: string): string {
    "node " + Quote(n.nodeId) + " depends on unknown node " + Quote(d)
  }

  const BuildFailed := "failed to build graph: "

  /** `msg` is what `indexNodes` reports for these nodes: the first node with an
      unknown package, or else the first unknown dependency. */
  ghost predicate BuildFailure(idx: map<string, nat>, nodes: seq<Node>, msg: string) {
    (exists i :: FirstUnknownPkg(idx, nodes, i) && msg == UnknownPkgMsg(nodes[i])) ||
    (PkgsKnown(idx, nodes) &&
     exists i, k :: FirstDangling(nodes, i, k) && msg == UnknownDepMsg(nodes[i], nodes[i].deps[k]))
  }

  /** No node lists: what decoding leaves in the unexported fields. */
  function NoLists(n: nat): (r: seq<seq<nat>>)
    ensures |r| == n && forall i :: 0 <= i < n ==> r[i] == []
  {
    seq(n, _ => [])
  }

  /** The node lists of the packages, as one path of `PkgId`s each. */
  function PkgIdPath(nodes: seq<Node>, p: seq<nat>): (r: seq<string>)
    requires forall k :: 0 <= k < |p| ==> p[k] < |nodes|
    ensures |r| == |p| && forall k :: 0 <= k < |p| ==> r[k] == nodes[p[k]].pkgId
  {
    seq(|p|, k requires 0 <= k < |p| => nodes[p[k]].pkgId)
  }

  function PkgIdPaths(nodes: seq<Node>, ps: seq<seq<nat>>): (r: seq<seq<string>>)
    requires forall m, k :: 0 <= m < |ps| && 0 <= k < |ps[m]| ==> ps[m][k] < |nodes|
    ensures |r| == |ps| && forall m :: 0 <= m < |ps| ==> r[m] == PkgIdPath(nodes, ps[m])
  {
    seq(|ps|, m requires 0 <= m < |ps| => PkgIdPath(nodes, ps[m]))
  }

  /** `pkg.nodes` for every package after the nodes are appended. */
  function AddOwners(pn: seq<seq<nat>>, idx: map<string, nat>, nodes: seq<Node>): (r: seq<seq<nat>>)
    ensures |r| == |pn| && forall p :: 0 <= p < |pn| ==> r[p] == pn[p] + Owners(idx, nodes, p)
  {
    seq(|pn|, p requires 0 <= p < |pn| => pn[p] + Owners(idx, nodes, p))
  }

  /** Appending one more node extends the owners of its package only. */
  lemma OwnersStep(idx: map<string, nat>, nodes: seq<Node>, i: nat, p: nat)
    requires i < |nodes|
    ensures Owners(idx, nodes[..i + 1], p) ==
            Owners(idx, nodes[..i], p) + if nodes[i].pkgId in idx && idx[nodes[i].pkgId] == p then [i] else []
  {
    assert nodes[..i + 1][..i] == nodes[..i];
  }

  lemma AddOwnersStep(pn: seq<seq<nat>>, idx: map<string, nat>, nodes: seq<Node>, i: nat)
    requires i < |nodes| && nodes[i].pkgId in idx && idx[nodes[i].pkgId] < |pn|
    ensures var p := idx[nodes[i].pkgId];
            var before := AddOwners(pn, idx, nodes[..i]);
            AddOwners(pn, idx, nodes[..i + 1]) == before[p := before[p] + [i]]
  {
    var p := idx[nodes[i].pkgId];
    var before := AddOwners(pn, idx, nodes[..i]);
    var after := AddOwners(pn, idx, nodes[..i + 1]);
    var updated := before[p := before[p] + [i]];
    forall q | 0 <= q < |pn| ensures after[q] == updated[q] {
      OwnersStep(idx, nodes, i, q);
    }
  }

  lemma AddOwnersNone(pn: seq<seq<nat>>, idx: map<string, nat>)
    ensures AddOwners(pn, idx, []) == pn
  {
    forall p | 0 <= p < |pn| ensures AddOwners(pn, idx, [])[p] == pn[p] {
      assert pn[p] + [] == pn[p];
    }
  }

  lemma AddOwnersWithin(pn: seq<seq<nat>>, idx: map<string, nat>, nodes: seq<Node>, n: nat)
    requires Within(pn, n) && |nodes| <= n
    ensures Within(AddOwners(pn, idx, nodes), n)
  {
    var r := AddOwners(pn, idx, nodes);
    forall i, j | 0 <= i < |r| && 0 <= j < |r[i]| ensures r[i][j] < n {
      var o := Owners(idx, nodes, i);
      assert r[i] == pn[i] + o;
      if j >= |pn[i]| {
        assert r[i][j] == o[j - |pn[i]|];
      }
    }
  }

  lemma IdIndexStep(ids: seq<string>, i: nat)
    requires i < |ids|
    ensures IdIndex(ids[..i + 1]) == IdIndex(ids[..i])[ids[i] := i]
  {
    assert ids[..i + 1][..i] == ids[..i];
  }

  /** The table built from a prefix of the ids points into the whole list. */
  lemma TableInto(ids: seq<string>, i: nat)
    requires i <= |ids|
    ensures IndexesInto(IdIndex(ids[..i]), ids)
  {
    var r := IdIndex(ids[..i]);
    IdIndexSpec(ids[..i]);
    forall id | id in r ensures r[id] < |ids| && ids[r[id]] == id {
      assert ids[..i][r[id]] == id;
    }
  }

  /** The node table keeps node `i` exactly when no later node has its id. */
  lemma KeptIff(nodes: seq<Node>, i: nat)
    requires i < |nodes|
    ensures nodes[i].nodeId in IdIndex(NodeIds(nodes))
    ensures Kept(nodes, i) <==> IdIndex(NodeIds(nodes))[nodes[i].nodeId] == i
  {
    var ids := NodeIds(nodes);
    IdIndexSpec(ids);
    assert ids[i] == nodes[i].nodeId;
  }

  /** With a table that points into the packages, `pkg.nodes` of the package
      stored for `id` lists exactly the nodes of that package. */
  lemma {:induction false} OwnersOfPkg(idx: map<string, nat>, pkgs: seq<Pkg>, nodes: seq<Node>, id: string)
    requires IndexesInto(idx, PkgIds(pkgs)) && id in idx
    ensures forall i :: 0 <= i < |nodes| ==> (i in Owners(idx, nodes, idx[id]) <==> nodes[i].pkgId == id)
  {
    forall i | 0 <= i < |nodes| && i in Owners(idx, nodes, idx[id]) ensures nodes[i].pkgId == id {
      var r := Owners(idx, nodes, idx[id]);
      var k :| 0 <= k < |r| && r[k] == i;
      assert PkgIds(pkgs)[idx[nodes[i].pkgId]] == nodes[i].pkgId;
    }
  }

  class DepGraph {
    const schemaVersion: string
    const pkgManager: PkgManager
    const pkgs: seq<Pkg>
    const rootNodeId: string
    const nodes: seq<Node>

    var rootPkg: Option<Pkg>
    var rootNode: Option<nat>
    var pkgIdx: Option<map<string, nat>>
    var nodeIdx: Option<map<string, nat>>
    var pkgNodes: seq<seq<nat>>
    var nodeDeps: seq<seq<nat>>

    /** The tables point into the document: every position is in range and
        every index entry names an element with its key as id. */
    ghost predicate Valid()
      reads this
    {
      |pkgNodes| == |pkgs| && |nodeDeps| == |nodes| &&
      (pkgIdx.Some? ==> IndexesInto(pkgIdx.value, PkgIds(pkgs))) &&
      (nodeIdx.Some? ==> IndexesInto(nodeIdx.value, NodeIds(nodes))) &&
      (rootNode.Some? ==> rootNode.value < |nodes|) &&
      Within(pkgNodes, |nodes|) && Within(nodeDeps, |nodes|)
    }

    /** A graph with the given exported fields and, optionally, a root package and
        a package table already set (`Builder.Build` sets both; decoding JSON sets
        neither). */
    constructor (schemaVersion: string, pkgManager: PkgManager, pkgs: seq<Pkg>, rootNodeId: string,
                 nodes: seq<Node>, rootPkg: Option<Pkg>, pkgIdx: Option<map<string, nat>>)
      requires pkgIdx.Some? ==> IndexesInto(pkgIdx.value, PkgIds(pkgs))
      ensures Valid()
      ensures this.schemaVersion == schemaVersion && this.pkgManager == pkgManager && this.pkgs == pkgs
      ensures this.rootNodeId == rootNodeId && this.nodes == nodes
      ensures this.rootPkg == rootPkg && this.pkgIdx == pkgIdx && nodeIdx.None? && rootNode.None?
      ensures pkgNodes == NoLists(|pkgs|) && nodeDeps == NoLists(|nodes|)
    {
      this.schemaVersion := schemaVersion;
      this.pkgManager := pkgManager;
      this.pkgs := pkgs;
      this.rootNodeId := rootNodeId;
      this.nodes := nodes;
      this.rootPkg := rootPkg;
      this.pkgIdx := pkgIdx;
      nodeIdx := None;
      rootNode := None;
      pkgNodes := NoLists(|pkgs|);
      nodeDeps := NoLists(|nodes|);
    }

    /** `GetRootPkg`: the cached root package, or the one the loops find, which
        is then cached. */
    method GetRootPkg() returns (r: Option<Pkg>)
      modifies this`rootPkg
      ensures r == if old(rootPkg).Some? then old(rootPkg) else RootPkgOf(nodes, pkgs, rootNodeId)
      ensures rootPkg == r
    {
      if rootPkg.Some? {
        return rootPkg;
      }
      var i := 0;
      while i < |nodes|
        invariant 0 <= i <= |nodes|
        invariant rootPkg == RootPkgOf(nodes[..i], pkgs, rootNodeId)
      {
        assert nodes[..i + 1][..i] == nodes[..i];
        var dep := nodes[i];
        if dep.nodeId == rootNodeId {
          var j := 0;
          while j < |pkgs|
            invariant 0 <= j <= |pkgs|
            invariant FirstPkg(pkgs[j..], dep.pkgId) == FirstPkg(pkgs, dep.pkgId)
            invariant rootPkg == RootPkgOf(nodes[..i], pkgs, rootNodeId)
          {
            if pkgs[j].id == dep.pkgId {
              rootPkg := Some(pkgs[j]);
              break;
            }
            assert pkgs[j..][1..] == pkgs[j + 1..];
            j := j + 1;
          }
        }
        i := i + 1;
      }
      assert nodes[..|nodes|] == nodes;
      r := rootPkg;
    }

    /** `GetPkg`: a panic before the package table exists, otherwise the package
        the table holds for `id`, if any. */
    function GetPkg(id: string): (r: Result<Option<Pkg>>)
      requires Valid()
      reads this
      ensures r.Err? <==> pkgIdx.None?
      ensures r.Err? ==> r.msg == BuildGraphRequired
      ensures r.Ok? ==> (r.value.Some? <==> id in pkgIdx.value)
      ensures r.Ok? && r.value.Some? ==> r.value.value == pkgs[pkgIdx.value[id]] && r.value.value.id == id
    {
      if pkgIdx.None? then Err(BuildGraphRequired)
      else if id in pkgIdx.value then Ok(Some(pkgs[pkgIdx.value[id]]))
      else Ok(None)
    }

    /** `indexPkgs`: a table already present is kept; otherwise every package id
        maps to the last package listed with it. */
    method IndexPkgs()
      requires Valid()
      modifies this`pkgIdx
      ensures Valid()
      ensures pkgIdx == if old(pkgIdx).Some? then old(pkgIdx) else Some(IdIndex(PkgIds(pkgs)))
    {
      if pkgIdx.Some? {
        return;
      }
      var ids := PkgIds(pkgs);
      var idx: map<string, nat> := map[];
      var i := 0;
      while i < |pkgs|
        invariant 0 <= i <= |pkgs|
        invariant idx == IdIndex(ids[..i])
      {
        assert ids[..i + 1][..i] == ids[..i];
        idx := idx[pkgs[i].id := i];
        i := i + 1;
      }
      assert ids[..|pkgs|] == ids;
      TableInto(ids, |pkgs|);
      pkgIdx := Some(idx);
    }

    /** `indexNodes`: its first loop enters every node in the node table, sets the
        root node and appends each node to its package; its second loop appends
        to every node the nodes its dependencies name. Either loop stops at the
        first node it cannot resolve, leaving the tables as far as they got. */
    method IndexNodes() returns (err: Option<string>)
      requires Valid() && pkgIdx.Some?
      modifies this`nodeIdx, this`rootNode, this`pkgNodes, this`nodeDeps
      ensures Valid() && nodeIdx.Some?
      ensures err.None? <==> PkgsKnown(pkgIdx.value, nodes) && DepsKnown(nodes)
      ensures err.Some? ==> BuildFailure(pkgIdx.value, nodes, err.value)
      ensures err.None? ==> nodeIdx == Some(IdIndex(NodeIds(nodes)))
      ensures err.None? ==>
                rootNode == if rootNodeId in nodeIdx.value then Some(nodeIdx.value[rootNodeId]) else old(rootNode)
      ensures err.None? ==> pkgNodes == AddOwners(old(pkgNodes), pkgIdx.value, nodes)
      ensures err.None? ==> nodeDeps == LinkDeps(old(nodeDeps), nodeIdx.value, nodes, |nodes|)
    {
      var nidx, root, pn, e := IndexNodesLoop(nodes, rootNodeId, pkgIdx.value, rootNode, pkgNodes);
      nodeIdx, rootNode, pkgNodes := Some(nidx), root, pn;
      if e.Some? {
        return e;
      }
      var nd;
      nd, err := LinkDepsLoop(nodes, nidx, nodeDeps);
      nodeDeps := nd;
    }

    /** `BuildGraph`: index the packages, then the nodes; an error from the nodes
        is reported with the prefix `failed to build graph: `. */
    method BuildGraph() returns (err: Option<string>)
      requires Valid()
      modifies this`pkgIdx, this`nodeIdx, this`rootNode, this`pkgNodes, this`nodeDeps
      ensures Valid() && pkgIdx.Some? && nodeIdx.Some?
      ensures pkgIdx == if old(pkgIdx).Some? then old(pkgIdx) else Some(IdIndex(PkgIds(pkgs)))
      ensures err.None? <==> PkgsKnown(pkgIdx.value, nodes) && DepsKnown(nodes)
      ensures err.Some? ==> exists m :: BuildFailure(pkgIdx.value, nodes, m) && err.value == BuildFailed + m
      ensures err.None? ==> nodeIdx == Some(IdIndex(NodeIds(nodes)))
      ensures err.None? ==>
                rootNode == if rootNodeId in nodeIdx.value then Some(nodeIdx.value[rootNodeId]) else old(rootNode)
      ensures err.None? ==> pkgNodes == AddOwners(old(pkgNodes), pkgIdx.value, nodes)
      ensures err.None? ==> nodeDeps == LinkDeps(old(nodeDeps), nodeIdx.value, nodes, |nodes|)
    {
      IndexPkgs();
      var e := IndexNodes();
      if e.Some? {
        return Some(BuildFailed + e.value);
      }
      return None;
    }

    /** The tables as one successful `BuildGraph` leaves a freshly decoded graph. */
    ghost predicate Indexed()
      reads this
      requires Valid()
    {
      pkgIdx == Some(IdIndex(PkgIds(pkgs))) && nodeIdx == Some(IdIndex(NodeIds(nodes))) &&
      rootNode == (if rootNodeId in nodeIdx.value then Some(nodeIdx.value[rootNodeId]) else None) &&
      pkgNodes == AddOwners(NoLists(|pkgs|), pkgIdx.value, nodes) &&
      nodeDeps == LinkDeps(NoLists(|nodes|), nodeIdx.value, nodes, |nodes|)
    }

    /** `findPath` on an indexed graph: the search `GoPaths.Find` describes,
        with the visited set threaded through the calls. */
    method FindPath(start: nat, end: nat, visited: set<nat>) returns (path: Option<seq<nat>>, after: set<nat>)
      requires Valid() && start < |nodes| && visited <= GoPaths.AllNodes(nodeDeps)
      ensures (path, after) == GoPaths.Find(nodeDeps, start, end, visited)
      decreases GoPaths.AllNodes(nodeDeps) - visited
    {
      if start == end {
        return Some([start]), visited;
      }
      if start in visited {
        return None, visited;
      }
      after := visited + {start};
      var i := 0;
      while i < |nodeDeps[start]|
        invariant 0 <= i <= |nodeDeps[start]|
        invariant visited + {start} <= after <= GoPaths.AllNodes(nodeDeps)
        invariant GoPaths.FindIn(nodeDeps, start, end, i, after) == GoPaths.Find(nodeDeps, start, end, visited)
      {
        var p;
        p, after := FindPath(nodeDeps[start][i], end, after);
        if p.Some? {
          return Some([start] + p.value), after;
        }
        i := i + 1;
      }
      return None, after;
    }

    /** `GetPathsToPkg`: a panic before the tables exist, an error for an unknown
        package, a panic when the package has nodes but the graph no root node;
        otherwise, for each node of the package in turn, the `PkgId`s along the
        path a fresh search finds from the root node, if it finds one. */
    method GetPathsToPkg(id: string) returns (r: Result<seq<seq<string>>>)
      requires Valid()
      ensures pkgIdx.None? || nodeIdx.None? ==> r == Err(BuildGraphRequired)
      ensures pkgIdx.Some? && nodeIdx.Some? && id !in pkgIdx.value ==> r == Err("unknown package " + Quote(id))
      ensures pkgIdx.Some? && nodeIdx.Some? && id in pkgIdx.value && rootNode.None? ==>
                r == if pkgNodes[pkgIdx.value[id]] == [] then Ok([]) else Err(NilDereference)
      ensures pkgIdx.Some? && nodeIdx.Some? && id in pkgIdx.value && rootNode.Some? ==>
                r == Ok(PkgIdPaths(nodes, GoPaths.PathsTo(nodeDeps, rootNode.value, pkgNodes[pkgIdx.value[id]])))
    {
      if pkgIdx.None? || nodeIdx.None? {
        return Err(BuildGraphRequired);
      }
      if id !in pkgIdx.value {
        return Err("unknown package " + Quote(id));
      }
      var ns := pkgNodes[pkgIdx.value[id]];
      var paths: seq<seq<string>> := [];
      var k := 0;
      while k < |ns|
        invariant 0 <= k <= |ns|
        invariant rootNode.None? ==> k == 0 && paths == []
        invariant rootNode.Some? ==> paths == PkgIdPaths(nodes, GoPaths.PathsTo(nodeDeps, rootNode.value, ns[..k]))
      {
        if rootNode.None? {
          return Err(NilDereference);
        }
        var root := rootNode.value;
        assert ns[..k + 1][..k] == ns[..k];
        var path, _ := FindPath(root, ns[k], {});
        ghost var before := GoPaths.PathsTo(nodeDeps, root, ns[..k]);
        assert GoPaths.PathsTo(nodeDeps, root, ns[..k + 1]) == if path.Some? then before + [path.value] else before;
        if path.Some? {
          var p: seq<string> := [];
          var j := 0;
          while j < |path.value|
            invariant 0 <= j <= |path.value|
            invariant |p| == j && forall m :: 0 <= m < j ==> p[m] == nodes[path.value[m]].pkgId
          {
            p := p + [nodes[path.value[j]].pkgId];
            j := j + 1;
          }
          assert p == PkgIdPath(nodes, path.value);
          PkgIdPathsAppend(nodes, before, path.value);
          paths := paths + [p];
        }
        k := k + 1;
      }
      assert ns[..|ns|] == ns;
      return Ok(paths);
    }
  }

  /** After indexing a decoded graph, `pkg.nodes` of the package the table
      holds for `id` lists exactly the nodes of package `id`, in order. */
  lemma PkgNodesMeaning(pkgs: seq<Pkg>, nodes: seq<Node>, id: string)
    requires id in IdIndex(PkgIds(pkgs))
    ensures var idx := IdIndex(PkgIds(pkgs));
            var ns := AddOwners(NoLists(|pkgs|), idx, nodes)[idx[id]];
            (forall i :: 0 <= i < |nodes| ==> (i in ns <==> nodes[i].pkgId == id)) &&
            (forall k, l :: 0 <= k < l < |ns| ==> ns[k] < ns[l])
  {
    var idx := IdIndex(PkgIds(pkgs));
    TableInto(PkgIds(pkgs), |pkgs|);
    assert PkgIds(pkgs)[..|pkgs|] == PkgIds(pkgs);
    OwnersOfPkg(idx, pkgs, nodes, id);
    assert AddOwners(NoLists(|pkgs|), idx, nodes)[idx[id]] == [] + Owners(idx, nodes, idx[id]);
  }

  /** After indexing a decoded graph whose dependencies all resolve, `node.deps`
      of a kept node lists, in order, the nodes named by its dependencies; a
      node shadowed by a later one with its id has none. */
  lemma NodeDepsMeaning(nodes: seq<Node>, i: nat)
    requires DepsKnown(nodes) && i < |nodes|
    ensures IndexesInto(IdIndex(NodeIds(nodes)), NodeIds(nodes))
    ensures var nd := LinkDeps(NoLists(|nodes|), IdIndex(NodeIds(nodes)), nodes, |nodes|);
            if Kept(nodes, i) then
              |nd[i]| == |nodes[i].deps| && forall k :: 0 <= k < |nd[i]| ==> nd[i][k] < |nodes| && nodes[nd[i][k]].nodeId == nodes[i].deps[k]
            else nd[i] == []
  {
    var ids := NodeIds(nodes);
    TableInto(ids, |nodes|);
    assert ids[..|nodes|] == ids;
    IdIndexSpec(ids);
  }

  lemma PkgIdPathsAppend(nodes: seq<Node>, ps: seq<seq<nat>>, q: seq<nat>)
    requires forall m, k :: 0 <= m < |ps| && 0 <= k < |ps[m]| ==> ps[m][k] < |nodes|
    requires forall k :: 0 <= k < |q| ==> q[k] < |nodes|
    ensures PkgIdPaths(nodes, ps + [q]) == PkgIdPaths(nodes, ps) + [PkgIdPath(nodes, q)]
  {
    var l := PkgIdPaths(nodes, ps + [q]);
    var r := PkgIdPaths(nodes, ps) + [PkgIdPath(nodes, q)];
    forall m | 0 <= m < |l| ensures l[m] == r[m] {
      assert (ps + [q])[m] == if m < |ps| then ps[m] else q;
    }
  }

  /** `New`: an empty graph, with no tables. */
  method New() returns (dg: DepGraph)
    ensures fresh(dg) && dg.Valid() && dg.pkgs == [] && dg.nodes == [] && dg.rootNodeId == ""
    ensures dg.pkgIdx.None? && dg.nodeIdx.None? && dg.rootPkg.None? && dg.rootNode.None?
  {
    dg := new DepGraph("", PkgManager("", "", []), [], "", [], None, None);
  }

  /** `UnmarshalJSON` once the document is decoded: a graph with no tables,
      indexed by `BuildGraph`, whose error is reported with the prefix
      `invalid graph: `. */
  method UnmarshalJSON(schemaVersion: string, pkgManager: PkgManager, pkgs: seq<Pkg>, rootNodeId: string,
                       nodes: seq<Node>)
    returns (r: Result<DepGraph>)
    ensures r.Ok? <==> PkgsKnown(IdIndex(PkgIds(pkgs)), nodes) && DepsKnown(nodes)
    ensures r.Err? ==> exists m :: BuildFailure(IdIndex(PkgIds(pkgs)), nodes, m) && r.msg == "invalid graph: " + (BuildFailed + m)
    ensures r.Ok? ==> fresh(r.value) && r.value.Valid() && r.value.Indexed()
    ensures r.Ok? ==> r.value.pkgs == pkgs && r.value.nodes == nodes && r.value.rootNodeId == rootNodeId
    ensures r.Ok? ==> r.value.schemaVersion == schemaVersion && r.value.pkgManager == pkgManager && r.value.rootPkg.None?
  {
    var dg := new DepGraph(schemaVersion, pkgManager, pkgs, rootNodeId, nodes, None, None);
    var err := dg.BuildGraph();
    if err.Some? {
      ghost var m :| BuildFailure(dg.pkgIdx.value, nodes, m) && err.value == BuildFailed + m;
      return Err("invalid graph: " + err.value);
    }
    assert dg.Indexed();
    return Ok(dg);
  }

  /** The steps of `indexNodes`' first loop on values: the node table, root node
      and node lists it leaves, and its error. */
  method IndexNodesLoop(nodes: seq<Node>, rootId: string, pidx: map<string, nat>, root0: Option<nat>,
                        pn0: seq<seq<nat>>)
    returns (nidx: map<string, nat>, root: Option<nat>, pn: seq<seq<nat>>, err: Option<string>)
    requires forall id :: id in pidx ==> pidx[id] < |pn0|
    requires Within(pn0, |nodes|) && (root0.Some? ==> root0.value < |nodes|)
    ensures IndexesInto(nidx, NodeIds(nodes)) && Within(pn, |nodes|) && |pn| == |pn0|
    ensures root.Some? ==> root.value < |nodes|
    ensures err.None? <==> PkgsKnown(pidx, nodes)
    ensures err.Some? ==> exists i :: FirstUnknownPkg(pidx, nodes, i) && err.value == UnknownPkgMsg(nodes[i])
    ensures err.None? ==> nidx == IdIndex(NodeIds(nodes))
    ensures err.None? ==> root == if rootId in nidx then Some(nidx[rootId]) else root0
    ensures err.None? ==> pn == AddOwners(pn0, pidx, nodes)
  {
    var ids := NodeIds(nodes);
    nidx, root, pn := map[], root0, pn0;
    var i: nat := 0;
    assert nodes[..0] == [];
    AddOwnersNone(pn0, pidx);
    while i < |nodes|
      invariant 0 <= i <= |nodes|
      invariant nidx == IdIndex(ids[..i])
      invariant root == if rootId in nidx then Some(nidx[rootId]) else root0
      invariant forall j :: 0 <= j < i ==> nodes[j].pkgId in pidx
      invariant pn == AddOwners(pn0, pidx, nodes[..i])
    {
      var node := nodes[i];
      IdIndexStep(ids, i);
      assert ids[i] == node.nodeId;
      nidx := nidx[node.nodeId := i];
      if node.nodeId == rootId {
        root := Some(i);
      }
      if node.pkgId !in pidx {
        assert FirstUnknownPkg(pidx, nodes, i);
        TableInto(ids, i + 1);
        AddOwnersWithin(pn0, pidx, nodes[..i], |nodes|);
        return nidx, root, pn, Some(UnknownPkgMsg(node));
      }
      var p := pidx[node.pkgId];
      AddOwnersStep(pn0, pidx, nodes, i);
      pn := pn[p := pn[p] + [i]];
      i := i + 1;
    }
    assert ids[..|nodes|] == ids;
    assert nodes[..|nodes|] == nodes;
    TableInto(ids, |nodes|);
    AddOwnersWithin(pn0, pidx, nodes, |nodes|);
    return nidx, root, pn, None;
  }

  /** Every id in `ds` is in the table. */
  ghost predicate AllIn(ds: seq<string>, idx: map<string, nat>) {
    forall d :: d in ds ==> d in idx
  }

  /** `node.deps` for every node once the kept nodes before `n` are linked:
      each gets the nodes its dependencies name appended. */
  ghost function LinkDeps(nd: seq<seq<nat>>, idx: map<string, nat>, nodes: seq<Node>, n: nat): (r: seq<seq<nat>>)
    requires |nd| == |nodes| && IndexesInto(idx, NodeIds(nodes))
    ensures |r| == |nodes|
  {
    seq(|nodes|, i requires 0 <= i < |nodes| =>
      if i < n && Kept(nodes, i) && AllIn(nodes[i].deps, idx) then nd[i] + Resolve(idx, nodes, nodes[i].deps)
      else nd[i])
  }

  lemma LinkDepsNone(nd: seq<seq<nat>>, idx: map<string, nat>, nodes: seq<Node>)
    requires |nd| == |nodes| && IndexesInto(idx, NodeIds(nodes))
    ensures LinkDeps(nd, idx, nodes, 0) == nd
  {
  }

  lemma LinkDepsStep(nd: seq<seq<nat>>, idx: map<string, nat>, nodes: seq<Node>, i: nat)
    requires |nd| == |nodes| && IndexesInto(idx, NodeIds(nodes)) && i < |nodes|
    ensures LinkDeps(nd, idx, nodes, i + 1) ==
            LinkDeps(nd, idx, nodes, i)[i := if Kept(nodes, i) && AllIn(nodes[i].deps, idx)
                                            then nd[i] + Resolve(idx, nodes, nodes[i].deps) else nd[i]]
  {
  }

  lemma ResolveStep(idx: map<string, nat>, nodes: seq<Node>, ds: seq<string>, k: nat)
    requires IndexesInto(idx, NodeIds(nodes)) && k < |ds| && AllIn(ds[..k + 1], idx)
    ensures AllIn(ds[..k], idx)
    ensures Resolve(idx, nodes, ds[..k + 1]) == Resolve(idx, nodes, ds[..k]) + [idx[ds[k]]]
  {
    assert ds[..k + 1][..k] == ds[..k];
  }

  lemma WithinAppend(nd: seq<seq<nat>>, i: nat, r: seq<nat>, n: nat)
    requires Within(nd, n) && i < |nd| && forall k :: 0 <= k < |r| ==> r[k] < n
    ensures Within(nd[i := nd[i] + r], n)
  {
  }

  lemma InTableIff(nodes: seq<Node>)
    ensures forall d :: d in IdIndex(NodeIds(nodes)) <==> d in NodeIds(nodes)
  {
    IdIndexSpec(NodeIds(nodes));
  }

  lemma LinkKeptStep(nd0: seq<seq<nat>>, idx: map<string, nat>, nodes: seq<Node>, i: nat, nd: seq<seq<nat>>)
    requires idx == IdIndex(NodeIds(nodes)) && IndexesInto(idx, NodeIds(nodes))
    requires |nd0| == |nodes| && i < |nodes| && Kept(nodes, i) && AllIn(nodes[i].deps, idx)
    requires nd == LinkDeps(nd0, idx, nodes, i)
    ensures nd[i := nd[i] + Resolve(idx, nodes, nodes[i].deps)] == LinkDeps(nd0, idx, nodes, i + 1)
    ensures DepsResolved(nodes, i)
  {
    LinkDepsStep(nd0, idx, nodes, i);
    InTableIff(nodes);
  }

  lemma LinkShadowedStep(nd0: seq<seq<nat>>, idx: map<string, nat>, nodes: seq<Node>, i: nat, nd: seq<seq<nat>>)
    requires IndexesInto(idx, NodeIds(nodes))
    requires |nd0| == |nodes| && i < |nodes| && !Kept(nodes, i)
    requires nd == LinkDeps(nd0, idx, nodes, i)
    ensures nd == LinkDeps(nd0, idx, nodes, i + 1)
  {
    LinkDepsStep(nd0, idx, nodes, i);
  }

  /** The inner loop of `indexNodes`' second loop: the nodes the ids `ds` name,
      up to the first id the table lacks, whose position is then reported. */
  method ResolveDeps(idx: map<string, nat>, nodes: seq<Node>, ds: seq<string>)
    returns (r: seq<nat>, missing: Option<nat>)
    requires IndexesInto(idx, NodeIds(nodes))
    ensures missing.None? ==> AllIn(ds, idx) && r == Resolve(idx, nodes, ds)
    ensures missing.Some? ==> missing.value < |ds| && ds[missing.value] !in idx && AllIn(ds[..missing.value], idx) &&
                              r == Resolve(idx, nodes, ds[..missing.value])
  {
    r := [];
    var k: nat := 0;
    assert ds[..0] == [];
    while k < |ds|
      invariant k <= |ds| && AllIn(ds[..k], idx) && r == Resolve(idx, nodes, ds[..k])
    {
      if ds[k] !in idx {
        return r, Some(k);
      }
      ResolveStep(idx, nodes, ds, k);
      r := r + [idx[ds[k]]];
      k := k + 1;
    }
    assert ds[..|ds|] == ds;
    return r, None;
  }

  /** The steps of `indexNodes`' second loop on values: every kept node in turn
      gets the node of each of its dependencies appended, until a dependency
      names no node. */
  method LinkDepsLoop(nodes: seq<Node>, idx: map<string, nat>, nd0: seq<seq<nat>>)
    returns (nd: seq<seq<nat>>, err: Option<string>)
    requires idx == IdIndex(NodeIds(nodes)) && IndexesInto(idx, NodeIds(nodes))
    requires |nd0| == |nodes| && Within(nd0, |nodes|)
    ensures |nd| == |nodes| && Within(nd, |nodes|)
    ensures err.None? <==> DepsKnown(nodes)
    ensures err.Some? ==> exists i, k :: FirstDangling(nodes, i, k) && err.value == UnknownDepMsg(nodes[i], nodes[i].deps[k])
    ensures err.None? ==> nd == LinkDeps(nd0, idx, nodes, |nodes|)
  {
    nd := nd0;
    LinkDepsNone(nd0, idx, nodes);
    var i: nat := 0;
    while i < |nodes|
      invariant i <= |nodes| && |nd| == |nodes| && Within(nd, |nodes|)
      invariant nd == LinkDeps(nd0, idx, nodes, i)
      invariant forall j :: 0 <= j < i && Kept(nodes, j) ==> DepsResolved(nodes, j)
    {
      KeptIff(nodes, i);
      var node := nodes[i];
      if idx[node.nodeId] == i {
        var r, missing := ResolveDeps(idx, nodes, node.deps);
        WithinAppend(nd, i, r, |nodes|);
        if missing.Some? {
          nd := nd[i := nd[i] + r];
          var k := missing.value;
          InTableIff(nodes);
          assert FirstDangling(nodes, i, k) by {
            forall l | 0 <= l < k ensures node.deps[l] in NodeIds(nodes) {
              assert node.deps[..k][l] == node.deps[l];
            }
          }
          return nd, Some(UnknownDepMsg(node, node.deps[k]));
        }
        LinkKeptStep(nd0, idx, nodes, i, nd);
        nd := nd[i := nd[i] + r];
      } else {
        LinkShadowedStep(nd0, idx, nodes, i, nd);
      }
      i := i + 1;
    }
    return nd, None;
  }
}

/** The Go `Builder`: packages and nodes collected in insertion-ordered maps
    keyed by package id and node id, then turned into a `DepGraph` whose package
    table is already filled in. */
module GoBuilder {
  import opened Wrappers
  import opened OrderedMaps
  import opened GoDepGraph
  import Types
  import Graphs

  const SchemaVersion := "1.3.0"
  const RootNodeId := "root-node"
  const NoPkgManager := "cannot create builder without a package manager"

  /** The root package used when none is given. */
  const DefaultRootPkg := PkgInfo("_root", "unknown", "")

  /** `getPkgID`: `name@version`. */
  function PkgIdOf(info: PkgInfo): (r: string)
    ensures |r| == |info.name| + 1 + |info.version|
    ensures r[..|info.name|] == info.name && r[|info.name|] == '@' && r[|info.name| + 1..] == info.version
  {
    info.name + "@" + info.version
  }

  /** Two packages get the same id only when they agree on name and version,
      as long as no version holds an `@` (a name may: `@scope/name`). */
  lemma PkgIdOfInjective(a: PkgInfo, b: PkgInfo)
    requires '@' !in a.version && '@' !in b.version
    requires PkgIdOf(a) == PkgIdOf(b)
    ensures a.name == b.name && a.version == b.version
  {
  }

  /** Node `k` is stored under its own id, names a stored package and depends
      only on stored nodes. */
  ghost predicate NodeSound(pkgs: OMap<string, Pkg>, nodes: OMap<string, Node>, k: string) {
    k in nodes.m && nodes.m[k].nodeId == k && nodes.m[k].pkgId in pkgs.m &&
    forall d :: d in nodes.m[k].deps ==> d in nodes.m
  }

  /** Some node holds package `p`. */
  ghost predicate PkgUsed(nodes: OMap<string, Node>, p: string) {
    exists k :: k in nodes.m && nodes.m[k].pkgId == p
  }

  /** The builder's maps agree with each other: packages are keyed by their own
      id, every node is sound, every package belongs to some node, and the root
      node holds the root package. */
  ghost predicate Consistent(pkgs: OMap<string, Pkg>, nodes: OMap<string, Node>, rootNodeId: string,
                             rootPkgId: string) {
    pkgs.Valid() && nodes.Valid() &&
    (forall k :: k in pkgs.m ==> pkgs.m[k].id == k) &&
    (forall k {:trigger NodeSound(pkgs, nodes, k)} :: k in nodes.m ==> NodeSound(pkgs, nodes, k)) &&
    (forall p {:trigger PkgUsed(nodes, p)} :: p in pkgs.m ==> PkgUsed(nodes, p)) &&
    rootNodeId in nodes.m && nodes.m[rootNodeId].pkgId == rootPkgId && rootPkgId in pkgs.m
  }

  /** What `addNode` stores for a new node keeps the maps consistent. */
  lemma AddNodeKeeps(pkgs: OMap<string, Pkg>, nodes: OMap<string, Node>, rootNodeId: string, rootPkgId: string,
                     nodeId: string, id: string, info: PkgInfo)
    requires Consistent(pkgs, nodes, rootNodeId, rootPkgId) && nodeId !in nodes.m
    ensures Consistent(pkgs.Set(id, Pkg(id, info)), nodes.Set(nodeId, Node(nodeId, id, None, [])), rootNodeId, rootPkgId)
  {
    var ps := pkgs.Set(id, Pkg(id, info));
    var ns := nodes.Set(nodeId, Node(nodeId, id, None, []));
    forall k | k in ns.m ensures NodeSound(ps, ns, k) {
      if k != nodeId {
        assert NodeSound(pkgs, nodes, k);
      }
    }
    forall p | p in ps.m ensures PkgUsed(ns, p) {
      if p == id {
        assert ns.m[nodeId].pkgId == p;
      } else {
        assert PkgUsed(nodes, p);
        var k :| k in nodes.m && nodes.m[k].pkgId == p;
        assert ns.m[k].pkgId == p;
      }
    }
  }

  /** Setting a node's info keeps the maps consistent. */
  lemma SetInfoKeeps(pkgs: OMap<string, Pkg>, nodes: OMap<string, Node>, rootNodeId: string, rootPkgId: string,
                     nodeId: string, info: Option<Types.NodeInfo>)
    requires Consistent(pkgs, nodes, rootNodeId, rootPkgId) && nodeId in nodes.m
    ensures Consistent(pkgs, nodes.Set(nodeId, nodes.m[nodeId].(info := info)), rootNodeId, rootPkgId)
  {
    var ns := nodes.Set(nodeId, nodes.m[nodeId].(info := info));
    forall k | k in ns.m ensures NodeSound(pkgs, ns, k) {
      assert NodeSound(pkgs, nodes, k);
    }
    forall p | p in pkgs.m ensures PkgUsed(ns, p) {
      assert PkgUsed(nodes, p);
      var k :| k in nodes.m && nodes.m[k].pkgId == p;
      assert ns.m[k].pkgId == p;
    }
  }

  /** Appending a stored child to a stored parent keeps the maps consistent. */
  lemma ConnectKeeps(pkgs: OMap<string, Pkg>, nodes: OMap<string, Node>, rootNodeId: string, rootPkgId: string,
                     parent: string, child: string)
    requires Consistent(pkgs, nodes, rootNodeId, rootPkgId) && parent in nodes.m && child in nodes.m
    ensures Consistent(pkgs, nodes.Set(parent, nodes.m[parent].(deps := nodes.m[parent].deps + [child])),
                       rootNodeId, rootPkgId)
  {
    var ns := nodes.Set(parent, nodes.m[parent].(deps := nodes.m[parent].deps + [child]));
    forall k | k in ns.m ensures NodeSound(pkgs, ns, k) {
      assert NodeSound(pkgs, nodes, k);
    }
    forall p | p in pkgs.m ensures PkgUsed(ns, p) {
      assert PkgUsed(nodes, p);
      var k :| k in nodes.m && nodes.m[k].pkgId == p;
      assert ns.m[k].pkgId == p;
    }
  }

  /** The nodes of a consistent builder, listed in insertion order, form a graph
      that `indexNodes` accepts against the packages listed in insertion order:
      every package is known and every dependency names a node. */
  lemma ConsistentAccepted(pkgs: OMap<string, Pkg>, nodes: OMap<string, Node>, rootNodeId: string,
                           rootPkgId: string)
    requires Consistent(pkgs, nodes, rootNodeId, rootPkgId)
    ensures PkgsKnown(IdIndex(PkgIds(pkgs.Values())), nodes.Values())
    ensures DepsKnown(nodes.Values())
  {
    var ps := pkgs.Values();
    var ns := nodes.Values();
    IdIndexSpec(PkgIds(ps));
    forall i | 0 <= i < |ns| ensures ns[i].pkgId in IdIndex(PkgIds(ps)) {
      assert NodeSound(pkgs, nodes, nodes.keys[i]);
      var p := ns[i].pkgId;
      var j :| 0 <= j < |pkgs.keys| && pkgs.keys[j] == p;
      assert PkgIds(ps)[j] == p;
    }
    forall i | 0 <= i < |ns| && Kept(ns, i) ensures DepsResolved(ns, i) {
      assert NodeSound(pkgs, nodes, nodes.keys[i]);
      forall d | d in ns[i].deps ensures d in NodeIds(ns) {
        assert d in nodes.m;
        var j :| 0 <= j < |nodes.keys| && nodes.keys[j] == d;
        assert NodeSound(pkgs, nodes, d);
        assert NodeIds(ns)[j] == d;
      }
    }
  }

  /** Node ids are distinct in a consistent builder, so every node is the one the
      node table keeps. */
  lemma ConsistentAllKept(pkgs: OMap<string, Pkg>, nodes: OMap<string, Node>, rootNodeId: string,
                          rootPkgId: string)
    requires Consistent(pkgs, nodes, rootNodeId, rootPkgId)
    ensures forall i :: 0 <= i < |nodes.keys| ==> Kept(nodes.Values(), i)
  {
    var ns := nodes.Values();
    forall i, j | 0 <= i < j < |ns| ensures ns[j].nodeId != ns[i].nodeId {
      assert NodeSound(pkgs, nodes, nodes.keys[i]) && NodeSound(pkgs, nodes, nodes.keys[j]);
    }
  }

  /** A node's info after the `WithNodeInfo` options run in order. */
  function Applied(info: Option<Types.NodeInfo>, opts: seq<Option<Types.NodeInfo>>): Option<Types.NodeInfo> {
    if opts == [] then info else opts[|opts| - 1]
  }

  /** The loop of `AddNode` over its options: each sets the node's info. */
  method ApplyOpts(node: Node, opts: seq<Option<Types.NodeInfo>>) returns (r: Node)
    ensures r == node.(info := Applied(node.info, opts))
  {
    r := node;
    for i := 0 to |opts|
      invariant r == node.(info := Applied(node.info, opts[..i]))
    {
      r := r.(info := opts[i]);
    }
    assert opts[..|opts|] == opts;
  }

  class Builder {
    const schemaVersion: string
    const rootNodeId: string
    const rootPkgId: string
    const pkgManager: PkgManager
    var pkgs: OMap<string, Pkg>
    var nodes: OMap<string, Node>

    ghost predicate Valid()
      reads this
    {
      Consistent(pkgs, nodes, rootNodeId, rootPkgId)
    }

    /** `NewBuilder` once a package manager is given: the fixed schema version
        and root node id, and the root node added for `rootPkg`. */
    constructor (pkgManager: PkgManager, rootPkg: PkgInfo)
      ensures Valid()
      ensures schemaVersion == SchemaVersion && rootNodeId == RootNodeId && this.pkgManager == pkgManager
      ensures rootPkgId == PkgIdOf(rootPkg)
      ensures pkgs.keys == [rootPkgId] && pkgs.m == map[rootPkgId := Pkg(rootPkgId, rootPkg)]
      ensures nodes.keys == [RootNodeId] && nodes.m == map[RootNodeId := Node(RootNodeId, rootPkgId, None, [])]
    {
      schemaVersion := SchemaVersion;
      rootNodeId := RootNodeId;
      rootPkgId := PkgIdOf(rootPkg);
      this.pkgManager := pkgManager;
      var id := PkgIdOf(rootPkg);
      pkgs := EmptyMap<string, Pkg>().Set(id, Pkg(id, rootPkg));
      nodes := EmptyMap<string, Node>().Set(RootNodeId, Node(RootNodeId, id, None, []));
      new;
      assert nodes.m[RootNodeId].pkgId == rootPkgId;
    }

    /** `addNode`: a node already present is returned untouched (its package is
        not stored again); otherwise the package is stored under its id,
        replacing one stored with that id in its place, and a node with no
        dependencies is added last. */
    method AddNodeCore(nodeId: string, pkgInfo: PkgInfo) returns (n: Node)
      requires Valid()
      modifies this`pkgs, this`nodes
      ensures Valid()
      ensures nodeId in nodes.m && n == nodes.m[nodeId]
      ensures nodeId in old(nodes.m) ==> nodes == old(nodes) && pkgs == old(pkgs)
      ensures nodeId !in old(nodes.m) ==>
                pkgs == old(pkgs).Set(PkgIdOf(pkgInfo), Pkg(PkgIdOf(pkgInfo), pkgInfo)) &&
                nodes == old(nodes).Set(nodeId, Node(nodeId, PkgIdOf(pkgInfo), None, []))
    {
      if nodeId in nodes.m {
        return nodes.m[nodeId];
      }
      var id := PkgIdOf(pkgInfo);
      AddNodeKeeps(pkgs, nodes, rootNodeId, rootPkgId, nodeId, id, pkgInfo);
      pkgs := pkgs.Set(id, Pkg(id, pkgInfo));
      nodes := nodes.Set(nodeId, Node(nodeId, id, None, []));
      n := nodes.m[nodeId];
    }

    /** `AddNode` with `WithNodeInfo` options: `addNode`, then each option sets
        the node's info in turn, so the last one wins, whether or not the node
        was new. */
    method AddNode(nodeId: string, pkgInfo: PkgInfo, opts: seq<Option<Types.NodeInfo>>) returns (n: Node)
      requires Valid()
      modifies this`pkgs, this`nodes
      ensures Valid()
      ensures nodeId in nodes.m && n == nodes.m[nodeId]
      ensures nodeId in old(nodes.m) ==>
                pkgs == old(pkgs) &&
                nodes == old(nodes).Set(nodeId, old(nodes.m)[nodeId].(info := Applied(old(nodes.m)[nodeId].info, opts)))
      ensures nodeId !in old(nodes.m) ==>
                pkgs == old(pkgs).Set(PkgIdOf(pkgInfo), Pkg(PkgIdOf(pkgInfo), pkgInfo)) &&
                nodes == old(nodes).Set(nodeId, Node(nodeId, PkgIdOf(pkgInfo), Applied(None, opts), []))
    {
      n := AddNodeCore(nodeId, pkgInfo);
      n := ApplyOpts(n, opts);
      SetInfoKeeps(pkgs, nodes, rootNodeId, rootPkgId, nodeId, n.info);
      nodes := nodes.Set(nodeId, n);
    }

    /** `ConnectNodes`: both nodes must exist; the child's id is then appended to
        the parent's dependencies, and nothing else changes. */
    method ConnectNodes(parentNodeId: string, childNodeId: string) returns (err: Option<string>)
      requires Valid()
      modifies this`nodes
      ensures Valid()
      ensures err.Some? <==> parentNodeId !in old(nodes.m) || childNodeId !in old(nodes.m)
      ensures parentNodeId !in old(nodes.m) ==> err == Some("cound not find parent node " + parentNodeId)
      ensures parentNodeId in old(nodes.m) && childNodeId !in old(nodes.m) ==>
                err == Some("cound not find child node " + childNodeId)
      ensures err.Some? ==> nodes == old(nodes)
      ensures err.None? ==> nodes.keys == old(nodes.keys) &&
                            nodes.m == old(nodes.m)[parentNodeId := old(nodes.m)[parentNodeId].(deps :=
                                         old(nodes.m)[parentNodeId].deps + [childNodeId])]
    {
      if parentNodeId !in nodes.m {
        return Some("cound not find parent node " + parentNodeId);
      }
      if childNodeId !in nodes.m {
        return Some("cound not find child node " + childNodeId);
      }
      var parent := nodes.m[parentNodeId];
      var child := nodes.m[childNodeId];
      assert NodeSound(pkgs, nodes, childNodeId);
      ConnectKeeps(pkgs, nodes, rootNodeId, rootPkgId, parentNodeId, child.nodeId);
      nodes := nodes.Set(parentNodeId, parent.(deps := parent.deps + [child.nodeId]));
      return None;
    }

    /** `GetPkgs`: the stored packages in insertion order. */
    method GetPkgs() returns (r: seq<Pkg>)
      requires Valid()
      ensures r == pkgs.Values()
      ensures PkgIds(r) == pkgs.keys
    {
      r := [];
      for i := 0 to |pkgs.keys|
        invariant r == pkgs.Values()[..i]
      {
        r := r + [pkgs.m[pkgs.keys[i]]];
      }
      assert pkgs.Values()[..|pkgs.keys|] == pkgs.Values();
      forall i | 0 <= i < |r| ensures PkgIds(r)[i] == pkgs.keys[i] {
        assert pkgs.keys[i] in pkgs.m;
      }
    }

    /** `GetRootNode`: the root node, which a builder always holds. */
    function GetRootNode(): (r: Option<Node>)
      requires Valid()
      reads this
      ensures r.Some? && r.value.nodeId == rootNodeId && r.value.pkgId == rootPkgId
      ensures r.value in nodes.Values()
    {
      assert NodeSound(pkgs, nodes, rootNodeId);
      assert nodes.m[rootNodeId] in nodes.Values() by { nodes.ValuesIn(); }
      nodes.Get(rootNodeId)
    }

    /** `Build`: a graph with the packages and nodes in insertion order, the
        root package set, and a package table holding the package of every node
        at its position in the package list. Such a graph always indexes: every
        package is known and every dependency names a node. */
    method Build() returns (dg: DepGraph)
      requires Valid()
      ensures fresh(dg) && dg.Valid()
      ensures dg.schemaVersion == schemaVersion && dg.pkgManager == pkgManager && dg.rootNodeId == rootNodeId
      ensures dg.pkgs == pkgs.Values() && dg.nodes == nodes.Values()
      ensures dg.rootPkg == Some(pkgs.m[rootPkgId])
      ensures dg.pkgIdx == Some(IdIndex(PkgIds(dg.pkgs)))
      ensures dg.nodeIdx.None? && dg.rootNode.None?
      ensures PkgsKnown(dg.pkgIdx.value, dg.nodes) && DepsKnown(dg.nodes)
    {
      var pkgList := GetPkgs();
      var pos := IdIndex(PkgIds(pkgList));
      NodePkgsStored(pkgs, nodes, rootNodeId, rootPkgId);
      var ns, idx := NodeTables(nodes.Values(), pkgs.m, pos);
      PkgsAllUsed(pkgs, nodes, rootNodeId, rootPkgId);
      BuiltTable(PkgIds(pkgList), nodes.Values(), idx);
      dg := new DepGraph(schemaVersion, pkgManager, pkgList, rootNodeId, ns, pkgs.Get(rootPkgId), Some(idx));
      ConsistentAccepted(pkgs, nodes, rootNodeId, rootPkgId);
    }
  }

  /** Every node of a consistent builder names a stored package. */
  lemma NodePkgsStored(pkgs: OMap<string, Pkg>, nodes: OMap<string, Node>, rootNodeId: string, rootPkgId: string)
    requires Consistent(pkgs, nodes, rootNodeId, rootPkgId)
    ensures forall id :: id in pkgs.m ==> pkgs.m[id].id == id
    ensures forall j :: 0 <= j < |nodes.keys| ==> nodes.Values()[j].pkgId in pkgs.m
    ensures forall j :: 0 <= j < |nodes.keys| ==> nodes.Values()[j].pkgId in IdIndex(PkgIds(pkgs.Values()))
  {
    forall j | 0 <= j < |nodes.keys| ensures nodes.Values()[j].pkgId in pkgs.m {
      assert NodeSound(pkgs, nodes, nodes.keys[j]);
    }
    ConsistentAccepted(pkgs, nodes, rootNodeId, rootPkgId);
  }

  /** Every package listed by a consistent builder is the package of some node,
      in insertion order. */
  lemma PkgsAllUsed(pkgs: OMap<string, Pkg>, nodes: OMap<string, Node>, rootNodeId: string, rootPkgId: string)
    requires Consistent(pkgs, nodes, rootNodeId, rootPkgId)
    ensures forall id :: id in PkgIds(pkgs.Values()) ==> exists j :: 0 <= j < |nodes.keys| && nodes.Values()[j].pkgId == id
  {
    var ids := PkgIds(pkgs.Values());
    forall id | id in ids ensures exists j :: 0 <= j < |nodes.keys| && nodes.Values()[j].pkgId == id {
      var i :| 0 <= i < |ids| && ids[i] == id;
      assert pkgs.keys[i] in pkgs.m;
      assert PkgUsed(nodes, id);
      var k :| k in nodes.m && nodes.m[k].pkgId == id;
      var j :| 0 <= j < |nodes.keys| && nodes.keys[j] == k;
      assert nodes.Values()[j].pkgId == id;
    }
  }

  /** A table keyed by the packages of the nodes, holding each at its position
      in `ids`, is the table `indexPkgs` builds from `ids` when every id listed
      belongs to some node. */
  lemma BuiltTable(ids: seq<string>, nodeList: seq<Node>, idx: map<string, nat>)
    requires forall id :: id in ids ==> exists j :: 0 <= j < |nodeList| && nodeList[j].pkgId == id
    requires idx.Keys == set j | 0 <= j < |nodeList| :: nodeList[j].pkgId
    requires forall id :: id in idx ==> id in IdIndex(ids) && idx[id] == IdIndex(ids)[id]
    ensures idx == IdIndex(ids)
    ensures IndexesInto(idx, ids)
  {
    var pos := IdIndex(ids);
    IdIndexSpec(ids);
    forall id | id in pos ensures id in idx {
      var j :| 0 <= j < |nodeList| && nodeList[j].pkgId == id;
    }
    assert idx == pos;
    TableInto(ids, |ids|);
    assert ids[..|ids|] == ids;
  }

  /** The loop of `Build` on values: the nodes, taken in insertion order, are
      copied, and the package of each is entered in the package table at its
      position `pos` in the package list. */
  method NodeTables(nodeList: seq<Node>, pkgs: map<string, Pkg>, pos: map<string, nat>)
    returns (ns: seq<Node>, idx: map<string, nat>)
    requires forall j :: 0 <= j < |nodeList| ==> nodeList[j].pkgId in pkgs && nodeList[j].pkgId in pos
    requires forall id :: id in pkgs ==> pkgs[id].id == id
    ensures ns == nodeList
    ensures idx.Keys == set j | 0 <= j < |nodeList| :: nodeList[j].pkgId
    ensures forall id :: id in idx ==> id in pos && idx[id] == pos[id]
  {
    ns := [];
    idx := map[];
    for i := 0 to |nodeList|
      invariant ns == nodeList[..i]
      invariant idx.Keys == set j | 0 <= j < i :: nodeList[j].pkgId
      invariant forall id :: id in idx ==> id in pos && idx[id] == pos[id]
    {
      var node := nodeList[i];
      var pkg := pkgs[node.pkgId];
      idx := idx[pkg.id := pos[pkg.id]];
      ns := ns + [node];
    }
  }

  /** `NewBuilder`: an error without a package manager; otherwise a builder
      whose root package is `rootPkg`, or `_root@unknown` when none is given. */
  method NewBuilder(pkgManager: Option<PkgManager>, rootPkg: Option<PkgInfo>) returns (r: Result<Builder>)
    ensures r.Err? <==> pkgManager.None?
    ensures r.Err? ==> r.msg == NoPkgManager
    ensures r.Ok? ==> fresh(r.value) && r.value.Valid() && r.value.pkgManager == pkgManager.value
    ensures r.Ok? ==> r.value.rootNodeId == RootNodeId && r.value.schemaVersion == SchemaVersion
    ensures r.Ok? ==> r.value.rootPkgId == PkgIdOf(if rootPkg.Some? then rootPkg.value else DefaultRootPkg)
    ensures r.Ok? ==> r.value.nodes.keys == [RootNodeId] && |r.value.pkgs.keys| == 1
  {
    if pkgManager.None? {
      return Err(NoPkgManager);
    }
    var info := if rootPkg.Some? then rootPkg.value else DefaultRootPkg;
    var b := new Builder(pkgManager.value, info);
    return Ok(b);
  }
}

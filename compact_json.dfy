/** `compactJSON`: renames the nodes of a graph's JSON form in place to short
    names derived from their package, `<pkgId>` for the first node of a package
    and `<pkgId>|<k>` for the k-th later one, rewriting dependency references
    along the way. The root node keeps its id. */
module CompactJson {
  import opened Wrappers
  import opened Strings
  import opened Graphs
  import opened Types
  import opened GraphMaps

  /** Every reference to `fromId` in `deps` becomes `toId`. */
  function ReplaceAll(deps: seq<NodeId>, fromId: NodeId, toId: NodeId): (r: seq<NodeId>)
    ensures |r| == |deps|
    ensures forall j :: 0 <= j < |deps| ==> r[j] == if deps[j] == fromId then toId else deps[j]
  {
    seq(|deps|, j requires 0 <= j < |deps| => if deps[j] == fromId then toId else deps[j])
  }

  /** One node under `renameNode(fromId, toId)`. The node called `fromId` gets the
      new id; with `skipOwnDeps` (the `continue` of the source) its own
      dependencies are left alone, otherwise they are rewritten like everyone
      else's. */
  function RenameIn(n: JsonNode, fromId: NodeId, toId: NodeId, skipOwnDeps: bool): JsonNode {
    if n.nodeId == fromId then
      JsonNode(toId, n.pkgId, n.info, if skipOwnDeps then n.deps else ReplaceAll(n.deps, fromId, toId))
    else JsonNode(n.nodeId, n.pkgId, n.info, ReplaceAll(n.deps, fromId, toId))
  }

  function Renamed(ns: seq<JsonNode>, fromId: NodeId, toId: NodeId, skipOwnDeps: bool): (r: seq<JsonNode>)
    ensures |r| == |ns|
    ensures forall i :: 0 <= i < |ns| ==> r[i] == RenameIn(ns[i], fromId, toId, skipOwnDeps)
  {
    seq(|ns|, i requires 0 <= i < |ns| => RenameIn(ns[i], fromId, toId, skipOwnDeps))
  }

  /** The inner loop of `renameNode` over one node's dependencies. */
  method RenameDeps(deps: seq<NodeId>, fromId: NodeId, toId: NodeId) returns (r: seq<NodeId>)
    ensures r == ReplaceAll(deps, fromId, toId)
  {
    r := deps;
    for j := 0 to |deps|
      invariant |r| == |deps|
      invariant forall t :: 0 <= t < j ==> r[t] == if deps[t] == fromId then toId else deps[t]
      invariant forall t :: j <= t < |deps| ==> r[t] == deps[t]
    {
      if r[j] == fromId {
        r := r[j := toId];
      }
    }
  }

  /** `renameNode`: the node called `fromId` is renamed, and, in every OTHER node,
      each dependency on `fromId` is redirected to `toId`. */
  method RenameNode(nodes: array<JsonNode>, fromId: NodeId, toId: NodeId)
    modifies nodes
    ensures nodes[..] == Renamed(old(nodes[..]), fromId, toId, true)
  {
    for i := 0 to nodes.Length
      invariant forall t :: 0 <= t < i ==> nodes[t] == RenameIn(old(nodes[t]), fromId, toId, true)
      invariant forall t :: i <= t < nodes.Length ==> nodes[t] == old(nodes[t])
    {
      var node := nodes[i];
      if node.nodeId == fromId {
        nodes[i] := JsonNode(toId, node.pkgId, node.info, node.deps);
        continue;
      }
      var deps := RenameDeps(node.deps, fromId, toId);
      nodes[i] := JsonNode(node.nodeId, node.pkgId, node.info, deps);
    }
  }

  /** The name for the next node of package `p`, and the counters after it:
      `countPerPkg[p]` is set to 0 for the first node, else incremented and used. */
  function NextName(countPerPkg: map<PkgId, nat>, p: PkgId): (NodeId, map<PkgId, nat>) {
    if p !in countPerPkg then (p, countPerPkg[p := 0])
    else (p + "|" + NatToString(countPerPkg[p] + 1), countPerPkg[p := countPerPkg[p] + 1])
  }

  /** The outer loop of `compactJSON` from position `k` on, over the CURRENT
      state of the list. */
  function CompactFrom(ns: seq<JsonNode>, rootNodeId: NodeId, k: nat, countPerPkg: map<PkgId, nat>, skipOwnDeps: bool): (r: seq<JsonNode>)
    ensures |r| == |ns|
    decreases |ns| - k
  {
    if k >= |ns| then ns
    else if ns[k].nodeId == rootNodeId then CompactFrom(ns, rootNodeId, k + 1, countPerPkg, skipOwnDeps)
    else
      var (name, counts) := NextName(countPerPkg, ns[k].pkgId);
      CompactFrom(Renamed(ns, ns[k].nodeId, name, skipOwnDeps), rootNodeId, k + 1, counts, skipOwnDeps)
  }

  ghost function Compacted(ns: seq<JsonNode>, rootNodeId: NodeId, skipOwnDeps: bool): seq<JsonNode> {
    CompactFrom(ns, rootNodeId, 0, map[], skipOwnDeps)
  }

  /** `compactJSON`: mutates the node list and returns nothing. */
  method CompactJSON(nodes: array<JsonNode>, rootNodeId: NodeId)
    modifies nodes
    ensures nodes[..] == Compacted(old(nodes[..]), rootNodeId, true)
  {
    var countPerPkg: map<PkgId, nat> := map[];
    for k := 0 to nodes.Length
      invariant CompactFrom(nodes[..], rootNodeId, k, countPerPkg, true) == Compacted(old(nodes[..]), rootNodeId, true)
    {
      var node := nodes[k];
      if node.nodeId == rootNodeId {
        continue;
      }
      var name;
      name, countPerPkg := NextName(countPerPkg, node.pkgId).0, NextName(countPerPkg, node.pkgId).1;
      RenameNode(nodes, node.nodeId, name);
    }
  }

  // ---------------------------------------------------------------------------
  // What the renaming amounts to, read off the original list.

  /** The counters after the first `k` nodes of the original list. */
  function CountsAt(ns: seq<JsonNode>, rootNodeId: NodeId, k: nat): map<PkgId, nat>
    requires k <= |ns|
  {
    if k == 0 then map[]
    else if ns[k - 1].nodeId == rootNodeId then CountsAt(ns, rootNodeId, k - 1)
    else NextName(CountsAt(ns, rootNodeId, k - 1), ns[k - 1].pkgId).1
  }

  /** The name the loop gives node `k` of the original list. */
  function NameAt(ns: seq<JsonNode>, rootNodeId: NodeId, k: nat): NodeId
    requires k < |ns|
  {
    NextName(CountsAt(ns, rootNodeId, k), ns[k].pkgId).0
  }

  /** How many of the first `k` nodes are non-root nodes of package `p`. */
  function CountBefore(ns: seq<JsonNode>, rootNodeId: NodeId, k: nat, p: PkgId): nat
    requires k <= |ns|
  {
    if k == 0 then 0
    else CountBefore(ns, rootNodeId, k - 1, p) + (if ns[k - 1].nodeId != rootNodeId && ns[k - 1].pkgId == p then 1 else 0)
  }

  lemma {:induction false} CountsAtCount(ns: seq<JsonNode>, rootNodeId: NodeId, k: nat, p: PkgId)
    requires k <= |ns|
    ensures p in CountsAt(ns, rootNodeId, k) <==> CountBefore(ns, rootNodeId, k, p) > 0
    ensures p in CountsAt(ns, rootNodeId, k) ==> CountsAt(ns, rootNodeId, k)[p] == CountBefore(ns, rootNodeId, k, p) - 1
  {
    if k > 0 {
      CountsAtCount(ns, rootNodeId, k - 1, p);
    }
  }

  /** The first non-root node of a package is named after the package, and the one
      preceded by k others of the same package gets `<pkgId>|<k>`. */
  lemma NameAtCount(ns: seq<JsonNode>, rootNodeId: NodeId, k: nat)
    requires k < |ns|
    ensures var c := CountBefore(ns, rootNodeId, k, ns[k].pkgId);
      NameAt(ns, rootNodeId, k) == if c == 0 then ns[k].pkgId else ns[k].pkgId + "|" + NatToString(c)
  {
    CountsAtCount(ns, rootNodeId, k, ns[k].pkgId);
  }

  /** The renaming after the first `k` steps: the id of a non-root node among the
      first `k` becomes its name, every other text stays. */
  function SigmaUpTo(ns: seq<JsonNode>, rootNodeId: NodeId, k: nat, x: NodeId): NodeId
    requires k <= |ns|
  {
    var i := FindIndex(Ids(ns), x);
    if 0 <= i < k && x != rootNodeId then NameAt(ns, rootNodeId, i) else x
  }

  /** A dependency of the node called `own` after the first `k` steps. */
  function DepUpTo(ns: seq<JsonNode>, rootNodeId: NodeId, k: nat, own: NodeId, d: NodeId, skipOwnDeps: bool): NodeId
    requires k <= |ns|
  {
    if skipOwnDeps && d == own then d else SigmaUpTo(ns, rootNodeId, k, d)
  }

  function PartialNode(ns: seq<JsonNode>, rootNodeId: NodeId, k: nat, n: JsonNode, skipOwnDeps: bool): JsonNode
    requires k <= |ns|
  {
    JsonNode(SigmaUpTo(ns, rootNodeId, k, n.nodeId), n.pkgId, n.info,
             seq(|n.deps|, j requires 0 <= j < |n.deps| => DepUpTo(ns, rootNodeId, k, n.nodeId, n.deps[j], skipOwnDeps)))
  }

  /** The list after the first `k` steps, when the names are fresh. */
  function Partial(ns: seq<JsonNode>, rootNodeId: NodeId, k: nat, skipOwnDeps: bool): (r: seq<JsonNode>)
    requires k <= |ns|
    ensures |r| == |ns|
  {
    seq(|ns|, i requires 0 <= i < |ns| => PartialNode(ns, rootNodeId, k, ns[i], skipOwnDeps))
  }

  /** Each generated name differs from the id of every OTHER node. */
  ghost predicate NamesAvoidIds(ns: seq<JsonNode>, rootNodeId: NodeId) {
    forall i, j :: 0 <= i < |ns| && 0 <= j < |ns| && i != j && ns[i].nodeId != rootNodeId ==>
      NameAt(ns, rootNodeId, i) != ns[j].nodeId
  }

  /** Node ids are distinct and no generated name is the id of another node: the
      renaming never hits a node twice. */
  ghost predicate FreshNames(ns: seq<JsonNode>, rootNodeId: NodeId) {
    Distinct(Ids(ns)) && NamesAvoidIds(ns, rootNodeId)
  }

  lemma FindOwnIndex(ns: seq<JsonNode>, i: nat)
    requires Distinct(Ids(ns)) && i < |ns|
    ensures FindIndex(Ids(ns), ns[i].nodeId) == i
  {
    var f := FindIndex(Ids(ns), ns[i].nodeId);
    assert Ids(ns)[i] == ns[i].nodeId;
  }

  /** Before step `k`, only the id of node `k` itself is renamed to that id. */
  lemma SigmaHitsOnlyOwn(ns: seq<JsonNode>, rootNodeId: NodeId, k: nat, x: NodeId)
    requires FreshNames(ns, rootNodeId) && k < |ns|
    ensures SigmaUpTo(ns, rootNodeId, k, x) == ns[k].nodeId <==> x == ns[k].nodeId
  {
    FindOwnIndex(ns, k);
    var i := FindIndex(Ids(ns), x);
    if 0 <= i < k && x != rootNodeId {
      assert NameAt(ns, rootNodeId, i) != ns[k].nodeId;
      assert x == Ids(ns)[i];
    }
  }

  /** Step `k + 1` only changes the image of node `k`'s id. */
  lemma SigmaStep(ns: seq<JsonNode>, rootNodeId: NodeId, k: nat, x: NodeId)
    requires FreshNames(ns, rootNodeId) && k < |ns|
    ensures SigmaUpTo(ns, rootNodeId, k + 1, x) ==
      if x == ns[k].nodeId && x != rootNodeId then NameAt(ns, rootNodeId, k) else SigmaUpTo(ns, rootNodeId, k, x)
  {
    FindOwnIndex(ns, k);
  }

  lemma PartialStart(ns: seq<JsonNode>, rootNodeId: NodeId, skipOwnDeps: bool)
    ensures Partial(ns, rootNodeId, 0, skipOwnDeps) == ns
  {
    var p := Partial(ns, rootNodeId, 0, skipOwnDeps);
    forall i | 0 <= i < |ns| ensures p[i] == ns[i] {
      assert p[i].deps == ns[i].deps;
    }
  }

  /** Node `t` of the partial list after renaming node `k`'s id. */
  lemma PartialNodeStep(ns: seq<JsonNode>, rootNodeId: NodeId, k: nat, t: nat, skipOwnDeps: bool)
    requires FreshNames(ns, rootNodeId) && k < |ns| && t < |ns| && ns[k].nodeId != rootNodeId
    ensures RenameIn(PartialNode(ns, rootNodeId, k, ns[t], skipOwnDeps), ns[k].nodeId, NameAt(ns, rootNodeId, k), skipOwnDeps) ==
      PartialNode(ns, rootNodeId, k + 1, ns[t], skipOwnDeps)
  {
    var n := ns[t];
    var from, to := ns[k].nodeId, NameAt(ns, rootNodeId, k);
    var a := PartialNode(ns, rootNodeId, k, n, skipOwnDeps);
    var b := PartialNode(ns, rootNodeId, k + 1, n, skipOwnDeps);
    var r := RenameIn(a, from, to, skipOwnDeps);
    SigmaHitsOnlyOwn(ns, rootNodeId, k, n.nodeId);
    SigmaStep(ns, rootNodeId, k, n.nodeId);
    FindOwnIndex(ns, t);
    assert (a.nodeId == from) == (t == k) by {
      assert Ids(ns)[t] == n.nodeId && Ids(ns)[k] == from;
    }
    assert r.nodeId == b.nodeId;
    forall j | 0 <= j < |n.deps| ensures r.deps[j] == b.deps[j] {
      var d := n.deps[j];
      SigmaHitsOnlyOwn(ns, rootNodeId, k, d);
      SigmaStep(ns, rootNodeId, k, d);
    }
  }

  /** One step of the loop over the original list when the names are fresh: the
      current node still has its original id and package. */
  lemma PartialStep(ns: seq<JsonNode>, rootNodeId: NodeId, k: nat, skipOwnDeps: bool)
    requires FreshNames(ns, rootNodeId) && k < |ns|
    ensures Partial(ns, rootNodeId, k, skipOwnDeps)[k].nodeId == ns[k].nodeId
    ensures Partial(ns, rootNodeId, k, skipOwnDeps)[k].pkgId == ns[k].pkgId
    ensures ns[k].nodeId == rootNodeId ==> Partial(ns, rootNodeId, k + 1, skipOwnDeps) == Partial(ns, rootNodeId, k, skipOwnDeps)
    ensures ns[k].nodeId != rootNodeId ==>
      Renamed(Partial(ns, rootNodeId, k, skipOwnDeps), ns[k].nodeId, NameAt(ns, rootNodeId, k), skipOwnDeps) ==
      Partial(ns, rootNodeId, k + 1, skipOwnDeps)
  {
    FindOwnIndex(ns, k);
    var a := Partial(ns, rootNodeId, k, skipOwnDeps);
    var b := Partial(ns, rootNodeId, k + 1, skipOwnDeps);
    if ns[k].nodeId == rootNodeId {
      forall t | 0 <= t < |ns| ensures a[t] == b[t] {
        SigmaStep(ns, rootNodeId, k, ns[t].nodeId);
        forall j | 0 <= j < |ns[t].deps| ensures a[t].deps[j] == b[t].deps[j] {
          SigmaStep(ns, rootNodeId, k, ns[t].deps[j]);
        }
      }
    } else {
      var r := Renamed(a, ns[k].nodeId, NameAt(ns, rootNodeId, k), skipOwnDeps);
      forall t | 0 <= t < |ns| ensures r[t] == b[t] {
        PartialNodeStep(ns, rootNodeId, k, t, skipOwnDeps);
      }
    }
  }

  lemma {:induction false} CompactFromPartial(ns: seq<JsonNode>, rootNodeId: NodeId, k: nat, skipOwnDeps: bool)
    requires FreshNames(ns, rootNodeId) && k <= |ns|
    ensures CompactFrom(Partial(ns, rootNodeId, k, skipOwnDeps), rootNodeId, k, CountsAt(ns, rootNodeId, k), skipOwnDeps) ==
      Partial(ns, rootNodeId, |ns|, skipOwnDeps)
    decreases |ns| - k
  {
    if k < |ns| {
      PartialStep(ns, rootNodeId, k, skipOwnDeps);
      CompactFromPartial(ns, rootNodeId, k + 1, skipOwnDeps);
    }
  }

  /** With fresh names, compacting renames each non-root node to its generated
      name and rewrites every dependency through the same renaming, except (with
      `skipOwnDeps`) a node's references to its own old id. */
  lemma CompactFresh(ns: seq<JsonNode>, rootNodeId: NodeId, skipOwnDeps: bool)
    requires FreshNames(ns, rootNodeId)
    ensures Compacted(ns, rootNodeId, skipOwnDeps) == Partial(ns, rootNodeId, |ns|, skipOwnDeps)
  {
    PartialStart(ns, rootNodeId, skipOwnDeps);
    CompactFromPartial(ns, rootNodeId, 0, skipOwnDeps);
  }

  /** Same length, and node by node the same package, information and number of
      dependencies: only ids change. */
  ghost predicate SameShape(a: seq<JsonNode>, b: seq<JsonNode>) {
    |a| == |b| &&
    forall i :: 0 <= i < |a| ==> a[i].pkgId == b[i].pkgId && a[i].info == b[i].info && |a[i].deps| == |b[i].deps|
  }

  lemma {:induction false} CompactFromKeeps(ns: seq<JsonNode>, rootNodeId: NodeId, k: nat, countPerPkg: map<PkgId, nat>, skipOwnDeps: bool)
    ensures var r := CompactFrom(ns, rootNodeId, k, countPerPkg, skipOwnDeps);
      SameShape(ns, r) && forall i :: 0 <= i < |ns| && ns[i].nodeId == rootNodeId ==> r[i].nodeId == rootNodeId
    decreases |ns| - k
  {
    if k < |ns| {
      if ns[k].nodeId == rootNodeId {
        CompactFromKeeps(ns, rootNodeId, k + 1, countPerPkg, skipOwnDeps);
      } else {
        var (name, counts) := NextName(countPerPkg, ns[k].pkgId);
        var ns' := Renamed(ns, ns[k].nodeId, name, skipOwnDeps);
        CompactFromKeeps(ns', rootNodeId, k + 1, counts, skipOwnDeps);
      }
    }
  }

  /** Whatever the ids, compacting keeps the node count and order, each node's
      package, information and number of dependencies, and the root's id. */
  lemma CompactKeepsShape(ns: seq<JsonNode>, rootNodeId: NodeId)
    ensures SameShape(ns, Compacted(ns, rootNodeId, true))
    ensures forall i :: 0 <= i < |ns| && ns[i].nodeId == rootNodeId ==> Compacted(ns, rootNodeId, true)[i].nodeId == rootNodeId
  {
    CompactFromKeeps(ns, rootNodeId, 0, map[], true);
  }

  /** With fresh names, the root keeps its id and every other node gets its
      generated name. */
  lemma CompactNames(ns: seq<JsonNode>, rootNodeId: NodeId, i: nat)
    requires FreshNames(ns, rootNodeId) && i < |ns|
    ensures Compacted(ns, rootNodeId, true)[i].nodeId ==
      if ns[i].nodeId == rootNodeId then rootNodeId else NameAt(ns, rootNodeId, i)
  {
    CompactFresh(ns, rootNodeId, true);
    FindOwnIndex(ns, i);
  }

  /** No two non-root nodes get the same name. */
  ghost predicate NamesDistinct(ns: seq<JsonNode>, rootNodeId: NodeId) {
    forall i, j :: 0 <= i < |ns| && 0 <= j < |ns| && i != j && ns[i].nodeId != rootNodeId && ns[j].nodeId != rootNodeId ==>
      NameAt(ns, rootNodeId, i) != NameAt(ns, rootNodeId, j)
  }

  /** Every dependency refers to a node of the list. */
  ghost predicate DepsKnown(ns: seq<JsonNode>) {
    forall i, t :: 0 <= i < |ns| && 0 <= t < |ns[i].deps| ==> ns[i].deps[t] in Ids(ns)
  }

  lemma SigmaOfNode(ns: seq<JsonNode>, rootNodeId: NodeId, j: nat)
    requires FreshNames(ns, rootNodeId) && j < |ns|
    ensures SigmaUpTo(ns, rootNodeId, |ns|, ns[j].nodeId) ==
      if ns[j].nodeId == rootNodeId then rootNodeId else NameAt(ns, rootNodeId, j)
  {
    FindOwnIndex(ns, j);
  }

  /** The finished renaming is one-to-one on node ids. */
  lemma SigmaInjective(ns: seq<JsonNode>, rootNodeId: NodeId, a: nat, b: nat)
    requires FreshNames(ns, rootNodeId) && NamesDistinct(ns, rootNodeId) && a < |ns| && b < |ns| && a != b
    ensures SigmaUpTo(ns, rootNodeId, |ns|, ns[a].nodeId) != SigmaUpTo(ns, rootNodeId, |ns|, ns[b].nodeId)
  {
    SigmaOfNode(ns, rootNodeId, a);
    SigmaOfNode(ns, rootNodeId, b);
    assert Ids(ns)[a] == ns[a].nodeId && Ids(ns)[b] == ns[b].nodeId;
  }

  /** With fresh, distinct names and known dependencies, node `i` depends on node
      `j` after compacting exactly when it did before, except that with
      `skipOwnDeps` a node's dependency on itself is not carried over. */
  lemma CompactEdges(ns: seq<JsonNode>, rootNodeId: NodeId, i: nat, j: nat, skipOwnDeps: bool)
    requires FreshNames(ns, rootNodeId) && NamesDistinct(ns, rootNodeId) && DepsKnown(ns)
    requires i < |ns| && j < |ns| && (i != j || !skipOwnDeps)
    ensures var r := Compacted(ns, rootNodeId, skipOwnDeps);
      ns[j].nodeId in ns[i].deps <==> r[j].nodeId in r[i].deps
  {
    CompactFresh(ns, rootNodeId, skipOwnDeps);
    var r := Partial(ns, rootNodeId, |ns|, skipOwnDeps);
    var own := ns[i].nodeId;
    var target := SigmaUpTo(ns, rootNodeId, |ns|, ns[j].nodeId);
    assert r[j].nodeId == target;
    assert Ids(ns)[i] == own && Ids(ns)[j] == ns[j].nodeId;
    if ns[j].nodeId in ns[i].deps {
      var t :| 0 <= t < |ns[i].deps| && ns[i].deps[t] == ns[j].nodeId;
      assert r[i].deps[t] == target;
    }
    if target in r[i].deps {
      var t :| 0 <= t < |r[i].deps| && r[i].deps[t] == target;
      var d := ns[i].deps[t];
      assert d in Ids(ns);
      var m :| 0 <= m < |ns| && Ids(ns)[m] == d;
      if skipOwnDeps {
        SigmaOfNode(ns, rootNodeId, j);
        assert target != own;
      }
      assert !(skipOwnDeps && d == own);
      assert SigmaUpTo(ns, rootNodeId, |ns|, ns[m].nodeId) == target;
      if m != j {
        SigmaInjective(ns, rootNodeId, m, j);
      }
      assert d == ns[j].nodeId;
    }
  }

  /** A node depending on itself keeps its OLD id among its dependencies: with the
      root depending on x and x (package p) depending on itself, x is renamed to p
      but still lists x, which no node is called any more. Rewriting a node's own
      dependencies too keeps the self-loop as a dependency on p. */
  lemma SelfLoopLeftDangling()
    ensures var ns := [JsonNode("root", "root", None, ["x"]), JsonNode("x", "p", None, ["x"])];
      Compacted(ns, "root", true) == [JsonNode("root", "root", None, ["p"]), JsonNode("p", "p", None, ["x"])] &&
      Compacted(ns, "root", false) == [JsonNode("root", "root", None, ["p"]), JsonNode("p", "p", None, ["p"])]
  {
    var ns := [JsonNode("root", "root", None, ["x"]), JsonNode("x", "p", None, ["x"])];
    assert Ids(ns) == ["root", "x"];
    assert NameAt(ns, "root", 1) == "p";
    assert FreshNames(ns, "root");
    CompactFresh(ns, "root", true);
    CompactFresh(ns, "root", false);
    assert FindIndex(Ids(ns), "x") == 1;
    assert FindIndex(Ids(ns), "root") == 0;
    var a := Partial(ns, "root", 2, true);
    assert a[0].deps == ["p"] && a[1].deps == ["x"];
    var b := Partial(ns, "root", 2, false);
    assert b[0].deps == ["p"] && b[1].deps == ["p"];
  }
}

/** The round trip of `src/cycles`: rebuilding with `reconnectCycles` the graph
    `cutCycles` returns gives back every node of the original graph, with its
    package, its information and its dependencies in their order. */
module RoundTrip {
  import opened Wrappers
  import opened Strings
  import opened Graphs
  import opened Types
  import opened DepGraphs
  import opened Builders
  import opened GraphMaps
  import opened Replay
  import opened CutCycles
  import opened Edges
  import opened Splice
  import opened ReconnectCycles

  /** A node id the tokens can carry: no comma (the tokens are comma-joined) and
      no "@@" (the delimiter inside a token). */
  predicate IdReady(v: NodeId) {
    NoComma(v) && !Contains(v, Delimiter)
  }

  /** Node information the label can be added to and deleted from again: no
      label of removed edges already, and no empty labels map (deleting the last
      label deletes the map). */
  predicate InfoReady(info: Option<NodeInfo>) {
    info.Some? && info.value.labels.Some? ==> RemovedLabel !in info.value.labels.value && info.value.labels.value != map[]
  }

  /** The graphs the round trip is stated for: rooted at 'root-node', every
      package stored under its own id, no information on the root, and every
      node's id and information ready. */
  ghost predicate RoundTripReady(g: DepGraph) {
    RootReady(g) && forall v :: v in g.graph.labelOf ==> NodeReady(g, v)
  }

  ghost predicate RootReady(g: DepGraph) {
    g.Valid() && g.rootNodeId == RootNodeId && PkgsKeyed(g) && JsonNodeOf(g, RootNodeId).info == None
  }

  ghost predicate NodeReady(g: DepGraph, v: NodeId)
    requires g.Valid() && v in g.graph.labelOf
  {
    IdReady(v) && InfoReady(JsonNodeOf(g, v).info)
  }

  /** `e.toJSON()` has the nodes of `g.toJSON()`, each with the same package,
      information and dependencies, except that 'root-node' lacks the
      dependencies in `lost`. */
  ghost predicate SameNodesBut(g: DepGraph, e: DepGraph, lost: seq<NodeId>)
    requires g.Valid() && g.rootNodeId == RootNodeId && e.Valid()
  {
    e.rootNodeId == RootNodeId &&
    (forall v :: v in e.graph.labelOf <==> v in g.graph.labelOf) &&
    (forall v :: v in g.graph.labelOf && v != RootNodeId ==> JsonNodeOf(e, v) == JsonNodeOf(g, v)) &&
    JsonNodeOf(e, RootNodeId) == JsonNodeOf(g, RootNodeId).(deps := Without(g.graph.succ[RootNodeId], lost))
  }

  /** What `reconnectCycles` reads back from `d`: the nodes of `g`; for every
      node other than 'root-node' its package, its information once the label is
      deleted, and its dependencies once the tokens are spliced in; the root
      package; and the root's dependencies except `lost`. */
  ghost predicate ReadsBack(g: DepGraph, d: DepGraph, lost: seq<NodeId>)
    requires g.Valid() && g.rootNodeId == RootNodeId && d.Valid()
  {
    (forall v :: v in d.graph.labelOf <==> v in g.graph.labelOf) &&
    (forall v :: v in g.graph.labelOf && v != RootNodeId ==> NodeReadsBack(g, d, v)) &&
    GetPkgId(d.RootPkg()) == g.graph.labelOf[RootNodeId].pkgId &&
    FinalList(d, RootNodeId) == Somes(Without(g.graph.succ[RootNodeId], lost))
  }

  ghost predicate NodeReadsBack(g: DepGraph, d: DepGraph, v: NodeId)
    requires g.Valid() && d.Valid() && v in g.graph.labelOf && v in d.graph.labelOf
  {
    NodePkgId(d, v) == g.graph.labelOf[v].pkgId &&
    ReconnectInfo(JsonNodeOf(d, v).info) == JsonNodeOf(g, v).info &&
    FinalList(d, v) == Somes(g.graph.succ[v])
  }

  /** With the package map keyed by id, a node's package id is the one in its
      label. */
  lemma KeyedPkgId(g: DepGraph, v: NodeId)
    requires g.Valid() && PkgsKeyed(g) && v in g.graph.labelOf
    ensures NodePkgId(g, v) == g.graph.labelOf[v].pkgId
  {
    GraphFacts(g);
  }

  /** Information read back through `toJSON` is the stored information when it
      is not empty. */
  lemma JsonInfo(g: DepGraph, v: NodeId, info: Option<NodeInfo>)
    requires g.Valid() && v in g.graph.labelOf && g.graph.labelOf[v].info == info
    requires info.Some? ==> info.value != NoInfo
    ensures JsonNodeOf(g, v).info == info
  {
  }

  // ---------------------------------------------------------------------------
  // A graph with cycles: what `cutCycles` leaves is read back.

  /** A node whose edges were cut carries a label holding exactly their tokens,
      and deleting it gives back the node's information. */
  lemma CutNodeBack(g: DepGraph, d: DepGraph, cut: map<NodeId, seq<NodeId>>, v: NodeId)
    requires g.Valid() && d.Valid() && v in g.graph.labelOf && v in d.graph.labelOf && v in cut && cut[v] != []
    requires d.graph.labelOf[v].info == CutInfoOf(KeepInfo, g, cut, v)
    requires InfoReady(JsonNodeOf(g, v).info) && forall t :: t in cut[v] ==> IdReady(t)
    ensures HasRemovedLabel(JsonNodeOf(d, v).info)
    ensures multiset(RemovedTokens(JsonNodeOf(d, v).info)) == multiset(Tokens(g.graph.succ[v], cut[v]))
    ensures RestoredInfo(JsonNodeOf(d, v).info) == JsonNodeOf(g, v).info
  {
    var info := JsonNodeOf(g, v).info;
    var ts := Tokens(g.graph.succ[v], cut[v]);
    forall i | 0 <= i < |ts| ensures NoComma(ts[i]) && ts[i] != "" {
      assert IdReady(cut[v][i]);
      TokenNoComma(FindIndex(g.graph.succ[v], cut[v][i]), cut[v][i]);
    }
    LabelTokens(info, ts);
    JsonInfo(d, v, CutNodeInfo(KeepInfo, info, Some(ts)));
    RestoreCutInfo(info, ts);
  }

  /** A node whose edges were kept has its information unchanged and no label. */
  lemma KeptNodeBack(g: DepGraph, d: DepGraph, cut: map<NodeId, seq<NodeId>>, v: NodeId)
    requires g.Valid() && d.Valid() && v in g.graph.labelOf && v in d.graph.labelOf && v !in cut
    requires d.graph.labelOf[v].info == CutInfoOf(KeepInfo, g, cut, v) && InfoReady(JsonNodeOf(g, v).info)
    ensures JsonNodeOf(d, v).info == JsonNodeOf(g, v).info && !HasRemovedLabel(JsonNodeOf(d, v).info)
  {
    JsonInfo(d, v, JsonNodeOf(g, v).info);
  }

  /** As written, `cutCycles` re-adds a node without removed edges with no
      information: a node with information and no dependencies is read back
      without it, so the round trip fails on every graph with a cycle and such
      a node. */
  lemma DroppedInfoNotReadBack(g: DepGraph, d: DepGraph, cut: map<NodeId, seq<NodeId>>, v: NodeId)
    requires g.Valid() && d.Valid() && CutsOf(g, cut) && CutLabels(DropInfo, g, d, cut)
    requires v in g.graph.labelOf && v != RootNodeId && g.graph.succ[v] == [] && JsonNodeOf(g, v).info.Some?
    ensures v in d.graph.labelOf && JsonNodeOf(d, v).info == None && !NodeReadsBack(g, d, v)
  {
    NotCutWithoutDeps(g, cut, v);
    assert d.graph.labelOf[v].info == CutInfoOf(DropInfo, g, cut, v);
  }

  /** A node without dependencies has none cut. */
  lemma NotCutWithoutDeps(g: DepGraph, cut: map<NodeId, seq<NodeId>>, v: NodeId)
    requires CutsOf(g, cut) && v in g.graph.succ && g.graph.succ[v] == []
    ensures v !in cut
  {
    forall w | w in cut ensures g.graph.succ[w] != [] {
      assert cut[w][0] in g.graph.succ[w];
    }
  }

  /** A node other than 'root-node' is read back: its package, its information
      and, with the tokens spliced back, its dependencies. */
  lemma CutNodeReadsBack(g: DepGraph, d: DepGraph, cut: map<NodeId, seq<NodeId>>, v: NodeId)
    requires RoundTripReady(g) && d.Valid() && PkgsKeyed(d)
    requires v in g.graph.labelOf && v != RootNodeId && v in d.graph.labelOf && v in d.graph.succ
    requires d.graph.labelOf[v] == GraphNode(NodePkgId(g, v), CutInfoOf(KeepInfo, g, cut, v))
    requires d.graph.succ[v] == Without(g.graph.succ[v], CutOf(cut, v))
    requires v in cut ==> cut[v] != [] && Distinct(cut[v]) && forall t :: t in cut[v] ==> t in g.graph.succ[v]
    ensures NodeReadsBack(g, d, v)
  {
    GraphFacts(g);
    KeyedPkgId(g, v);
    KeyedPkgId(d, v);
    assert NodeReady(g, v);
    if v in cut {
      forall t | t in cut[v] ensures IdReady(t) && !Contains(t, Delimiter) {
        assert NodeReady(g, t);
      }
      CutNodeBack(g, d, cut, v);
      SpliceRestores(g.graph.succ[v], cut[v], RemovedTokens(JsonNodeOf(d, v).info));
    } else {
      KeptNodeBack(g, d, cut, v);
      WithoutNone(g.graph.succ[v]);
    }
  }

  /** 'root-node' is read back with the root package and its dependencies
      except the ones cut from it. */
  lemma CutRootReadsBack(g: DepGraph, d: DepGraph, lost: seq<NodeId>)
    requires RootReady(g) && d.Valid() && PkgsKeyed(d) && d.rootNodeId == RootNodeId
    requires d.RootPkgId() == GetPkgId(g.RootPkg())
    requires RootNodeId in d.graph.succ && d.graph.succ[RootNodeId] == Without(g.graph.succ[RootNodeId], lost)
    ensures GetPkgId(d.RootPkg()) == g.graph.labelOf[RootNodeId].pkgId
    ensures FinalList(d, RootNodeId) == Somes(Without(g.graph.succ[RootNodeId], lost))
  {
  }

  /** Everything `cutCycles` leaves is read back, except the removed
      dependencies of 'root-node', which carries no label. */
  lemma CutReadsBack(g: DepGraph, d: DepGraph, cut: map<NodeId, seq<NodeId>>)
    requires RoundTripReady(g) && CutResult(KeepInfo, g, d, cut) && PkgsKeyed(d)
    ensures ReadsBack(g, d, CutOf(cut, RootNodeId))
  {
    forall v | v in g.graph.labelOf && v != RootNodeId ensures v in d.graph.labelOf && NodeReadsBack(g, d, v) {
      CutNodeReadsBack(g, d, cut, v);
    }
    CutRootReadsBack(g, d, CutOf(cut, RootNodeId));
  }

  /** Only dependencies of the root are cut from it. */
  lemma CutFromRoot(g: DepGraph, d: DepGraph, cut: map<NodeId, seq<NodeId>>)
    requires g.Valid() && g.rootNodeId == RootNodeId && CutResult(KeepInfo, g, d, cut)
    ensures forall t :: t in CutOf(cut, RootNodeId) ==> t in g.graph.succ[RootNodeId]
    ensures RootNodeId in d.graph.succ && d.graph.succ[RootNodeId] == Without(g.graph.succ[RootNodeId], CutOf(cut, RootNodeId))
    ensures !CycleReachable(d.graph.succ, RootNodeId)
  {
  }

  /** A self-loop on the root is always cut: none is left on a graph from whose
      root no cycle is reachable. */
  lemma SelfLoopCut(gs: seq<NodeId>, lost: seq<NodeId>, adj: Adj)
    requires RootNodeId in adj && adj[RootNodeId] == Without(gs, lost) && !CycleReachable(adj, RootNodeId)
    ensures RootNodeId in gs ==> RootNodeId in lost
  {
    var p := [RootNodeId, RootNodeId];
    assert p[0] == p[1];
    assert !Distinct(p) && |p| > 0 && p[0] == RootNodeId;
    assert !IsWalk(adj, p);
    assert RootNodeId !in adj[RootNodeId];
    WithoutIn(gs, lost, RootNodeId);
  }

  // ---------------------------------------------------------------------------
  // A graph without cycles: `cutCycles` returns it unchanged.

  lemma AcyclicNodeReadsBack(g: DepGraph, v: NodeId)
    requires g.Valid() && PkgsKeyed(g) && v in g.graph.labelOf && NodeReady(g, v)
    ensures NodeReadsBack(g, g, v)
  {
    KeyedPkgId(g, v);
  }

  lemma AcyclicRootReadsBack(g: DepGraph)
    requires RootReady(g)
    ensures GetPkgId(g.RootPkg()) == g.graph.labelOf[RootNodeId].pkgId
    ensures FinalList(g, RootNodeId) == Somes(Without(g.graph.succ[RootNodeId], []))
  {
    WithoutNone(g.graph.succ[RootNodeId]);
  }

  /** A graph whose nodes carry no label is read back whole. */
  lemma AcyclicReadsBack(g: DepGraph)
    requires RoundTripReady(g)
    ensures ReadsBack(g, g, [])
  {
    forall v | v in g.graph.labelOf && v != RootNodeId ensures NodeReadsBack(g, g, v) {
      assert NodeReady(g, v);
      AcyclicNodeReadsBack(g, v);
    }
    AcyclicRootReadsBack(g);
  }

  // ---------------------------------------------------------------------------
  // Rebuilding what is read back.

  lemma SomesIn(xs: seq<NodeId>, t: Option<NodeId>)
    requires t in Somes(xs)
    ensures t.Some? && t.value in xs
  {
    var i :| 0 <= i < |xs| && Somes(xs)[i] == t;
  }

  /** What is read back names only nodes, so `reconnectCycles` does not fail. */
  lemma ReadBackKnown(g: DepGraph, d: DepGraph, lost: seq<NodeId>)
    requires g.Valid() && g.rootNodeId == RootNodeId && d.Valid() && ReadsBack(g, d, lost)
    ensures TargetsKnown(d)
  {
    GraphFacts(g);
    forall v, t | v in d.graph.labelOf && t in FinalList(d, v)
      ensures t.Some? && (t.value == RootNodeId || t.value in d.graph.labelOf)
    {
      if v == RootNodeId {
        SomesIn(Without(g.graph.succ[v], lost), t);
        WithoutIn(g.graph.succ[v], lost, t.value);
      } else {
        assert NodeReadsBack(g, d, v);
        SomesIn(g.graph.succ[v], t);
      }
    }
  }

  /** A node other than 'root-node' is rebuilt as it was. */
  lemma NodeRebuilt(g: DepGraph, d: DepGraph, e: DepGraph, v: NodeId)
    requires g.Valid() && d.Valid() && e.Valid() && v in g.graph.labelOf && v in d.graph.labelOf && v in e.graph.labelOf
    requires NodeReadsBack(g, d, v)
    requires e.graph.labelOf[v] == GraphNode(NodePkgId(d, v), ReconnectInfo(JsonNodeOf(d, v).info))
    requires v in e.graph.succ && e.graph.succ[v] == AppendNew([], Unwrap(FinalList(d, v)))
    ensures JsonNodeOf(e, v) == JsonNodeOf(g, v)
  {
    GraphFacts(g);
    UnwrapSomes(g.graph.succ[v]);
    AppendNewDistinct(g.graph.succ[v]);
  }

  /** 'root-node' is rebuilt with the root package, no information, and its
      dependencies except the lost ones. */
  lemma RootRebuilt(g: DepGraph, d: DepGraph, e: DepGraph, lost: seq<NodeId>)
    requires RootReady(g) && d.Valid() && RootNodeId in d.graph.labelOf && e.Valid() && RootNodeId in e.graph.labelOf
    requires GetPkgId(d.RootPkg()) == g.graph.labelOf[RootNodeId].pkgId
    requires FinalList(d, RootNodeId) == Somes(Without(g.graph.succ[RootNodeId], lost))
    requires e.graph.labelOf[RootNodeId] == GraphNode(GetPkgId(d.RootPkg()), None)
    requires RootNodeId in e.graph.succ && e.graph.succ[RootNodeId] == AppendNew([], Unwrap(FinalList(d, RootNodeId)))
    ensures JsonNodeOf(e, RootNodeId) == JsonNodeOf(g, RootNodeId).(deps := Without(g.graph.succ[RootNodeId], lost))
  {
    GraphFacts(g);
    var xs := Without(g.graph.succ[RootNodeId], lost);
    WithoutDistinct(g.graph.succ[RootNodeId], lost);
    UnwrapSomes(xs);
    AppendNewDistinct(xs);
  }

  /** Rebuilding what is read back gives the nodes of `g` back. */
  lemma ReadBackRebuilt(g: DepGraph, d: DepGraph, e: DepGraph, lost: seq<NodeId>)
    requires RootReady(g) && d.Valid() && ReadsBack(g, d, lost) && Reconnected(d, e)
    ensures SameNodesBut(g, e, lost)
  {
    forall v | v in g.graph.labelOf && v != RootNodeId
      ensures v in e.graph.labelOf && JsonNodeOf(e, v) == JsonNodeOf(g, v)
    {
      NodeRebuilt(g, d, e, v);
    }
    RootRebuilt(g, d, e, lost);
  }

  // ---------------------------------------------------------------------------
  // The round trip.

  /** What `cutCycles` returns is read back, losing only a self-loop on the
      root. */
  lemma CutCyclesReadBack(g: DepGraph, c: DepGraph, cut: map<NodeId, seq<NodeId>>) returns (lost: seq<NodeId>)
    requires RoundTripReady(g)
    requires CycleReachable(g.graph.succ, RootNodeId) ==> CutResult(KeepInfo, g, c, cut) && PkgsKeyed(c)
    requires !CycleReachable(g.graph.succ, RootNodeId) ==> c == g
    ensures c.Valid() && ReadsBack(g, c, lost) && TargetsKnown(c)
    ensures lost == if RootNodeId in g.graph.succ[RootNodeId] then [RootNodeId] else []
  {
    if CycleReachable(g.graph.succ, RootNodeId) {
      lost := CyclicReadBack(g, c, cut);
    } else {
      AcyclicReadBack(g);
      lost := [];
    }
  }

  lemma CyclicReadBack(g: DepGraph, c: DepGraph, cut: map<NodeId, seq<NodeId>>) returns (lost: seq<NodeId>)
    requires RoundTripReady(g) && CutResult(KeepInfo, g, c, cut) && PkgsKeyed(c)
    ensures c.Valid() && ReadsBack(g, c, lost) && TargetsKnown(c)
    ensures lost == if RootNodeId in g.graph.succ[RootNodeId] then [RootNodeId] else []
  {
    CutReadsBack(g, c, cut);
    lost := CutOf(cut, RootNodeId);
    CutFromRoot(g, c, cut);
    SelfLoopCut(g.graph.succ[RootNodeId], lost, c.graph.succ);
    OnlySelfLoopLost(g.graph.succ[RootNodeId], lost);
    ReadBackKnown(g, c, lost);
  }

  /** The targets cut from 'root-node', at most its self-loop, are exactly the
      self-loop when there is one. */
  lemma OnlySelfLoopLost(gs: seq<NodeId>, lost: seq<NodeId>)
    requires lost == [] || lost == [RootNodeId]
    requires (forall t :: t in lost ==> t in gs) && (RootNodeId in gs ==> RootNodeId in lost)
    ensures lost == if RootNodeId in gs then [RootNodeId] else []
  {
  }

  lemma AcyclicReadBack(g: DepGraph)
    requires RoundTripReady(g) && !CycleReachable(g.graph.succ, RootNodeId)
    ensures ReadsBack(g, g, []) && TargetsKnown(g)
    ensures RootNodeId !in g.graph.succ[RootNodeId]
  {
    AcyclicReadsBack(g);
    GraphFacts(g);
    SelfLoopCut(g.graph.succ[RootNodeId], [], g.graph.succ);
    WithoutNone(g.graph.succ[RootNodeId]);
    ReadBackKnown(g, g, []);
  }

  /** Every package is owned by some node. */
  ghost predicate PkgsUsed(g: DepGraph) {
    forall k :: k in g.pkgs.m ==> exists v :: v in g.graph.labelOf && g.graph.labelOf[v].pkgId == k
  }

  lemma WithinTrans(a: map<PkgId, Pkg>, b: map<PkgId, Pkg>, c: map<PkgId, Pkg>)
    requires PkgsWithin(a, b) && PkgsWithin(b, c)
    ensures PkgsWithin(a, c)
  {
  }

  /** A rebuilt graph holding only packages of `g`, with the nodes of `g` and
      their packages, holds every package of `g` when each is some node's. */
  lemma SamePkgs(g: DepGraph, e: DepGraph, lost: seq<NodeId>)
    requires g.Valid() && g.rootNodeId == RootNodeId && e.Valid() && SameNodesBut(g, e, lost)
    requires PkgsWithin(e.pkgs.m, g.pkgs.m) && PkgsUsed(g)
    ensures e.pkgs.m == g.pkgs.m
  {
    PkgIdsAgree(g, e, lost);
    SamePkgsOf(g.graph.labelOf, e.graph.labelOf, g.pkgs.m, e.pkgs.m);
  }

  lemma PkgIdsAgree(g: DepGraph, e: DepGraph, lost: seq<NodeId>)
    requires g.Valid() && g.rootNodeId == RootNodeId && e.Valid() && SameNodesBut(g, e, lost)
    ensures forall v :: v in g.graph.labelOf ==> v in e.graph.labelOf && e.graph.labelOf[v].pkgId == g.graph.labelOf[v].pkgId
    ensures forall v :: v in e.graph.labelOf ==> e.graph.labelOf[v].pkgId in e.pkgs.m
  {
    ValidReadable(e);
    forall v | v in g.graph.labelOf ensures v in e.graph.labelOf && e.graph.labelOf[v].pkgId == g.graph.labelOf[v].pkgId {
      SamePkgId(g, e, lost, v);
    }
  }

  lemma SamePkgId(g: DepGraph, e: DepGraph, lost: seq<NodeId>, v: NodeId)
    requires g.Valid() && g.rootNodeId == RootNodeId && e.Valid() && SameNodesBut(g, e, lost) && v in g.graph.labelOf
    ensures v in e.graph.labelOf && e.graph.labelOf[v].pkgId == g.graph.labelOf[v].pkgId
  {
    assert v in e.graph.labelOf;
    if v == RootNodeId {
      assert JsonNodeOf(e, v).pkgId == JsonNodeOf(g, v).pkgId;
    } else {
      assert JsonNodeOf(e, v) == JsonNodeOf(g, v);
    }
  }

  lemma SamePkgsOf(gl: map<NodeId, GraphNode>, el: map<NodeId, GraphNode>, gp: map<PkgId, Pkg>, ep: map<PkgId, Pkg>)
    requires forall v :: v in gl ==> v in el && el[v].pkgId == gl[v].pkgId
    requires forall v :: v in el ==> el[v].pkgId in ep
    requires PkgsWithin(ep, gp)
    requires forall k :: k in gp ==> exists v :: v in gl && gl[v].pkgId == k
    ensures ep == gp
  {
    forall k | k in gp ensures k in ep {
      var v :| v in gl && gl[v].pkgId == k;
      assert el[v].pkgId == k;
    }
  }

  /** `cutCycles` keeps the package manager and stores only packages of `g`. */
  lemma CutKeepsPkgs(g: DepGraph, c: DepGraph, cut: map<NodeId, seq<NodeId>>)
    requires g.Valid() && PkgsKeyed(g)
    requires CycleReachable(g.graph.succ, RootNodeId) ==> CutResult(KeepInfo, g, c, cut) && PkgsKeyed(c)
    requires !CycleReachable(g.graph.succ, RootNodeId) ==> c == g
    ensures c.Valid() && PkgsKeyed(c) && c.pkgManager == g.pkgManager && PkgsWithin(c.pkgs.m, g.pkgs.m)
  {
  }

  /** `reconnectCycles` keeps the package manager and stores only packages of
      its input. */
  lemma ReconnectKeepsPkgs(c: DepGraph, e: DepGraph)
    requires c.Valid() && PkgsKeyed(c) && Reconnected(c, e)
    ensures e.pkgManager == c.pkgManager && PkgsWithin(e.pkgs.m, c.pkgs.m)
  {
  }

  /** The package manager and the packages survive the round trip. */
  lemma RoundTripPkgs(g: DepGraph, c: DepGraph, e: DepGraph, lost: seq<NodeId>)
    requires g.Valid() && g.rootNodeId == RootNodeId && e.Valid() && SameNodesBut(g, e, lost)
    requires c.pkgManager == g.pkgManager && PkgsWithin(c.pkgs.m, g.pkgs.m)
    requires e.pkgManager == c.pkgManager && PkgsWithin(e.pkgs.m, c.pkgs.m)
    ensures e.pkgManager == g.pkgManager && PkgsWithin(e.pkgs.m, g.pkgs.m)
    ensures PkgsUsed(g) ==> e.pkgs.m == g.pkgs.m
  {
    WithinTrans(e.pkgs.m, c.pkgs.m, g.pkgs.m);
    if PkgsUsed(g) {
      SamePkgs(g, e, lost);
    }
  }

  /** `reconnectCycles(cutCycles(g))`: it does not fail, and its `toJSON()`
      has the nodes of `g.toJSON()` with the same packages, information and
      dependencies, except that 'root-node' loses its self-loop, if it has one;
      its nodes come in the order of `g`'s, 'root-node' first; it has the package
      manager of `g` and only packages of `g`, and all of them when each package
      of `g` is some node's. */
  method CutThenReconnect(g: DepGraphImpl) returns (r: Result<DepGraphImpl>, ghost lost: seq<NodeId>)
    requires RoundTripReady(g.data)
    ensures r.Ok? && r.value.data.Valid() && SameNodesBut(g.data, r.value.data, lost)
    ensures lost == if RootNodeId in g.data.graph.succ[RootNodeId] then [RootNodeId] else []
    ensures r.Ok? ==> r.value.data.graph.nodes == RebuiltOrder(g.data.graph.nodes)
    ensures r.Ok? && |g.data.graph.nodes| > 0 && g.data.graph.nodes[0] == RootNodeId ==>
              r.value.data.graph.nodes == g.data.graph.nodes
    ensures r.Ok? ==> r.value.data.pkgManager == g.data.pkgManager && PkgsWithin(r.value.data.pkgs.m, g.data.pkgs.m)
    ensures r.Ok? && PkgsUsed(g.data) ==> r.value.data.pkgs.m == g.data.pkgs.m
  {
    var c, cut := CutCycles.CutCyclesKeepingInfo(g);
    lost := CutCyclesReadBack(g.data, c.data, cut);
    r := ReconnectCycles.ReconnectCycles(c);
    ReadBackRebuilt(g.data, c.data, r.value.data, lost);
    CutKeepsPkgs(g.data, c.data, cut);
    ReconnectKeepsPkgs(c.data, r.value.data);
    RoundTripPkgs(g.data, c.data, r.value.data, lost);
    if CycleReachable(g.data.graph.succ, RootNodeId) {
      RebuiltOrderTwice(g.data.graph.nodes);
    }
    if |g.data.graph.nodes| > 0 && g.data.graph.nodes[0] == RootNodeId {
      GraphMapsOf(g.data);
      RebuiltOrderRootFirst(g.data.graph.nodes);
    }
  }
}

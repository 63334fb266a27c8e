/** `cutCycles` (`src/cycles/cut-cycles.ts`): while a cycle is reachable from
    'root-node', remove the edge that closes it and record the removed edge as a
    token in the parent's node information, then rebuild the graph through the
    builder from the maps. */
module CutCycles {
  import opened Wrappers
  import opened Strings
  import opened Graphs
  import opened OrderedMaps
  import opened Types
  import opened DepGraphs
  import opened Builders
  import opened Edges
  import opened FindCycles
  import opened GraphMaps
  import opened Replay

  /** The label that carries a node's removed edges. */
  const RemovedLabel := "removed-cyclic-deps"

  /** `depGraph.hasCycles()`: some cycle is reachable from the root node. */
  method HasCycles(g: DepGraph) returns (b: bool)
    ensures b <==> CycleReachable(g.graph.succ, g.rootNodeId)
  {
    var c := FindCycle(g.graph.succ, g.rootNodeId);
    b := c.Some?;
  }

  /** `getCycle(edgesMap)`: a cycle reachable from 'root-node', if any. */
  method GetCycle(edges: OMap<NodeId, seq<NodeId>>) returns (c: Option<seq<NodeId>>)
    ensures c.None? <==> !CycleReachable(edges.m, RootNodeId)
    ensures c.Some? ==> IsCycle(edges.m, c.value)
    ensures c.Some? && c.value[0] == RootNodeId ==> c.value == [RootNodeId]
  {
    c := FindCycle(edges.m, RootNodeId);
  }

  // ---------------------------------------------------------------------------
  // Removing edges.

  /** `xs.filter(x => !cs.includes(x))`. */
  function Without(xs: seq<NodeId>, cs: seq<NodeId>): (r: seq<NodeId>)
    ensures |r| <= |xs|
    decreases |xs|
  {
    if xs == [] then []
    else Without(xs[..|xs| - 1], cs) + (if xs[|xs| - 1] in cs then [] else [xs[|xs| - 1]])
  }

  /** The filter keeps exactly the entries not in `cs`. */
  lemma {:induction false} WithoutIn(xs: seq<NodeId>, cs: seq<NodeId>, x: NodeId)
    ensures x in Without(xs, cs) <==> x in xs && x !in cs
    decreases |xs|
  {
    if xs != [] {
      var init := xs[..|xs| - 1];
      WithoutIn(init, cs, x);
      assert xs == init + [xs[|xs| - 1]];
    }
  }

  /** Filtering out nothing changes nothing. */
  lemma {:induction false} WithoutNone(xs: seq<NodeId>)
    ensures Without(xs, []) == xs
    decreases |xs|
  {
    if xs != [] {
      WithoutNone(xs[..|xs| - 1]);
    }
  }

  /** Filtering out one more target is filtering out the longer list. */
  lemma {:induction false} WithoutMore(xs: seq<NodeId>, cs: seq<NodeId>, t: NodeId)
    ensures Without(Without(xs, cs), [t]) == Without(xs, cs + [t])
    decreases |xs|
  {
    if xs != [] {
      var init := xs[..|xs| - 1];
      var x := xs[|xs| - 1];
      WithoutMore(init, cs, t);
      var w0 := Without(init, cs);
      var w := Without(xs, cs);
      if x in cs {
        assert w == w0;
        assert x in cs + [t];
      } else {
        assert w == w0 + [x];
        assert w[..|w| - 1] == w0;
        assert (x in [t]) == (x in cs + [t]);
      }
    }
  }

  /** Filtering out a member shortens the list. */
  lemma {:induction false} WithoutShrinks(xs: seq<NodeId>, t: NodeId)
    requires t in xs
    ensures |Without(xs, [t])| < |xs|
    decreases |xs|
  {
    var init := xs[..|xs| - 1];
    assert xs == init + [xs[|xs| - 1]];
    if xs[|xs| - 1] != t {
      assert t in init;
      WithoutShrinks(init, t);
    }
  }

  /** Filtering a list with one more entry. */
  lemma WithoutSnoc(xs: seq<NodeId>, x: NodeId, cs: seq<NodeId>)
    ensures Without(xs + [x], cs) == Without(xs, cs) + (if x in cs then [] else [x])
  {
    assert (xs + [x])[..|xs + [x]| - 1] == xs;
  }

  /** The node order of a graph the builder rebuilds from the nodes `nodes`:
      'root-node' first, from the builder, then the others in their order. */
  function RebuiltOrder(nodes: seq<NodeId>): seq<NodeId> {
    [RootNodeId] + Without(nodes, [RootNodeId])
  }

  /** Filtering a concatenation filters each part. */
  lemma {:induction false} WithoutAppend(xs: seq<NodeId>, ys: seq<NodeId>, cs: seq<NodeId>)
    ensures Without(xs + ys, cs) == Without(xs, cs) + Without(ys, cs)
    decreases |ys|
  {
    if ys != [] {
      var init := ys[..|ys| - 1];
      var y := ys[|ys| - 1];
      assert ys == init + [y];
      assert xs + ys == (xs + init) + [y];
      WithoutAppend(xs, init, cs);
      WithoutSnoc(xs + init, y, cs);
      WithoutSnoc(init, y, cs);
    } else {
      assert xs + ys == xs;
    }
  }

  /** Filtering twice is filtering once. */
  lemma {:induction false} WithoutTwice(xs: seq<NodeId>, cs: seq<NodeId>)
    ensures Without(Without(xs, cs), cs) == Without(xs, cs)
    decreases |xs|
  {
    if xs != [] {
      var init := xs[..|xs| - 1];
      var x := xs[|xs| - 1];
      assert xs == init + [x];
      WithoutTwice(init, cs);
      WithoutSnoc(init, x, cs);
      if x !in cs {
        WithoutSnoc(Without(init, cs), x, cs);
        assert Without(xs, cs) == Without(init, cs) + [x];
      } else {
        assert Without(xs, cs) == Without(init, cs);
      }
    }
  }

  /** Rebuilding a rebuilt graph keeps its node order. */
  lemma RebuiltOrderTwice(nodes: seq<NodeId>)
    ensures RebuiltOrder(RebuiltOrder(nodes)) == RebuiltOrder(nodes)
  {
    var w := Without(nodes, [RootNodeId]);
    WithoutAppend([RootNodeId], w, [RootNodeId]);
    WithoutSnoc([], RootNodeId, [RootNodeId]);
    WithoutTwice(nodes, [RootNodeId]);
  }

  /** A graph whose node list starts with 'root-node', as every graph the
      builder makes does, is rebuilt in its own node order. */
  lemma RebuiltOrderRootFirst(nodes: seq<NodeId>)
    requires |nodes| > 0 && nodes[0] == RootNodeId && Distinct(nodes)
    ensures RebuiltOrder(nodes) == nodes
  {
    var rest := nodes[1..];
    assert nodes == [RootNodeId] + rest;
    WithoutAppend([RootNodeId], rest, [RootNodeId]);
    WithoutSnoc([], RootNodeId, [RootNodeId]);
    forall v | v in rest ensures v != RootNodeId {
      var k :| 0 <= k < |rest| && rest[k] == v;
      assert nodes[k + 1] == v;
    }
    WithoutNotIn(rest, RootNodeId);
  }

  /** Filtering out an absent entry changes nothing. */
  lemma {:induction false} WithoutNotIn(xs: seq<NodeId>, c: NodeId)
    requires c !in xs
    ensures Without(xs, [c]) == xs
    decreases |xs|
  {
    if xs != [] {
      var init := xs[..|xs| - 1];
      assert xs == init + [xs[|xs| - 1]];
      WithoutNotIn(init, c);
    }
  }

  /** The tokens recorded for the removed targets `cs` of a node whose original
      dependencies are `deps`, in removal order. */
  function Tokens(deps: seq<NodeId>, cs: seq<NodeId>): seq<string> {
    seq(|cs|, i requires 0 <= i < |cs| => BuildEdge(FindIndex(deps, cs[i]), cs[i]))
  }

  lemma TokensSnoc(deps: seq<NodeId>, cs: seq<NodeId>, t: NodeId)
    ensures Tokens(deps, cs + [t]) == Tokens(deps, cs) + [BuildEdge(FindIndex(deps, t), t)]
  {
    var ts := Tokens(deps, cs + [t]);
    assert forall i :: 0 <= i < |cs| ==> (cs + [t])[i] == cs[i];
  }

  /** The tokens recorded for `k` so far. */
  function TokensOf(removed: OMap<NodeId, seq<string>>, k: NodeId): seq<string> {
    if k in removed.m then removed.m[k] else []
  }

  /** Setting a key twice is setting it once, to the second value. */
  lemma SetTwice(om: OMap<NodeId, seq<string>>, k: NodeId, a: seq<string>, b: seq<string>)
    ensures om.Set(k, a).Set(k, b) == om.Set(k, b)
  {
    assert om.Set(k, a).Set(k, b).m == om.Set(k, b).m;
  }

  /** The targets cut from `k` so far. */
  function CutOf(cut: map<NodeId, seq<NodeId>>, k: NodeId): seq<NodeId> {
    if k in cut then cut[k] else []
  }

  /** The number of edges of the listed nodes. */
  function Total(keys: seq<NodeId>, m: map<NodeId, seq<NodeId>>): nat
    requires forall k :: k in keys ==> k in m
    decreases |keys|
  {
    if keys == [] then 0 else Total(keys[..|keys| - 1], m) + |m[keys[|keys| - 1]]|
  }

  lemma {:induction false} TotalSame(keys: seq<NodeId>, m: map<NodeId, seq<NodeId>>, m': map<NodeId, seq<NodeId>>)
    requires forall x :: x in keys ==> x in m && x in m' && m[x] == m'[x]
    ensures Total(keys, m) == Total(keys, m')
    decreases |keys|
  {
    if keys != [] {
      TotalSame(keys[..|keys| - 1], m, m');
    }
  }

  /** Replacing one listed entry changes the total by the difference in length. */
  lemma {:induction false} TotalUpdate(keys: seq<NodeId>, m: map<NodeId, seq<NodeId>>, k: NodeId, s: seq<NodeId>)
    requires Distinct(keys) && k in keys && forall x :: x in keys ==> x in m
    ensures Total(keys, m[k := s]) + |m[k]| == Total(keys, m) + |s|
    decreases |keys|
  {
    var init := keys[..|keys| - 1];
    var last := keys[|keys| - 1];
    assert keys == init + [last];
    if last == k {
      assert k !in init;
      TotalSame(init, m, m[k := s]);
    } else {
      assert k in init;
      TotalUpdate(init, m, k, s);
    }
  }

  /** The edge map is the original one with each node's cut targets filtered out. */
  ghost predicate EdgesCut(orig: OMap<NodeId, seq<NodeId>>, edges: OMap<NodeId, seq<NodeId>>, cut: map<NodeId, seq<NodeId>>) {
    edges.keys == orig.keys && edges.m.Keys == orig.m.Keys &&
    forall k :: k in orig.m ==> edges.m[k] == Without(orig.m[k], CutOf(cut, k))
  }

  /** Node `k` has its distinct cut targets, all original dependencies,
      recorded as tokens under its id. */
  ghost predicate RecordedAt(mp: Maps, cs: seq<NodeId>, tokens: seq<string>, k: NodeId) {
    k in mp.nodesMap.m && k in mp.edgesMap.m && cs != [] && Distinct(cs) &&
    (forall t :: t in cs ==> t in mp.edgesMap.m[k]) &&
    tokens == Tokens(mp.nodesMap.m[k].deps, cs)
  }

  /** Every node with cut edges has them recorded. */
  ghost predicate CutRecorded(mp: Maps, cut: map<NodeId, seq<NodeId>>, removed: OMap<NodeId, seq<string>>) {
    removed.Valid() && removed.m.Keys == cut.Keys &&
    forall k :: k in cut ==> RecordedAt(mp, cut[k], removed.m[k], k)
  }

  ghost predicate CutInv(mp: Maps, edges: OMap<NodeId, seq<NodeId>>, cut: map<NodeId, seq<NodeId>>, removed: OMap<NodeId, seq<string>>) {
    EdgesCut(mp.edgesMap, edges, cut) && CutRecorded(mp, cut, removed) && RootCutSelf(cut)
  }

  /** The search starts at 'root-node', so the closing edge of a cycle leaves
      'root-node' only when it is a self-loop. */
  ghost predicate RootCutSelf(cut: map<NodeId, seq<NodeId>>) {
    CutOf(cut, RootNodeId) == [] || CutOf(cut, RootNodeId) == [RootNodeId]
  }

  lemma CutStart(mp: Maps)
    requires mp.edgesMap.Valid()
    ensures CutInv(mp, mp.edgesMap, map[], EmptyMap())
  {
    forall k | k in mp.edgesMap.m ensures mp.edgesMap.m[k] == Without(mp.edgesMap.m[k], []) {
      WithoutNone(mp.edgesMap.m[k]);
    }
  }

  /** Removing the edge `from -> to` keeps the edge map the filtered original. */
  lemma CutStepEdges(orig: OMap<NodeId, seq<NodeId>>, edges: OMap<NodeId, seq<NodeId>>, cut: map<NodeId, seq<NodeId>>,
                     from: NodeId, to: NodeId)
    requires EdgesCut(orig, edges, cut) && from in edges.m
    ensures EdgesCut(orig, edges.Set(from, Without(edges.m[from], [to])), cut[from := CutOf(cut, from) + [to]])
  {
    WithoutMore(orig.m[from], CutOf(cut, from), to);
  }

  /** Removing the edge `from -> to`, not cut before, records one more token. */
  lemma CutStepRecorded(mp: Maps, cut: map<NodeId, seq<NodeId>>, removed: OMap<NodeId, seq<string>>, from: NodeId, to: NodeId)
    requires CutRecorded(mp, cut, removed)
    requires from in mp.nodesMap.m && from in mp.edgesMap.m && to in mp.edgesMap.m[from] && to !in CutOf(cut, from)
    ensures CutRecorded(mp, cut[from := CutOf(cut, from) + [to]],
                        removed.Set(from, TokensOf(removed, from) + [BuildEdge(FindIndex(mp.nodesMap.m[from].deps, to), to)]))
  {
    var cut' := cut[from := CutOf(cut, from) + [to]];
    var removed' := removed.Set(from, TokensOf(removed, from) + [BuildEdge(FindIndex(mp.nodesMap.m[from].deps, to), to)]);
    RecordSnoc(mp, CutOf(cut, from), TokensOf(removed, from), from, to);
    forall k | k in cut' ensures RecordedAt(mp, cut'[k], removed'.m[k], k) {
      if k != from {
        assert cut'[k] == cut[k] && removed'.m[k] == removed.m[k];
      }
    }
  }

  /** One more cut target of `from` gives one more token. */
  lemma RecordSnoc(mp: Maps, cs: seq<NodeId>, tokens: seq<string>, from: NodeId, to: NodeId)
    requires (cs == [] && tokens == []) || RecordedAt(mp, cs, tokens, from)
    requires from in mp.nodesMap.m && from in mp.edgesMap.m && to in mp.edgesMap.m[from] && to !in cs
    ensures RecordedAt(mp, cs + [to], tokens + [BuildEdge(FindIndex(mp.nodesMap.m[from].deps, to), to)], from)
  {
    TokensSnoc(mp.nodesMap.m[from].deps, cs, to);
    assert Distinct(cs + [to]);
  }

  /** Cutting a self-loop on 'root-node' not cut before, or an edge from
      another node, leaves at most the self-loop cut from 'root-node'. */
  lemma CutStepRoot(cut: map<NodeId, seq<NodeId>>, from: NodeId, to: NodeId)
    requires RootCutSelf(cut) && (from == RootNodeId ==> to == RootNodeId) && to !in CutOf(cut, from)
    ensures RootCutSelf(cut[from := CutOf(cut, from) + [to]])
  {
    var cut' := cut[from := CutOf(cut, from) + [to]];
    if from == RootNodeId {
      assert CutOf(cut', RootNodeId) == CutOf(cut, RootNodeId) + [RootNodeId];
    } else {
      assert CutOf(cut', RootNodeId) == CutOf(cut, RootNodeId);
    }
  }

  /** Removing an edge lowers the number of edges left. */
  lemma CutStepTotal(orig: OMap<NodeId, seq<NodeId>>, edges: OMap<NodeId, seq<NodeId>>, from: NodeId, to: NodeId)
    requires orig.Valid() && edges.keys == orig.keys && edges.m.Keys == orig.m.Keys
    requires from in edges.m && to in edges.m[from]
    ensures Total(orig.keys, edges.Set(from, Without(edges.m[from], [to])).m) < Total(orig.keys, edges.m)
  {
    WithoutShrinks(edges.m[from], to);
    TotalUpdate(orig.keys, edges.m, from, Without(edges.m[from], [to]));
  }

  /** The invariant of the cutting loop with the facts its body needs. */
  ghost predicate CutLoop(mp: Maps, edges: OMap<NodeId, seq<NodeId>>, cut: map<NodeId, seq<NodeId>>, removed: OMap<NodeId, seq<string>>) {
    mp.edgesMap.Valid() && mp.edgesMap.m.Keys == mp.nodesMap.m.Keys && CutInv(mp, edges, cut, removed)
  }

  /** One turn of the cutting loop, on the state the loop keeps. */
  method CutOne(mp: Maps, edges: OMap<NodeId, seq<NodeId>>, removed: OMap<NodeId, seq<string>>,
                ghost cut: map<NodeId, seq<NodeId>>, from: NodeId, to: NodeId)
    returns (edges': OMap<NodeId, seq<NodeId>>, removed': OMap<NodeId, seq<string>>, ghost cut': map<NodeId, seq<NodeId>>)
    requires CutLoop(mp, edges, cut, removed) && to in Next(edges.m, from)
    requires from == RootNodeId ==> to == RootNodeId
    ensures CutLoop(mp, edges', cut', removed')
    ensures Total(mp.edgesMap.keys, edges'.m) < Total(mp.edgesMap.keys, edges.m)
  {
    assert from in edges.m && to in edges.m[from];
    WithoutIn(mp.edgesMap.m[from], CutOf(cut, from), to);
    CutStepEdges(mp.edgesMap, edges, cut, from, to);
    CutStepRecorded(mp, cut, removed, from, to);
    CutStepTotal(mp.edgesMap, edges, from, to);
    CutStepRoot(cut, from, to);
    edges' := edges.Set(from, Without(edges.m[from], [to]));
    var index := FindIndex(mp.nodesMap.m[from].deps, to);
    ghost var tokens := TokensOf(removed, from) + [BuildEdge(index, to)];
    removed' := removed;
    if from !in removed'.m {
      removed' := removed'.Set(from, []);
    }
    assert removed'.m[from] == TokensOf(removed, from);
    removed' := removed'.Set(from, removed'.m[from] + [BuildEdge(index, to)]);
    if from !in removed.m {
      SetTwice(removed, from, [], tokens);
    }
    assert removed' == removed.Set(from, tokens);
    cut' := cut[from := CutOf(cut, from) + [to]];
  }

  /** The `while (cycle)` loop: cut the closing edge of the cycle found from
      'root-node' until none is found. The node map is read, never changed. */
  method CutEdges(mp: Maps) returns (edges: OMap<NodeId, seq<NodeId>>, removed: OMap<NodeId, seq<string>>,
                                     ghost cut: map<NodeId, seq<NodeId>>)
    requires mp.edgesMap.Valid() && mp.edgesMap.m.Keys == mp.nodesMap.m.Keys
    ensures CutInv(mp, edges, cut, removed)
    ensures !CycleReachable(edges.m, RootNodeId)
  {
    edges := mp.edgesMap;
    removed := EmptyMap();
    cut := map[];
    CutStart(mp);
    var cycle := GetCycle(edges);
    while cycle.Some?
      invariant CutLoop(mp, edges, cut, removed)
      invariant cycle.None? ==> !CycleReachable(edges.m, RootNodeId)
      invariant cycle.Some? ==> IsCycle(edges.m, cycle.value)
      invariant cycle.Some? && cycle.value[0] == RootNodeId ==> cycle.value == [RootNodeId]
      decreases Total(mp.edgesMap.keys, edges.m)
    {
      var from := cycle.value[0];
      var to := cycle.value[|cycle.value| - 1];
      edges, removed, cut := CutOne(mp, edges, removed, cut, from, to);
      cycle := GetCycle(edges);
    }
  }

  // ---------------------------------------------------------------------------
  // Rebuilding.

  /** Which information `cutCycles` re-adds a node without removed edges with:
      none, as written, or its own, as the round trip needs. */
  datatype InfoRule = DropInfo | KeepInfo

  /** The node information a node is re-added with: with removed edges, a copy
      of its information whose labels gain the comma-joined tokens; without, no
      information under `DropInfo` and the information unchanged under `KeepInfo`. */
  function CutNodeInfo(rule: InfoRule, info: Option<NodeInfo>, tokens: Option<seq<string>>): (r: Option<NodeInfo>)
    ensures tokens.None? && rule.DropInfo? ==> r.None?
    ensures tokens.None? && rule.KeepInfo? ==> r == info
    ensures tokens.Some? ==> r.Some? && r.value.labels.Some? && RemovedLabel in r.value.labels.value
    ensures tokens.Some? ==> r.value.labels.value[RemovedLabel] == Join(tokens.value, ",")
    ensures tokens.Some? && info.Some? ==> r.value.versionProvenance == info.value.versionProvenance
    ensures tokens.Some? ==> forall l :: l != RemovedLabel ==>
              (l in r.value.labels.value <==> info.Some? && info.value.labels.Some? && l in info.value.labels.value)
    ensures tokens.Some? ==> forall l :: l != RemovedLabel && l in r.value.labels.value ==>
              r.value.labels.value[l] == info.value.labels.value[l]
  {
    if tokens.None? then (if rule.KeepInfo? then info else None)
    else
      var base := if info.Some? then info.value else NoInfo;
      var labels := if base.labels.Some? then base.labels.value else map[];
      Some(NodeInfo(base.versionProvenance, Some(labels[RemovedLabel := Join(tokens.value, ",")])))
  }

  /** The `addPkgNode` call for node `n`, with its package and its re-added
      information. */
  function CutEntry(rule: InfoRule, n: JsonNode, removed: OMap<NodeId, seq<string>>, pkgs: map<PkgId, Pkg>): NodeEntry
    requires n.pkgId in pkgs
  {
    NodeEntry(pkgs[n.pkgId], n.nodeId, CutNodeInfo(rule, n.info, removed.Get(n.nodeId)))
  }

  /** The `addPkgNode` calls of the node loop: every node but 'root-node'. */
  function CutEntries(rule: InfoRule, vals: seq<JsonNode>, removed: OMap<NodeId, seq<string>>, pkgs: map<PkgId, Pkg>): (r: seq<NodeEntry>)
    requires forall i :: 0 <= i < |vals| ==> vals[i].pkgId in pkgs
    ensures RootNodeId !in EntryIds(r)
    decreases |vals|
  {
    if vals == [] then []
    else
      var n := vals[|vals| - 1];
      var r0 := CutEntries(rule, vals[..|vals| - 1], removed, pkgs);
      if n.nodeId == RootNodeId then r0
      else
        var r := r0 + [CutEntry(rule, n, removed, pkgs)];
        assert EntryIds(r) == EntryIds(r0) + [n.nodeId];
        r
  }

  lemma CutEntriesSnoc(rule: InfoRule, vals: seq<JsonNode>, n: JsonNode, removed: OMap<NodeId, seq<string>>, pkgs: map<PkgId, Pkg>)
    requires (forall i :: 0 <= i < |vals| ==> vals[i].pkgId in pkgs) && n.pkgId in pkgs
    ensures forall i :: 0 <= i < |vals + [n]| ==> (vals + [n])[i].pkgId in pkgs
    ensures CutEntries(rule, vals + [n], removed, pkgs) ==
            CutEntries(rule, vals, removed, pkgs) + (if n.nodeId == RootNodeId then [] else [CutEntry(rule, n, removed, pkgs)])
  {
    assert (vals + [n])[..|vals|] == vals;
  }

  /** With every package stored under its own id, each entry's package is the
      one stored under its id. */
  lemma {:induction false} CutEntriesFrom(rule: InfoRule, vals: seq<JsonNode>, removed: OMap<NodeId, seq<string>>, pkgs: map<PkgId, Pkg>)
    requires forall i :: 0 <= i < |vals| ==> vals[i].pkgId in pkgs
    requires forall k :: k in pkgs ==> GetPkgId(pkgs[k]) == k
    ensures EntriesFrom(CutEntries(rule, vals, removed, pkgs), pkgs)
    decreases |vals|
  {
    if vals != [] {
      CutEntriesFrom(rule, vals[..|vals| - 1], removed, pkgs);
    }
  }

  /** `es` holds the entries of the first `i` nodes, and `s` is their replay on `s0`. */
  ghost predicate NodeLoop(rule: InfoRule, s: DepGraph, s0: DepGraph, vals: seq<JsonNode>, removed: OMap<NodeId, seq<string>>,
                           pkgs: map<PkgId, Pkg>, i: nat, es: seq<NodeEntry>)
    requires forall k :: 0 <= k < |vals| ==> vals[k].pkgId in pkgs
  {
    i <= |vals| && s0.rootNodeId == RootNodeId && es == CutEntries(rule, vals[..i], removed, pkgs) && s == AddAll(s0, es)
  }

  lemma NodeLoopEnd(rule: InfoRule, s: DepGraph, s0: DepGraph, vals: seq<JsonNode>, removed: OMap<NodeId, seq<string>>,
                    pkgs: map<PkgId, Pkg>, es: seq<NodeEntry>)
    requires forall k :: 0 <= k < |vals| ==> vals[k].pkgId in pkgs
    requires NodeLoop(rule, s, s0, vals, removed, pkgs, |vals|, es)
    ensures s == AddAll(s0, CutEntries(rule, vals, removed, pkgs))
  {
    assert vals[..|vals|] == vals;
  }

  /** One turn of the loop over `nodesMap.values()`, on values. */
  lemma NodeStep(rule: InfoRule, s: DepGraph, s0: DepGraph, vals: seq<JsonNode>, removed: OMap<NodeId, seq<string>>, pkgs: map<PkgId, Pkg>,
                 i: nat, es: seq<NodeEntry>)
    requires i < |vals| && forall k :: 0 <= k < |vals| ==> vals[k].pkgId in pkgs
    requires NodeLoop(rule, s, s0, vals, removed, pkgs, i, es)
    ensures vals[i].nodeId == RootNodeId ==> NodeLoop(rule, s, s0, vals, removed, pkgs, i + 1, es)
    ensures vals[i].nodeId != RootNodeId ==>
      var n := vals[i];
      var r := AddPkgNodeTo(s, pkgs[n.pkgId], n.nodeId, CutNodeInfo(rule, n.info, removed.Get(n.nodeId)));
      r.Ok? && NodeLoop(rule, r.value, s0, vals, removed, pkgs, i + 1, es + [CutEntry(rule, n, removed, pkgs)])
  {
    var n := vals[i];
    assert vals[..i + 1] == vals[..i] + [n];
    CutEntriesSnoc(rule, vals[..i], n, removed, pkgs);
    if n.nodeId != RootNodeId {
      AddAllSnoc(s0, es, CutEntry(rule, n, removed, pkgs));
    }
  }

  /** One turn of the loop over `nodesMap.values()`. */
  method AddCutNode(rule: InfoRule, b: DepGraphBuilder, vals: seq<JsonNode>, removed: OMap<NodeId, seq<string>>, pkgs: map<PkgId, Pkg>,
                    i: nat, ghost s0: DepGraph, ghost es: seq<NodeEntry>)
    returns (ghost es': seq<NodeEntry>)
    requires i < |vals| && forall k :: 0 <= k < |vals| ==> vals[k].pkgId in pkgs
    requires b.Valid() && NodeLoop(rule, b.state, s0, vals, removed, pkgs, i, es)
    modifies b
    ensures b.Valid() && NodeLoop(rule, b.state, s0, vals, removed, pkgs, i + 1, es')
  {
    var n := vals[i];
    NodeStep(rule, b.state, s0, vals, removed, pkgs, i, es);
    es' := es;
    if n.nodeId != RootNodeId {
      var r := b.AddPkgNode(pkgs[n.pkgId], n.nodeId, CutNodeInfo(rule, n.info, removed.Get(n.nodeId)));
      es' := es + [CutEntry(rule, n, removed, pkgs)];
    }
  }

  /** The loop over `nodesMap.values()`. */
  method AddCutNodes(rule: InfoRule, b: DepGraphBuilder, vals: seq<JsonNode>, removed: OMap<NodeId, seq<string>>, pkgs: map<PkgId, Pkg>)
    requires b.Valid() && forall i :: 0 <= i < |vals| ==> vals[i].pkgId in pkgs
    modifies b
    ensures b.Valid()
    ensures b.state == AddAll(old(b.state), CutEntries(rule, vals, removed, pkgs))
  {
    ghost var s0 := b.state;
    ghost var es: seq<NodeEntry> := [];
    assert vals[..0] == [];
    var i := 0;
    while i < |vals|
      invariant b.Valid() && NodeLoop(rule, b.state, s0, vals, removed, pkgs, i, es)
      decreases |vals| - i
    {
      es := AddCutNode(rule, b, vals, removed, pkgs, i, s0, es);
      i := i + 1;
    }
    NodeLoopEnd(rule, b.state, s0, vals, removed, pkgs, es);
  }

  /** `qs` is `ps` followed by the pairs of the first `j` targets of `from`, and
      `s` is their replay on `s0`. */
  ghost predicate TargetLoop(s: DepGraph, s0: DepGraph, ps: seq<(NodeId, NodeId)>, from: NodeId, ts: seq<NodeId>,
                             j: nat, qs: seq<(NodeId, NodeId)>) {
    j <= |ts| && qs == ps + PairsFrom(from, ts[..j]) && Replayed(s, s0, qs)
  }

  lemma TargetLoopStart(s: DepGraph, s0: DepGraph, ps: seq<(NodeId, NodeId)>, from: NodeId, ts: seq<NodeId>)
    requires Replayed(s, s0, ps)
    ensures TargetLoop(s, s0, ps, from, ts, 0, ps)
  {
    assert ps + PairsFrom(from, ts[..0]) == ps;
  }

  lemma TargetLoopEnd(s: DepGraph, s0: DepGraph, ps: seq<(NodeId, NodeId)>, from: NodeId, ts: seq<NodeId>, qs: seq<(NodeId, NodeId)>)
    requires TargetLoop(s, s0, ps, from, ts, |ts|, qs)
    ensures Replayed(s, s0, ps + PairsFrom(from, ts))
  {
    assert ts[..|ts|] == ts;
  }

  /** One `connectDep(from, t)` call of the inner loop. */
  method ConnectTarget(b: DepGraphBuilder, from: NodeId, ts: seq<NodeId>, j: nat, ghost s0: DepGraph,
                       ghost ps: seq<(NodeId, NodeId)>, ghost qs: seq<(NodeId, NodeId)>)
    returns (ghost qs': seq<(NodeId, NodeId)>)
    requires j < |ts| && from in s0.graph.labelOf && ts[j] in s0.graph.labelOf
    requires b.Valid() && TargetLoop(b.state, s0, ps, from, ts, j, qs)
    modifies b
    ensures b.Valid() && TargetLoop(b.state, s0, ps, from, ts, j + 1, qs')
  {
    PairsFromSnoc(ps, from, ts, j);
    ReplayStep(b.state, s0, qs, (from, ts[j]));
    var r := b.ConnectDep(from, ts[j]);
    qs' := qs + [(from, ts[j])];
  }

  /** `to.forEach(t => builder.connectDep(from, t))`, between existing nodes. */
  method ConnectFrom(b: DepGraphBuilder, from: NodeId, ts: seq<NodeId>, ghost s0: DepGraph, ghost ps: seq<(NodeId, NodeId)>)
    requires b.Valid() && Replayed(b.state, s0, ps)
    requires from in s0.graph.labelOf && forall t :: t in ts ==> t in s0.graph.labelOf
    modifies b
    ensures b.Valid() && Replayed(b.state, s0, ps + PairsFrom(from, ts))
  {
    ghost var qs := ps;
    TargetLoopStart(b.state, s0, ps, from, ts);
    var j := 0;
    while j < |ts|
      invariant b.Valid() && TargetLoop(b.state, s0, ps, from, ts, j, qs)
      decreases |ts| - j
    {
      qs := ConnectTarget(b, from, ts, j, s0, ps, qs);
      j := j + 1;
    }
    TargetLoopEnd(b.state, s0, ps, from, ts, qs);
  }

  /** `ps` holds the pairs of the first `i` listed nodes, all inside the graph,
      and `s` is their replay on `s0`. */
  ghost predicate EdgeLoop(s: DepGraph, s0: DepGraph, keys: seq<NodeId>, m: map<NodeId, seq<NodeId>>, i: nat,
                           ps: seq<(NodeId, NodeId)>) {
    i <= |keys| && EdgesIn(keys[..i], m, s0.graph.labelOf) && ps == EdgePairs(keys[..i], m) && Replayed(s, s0, ps)
  }

  lemma EdgeLoopStart(s0: DepGraph, keys: seq<NodeId>, m: map<NodeId, seq<NodeId>>)
    requires KeysAgree(s0)
    ensures EdgeLoop(s0, s0, keys, m, 0, [])
  {
    assert keys[..0] == [];
  }

  lemma EdgeLoopEnd(s: DepGraph, s0: DepGraph, keys: seq<NodeId>, m: map<NodeId, seq<NodeId>>, ps: seq<(NodeId, NodeId)>)
    requires EdgeLoop(s, s0, keys, m, |keys|, ps)
    ensures Replayed(s, s0, EdgePairs(keys, m))
  {
    assert keys[..|keys|] == keys;
  }

  /** One turn of the loop over the edge map. */
  method ConnectKey(b: DepGraphBuilder, edges: OMap<NodeId, seq<NodeId>>, i: nat, ghost s0: DepGraph, ghost ps: seq<(NodeId, NodeId)>)
    returns (ghost ps': seq<(NodeId, NodeId)>)
    requires i < |edges.keys| && EdgesIn(edges.keys, edges.m, s0.graph.labelOf)
    requires b.Valid() && EdgeLoop(b.state, s0, edges.keys, edges.m, i, ps)
    modifies b
    ensures b.Valid() && EdgeLoop(b.state, s0, edges.keys, edges.m, i + 1, ps')
  {
    var from := edges.keys[i];
    EdgePairsNext(edges.keys, edges.m, s0.graph.labelOf, i);
    ConnectFrom(b, from, edges.m[from], s0, ps);
    ps' := ps + PairsFrom(from, edges.m[from]);
  }

  /** `for (const [from, to] of edges.entries()) to.forEach(t => connectDep(from, t))`,
      for an edge map over existing nodes. */
  method ConnectEdges(b: DepGraphBuilder, edges: OMap<NodeId, seq<NodeId>>)
    requires b.Valid() && KeysAgree(b.state) && EdgesIn(edges.keys, edges.m, b.state.graph.labelOf)
    modifies b
    ensures b.Valid() && Replayed(b.state, old(b.state), EdgePairs(edges.keys, edges.m))
  {
    ghost var s0 := b.state;
    ghost var ps: seq<(NodeId, NodeId)> := [];
    EdgeLoopStart(s0, edges.keys, edges.m);
    var i := 0;
    while i < |edges.keys|
      invariant b.Valid() && EdgeLoop(b.state, s0, edges.keys, edges.m, i, ps)
      decreases |edges.keys| - i
    {
      ps := ConnectKey(b, edges, i, s0, ps);
      i := i + 1;
    }
    EdgeLoopEnd(b.state, s0, edges.keys, edges.m, ps);
  }

  // ---------------------------------------------------------------------------
  // What the rebuilt graph is.

  /** The re-added entries name exactly the nodes other than 'root-node', each
      once when the nodes are listed once. */
  lemma {:induction false} CutEntriesIds(rule: InfoRule, vals: seq<JsonNode>, removed: OMap<NodeId, seq<string>>, pkgs: map<PkgId, Pkg>)
    requires forall i :: 0 <= i < |vals| ==> vals[i].pkgId in pkgs
    ensures forall v :: v in EntryIds(CutEntries(rule, vals, removed, pkgs)) <==> v in Ids(vals) && v != RootNodeId
    ensures Distinct(Ids(vals)) ==> Distinct(EntryIds(CutEntries(rule, vals, removed, pkgs)))
    decreases |vals|
  {
    if vals != [] {
      var init := vals[..|vals| - 1];
      var n := vals[|vals| - 1];
      assert vals == init + [n];
      CutEntriesIds(rule, init, removed, pkgs);
      CutEntriesSnoc(rule, init, n, removed, pkgs);
      IdsSnoc(init, n);
      var es0 := CutEntries(rule, init, removed, pkgs);
      if n.nodeId != RootNodeId {
        EntryIdsSnoc(es0, CutEntry(rule, n, removed, pkgs));
      }
      if Distinct(Ids(vals)) {
        assert Distinct(Ids(init)) && n.nodeId !in Ids(init);
      }
    }
  }

  /** Each node other than 'root-node' is re-added with its package's id and its
      re-added information. */
  lemma {:induction false} CutEntriesLabels(rule: InfoRule, s0: DepGraph, vals: seq<JsonNode>, removed: OMap<NodeId, seq<string>>, pkgs: map<PkgId, Pkg>)
    requires s0.rootNodeId == RootNodeId && Distinct(Ids(vals))
    requires forall i :: 0 <= i < |vals| ==> vals[i].pkgId in pkgs
    ensures var s1 := AddAll(s0, CutEntries(rule, vals, removed, pkgs));
      forall j :: 0 <= j < |vals| && vals[j].nodeId != RootNodeId ==>
        vals[j].nodeId in s1.graph.labelOf &&
        s1.graph.labelOf[vals[j].nodeId] == GraphNode(GetPkgId(pkgs[vals[j].pkgId]), CutNodeInfo(rule, vals[j].info, removed.Get(vals[j].nodeId)))
    decreases |vals|
  {
    if vals != [] {
      var init := vals[..|vals| - 1];
      var n := vals[|vals| - 1];
      assert vals == init + [n];
      IdsSnoc(init, n);
      assert Distinct(Ids(init));
      CutEntriesLabels(rule, s0, init, removed, pkgs);
      CutEntriesSnoc(rule, init, n, removed, pkgs);
      var es0 := CutEntries(rule, init, removed, pkgs);
      if n.nodeId != RootNodeId {
        AddAllSnoc(s0, es0, CutEntry(rule, n, removed, pkgs));
        forall j | 0 <= j < |init| ensures vals[j].nodeId != n.nodeId && vals[j] == init[j] {
          assert Ids(vals)[j] == vals[j].nodeId;
        }
      }
    }
  }

  /** With no edges removed a node keeps its information; with edges removed it
      is re-added with them recorded. */
  function CutInfoOf(rule: InfoRule, g: DepGraph, cut: map<NodeId, seq<NodeId>>, v: NodeId): Option<NodeInfo>
    requires g.Valid() && v in g.graph.labelOf
  {
    CutNodeInfo(rule, JsonNodeOf(g, v).info, if v in cut then Some(Tokens(g.graph.succ[v], cut[v])) else None)
  }

  /** Every node's removed targets are distinct dependencies of it. */
  ghost predicate CutsOf(g: DepGraph, cut: map<NodeId, seq<NodeId>>) {
    forall v :: v in cut ==>
      v in g.graph.succ && cut[v] != [] && Distinct(cut[v]) && forall t :: t in cut[v] ==> t in g.graph.succ[v]
  }

  /** What `cutCycles` returns for a graph with a cycle: a graph object rooted at
      'root-node' with the root package, holding the nodes of `g` and
      'root-node'; each node other than 'root-node' keeps its package and gets its
      re-added information; each node keeps its successors except the ones cut;
      and no cycle is reachable from 'root-node'. */
  ghost predicate CutResult(rule: InfoRule, g: DepGraph, d: DepGraph, cut: map<NodeId, seq<NodeId>>)
    requires g.Valid()
  {
    CutShape(g, d) && CutsOf(g, cut) && RootCutSelf(cut) && CutLabels(rule, g, d, cut) && CutSucc(g, d, cut) &&
    !CycleReachable(d.graph.succ, RootNodeId)
  }

  /** Rooted at 'root-node' with the root package of `g`, holding the nodes of `g`
      and 'root-node', with the package manager of `g` and, when `g` stores
      every package under its own id, only packages of `g`. */
  ghost predicate CutShape(g: DepGraph, d: DepGraph)
    requires g.Valid()
  {
    d.Valid() && d.rootNodeId == RootNodeId && d.RootPkgId() == GetPkgId(g.RootPkg()) &&
    d.graph.nodes == RebuiltOrder(g.graph.nodes) && d.pkgManager == g.pkgManager &&
    (PkgsKeyed(g) ==> PkgsWithin(d.pkgs.m, g.pkgs.m)) &&
    forall v :: v in d.graph.labelOf <==> v == RootNodeId || v in g.graph.labelOf
  }

  /** Every node other than 'root-node' keeps its package and gets its re-added
      information. */
  ghost predicate CutLabels(rule: InfoRule, g: DepGraph, d: DepGraph, cut: map<NodeId, seq<NodeId>>)
    requires g.Valid()
  {
    forall v :: v in g.graph.labelOf && v != RootNodeId ==>
      v in d.graph.labelOf && d.graph.labelOf[v] == GraphNode(NodePkgId(g, v), CutInfoOf(rule, g, cut, v))
  }

  /** Every node keeps its successors except the ones cut. */
  ghost predicate CutSucc(g: DepGraph, d: DepGraph, cut: map<NodeId, seq<NodeId>>)
    requires g.Valid()
  {
    forall v :: v in d.graph.labelOf ==>
      v in d.graph.succ && d.graph.succ[v] == if v in g.graph.labelOf then Without(g.graph.succ[v], CutOf(cut, v)) else []
  }

  /** Filtering keeps a list free of repeats. */
  lemma {:induction false} WithoutDistinct(xs: seq<NodeId>, cs: seq<NodeId>)
    requires Distinct(xs)
    ensures Distinct(Without(xs, cs))
    decreases |xs|
  {
    if xs != [] {
      var init := xs[..|xs| - 1];
      var x := xs[|xs| - 1];
      assert xs == init + [x];
      WithoutDistinct(init, cs);
      WithoutIn(init, cs, x);
    }
  }

  /** Walks, hence cycles, depend only on the successor lists. */
  lemma SameNextCycles(a: Adj, b: Adj, start: NodeId)
    requires forall v :: Next(a, v) == Next(b, v)
    ensures CycleReachable(a, start) <==> CycleReachable(b, start)
  {
    forall p | IsWalk(a, p) ensures IsWalk(b, p) {
      forall i | 0 <= i < |p| - 1 ensures p[i + 1] in Next(b, p[i]) {
        assert Next(a, p[i]) == Next(b, p[i]);
      }
    }
    forall p | IsWalk(b, p) ensures IsWalk(a, p) {
      forall i | 0 <= i < |p| - 1 ensures p[i + 1] in Next(a, p[i]) {
        assert Next(a, p[i]) == Next(b, p[i]);
      }
    }
  }

  ghost predicate ValsKnown(vals: seq<JsonNode>, pkgs: map<PkgId, Pkg>) {
    forall i :: 0 <= i < |vals| ==> vals[i].pkgId in pkgs
  }

  /** The node values of the maps list the graph's nodes in graph order. */
  lemma ValuesOfMaps(g: DepGraph, mp: Maps)
    requires g.Valid() && MapsOf(g, mp)
    ensures ValsKnown(mp.nodesMap.Values(), mp.pkgsInfoMap)
    ensures Ids(mp.nodesMap.Values()) == g.graph.nodes && Distinct(g.graph.nodes)
    ensures forall j :: 0 <= j < |g.graph.nodes| ==> mp.nodesMap.Values()[j] == JsonNodeOf(g, g.graph.nodes[j])
    ensures forall v :: v in g.graph.labelOf <==> v in g.graph.nodes
  {
    GraphFacts(g);
    var vals := mp.nodesMap.Values();
    forall j | 0 <= j < |vals| ensures vals[j] == JsonNodeOf(g, g.graph.nodes[j]) {
      assert g.graph.nodes[j] in mp.nodesMap.m;
    }
  }

  /** The graph after the node loop: the root alone from the builder, then every
      other node with its package and re-added information, and no edge. */
  ghost predicate NodesAdded(rule: InfoRule, g: DepGraph, removed: OMap<NodeId, seq<string>>, s1: DepGraph)
    requires g.Valid()
  {
    s1.Valid() && NoEdges(s1) && s1.rootNodeId == RootNodeId && s1.RootPkgId() == GetPkgId(g.RootPkg()) &&
    s1.graph.nodes == RebuiltOrder(g.graph.nodes) && s1.pkgManager == g.pkgManager &&
    (PkgsKeyed(g) ==> PkgsWithin(s1.pkgs.m, g.pkgs.m)) &&
    (forall v :: v in s1.graph.labelOf <==> v == RootNodeId || v in g.graph.labelOf) &&
    forall v :: v in g.graph.labelOf && v != RootNodeId ==>
      s1.graph.labelOf[v] == GraphNode(NodePkgId(g, v), CutNodeInfo(rule, JsonNodeOf(g, v).info, removed.Get(v)))
  }

  lemma CutNodesAdded(rule: InfoRule, g: DepGraph, mp: Maps, removed: OMap<NodeId, seq<string>>, vals: seq<JsonNode>, s1: DepGraph)
    requires g.Valid() && MapsOf(g, mp) && vals == mp.nodesMap.Values() && ValsKnown(vals, mp.pkgsInfoMap)
    requires s1 == AddAll(NewGraph(g.pkgManager, Some(g.RootPkg())), CutEntries(rule, vals, removed, mp.pkgsInfoMap))
    ensures NodesAdded(rule, g, removed, s1)
  {
    ValuesOfMaps(g, mp);
    CutNodesShape(rule, g.graph.nodes, removed, vals, mp.pkgsInfoMap, g.pkgManager, g.RootPkg(), s1);
    CutNodesLabels(rule, g, mp, removed, vals, s1);
    if PkgsKeyed(g) {
      CutEntriesFrom(rule, vals, removed, mp.pkgsInfoMap);
      AddAllPkgs(NewGraph(g.pkgManager, Some(g.RootPkg())), CutEntries(rule, vals, removed, mp.pkgsInfoMap), g.pkgs.m);
    }
  }

  lemma CutNodesShape(rule: InfoRule, nodes: seq<NodeId>, removed: OMap<NodeId, seq<string>>, vals: seq<JsonNode>, pkgs: map<PkgId, Pkg>,
                      pm: PkgManager, rootPkg: Pkg, s1: DepGraph)
    requires ValsKnown(vals, pkgs) && Ids(vals) == nodes
    requires s1 == AddAll(NewGraph(pm, Some(rootPkg)), CutEntries(rule, vals, removed, pkgs))
    ensures s1.Valid() && NoEdges(s1) && s1.rootNodeId == RootNodeId && s1.RootPkgId() == GetPkgId(rootPkg)
    ensures forall v :: v in s1.graph.labelOf <==> v == RootNodeId || v in nodes
    ensures Distinct(nodes) ==> s1.graph.nodes == RebuiltOrder(nodes)
  {
    var s0 := NewGraph(pm, Some(rootPkg));
    CutNodesValid(rule, s0, vals, removed, pkgs);
    CutNodesKeys(rule, s0, vals, removed, pkgs);
    if Distinct(nodes) {
      CutNodesOrder(rule, s0, vals, removed, pkgs);
    }
  }

  /** The nodes are added after 'root-node' in their order. */
  lemma CutNodesOrder(rule: InfoRule, s0: DepGraph, vals: seq<JsonNode>, removed: OMap<NodeId, seq<string>>, pkgs: map<PkgId, Pkg>)
    requires s0.rootNodeId == RootNodeId && s0.graph.labelOf.Keys == {RootNodeId} && s0.graph.nodes == [RootNodeId]
    requires ValsKnown(vals, pkgs) && Distinct(Ids(vals))
    ensures AddAll(s0, CutEntries(rule, vals, removed, pkgs)).graph.nodes == RebuiltOrder(Ids(vals))
  {
    var es := CutEntries(rule, vals, removed, pkgs);
    CutEntriesIds(rule, vals, removed, pkgs);
    CutEntriesOrder(rule, vals, removed, pkgs);
    AddAllNodes(s0, es);
  }

  /** The re-added entries list the nodes other than 'root-node' in their order. */
  lemma {:induction false} CutEntriesOrder(rule: InfoRule, vals: seq<JsonNode>, removed: OMap<NodeId, seq<string>>, pkgs: map<PkgId, Pkg>)
    requires forall i :: 0 <= i < |vals| ==> vals[i].pkgId in pkgs
    ensures EntryIds(CutEntries(rule, vals, removed, pkgs)) == Without(Ids(vals), [RootNodeId])
    decreases |vals|
  {
    if vals != [] {
      var init := vals[..|vals| - 1];
      var n := vals[|vals| - 1];
      assert vals == init + [n];
      CutEntriesOrder(rule, init, removed, pkgs);
      CutEntriesSnoc(rule, init, n, removed, pkgs);
      IdsSnoc(init, n);
      WithoutSnoc(Ids(init), n.nodeId, [RootNodeId]);
      var es0 := CutEntries(rule, init, removed, pkgs);
      if n.nodeId != RootNodeId {
        EntryIdsSnoc(es0, CutEntry(rule, n, removed, pkgs));
      }
    }
  }

  lemma CutNodesValid(rule: InfoRule, s0: DepGraph, vals: seq<JsonNode>, removed: OMap<NodeId, seq<string>>, pkgs: map<PkgId, Pkg>)
    requires s0.Valid() && s0.rootNodeId == RootNodeId && s0.graph.nodes == [RootNodeId] && s0.graph.succ[RootNodeId] == []
    requires ValsKnown(vals, pkgs)
    ensures var s1 := AddAll(s0, CutEntries(rule, vals, removed, pkgs));
      s1.Valid() && NoEdges(s1) && s1.RootPkgId() == s0.RootPkgId()
  {
    assert forall v :: v in s0.graph.succ ==> v == RootNodeId;
    AddAllValid(s0, CutEntries(rule, vals, removed, pkgs));
  }

  lemma CutNodesKeys(rule: InfoRule, s0: DepGraph, vals: seq<JsonNode>, removed: OMap<NodeId, seq<string>>, pkgs: map<PkgId, Pkg>)
    requires s0.rootNodeId == RootNodeId && s0.graph.labelOf.Keys == {RootNodeId}
    requires ValsKnown(vals, pkgs)
    ensures forall v :: v in AddAll(s0, CutEntries(rule, vals, removed, pkgs)).graph.labelOf <==> v == RootNodeId || v in Ids(vals)
  {
    AddAllKeys(s0, CutEntries(rule, vals, removed, pkgs));
    CutEntriesIds(rule, vals, removed, pkgs);
  }

  lemma CutNodesLabels(rule: InfoRule, g: DepGraph, mp: Maps, removed: OMap<NodeId, seq<string>>, vals: seq<JsonNode>, s1: DepGraph)
    requires g.Valid() && MapsOf(g, mp) && vals == mp.nodesMap.Values() && ValsKnown(vals, mp.pkgsInfoMap)
    requires s1 == AddAll(NewGraph(g.pkgManager, Some(g.RootPkg())), CutEntries(rule, vals, removed, mp.pkgsInfoMap))
    ensures forall v :: v in g.graph.labelOf && v != RootNodeId ==>
      v in s1.graph.labelOf &&
      s1.graph.labelOf[v] == GraphNode(NodePkgId(g, v), CutNodeInfo(rule, JsonNodeOf(g, v).info, removed.Get(v)))
  {
    ValuesOfMaps(g, mp);
    CutEntriesLabels(rule, NewGraph(g.pkgManager, Some(g.RootPkg())), vals, removed, mp.pkgsInfoMap);
    forall v | v in g.graph.labelOf && v != RootNodeId
      ensures v in s1.graph.labelOf
      ensures s1.graph.labelOf[v] == GraphNode(NodePkgId(g, v), CutNodeInfo(rule, JsonNodeOf(g, v).info, removed.Get(v)))
    {
      var j :| 0 <= j < |g.graph.nodes| && g.graph.nodes[j] == v;
      assert Ids(vals)[j] == vals[j].nodeId;
    }
  }

  /** The successors after the edge loop: each node of `g` has its cut edge
      list, 'root-node' (when `g` has no node of that id) none. */
  lemma CutEdgesAdded(g: DepGraph, mp: Maps, edges: OMap<NodeId, seq<NodeId>>, cut: map<NodeId, seq<NodeId>>,
                      s1: DepGraph, d: DepGraph)
    requires g.Valid() && MapsOf(g, mp) && EdgesCut(mp.edgesMap, edges, cut)
    requires KeysAgree(s1) && NoEdges(s1) && forall v :: v in s1.graph.labelOf <==> v == RootNodeId || v in g.graph.labelOf
    ensures EdgesIn(edges.keys, edges.m, s1.graph.labelOf)
    ensures Replayed(d, s1, EdgePairs(edges.keys, edges.m)) ==> CutSucc(g, d, cut)
    ensures Replayed(d, s1, EdgePairs(edges.keys, edges.m)) ==> forall v :: Next(d.graph.succ, v) == Next(edges.m, v)
  {
    GraphFacts(g);
    forall k | k in edges.keys
      ensures k in edges.m && k in s1.graph.labelOf && Distinct(edges.m[k])
      ensures forall t :: t in edges.m[k] ==> t in s1.graph.labelOf
    {
      assert k in mp.edgesMap.m;
      WithoutDistinct(mp.edgesMap.m[k], CutOf(cut, k));
      forall t | t in edges.m[k] ensures t in s1.graph.labelOf {
        WithoutIn(mp.edgesMap.m[k], CutOf(cut, k), t);
      }
    }
    ReplayedSucc(s1, edges.keys, edges.m);
    if Replayed(d, s1, EdgePairs(edges.keys, edges.m)) {
      forall v ensures Next(d.graph.succ, v) == Next(edges.m, v) {
        if v in d.graph.labelOf {
          assert v in edges.m <==> v in edges.keys;
        }
      }
    }
  }

  /** The removed targets recorded for each node. */
  lemma CutRecordedOf(g: DepGraph, mp: Maps, cut: map<NodeId, seq<NodeId>>, removed: OMap<NodeId, seq<string>>)
    requires g.Valid() && MapsOf(g, mp) && CutRecorded(mp, cut, removed)
    ensures CutsOf(g, cut)
    ensures forall v :: v in g.graph.labelOf ==>
      removed.Get(v) == if v in cut then Some(Tokens(g.graph.succ[v], cut[v])) else None
  {
    forall v | v in cut
      ensures v in g.graph.succ && cut[v] != [] && Distinct(cut[v]) && forall t :: t in cut[v] ==> t in g.graph.succ[v]
    {
      assert RecordedAt(mp, cut[v], removed.m[v], v);
    }
    forall v | v in g.graph.labelOf && v in cut ensures removed.m[v] == Tokens(g.graph.succ[v], cut[v]) {
      assert RecordedAt(mp, cut[v], removed.m[v], v);
    }
  }

  lemma CutLabelsHold(rule: InfoRule, g: DepGraph, mp: Maps, removed: OMap<NodeId, seq<string>>, cut: map<NodeId, seq<NodeId>>,
                      s1: DepGraph, d: DepGraph)
    requires g.Valid() && MapsOf(g, mp) && CutRecorded(mp, cut, removed) && NodesAdded(rule, g, removed, s1)
    requires d.graph.labelOf == s1.graph.labelOf
    ensures CutsOf(g, cut) && CutLabels(rule, g, d, cut)
  {
    CutRecordedOf(g, mp, cut, removed);
  }

  lemma CutShapeHolds(rule: InfoRule, g: DepGraph, removed: OMap<NodeId, seq<string>>, s1: DepGraph, d: DepGraph, ps: seq<(NodeId, NodeId)>)
    requires g.Valid() && NodesAdded(rule, g, removed, s1) && Replayed(d, s1, ps)
    ensures CutShape(g, d) && d.graph.labelOf == s1.graph.labelOf && KeysAgree(s1)
  {
    ConnectAllValid(s1, ps);
  }

  /** After the node loop every cut edge list can be replayed. */
  lemma CutNodesReady(rule: InfoRule, g: DepGraph, mp: Maps, edges: OMap<NodeId, seq<NodeId>>, cut: map<NodeId, seq<NodeId>>,
                      removed: OMap<NodeId, seq<string>>, s1: DepGraph)
    requires g.Valid() && MapsOf(g, mp) && EdgesCut(mp.edgesMap, edges, cut) && NodesAdded(rule, g, removed, s1)
    ensures KeysAgree(s1) && EdgesIn(edges.keys, edges.m, s1.graph.labelOf)
  {
    ConnectAllValid(s1, []);
    CutEdgesAdded(g, mp, edges, cut, s1, s1);
  }

  /** The graph object `cutCycles` builds is the one `CutResult` describes. */
  lemma CutResultHolds(rule: InfoRule, g: DepGraph, mp: Maps, edges: OMap<NodeId, seq<NodeId>>, removed: OMap<NodeId, seq<string>>,
                       cut: map<NodeId, seq<NodeId>>, s1: DepGraph, d: DepGraph)
    requires g.Valid() && MapsOf(g, mp) && NodesAdded(rule, g, removed, s1)
    requires CutInv(mp, edges, cut, removed) && !CycleReachable(edges.m, RootNodeId)
    requires Replayed(d, s1, EdgePairs(edges.keys, edges.m))
    ensures CutResult(rule, g, d, cut)
  {
    CutShapeHolds(rule, g, removed, s1, d, EdgePairs(edges.keys, edges.m));
    CutEdgesAdded(g, mp, edges, cut, s1, d);
    SameNextCycles(d.graph.succ, edges.m, RootNodeId);
    CutLabelsHold(rule, g, mp, removed, cut, s1, d);
  }

  /** `cutCycles(depGraph)`: the graph itself when no cycle is reachable from
      its root; otherwise a new graph object, built through the builder, in which
      the edges closing the cycles found from 'root-node' are removed and
      recorded on their parent nodes, and every other node loses its
      information. */
  method CutCycles(g: DepGraphImpl) returns (r: DepGraphImpl, ghost cut: map<NodeId, seq<NodeId>>)
    requires g.data.Valid()
    ensures !CycleReachable(g.data.graph.succ, g.data.rootNodeId) ==> r == g
    ensures CycleReachable(g.data.graph.succ, g.data.rootNodeId) ==> fresh(r) && CutResult(DropInfo, g.data, r.data, cut)
    ensures CycleReachable(g.data.graph.succ, g.data.rootNodeId) ==> PkgsKeyed(r.data)
  {
    r, cut := CutCyclesBy(DropInfo, g);
  }

  /** `cutCycles` with the information of a node without removed edges kept, as
      the round trip through `reconnectCycles` needs. */
  method CutCyclesKeepingInfo(g: DepGraphImpl) returns (r: DepGraphImpl, ghost cut: map<NodeId, seq<NodeId>>)
    requires g.data.Valid()
    ensures !CycleReachable(g.data.graph.succ, g.data.rootNodeId) ==> r == g
    ensures CycleReachable(g.data.graph.succ, g.data.rootNodeId) ==> fresh(r) && CutResult(KeepInfo, g.data, r.data, cut)
    ensures CycleReachable(g.data.graph.succ, g.data.rootNodeId) ==> PkgsKeyed(r.data)
  {
    r, cut := CutCyclesBy(KeepInfo, g);
  }

  method CutCyclesBy(rule: InfoRule, g: DepGraphImpl) returns (r: DepGraphImpl, ghost cut: map<NodeId, seq<NodeId>>)
    requires g.data.Valid()
    ensures !CycleReachable(g.data.graph.succ, g.data.rootNodeId) ==> r == g
    ensures CycleReachable(g.data.graph.succ, g.data.rootNodeId) ==> fresh(r) && CutResult(rule, g.data, r.data, cut)
    ensures CycleReachable(g.data.graph.succ, g.data.rootNodeId) ==> PkgsKeyed(r.data)
  {
    var has := HasCycles(g.data);
    if !has {
      return g, map[];
    }
    var mp, edges, removed;
    mp, edges, removed, cut := CutMaps(g.data);
    r := BuildCut(rule, g.data, mp, edges, removed, cut);
  }

  /** The first half of `cutCycles`: the maps of the graph and the edge lists with
      the cycles cut. */
  method CutMaps(g: DepGraph) returns (mp: Maps, edges: OMap<NodeId, seq<NodeId>>, removed: OMap<NodeId, seq<string>>,
                                       ghost cut: map<NodeId, seq<NodeId>>)
    requires g.Valid()
    ensures MapsOf(g, mp) && ValsKnown(mp.nodesMap.Values(), mp.pkgsInfoMap)
    ensures CutInv(mp, edges, cut, removed) && !CycleReachable(edges.m, RootNodeId)
  {
    mp := GetGraphMaps(g);
    GraphMapsOf(g);
    ValuesOfMaps(g, mp);
    edges, removed, cut := CutEdges(mp);
  }

  /** The second half of `cutCycles`: the new graph object, built through the
      builder from the cut edge lists. */
  method BuildCut(rule: InfoRule, g: DepGraph, mp: Maps, edges: OMap<NodeId, seq<NodeId>>, removed: OMap<NodeId, seq<string>>,
                  ghost cut: map<NodeId, seq<NodeId>>) returns (r: DepGraphImpl)
    requires g.Valid() && MapsOf(g, mp) && ValsKnown(mp.nodesMap.Values(), mp.pkgsInfoMap)
    requires CutInv(mp, edges, cut, removed) && !CycleReachable(edges.m, RootNodeId)
    ensures fresh(r) && CutResult(rule, g, r.data, cut) && PkgsKeyed(r.data)
  {
    var b := new DepGraphBuilder(g.pkgManager, Some(g.RootPkg()));
    ghost var s1 := AddCut(rule, g, mp, edges, cut, removed, b);
    ConnectEdges(b, edges);
    r := b.Build();
    CutResultHolds(rule, g, mp, edges, removed, cut, s1, r.data);
  }

  /** The nodes of the cut graph added to a fresh builder, ready for the edges. */
  method AddCut(rule: InfoRule, g: DepGraph, mp: Maps, edges: OMap<NodeId, seq<NodeId>>, ghost cut: map<NodeId, seq<NodeId>>,
                removed: OMap<NodeId, seq<string>>, b: DepGraphBuilder) returns (ghost s1: DepGraph)
    requires g.Valid() && MapsOf(g, mp) && ValsKnown(mp.nodesMap.Values(), mp.pkgsInfoMap)
    requires EdgesCut(mp.edgesMap, edges, cut)
    requires b.Valid() && b.state == NewGraph(g.pkgManager, Some(g.RootPkg()))
    modifies b
    ensures b.Valid() && b.state == s1 && NodesAdded(rule, g, removed, s1)
    ensures KeysAgree(s1) && EdgesIn(edges.keys, edges.m, s1.graph.labelOf)
  {
    var vals := mp.nodesMap.Values();
    AddCutNodes(rule, b, vals, removed, mp.pkgsInfoMap);
    s1 := b.state;
    CutNodesAdded(rule, g, mp, removed, vals, s1);
    CutNodesReady(rule, g, mp, edges, cut, removed, s1);
  }
}

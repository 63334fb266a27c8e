/** `reconnectCycles` (`src/cycles/reconnect-cycles.ts`): rebuild a graph
    through the builder from its maps, reading each node's removed-edge tokens
    back from its label, deleting the label, splicing the tokens' targets back
    into the node's edge list at their indices and connecting every edge. */
module ReconnectCycles {
  import opened Wrappers
  import opened Graphs
  import opened OrderedMaps
  import opened Types
  import opened DepGraphs
  import opened Builders
  import opened GraphMaps
  import opened Replay
  import opened CutCycles
  import opened Edges
  import opened Splice

  /** What `connectDep` throws for a target that is not a node (`undefined`
      included). */
  const DepMissing := "depNodeId does not exist"

  // ---------------------------------------------------------------------------
  // The node loop.

  /** Node `n` has removed edges to reconnect: it is not 'root-node' and its
      label is present and not empty. */
  predicate Reconnects(n: JsonNode) {
    n.nodeId != RootNodeId && HasRemovedLabel(n.info)
  }

  /** The `addPkgNode` call for node `n`: its package and its information with
      the label deleted. */
  function RestoreEntry(n: JsonNode, pkgs: map<PkgId, Pkg>): NodeEntry
    requires n.pkgId in pkgs
  {
    NodeEntry(pkgs[n.pkgId], n.nodeId, ReconnectInfo(n.info))
  }

  /** The `addPkgNode` calls of the node loop: every node but 'root-node'. */
  function RestoreEntries(vals: seq<JsonNode>, pkgs: map<PkgId, Pkg>): (r: seq<NodeEntry>)
    requires ValsKnown(vals, pkgs)
    ensures RootNodeId !in EntryIds(r)
    decreases |vals|
  {
    if vals == [] then []
    else
      var n := vals[|vals| - 1];
      var r0 := RestoreEntries(vals[..|vals| - 1], pkgs);
      if n.nodeId == RootNodeId then r0
      else
        var r := r0 + [RestoreEntry(n, pkgs)];
        assert EntryIds(r) == EntryIds(r0) + [n.nodeId];
        r
  }

  lemma RestoreEntriesSnoc(vals: seq<JsonNode>, n: JsonNode, pkgs: map<PkgId, Pkg>)
    requires ValsKnown(vals, pkgs) && n.pkgId in pkgs
    ensures ValsKnown(vals + [n], pkgs)
    ensures RestoreEntries(vals + [n], pkgs) ==
            RestoreEntries(vals, pkgs) + (if n.nodeId == RootNodeId then [] else [RestoreEntry(n, pkgs)])
  {
    assert (vals + [n])[..|vals|] == vals;
  }

  /** With every package stored under its own id, each entry's package is the
      one stored under its id. */
  lemma {:induction false} RestoreEntriesFrom(vals: seq<JsonNode>, pkgs: map<PkgId, Pkg>)
    requires ValsKnown(vals, pkgs)
    requires forall k :: k in pkgs ==> GetPkgId(pkgs[k]) == k
    ensures EntriesFrom(RestoreEntries(vals, pkgs), pkgs)
    decreases |vals|
  {
    if vals != [] {
      RestoreEntriesFrom(vals[..|vals| - 1], pkgs);
    }
  }

  /** `edgesToReconnect` after the nodes `vals`: each node that reconnects gets
      its sorted tokens pushed onto its list. */
  function Gathered(vals: seq<JsonNode>): (r: OMap<NodeId, seq<string>>)
    ensures r.Valid()
    decreases |vals|
  {
    if vals == [] then EmptyMap()
    else
      var n := vals[|vals| - 1];
      var r0 := Gathered(vals[..|vals| - 1]);
      if Reconnects(n) then r0.Set(n.nodeId, TokensOf(r0, n.nodeId) + RemovedTokens(n.info)) else r0
  }

  /** `es` holds the entries of the first `i` nodes, `s` is their replay on
      `s0`, and `tr` holds the tokens gathered from them. */
  ghost predicate RestoreLoop(s: DepGraph, s0: DepGraph, vals: seq<JsonNode>, pkgs: map<PkgId, Pkg>, i: nat,
                              es: seq<NodeEntry>, tr: OMap<NodeId, seq<string>>)
    requires ValsKnown(vals, pkgs)
  {
    i <= |vals| && s0.rootNodeId == RootNodeId && es == RestoreEntries(vals[..i], pkgs) && s == AddAll(s0, es) &&
    tr == Gathered(vals[..i])
  }

  /** One turn of the node loop, on values: the gathered tokens. */
  lemma GatheredStep(vals: seq<JsonNode>, i: nat)
    requires i < |vals|
    ensures var n := vals[i]; var tr := Gathered(vals[..i]);
      Gathered(vals[..i + 1]) == if Reconnects(n) then tr.Set(n.nodeId, TokensOf(tr, n.nodeId) + RemovedTokens(n.info)) else tr
  {
    assert vals[..i + 1][..i] == vals[..i];
  }

  /** One turn of the node loop, on values: the `addPkgNode` call, if any. */
  lemma RestoreStep(vals: seq<JsonNode>, pkgs: map<PkgId, Pkg>, i: nat)
    requires i < |vals| && ValsKnown(vals, pkgs)
    ensures RestoreEntries(vals[..i + 1], pkgs) ==
            RestoreEntries(vals[..i], pkgs) + if vals[i].nodeId == RootNodeId then [] else [RestoreEntry(vals[i], pkgs)]
  {
    assert vals[..i + 1] == vals[..i] + [vals[i]];
    RestoreEntriesSnoc(vals[..i], vals[i], pkgs);
  }

  /** Setting a key twice is setting it once, to the second value. */
  lemma SetListTwice<V>(om: OMap<NodeId, V>, k: NodeId, a: V, b: V)
    ensures om.Set(k, a).Set(k, b) == om.Set(k, b)
  {
    assert om.Set(k, a).Set(k, b).m == om.Set(k, b).m;
  }

  /** `if (!m.has(k)) m.set(k, []); m.get(k).push(...xs)`. */
  function PushAll<T>(om: OMap<NodeId, seq<T>>, k: NodeId, xs: seq<T>): (r: OMap<NodeId, seq<T>>)
    ensures r == om.Set(k, (if k in om.m then om.m[k] else []) + xs)
  {
    var om' := if k in om.m then om else om.Set(k, []);
    SetListTwice(om, k, [], [] + xs);
    assert [] + xs == xs;
    om'.Set(k, om'.m[k] + xs)
  }

  /** One turn of the loop over `nodesMap.values()`. */
  method RestoreNode(b: DepGraphBuilder, vals: seq<JsonNode>, pkgs: map<PkgId, Pkg>, i: nat,
                     tr: OMap<NodeId, seq<string>>, ghost s0: DepGraph, ghost es: seq<NodeEntry>)
    returns (tr': OMap<NodeId, seq<string>>, ghost es': seq<NodeEntry>)
    requires i < |vals| && ValsKnown(vals, pkgs)
    requires b.Valid() && RestoreLoop(b.state, s0, vals, pkgs, i, es, tr)
    modifies b
    ensures b.Valid() && RestoreLoop(b.state, s0, vals, pkgs, i + 1, es', tr')
  {
    var n := vals[i];
    GatheredStep(vals, i);
    RestoreStep(vals, pkgs, i);
    tr', es' := tr, es;
    if n.nodeId == RootNodeId {
      return;
    }
    AddAllSnoc(s0, es, RestoreEntry(n, pkgs));
    var info := n.info;
    if HasRemovedLabel(n.info) {
      var cyclic := RemovedTokens(n.info);
      tr' := PushAll(tr', n.nodeId, cyclic);
      info := RestoredInfo(n.info);
    }
    var r := b.AddPkgNode(pkgs[n.pkgId], n.nodeId, info);
    es' := es + [RestoreEntry(n, pkgs)];
  }

  /** The loop over `nodesMap.values()`: every node but 'root-node' is re-added
      with its label deleted, and the tokens of the nodes that reconnect are
      gathered. */
  method RestoreNodes(b: DepGraphBuilder, vals: seq<JsonNode>, pkgs: map<PkgId, Pkg>)
    returns (tr: OMap<NodeId, seq<string>>)
    requires b.Valid() && ValsKnown(vals, pkgs)
    modifies b
    ensures b.Valid()
    ensures b.state == AddAll(old(b.state), RestoreEntries(vals, pkgs)) && tr == Gathered(vals)
  {
    ghost var s0 := b.state;
    ghost var es: seq<NodeEntry> := [];
    tr := EmptyMap();
    assert vals[..0] == [];
    var i := 0;
    while i < |vals|
      invariant b.Valid() && RestoreLoop(b.state, s0, vals, pkgs, i, es, tr)
      decreases |vals| - i
    {
      tr, es := RestoreNode(b, vals, pkgs, i, tr, s0, es);
      i := i + 1;
    }
    RestoreLoopEnd(b.state, s0, vals, pkgs, es, tr);
  }

  lemma RestoreLoopEnd(s: DepGraph, s0: DepGraph, vals: seq<JsonNode>, pkgs: map<PkgId, Pkg>, es: seq<NodeEntry>,
                       tr: OMap<NodeId, seq<string>>)
    requires ValsKnown(vals, pkgs) && RestoreLoop(s, s0, vals, pkgs, |vals|, es, tr)
    ensures s == AddAll(s0, RestoreEntries(vals, pkgs)) && tr == Gathered(vals)
  {
    assert vals[..|vals|] == vals;
  }

  // ---------------------------------------------------------------------------
  // Copying the edge lists.

  /** The list held for `k`, empty when there is none. */
  function ListAt(edges: OMap<NodeId, seq<Option<NodeId>>>, k: NodeId): seq<Option<NodeId>> {
    if k in edges.m then edges.m[k] else []
  }

  /** The copy holds the lists of the first `i` keys, every target wrapped. */
  ghost predicate CopyLoop(em: OMap<NodeId, seq<NodeId>>, edges: OMap<NodeId, seq<Option<NodeId>>>, i: nat) {
    i <= |em.keys| && edges.Valid() && edges.keys == em.keys[..i] &&
    forall k :: k in edges.m ==> k in em.m && edges.m[k] == Somes(em.m[k])
  }

  lemma CopyStep(em: OMap<NodeId, seq<NodeId>>, edges: OMap<NodeId, seq<Option<NodeId>>>, i: nat)
    requires em.Valid() && i < |em.keys| && CopyLoop(em, edges, i)
    ensures em.keys[i] in em.m && em.keys[i] !in edges.m
    ensures CopyLoop(em, PushAll(edges, em.keys[i], Somes(em.m[em.keys[i]])), i + 1)
  {
    assert em.keys[..i + 1] == em.keys[..i] + [em.keys[i]];
    assert em.keys[i] !in em.keys[..i];
    assert [] + Somes(em.m[em.keys[i]]) == Somes(em.m[em.keys[i]]);
  }

  /** The loop over `edgesMap.entries()`: a new map holding a copy of every
      edge list. */
  method CopyEdges(em: OMap<NodeId, seq<NodeId>>) returns (edges: OMap<NodeId, seq<Option<NodeId>>>)
    requires em.Valid()
    ensures edges.Valid() && edges.keys == em.keys && edges.m.Keys == em.m.Keys
    ensures forall k :: k in em.m ==> edges.m[k] == Somes(em.m[k])
  {
    edges := EmptyMap();
    assert em.keys[..0] == [];
    var i := 0;
    while i < |em.keys|
      invariant em.Valid() && CopyLoop(em, edges, i)
      decreases |em.keys| - i
    {
      var from := em.keys[i];
      CopyStep(em, edges, i);
      edges := PushAll(edges, from, Somes(em.m[from]));
      i := i + 1;
    }
    assert em.keys[..|em.keys|] == em.keys;
  }

  // ---------------------------------------------------------------------------
  // Splicing the removed targets back.

  /** `toNode.map(splitEdge).sort(byIndex).forEach(({index, to}) => list.splice(+index, 0, to))`. */
  method SpliceTokens(list: seq<Option<NodeId>>, toks: seq<EdgeToken>) returns (r: seq<Option<NodeId>>)
    ensures r == SpliceAll(list, toks)
    ensures |r| == |list| + |toks|
  {
    r := list;
    var k := 0;
    while k < |toks|
      invariant k <= |toks| && SpliceAll(r, toks[k..]) == SpliceAll(list, toks)
      decreases |toks| - k
    {
      assert toks[k..][1..] == toks[k + 1..];
      r := SpliceIn(r, toks[k]);
      k := k + 1;
    }
    assert toks[|toks|..] == [];
  }

  /** The edge map after the loop over `edgesToReconnect.entries()` for the
      keys `keys`: each key's list, created empty when missing, gets its tokens
      spliced in. */
  function SpliceKeys(edges: OMap<NodeId, seq<Option<NodeId>>>, keys: seq<NodeId>, m: map<NodeId, seq<string>>)
    : (r: OMap<NodeId, seq<Option<NodeId>>>)
    requires forall k :: k in keys ==> k in m
    ensures edges.Valid() ==> r.Valid()
    decreases |keys|
  {
    if keys == [] then edges
    else
      var k := keys[|keys| - 1];
      var e := SpliceKeys(edges, keys[..|keys| - 1], m);
      e.Set(k, SpliceAll(ListAt(e, k), SortedTokens(m[k])))
  }

  /** The map after the turn for key `keys[i]`. */
  lemma SpliceKeysSnoc(edges: OMap<NodeId, seq<Option<NodeId>>>, keys: seq<NodeId>, m: map<NodeId, seq<string>>, i: nat)
    requires i < |keys| && forall k :: k in keys ==> k in m
    ensures forall k :: k in keys[..i + 1] ==> k in m
    ensures var e := SpliceKeys(edges, keys[..i], m);
      SpliceKeys(edges, keys[..i + 1], m) == e.Set(keys[i], SpliceAll(ListAt(e, keys[i]), SortedTokens(m[keys[i]])))
  {
    assert keys[..i + 1][..i] == keys[..i];
  }

  /** One turn of the loop over `edgesToReconnect.entries()`: the list of
      `from`, created empty when missing, gets the tokens spliced in place. */
  method SpliceKey(edges: OMap<NodeId, seq<Option<NodeId>>>, from: NodeId, toks: seq<EdgeToken>)
    returns (r: OMap<NodeId, seq<Option<NodeId>>>)
    ensures r == edges.Set(from, SpliceAll(ListAt(edges, from), toks))
  {
    r := edges;
    if from !in r.m {
      r := r.Set(from, []);
    }
    var list := SpliceTokens(r.m[from], toks);
    if from !in edges.m {
      SetListTwice(edges, from, [], list);
    }
    r := r.Set(from, list);
  }

  /** The loop over `edgesToReconnect.entries()`. */
  method SpliceEdges(edges: OMap<NodeId, seq<Option<NodeId>>>, tr: OMap<NodeId, seq<string>>)
    returns (r: OMap<NodeId, seq<Option<NodeId>>>)
    requires tr.Valid()
    ensures r == SpliceKeys(edges, tr.keys, tr.m)
  {
    r := edges;
    assert tr.keys[..0] == [];
    var i := 0;
    while i < |tr.keys|
      invariant i <= |tr.keys| && r == SpliceKeys(edges, tr.keys[..i], tr.m)
      decreases |tr.keys| - i
    {
      var from := tr.keys[i];
      SpliceKeysSnoc(edges, tr.keys, tr.m, i);
      r := SpliceKey(r, from, SortedTokens(tr.m[from]));
      i := i + 1;
    }
    assert tr.keys[..|tr.keys|] == tr.keys;
  }

  /** With distinct keys, each key's list is its old list with its tokens
      spliced in, and every other list is unchanged. */
  lemma {:induction false} SpliceKeysAt(edges: OMap<NodeId, seq<Option<NodeId>>>, keys: seq<NodeId>, m: map<NodeId, seq<string>>,
                                        v: NodeId)
    requires Distinct(keys) && forall k :: k in keys ==> k in m
    ensures ListAt(SpliceKeys(edges, keys, m), v) ==
            if v in keys then SpliceAll(ListAt(edges, v), SortedTokens(m[v])) else ListAt(edges, v)
    decreases |keys|
  {
    if keys != [] {
      var init := keys[..|keys| - 1];
      var k := keys[|keys| - 1];
      assert keys == init + [k];
      assert k !in init;
      var e := SpliceKeys(edges, init, m);
      var list := SpliceAll(ListAt(e, k), SortedTokens(m[k]));
      assert SpliceKeys(edges, keys, m) == e.Set(k, list);
      ListAtSet(e, k, list, v);
      SpliceKeysAt(edges, init, m, v);
      if v == k {
        SpliceKeysAt(edges, init, m, k);
      }
    }
  }

  lemma ListAtSet(e: OMap<NodeId, seq<Option<NodeId>>>, k: NodeId, list: seq<Option<NodeId>>, v: NodeId)
    ensures ListAt(e.Set(k, list), v) == if v == k then list else ListAt(e, v)
  {
  }

  /** Splicing into lists that exist keeps the map's keys and their order. */
  lemma {:induction false} SpliceKeysKeys(edges: OMap<NodeId, seq<Option<NodeId>>>, keys: seq<NodeId>, m: map<NodeId, seq<string>>)
    requires forall k :: k in keys ==> k in m && k in edges.m
    ensures SpliceKeys(edges, keys, m).keys == edges.keys && SpliceKeys(edges, keys, m).m.Keys == edges.m.Keys
    decreases |keys|
  {
    if keys != [] {
      SpliceKeysKeys(edges, keys[..|keys| - 1], m);
    }
  }

  // ---------------------------------------------------------------------------
  // Connecting.

  /** A target names a node of the graph (`undefined` names none). */
  predicate Known(t: Option<NodeId>, labelOf: map<NodeId, GraphNode>) {
    t.Some? && t.value in labelOf
  }

  /** Every target of the list names a node. */
  ghost predicate AllKnown(list: seq<Option<NodeId>>, labelOf: map<NodeId, GraphNode>) {
    forall t :: t in list ==> Known(t, labelOf)
  }

  /** Every target of the lists of `keys` names a node. */
  ghost predicate KnownIn(m: map<NodeId, seq<Option<NodeId>>>, keys: seq<NodeId>, labelOf: map<NodeId, GraphNode>) {
    forall k :: k in keys && k in m ==> AllKnown(m[k], labelOf)
  }

  /** Every list with its targets unwrapped. */
  function UnwrapAll(m: map<NodeId, seq<Option<NodeId>>>): (u: map<NodeId, seq<NodeId>>)
    ensures u.Keys == m.Keys && forall k :: k in m ==> u[k] == Unwrap(m[k])
  {
    map k | k in m :: Unwrap(m[k])
  }

  /** The pairs of the first `i + 1` keys extend those of the first `i`. */
  lemma EdgePairsSnoc(keys: seq<NodeId>, m: map<NodeId, seq<NodeId>>, i: nat)
    requires i < |keys| && forall k :: k in keys ==> k in m
    ensures forall k :: k in keys[..i + 1] ==> k in m
    ensures EdgePairs(keys[..i + 1], m) == EdgePairs(keys[..i], m) + PairsFrom(keys[i], m[keys[i]])
  {
    assert keys[..i + 1][..i] == keys[..i];
  }

  /** `qs` is `ps` followed by the pairs of the first `j` targets of `from`,
      all known, and `s` is their replay on `s0`. */
  ghost predicate ListLoop(s: DepGraph, s0: DepGraph, ps: seq<(NodeId, NodeId)>, from: NodeId, list: seq<Option<NodeId>>,
                           j: nat, qs: seq<(NodeId, NodeId)>) {
    TargetLoop(s, s0, ps, from, Unwrap(list), j, qs) && AllKnown(list[..j], s0.graph.labelOf)
  }

  lemma ListLoopStep(s: DepGraph, s0: DepGraph, ps: seq<(NodeId, NodeId)>, from: NodeId, list: seq<Option<NodeId>>,
                     j: nat, qs: seq<(NodeId, NodeId)>)
    requires j < |list| && from in s0.graph.labelOf && Known(list[j], s0.graph.labelOf)
    requires ListLoop(s, s0, ps, from, list, j, qs)
    ensures KeysAgree(s) && s.graph.labelOf == s0.graph.labelOf
    ensures ConnectDepIn(s, from, list[j].value).Ok?
    ensures ListLoop(ConnectDepIn(s, from, list[j].value).value, s0, ps, from, list, j + 1, qs + [(from, list[j].value)])
  {
    assert Unwrap(list)[j] == list[j].value;
    PairsFromSnoc(ps, from, Unwrap(list), j);
    ReplayStep(s, s0, qs, (from, list[j].value));
    AllKnownSnoc(list, j, s0.graph.labelOf);
  }

  lemma AllKnownSnoc(list: seq<Option<NodeId>>, j: nat, labelOf: map<NodeId, GraphNode>)
    requires j < |list| && AllKnown(list[..j], labelOf) && Known(list[j], labelOf)
    ensures AllKnown(list[..j + 1], labelOf)
  {
    assert list[..j + 1] == list[..j] + [list[j]];
  }

  lemma ListLoopStart(s: DepGraph, s0: DepGraph, ps: seq<(NodeId, NodeId)>, from: NodeId, list: seq<Option<NodeId>>)
    requires Replayed(s, s0, ps)
    ensures ListLoop(s, s0, ps, from, list, 0, ps)
  {
    TargetLoopStart(s, s0, ps, from, Unwrap(list));
    assert list[..0] == [];
  }

  lemma ListLoopEnd(s: DepGraph, s0: DepGraph, ps: seq<(NodeId, NodeId)>, from: NodeId, list: seq<Option<NodeId>>,
                    qs: seq<(NodeId, NodeId)>)
    requires ListLoop(s, s0, ps, from, list, |list|, qs)
    ensures AllKnown(list, s0.graph.labelOf) && Replayed(s, s0, ps + PairsFrom(from, Unwrap(list)))
  {
    assert list[..|list|] == list;
    TargetLoopEnd(s, s0, ps, from, Unwrap(list), qs);
  }

  /** An unknown target makes the whole list fail. */
  lemma UnknownAt(list: seq<Option<NodeId>>, j: nat, labelOf: map<NodeId, GraphNode>)
    requires j < |list| && !Known(list[j], labelOf)
    ensures !AllKnown(list, labelOf)
  {
  }

  /** One `connectDep(from, t)` call: it throws when `t` is not a node. */
  method ConnectAt(b: DepGraphBuilder, from: NodeId, list: seq<Option<NodeId>>, j: nat, ghost s0: DepGraph,
                   ghost ps: seq<(NodeId, NodeId)>, ghost qs: seq<(NodeId, NodeId)>)
    returns (r: Outcome, ghost qs': seq<(NodeId, NodeId)>)
    requires j < |list| && from in s0.graph.labelOf
    requires b.Valid() && ListLoop(b.state, s0, ps, from, list, j, qs)
    modifies b
    ensures r.Fail? <==> !Known(list[j], s0.graph.labelOf)
    ensures r.Fail? ==> r.msg == DepMissing
    ensures r.Pass? ==> b.Valid() && ListLoop(b.state, s0, ps, from, list, j + 1, qs')
  {
    qs' := qs;
    var t := list[j];
    if t.None? {
      return Fail(DepMissing), qs';
    }
    assert b.state.graph.labelOf == s0.graph.labelOf && KeysAgree(b.state);
    if Known(t, s0.graph.labelOf) {
      ListLoopStep(b.state, s0, ps, from, list, j, qs);
    }
    r := b.ConnectDep(from, t.value);
    qs' := qs + [(from, t.value)];
  }

  /** `list.forEach(t => connectDep(from, t))`. */
  method ConnectList(b: DepGraphBuilder, from: NodeId, list: seq<Option<NodeId>>, ghost s0: DepGraph,
                     ghost ps: seq<(NodeId, NodeId)>)
    returns (r: Outcome)
    requires from in s0.graph.labelOf && b.Valid() && Replayed(b.state, s0, ps)
    modifies b
    ensures r.Fail? <==> !AllKnown(list, s0.graph.labelOf)
    ensures r.Fail? ==> r.msg == DepMissing
    ensures r.Pass? ==> b.Valid() && Replayed(b.state, s0, ps + PairsFrom(from, Unwrap(list)))
  {
    ghost var qs := ps;
    ListLoopStart(b.state, s0, ps, from, list);
    var j := 0;
    while j < |list|
      invariant b.Valid() && j <= |list| && ListLoop(b.state, s0, ps, from, list, j, qs)
      decreases |list| - j
    {
      r, qs := ConnectAt(b, from, list, j, s0, ps, qs);
      if r.Fail? {
        UnknownAt(list, j, s0.graph.labelOf);
        return;
      }
      j := j + 1;
    }
    ListLoopEnd(b.state, s0, ps, from, list, qs);
    return Pass;
  }

  /** `ps` holds the pairs of the first `i` keys, whose targets are all known,
      and `s` is their replay on `s0`. */
  ghost predicate KeyLoop(s: DepGraph, s0: DepGraph, edges: OMap<NodeId, seq<Option<NodeId>>>, i: nat,
                          ps: seq<(NodeId, NodeId)>) {
    edges.Valid() && i <= |edges.keys| && KnownIn(edges.m, edges.keys[..i], s0.graph.labelOf) &&
    ps == EdgePairs(edges.keys[..i], UnwrapAll(edges.m)) && Replayed(s, s0, ps)
  }

  lemma KeyLoopStart(s0: DepGraph, edges: OMap<NodeId, seq<Option<NodeId>>>)
    requires s0.Valid() && edges.Valid()
    ensures KeyLoop(s0, s0, edges, 0, [])
  {
    ConnectAllValid(s0, []);
    assert edges.keys[..0] == [];
  }

  lemma KeyLoopStep(s: DepGraph, s0: DepGraph, edges: OMap<NodeId, seq<Option<NodeId>>>, i: nat,
                    ps: seq<(NodeId, NodeId)>, s': DepGraph)
    requires i < |edges.keys| && KeyLoop(s, s0, edges, i, ps)
    requires AllKnown(edges.m[edges.keys[i]], s0.graph.labelOf)
    requires Replayed(s', s0, ps + PairsFrom(edges.keys[i], Unwrap(edges.m[edges.keys[i]])))
    ensures KeyLoop(s', s0, edges, i + 1, ps + PairsFrom(edges.keys[i], Unwrap(edges.m[edges.keys[i]])))
  {
    var k := edges.keys[i];
    assert k in edges.m && UnwrapAll(edges.m)[k] == Unwrap(edges.m[k]);
    EdgePairsSnoc(edges.keys, UnwrapAll(edges.m), i);
    KnownInSnoc(edges.m, edges.keys, i, s0.graph.labelOf);
  }

  lemma KnownInSnoc(m: map<NodeId, seq<Option<NodeId>>>, keys: seq<NodeId>, i: nat, labelOf: map<NodeId, GraphNode>)
    requires i < |keys| && KnownIn(m, keys[..i], labelOf) && keys[i] in m && AllKnown(m[keys[i]], labelOf)
    ensures KnownIn(m, keys[..i + 1], labelOf)
  {
    assert keys[..i + 1] == keys[..i] + [keys[i]];
  }

  lemma KeyLoopEnd(s: DepGraph, s0: DepGraph, edges: OMap<NodeId, seq<Option<NodeId>>>, ps: seq<(NodeId, NodeId)>)
    requires KeyLoop(s, s0, edges, |edges.keys|, ps)
    ensures KnownIn(edges.m, edges.keys, s0.graph.labelOf) && Replayed(s, s0, EdgePairs(edges.keys, UnwrapAll(edges.m)))
  {
    assert edges.keys[..|edges.keys|] == edges.keys;
  }

  /** A list with an unknown target makes the map fail. */
  lemma UnknownList(edges: OMap<NodeId, seq<Option<NodeId>>>, i: nat, labelOf: map<NodeId, GraphNode>)
    requires edges.Valid() && i < |edges.keys| && !AllKnown(edges.m[edges.keys[i]], labelOf)
    ensures !KnownIn(edges.m, edges.keys, labelOf)
  {
  }

  /** The loop over `edges.entries()`: connect every target of every list,
      stopping at the first one that is not a node. */
  method ConnectOrFail(b: DepGraphBuilder, edges: OMap<NodeId, seq<Option<NodeId>>>) returns (r: Outcome)
    requires b.Valid() && edges.Valid() && forall k :: k in edges.m ==> k in b.state.graph.labelOf
    modifies b
    ensures r.Fail? <==> !KnownIn(edges.m, edges.keys, old(b.state).graph.labelOf)
    ensures r.Fail? ==> r.msg == DepMissing
    ensures r.Pass? ==> b.Valid() && Replayed(b.state, old(b.state), EdgePairs(edges.keys, UnwrapAll(edges.m)))
  {
    ghost var s0 := b.state;
    ghost var ps: seq<(NodeId, NodeId)> := [];
    KeyLoopStart(s0, edges);
    var i := 0;
    while i < |edges.keys|
      invariant b.Valid() && KeyLoop(b.state, s0, edges, i, ps)
      decreases |edges.keys| - i
    {
      var from := edges.keys[i];
      ghost var s := b.state;
      r := ConnectList(b, from, edges.m[from], s0, ps);
      if r.Fail? {
        UnknownList(edges, i, s0.graph.labelOf);
        return;
      }
      KeyLoopStep(s, s0, edges, i, ps, b.state);
      ps := ps + PairsFrom(from, Unwrap(edges.m[from]));
      i := i + 1;
    }
    KeyLoopEnd(b.state, s0, edges, ps);
    return Pass;
  }

  // ---------------------------------------------------------------------------
  // What the rebuilt graph is.

  /** The list node `v` of `d` ends with before connecting: its dependencies,
      with the targets of its removed-edge tokens spliced back in when it
      reconnects. */
  function FinalList(d: DepGraph, v: NodeId): (r: seq<Option<NodeId>>)
    requires d.Valid() && v in d.graph.labelOf
    ensures !Reconnects(JsonNodeOf(d, v)) ==> r == Somes(d.graph.succ[v])
  {
    var n := JsonNodeOf(d, v);
    if Reconnects(n) then SpliceAll(Somes(n.deps), SortedTokens(RemovedTokens(n.info))) else Somes(n.deps)
  }

  /** Every target of every final list is a node of the rebuilt graph: a node
      of `d`, or 'root-node'. */
  ghost predicate TargetsKnown(d: DepGraph)
    requires d.Valid()
  {
    forall v, t :: v in d.graph.labelOf && t in FinalList(d, v) ==>
      t.Some? && (t.value == RootNodeId || t.value in d.graph.labelOf)
  }

  /** What `reconnectCycles` returns when every target is known: a graph object
      rooted at 'root-node' with the root package, holding the nodes of `d` and
      'root-node'; every node other than 'root-node' keeps its package and has
      its label deleted; every node of `d` has its final list as successors,
      without repeats. */
  ghost predicate Reconnected(d: DepGraph, e: DepGraph)
    requires d.Valid()
  {
    ReconnectShape(d, e) && ReconnectLabels(d, e) && ReconnectSucc(d, e)
  }

  ghost predicate ReconnectShape(d: DepGraph, e: DepGraph)
    requires d.Valid()
  {
    e.Valid() && e.rootNodeId == RootNodeId &&
    e.graph.labelOf[RootNodeId] == GraphNode(GetPkgId(d.RootPkg()), None) &&
    e.graph.nodes == RebuiltOrder(d.graph.nodes) && e.pkgManager == d.pkgManager &&
    (PkgsKeyed(d) ==> PkgsWithin(e.pkgs.m, d.pkgs.m)) &&
    forall v :: v in e.graph.labelOf <==> v == RootNodeId || v in d.graph.labelOf
  }

  ghost predicate ReconnectLabels(d: DepGraph, e: DepGraph)
    requires d.Valid()
  {
    forall v :: v in d.graph.labelOf && v != RootNodeId ==>
      v in e.graph.labelOf && e.graph.labelOf[v] == GraphNode(NodePkgId(d, v), ReconnectInfo(JsonNodeOf(d, v).info))
  }

  ghost predicate ReconnectSucc(d: DepGraph, e: DepGraph)
    requires d.Valid()
  {
    forall v :: v in e.graph.labelOf ==>
      v in e.graph.succ &&
      e.graph.succ[v] == if v in d.graph.labelOf then AppendNew([], Unwrap(FinalList(d, v))) else []
  }

  /** The re-added entries name exactly the nodes other than 'root-node', each
      once when the nodes are listed once. */
  lemma {:induction false} RestoreEntriesIds(vals: seq<JsonNode>, pkgs: map<PkgId, Pkg>)
    requires ValsKnown(vals, pkgs)
    ensures forall v :: v in EntryIds(RestoreEntries(vals, pkgs)) <==> v in Ids(vals) && v != RootNodeId
    decreases |vals|
  {
    if vals != [] {
      var init := vals[..|vals| - 1];
      var n := vals[|vals| - 1];
      assert vals == init + [n];
      RestoreEntriesIds(init, pkgs);
      RestoreEntriesSnoc(init, n, pkgs);
      IdsSnoc(init, n);
      var es0 := RestoreEntries(init, pkgs);
      if n.nodeId != RootNodeId {
        EntryIdsSnoc(es0, RestoreEntry(n, pkgs));
      }
    }
  }

  /** Each node other than 'root-node' is re-added with its package's id and
      its information with the label deleted. */
  lemma {:induction false} RestoreEntriesLabels(s0: DepGraph, vals: seq<JsonNode>, pkgs: map<PkgId, Pkg>)
    requires s0.rootNodeId == RootNodeId && Distinct(Ids(vals)) && ValsKnown(vals, pkgs)
    ensures var s1 := AddAll(s0, RestoreEntries(vals, pkgs));
      forall j :: 0 <= j < |vals| && vals[j].nodeId != RootNodeId ==>
        vals[j].nodeId in s1.graph.labelOf &&
        s1.graph.labelOf[vals[j].nodeId] == GraphNode(GetPkgId(pkgs[vals[j].pkgId]), ReconnectInfo(vals[j].info))
    decreases |vals|
  {
    if vals != [] {
      var init := vals[..|vals| - 1];
      var n := vals[|vals| - 1];
      assert vals == init + [n];
      IdsSnoc(init, n);
      assert Distinct(Ids(init));
      RestoreEntriesLabels(s0, init, pkgs);
      RestoreEntriesSnoc(init, n, pkgs);
      var es0 := RestoreEntries(init, pkgs);
      if n.nodeId != RootNodeId {
        AddAllSnoc(s0, es0, RestoreEntry(n, pkgs));
        forall j | 0 <= j < |init| ensures vals[j].nodeId != n.nodeId && vals[j] == init[j] {
          assert Ids(vals)[j] == vals[j].nodeId;
        }
      }
    }
  }

  /** The graph after the node loop: the root alone from the builder, then every
      other node with its package and its information with the label deleted,
      and no edge. */
  ghost predicate NodesRestored(d: DepGraph, s1: DepGraph)
    requires d.Valid()
  {
    s1.Valid() && NoEdges(s1) && s1.rootNodeId == RootNodeId &&
    s1.graph.labelOf[RootNodeId] == GraphNode(GetPkgId(d.RootPkg()), None) &&
    s1.graph.nodes == RebuiltOrder(d.graph.nodes) && s1.pkgManager == d.pkgManager &&
    (PkgsKeyed(d) ==> PkgsWithin(s1.pkgs.m, d.pkgs.m)) &&
    (forall v :: v in s1.graph.labelOf <==> v == RootNodeId || v in d.graph.labelOf) &&
    forall v :: v in d.graph.labelOf && v != RootNodeId ==>
      s1.graph.labelOf[v] == GraphNode(NodePkgId(d, v), ReconnectInfo(JsonNodeOf(d, v).info))
  }

  lemma RestoreNodesShape(nodes: seq<NodeId>, vals: seq<JsonNode>, pkgs: map<PkgId, Pkg>, pm: PkgManager, rootPkg: Pkg,
                          s1: DepGraph)
    requires ValsKnown(vals, pkgs) && Ids(vals) == nodes
    requires s1 == AddAll(NewGraph(pm, Some(rootPkg)), RestoreEntries(vals, pkgs))
    ensures s1.Valid() && NoEdges(s1) && s1.rootNodeId == RootNodeId
    ensures s1.graph.labelOf[RootNodeId] == GraphNode(GetPkgId(rootPkg), None)
    ensures forall v :: v in s1.graph.labelOf <==> v == RootNodeId || v in nodes
    ensures Distinct(nodes) ==> s1.graph.nodes == RebuiltOrder(nodes)
  {
    var s0 := NewGraph(pm, Some(rootPkg));
    var es := RestoreEntries(vals, pkgs);
    assert forall v :: v in s0.graph.succ ==> v == RootNodeId;
    AddAllValid(s0, es);
    AddAllLabels(s0, es);
    RestoreEntriesIds(vals, pkgs);
    if Distinct(nodes) {
      RestoreNodesOrder(s0, vals, pkgs);
    }
  }

  /** The nodes are re-added after 'root-node' in their order. */
  lemma RestoreNodesOrder(s0: DepGraph, vals: seq<JsonNode>, pkgs: map<PkgId, Pkg>)
    requires s0.rootNodeId == RootNodeId && s0.graph.labelOf.Keys == {RootNodeId} && s0.graph.nodes == [RootNodeId]
    requires ValsKnown(vals, pkgs) && Distinct(Ids(vals))
    ensures AddAll(s0, RestoreEntries(vals, pkgs)).graph.nodes == RebuiltOrder(Ids(vals))
  {
    var es := RestoreEntries(vals, pkgs);
    RestoreEntriesOrder(vals, pkgs);
    WithoutDistinct(Ids(vals), [RootNodeId]);
    forall v | v in EntryIds(es) ensures v !in s0.graph.labelOf {
      WithoutIn(Ids(vals), [RootNodeId], v);
    }
    AddAllNodes(s0, es);
  }

  /** The re-added entries list the nodes other than 'root-node' in their order. */
  lemma {:induction false} RestoreEntriesOrder(vals: seq<JsonNode>, pkgs: map<PkgId, Pkg>)
    requires ValsKnown(vals, pkgs)
    ensures EntryIds(RestoreEntries(vals, pkgs)) == Without(Ids(vals), [RootNodeId])
    decreases |vals|
  {
    if vals != [] {
      var init := vals[..|vals| - 1];
      var n := vals[|vals| - 1];
      assert vals == init + [n];
      RestoreEntriesOrder(init, pkgs);
      RestoreEntriesSnoc(init, n, pkgs);
      IdsSnoc(init, n);
      WithoutSnoc(Ids(init), n.nodeId, [RootNodeId]);
      var es0 := RestoreEntries(init, pkgs);
      if n.nodeId != RootNodeId {
        EntryIdsSnoc(es0, RestoreEntry(n, pkgs));
      }
    }
  }

  lemma RestoreNodesLabels(d: DepGraph, mp: Maps, vals: seq<JsonNode>, s1: DepGraph)
    requires d.Valid() && MapsOf(d, mp) && vals == mp.nodesMap.Values() && ValsKnown(vals, mp.pkgsInfoMap)
    requires s1 == AddAll(NewGraph(d.pkgManager, Some(d.RootPkg())), RestoreEntries(vals, mp.pkgsInfoMap))
    ensures forall v :: v in d.graph.labelOf && v != RootNodeId ==>
      v in s1.graph.labelOf &&
      s1.graph.labelOf[v] == GraphNode(NodePkgId(d, v), ReconnectInfo(JsonNodeOf(d, v).info))
  {
    ValuesOfMaps(d, mp);
    RestoreEntriesLabels(NewGraph(d.pkgManager, Some(d.RootPkg())), vals, mp.pkgsInfoMap);
    forall v | v in d.graph.labelOf && v != RootNodeId
      ensures v in s1.graph.labelOf
      ensures s1.graph.labelOf[v] == GraphNode(NodePkgId(d, v), ReconnectInfo(JsonNodeOf(d, v).info))
    {
      var j :| 0 <= j < |d.graph.nodes| && d.graph.nodes[j] == v;
      assert Ids(vals)[j] == vals[j].nodeId;
    }
  }

  lemma NodesRestoredHold(d: DepGraph, mp: Maps, vals: seq<JsonNode>, s1: DepGraph)
    requires d.Valid() && MapsOf(d, mp) && vals == mp.nodesMap.Values() && ValsKnown(vals, mp.pkgsInfoMap)
    requires s1 == AddAll(NewGraph(d.pkgManager, Some(d.RootPkg())), RestoreEntries(vals, mp.pkgsInfoMap))
    ensures NodesRestored(d, s1)
  {
    ValuesOfMaps(d, mp);
    RestoreNodesShape(d.graph.nodes, vals, mp.pkgsInfoMap, d.pkgManager, d.RootPkg(), s1);
    RestoreNodesLabels(d, mp, vals, s1);
    forall v ensures v in s1.graph.labelOf <==> v == RootNodeId || v in d.graph.labelOf {
      assert v in d.graph.labelOf <==> v in d.graph.nodes;
    }
    if PkgsKeyed(d) {
      RestoreEntriesFrom(vals, mp.pkgsInfoMap);
      AddAllPkgs(NewGraph(d.pkgManager, Some(d.RootPkg())), RestoreEntries(vals, mp.pkgsInfoMap), d.pkgs.m);
    }
  }

  /** With ids listed once, the nodes that reconnect are exactly the keys of
      the gathered map, each with its own sorted tokens. */
  lemma {:induction false} GatheredAt(vals: seq<JsonNode>)
    requires Distinct(Ids(vals))
    ensures forall k :: k in Gathered(vals).m ==> k in Ids(vals)
    ensures forall i :: 0 <= i < |vals| ==> (vals[i].nodeId in Gathered(vals).m <==> Reconnects(vals[i]))
    ensures forall i :: 0 <= i < |vals| && Reconnects(vals[i]) ==> Gathered(vals).m[vals[i].nodeId] == RemovedTokens(vals[i].info)
    decreases |vals|
  {
    if vals != [] {
      var init := vals[..|vals| - 1];
      var n := vals[|vals| - 1];
      assert vals == init + [n];
      IdsSnoc(init, n);
      assert Distinct(Ids(init)) && n.nodeId !in Ids(init);
      GatheredAt(init);
      var r0 := Gathered(init);
      assert n.nodeId !in r0.m;
      if Reconnects(n) {
        assert [] + RemovedTokens(n.info) == RemovedTokens(n.info);
      }
      forall i | 0 <= i < |init| ensures vals[i] == init[i] && vals[i].nodeId != n.nodeId {
        assert Ids(vals)[i] == vals[i].nodeId;
      }
    }
  }

  /** `tr` maps exactly the nodes of `d` that reconnect, each to its own
      tokens. */
  ghost predicate TokensGathered(d: DepGraph, tr: OMap<NodeId, seq<string>>)
    requires d.Valid()
  {
    tr.Valid() && (forall k :: k in tr.m ==> k in d.graph.labelOf) &&
    (forall v :: v in d.graph.labelOf ==> (v in tr.m <==> Reconnects(JsonNodeOf(d, v)))) &&
    forall v :: v in d.graph.labelOf && Reconnects(JsonNodeOf(d, v)) ==> tr.m[v] == RemovedTokens(JsonNodeOf(d, v).info)
  }

  /** The tokens gathered from the node values of the maps: exactly the nodes
      that reconnect, each with its own tokens. */
  lemma GatheredOf(d: DepGraph, mp: Maps, tr: OMap<NodeId, seq<string>>)
    requires d.Valid() && MapsOf(d, mp) && tr == Gathered(mp.nodesMap.Values())
    ensures TokensGathered(d, tr)
  {
    var vals := mp.nodesMap.Values();
    ValuesOfMaps(d, mp);
    GatheredAt(vals);
    forall v | v in d.graph.labelOf
      ensures v in tr.m <==> Reconnects(JsonNodeOf(d, v))
      ensures Reconnects(JsonNodeOf(d, v)) ==> tr.m[v] == RemovedTokens(JsonNodeOf(d, v).info)
    {
      var j :| 0 <= j < |d.graph.nodes| && d.graph.nodes[j] == v;
      assert Ids(vals)[j] == vals[j].nodeId;
    }
  }

  /** Before connecting, the lists are those of the nodes of `d`, each its
      final list. */
  ghost predicate ListsFinal(d: DepGraph, e: OMap<NodeId, seq<Option<NodeId>>>)
    requires d.Valid()
  {
    e.Valid() && (forall k :: k in e.m <==> k in d.graph.labelOf) &&
    forall v :: v in d.graph.labelOf ==> e.m[v] == FinalList(d, v)
  }

  /** `e` holds a copy of every node's dependencies, each target wrapped. */
  ghost predicate ListsCopied(d: DepGraph, e: OMap<NodeId, seq<Option<NodeId>>>)
    requires d.Valid()
  {
    e.Valid() && (forall k :: k in e.m <==> k in d.graph.labelOf) &&
    forall v :: v in d.graph.labelOf ==> e.m[v] == Somes(d.graph.succ[v])
  }

  lemma CopiedOf(d: DepGraph, mp: Maps, e0: OMap<NodeId, seq<Option<NodeId>>>)
    requires d.Valid() && MapsOf(d, mp)
    requires e0.Valid() && e0.keys == mp.edgesMap.keys && e0.m.Keys == mp.edgesMap.m.Keys
    requires forall k :: k in mp.edgesMap.m ==> e0.m[k] == Somes(mp.edgesMap.m[k])
    ensures ListsCopied(d, e0)
  {
  }

  lemma SplicedFinal(d: DepGraph, tr: OMap<NodeId, seq<string>>, e0: OMap<NodeId, seq<Option<NodeId>>>,
                     e1: OMap<NodeId, seq<Option<NodeId>>>)
    requires d.Valid() && TokensGathered(d, tr) && ListsCopied(d, e0)
    requires e1 == SpliceKeys(e0, tr.keys, tr.m)
    ensures ListsFinal(d, e1)
  {
    SpliceKeysKeys(e0, tr.keys, tr.m);
    forall v | v in d.graph.labelOf ensures e1.m[v] == FinalList(d, v) {
      SpliceKeysAt(e0, tr.keys, tr.m, v);
    }
  }

  /** Connecting fails exactly when some final list names no node of the new
      graph. */
  lemma KnownFinal(d: DepGraph, labelOf: map<NodeId, GraphNode>, e: OMap<NodeId, seq<Option<NodeId>>>)
    requires d.Valid() && ListsFinal(d, e)
    requires forall v :: v in labelOf <==> v == RootNodeId || v in d.graph.labelOf
    ensures KnownIn(e.m, e.keys, labelOf) <==> TargetsKnown(d)
  {
    if KnownIn(e.m, e.keys, labelOf) {
      KnownToTargets(d, labelOf, e);
    }
    if TargetsKnown(d) {
      TargetsToKnown(d, labelOf, e);
    }
  }

  lemma KnownToTargets(d: DepGraph, labelOf: map<NodeId, GraphNode>, e: OMap<NodeId, seq<Option<NodeId>>>)
    requires d.Valid() && ListsFinal(d, e) && KnownIn(e.m, e.keys, labelOf)
    requires forall v :: v in labelOf ==> v == RootNodeId || v in d.graph.labelOf
    ensures TargetsKnown(d)
  {
    forall v, t | v in d.graph.labelOf && t in FinalList(d, v)
      ensures t.Some? && (t.value == RootNodeId || t.value in d.graph.labelOf)
    {
      assert v in e.keys && AllKnown(e.m[v], labelOf);
    }
  }

  lemma TargetsToKnown(d: DepGraph, labelOf: map<NodeId, GraphNode>, e: OMap<NodeId, seq<Option<NodeId>>>)
    requires d.Valid() && ListsFinal(d, e) && TargetsKnown(d)
    requires forall v :: v == RootNodeId || v in d.graph.labelOf ==> v in labelOf
    ensures KnownIn(e.m, e.keys, labelOf)
  {
    forall k | k in e.keys && k in e.m ensures AllKnown(e.m[k], labelOf) {
      forall t | t in e.m[k] ensures Known(t, labelOf) {
        assert t in FinalList(d, k);
      }
    }
  }

  /** The graph object `reconnectCycles` builds is the one `Reconnected`
      describes. */
  lemma ReconnectedHolds(d: DepGraph, s1: DepGraph, e1: OMap<NodeId, seq<Option<NodeId>>>, e: DepGraph)
    requires d.Valid() && NodesRestored(d, s1) && ListsFinal(d, e1)
    requires Replayed(e, s1, EdgePairs(e1.keys, UnwrapAll(e1.m)))
    ensures Reconnected(d, e)
  {
    var u := UnwrapAll(e1.m);
    ConnectAllValid(s1, EdgePairs(e1.keys, u));
    ReplayedLists(s1, e1.keys, u, e);
  }

  /** `reconnectCycles(depGraph)`: a new graph object, built through the
      builder, in which every label of removed edges is deleted and every removed
      target is spliced back at its recorded index; it fails with
      "depNodeId does not exist" when a target is missing. */
  method ReconnectCycles(g: DepGraphImpl) returns (r: Result<DepGraphImpl>)
    requires g.data.Valid()
    ensures r.Err? <==> !TargetsKnown(g.data)
    ensures r.Err? ==> r.msg == DepMissing
    ensures r.Ok? ==> fresh(r.value) && Reconnected(g.data, r.value.data) && PkgsKeyed(r.value.data)
  {
    var b, e := RestoreAndSplice(g.data);
    ghost var s1 := b.state;
    KnownFinal(g.data, s1.graph.labelOf, e);
    var o := ConnectOrFail(b, e);
    if o.Fail? {
      return Err(o.msg);
    }
    var out := b.Build();
    ReconnectedHolds(g.data, s1, e, out.data);
    return Ok(out);
  }

  /** The first part of `reconnectCycles`: a new builder holding the nodes with
      their labels deleted, and the edge lists with the removed targets spliced
      back. */
  method RestoreAndSplice(d: DepGraph) returns (b: DepGraphBuilder, e: OMap<NodeId, seq<Option<NodeId>>>)
    requires d.Valid()
    ensures fresh(b) && b.Valid() && NodesRestored(d, b.state) && ListsFinal(d, e)
  {
    var mp := GetGraphMaps(d);
    GraphMapsOf(d);
    ValuesOfMaps(d, mp);
    b := new DepGraphBuilder(d.pkgManager, Some(d.RootPkg()));
    var vals := mp.nodesMap.Values();
    var tr := RestoreNodes(b, vals, mp.pkgsInfoMap);
    NodesRestoredHold(d, mp, vals, b.state);
    e := FinalLists(d, mp, tr);
  }

  /** The loops over `edgesMap.entries()` and `edgesToReconnect.entries()`:
      every node's final list. */
  method FinalLists(d: DepGraph, mp: Maps, tr: OMap<NodeId, seq<string>>) returns (e: OMap<NodeId, seq<Option<NodeId>>>)
    requires d.Valid() && MapsOf(d, mp) && tr == Gathered(mp.nodesMap.Values())
    ensures ListsFinal(d, e)
  {
    GatheredOf(d, mp, tr);
    var e0 := CopyEdges(mp.edgesMap);
    CopiedOf(d, mp, e0);
    e := SpliceEdges(e0, tr);
    SplicedFinal(d, tr, e0, e);
  }
}

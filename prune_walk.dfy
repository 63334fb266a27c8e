/** The walk of `pruneGraph` on values: what `dfsBuildGraph` leaves in the
    builder's state, and what is proved about it. Below each direct dependency of
    the root, a node met again is replaced by a childless `<id>_pruned` copy
    labelled `pruned: 'true'`; an edge back to an ancestor is kept as it is. */
module PruneWalk {
  import opened Wrappers
  import opened Graphs
  import opened Types
  import opened Dfs
  import opened DepGraphs
  import opened Builders
  import opened Replay

  const PrunedSuffix := "_pruned"

  /** Ids that end in "_pruned". */
  predicate IsPrunedId(n: NodeId) {
    |n| >= |PrunedSuffix| && n[|n| - |PrunedSuffix|..] == PrunedSuffix
  }

  /** The id a pruned id was made from. */
  function Unpruned(n: NodeId): NodeId
    requires IsPrunedId(n)
  {
    n[..|n| - |PrunedSuffix|]
  }

  /** `${nodeId}_pruned`. */
  function PrunedId(nodeId: NodeId): (r: NodeId)
    ensures IsPrunedId(r) && Unpruned(r) == nodeId
    ensures r != RootNodeId
  {
    var r := nodeId + PrunedSuffix;
    assert r[|r| - |PrunedSuffix|..] == PrunedSuffix;
    assert r[..|r| - |PrunedSuffix|] == nodeId;
    assert r[|r| - 1] == 'd' && RootNodeId[|RootNodeId| - 1] == 'e';
    r
  }

  /** `isEmpty(info) ? undefined : info` on the information `getNode` hands out. */
  function NonEmptyInfo(info: Option<NodeInfo>): (r: Option<NodeInfo>)
    ensures r.None? <==> IsEmptyInfo(info)
    ensures r.Some? ==> r == info
  {
    if IsEmptyInfo(info) then None else info
  }

  function LabelsOf(info: Option<NodeInfo>): map<string, string> {
    if info.Some? && info.value.labels.Some? then info.value.labels.value else map[]
  }

  /** `{...(info || {}), labels: {...(info?.labels || {}), pruned: value}}`: the
      information kept, with the label `pruned` set and every other label kept. */
  function MarkPruned(info: Option<NodeInfo>, value: string): (r: NodeInfo)
    ensures r.labels.Some? && "pruned" in r.labels.value && r.labels.value["pruned"] == value
    ensures forall k :: k != "pruned" ==> (k in r.labels.value <==> k in LabelsOf(info)) &&
                                           (k in LabelsOf(info) ==> r.labels.value[k] == LabelsOf(info)[k])
    ensures r.versionProvenance == if info.Some? then info.value.versionProvenance else None
  {
    var base := if info.Some? then info.value else NoInfo;
    NodeInfo(base.versionProvenance, Some(LabelsOf(info)["pruned" := value]))
  }

  /** The node information the walk reads: `getNode`, with empty information
      normalised to nothing. */
  function InfoOf(g: DepGraph, n: NodeId): Option<NodeInfo> {
    if n in g.graph.labelOf then NonEmptyInfo(g.graph.labelOf[n].info) else None
  }

  /** `ancestors[ancestors.length - 1]`: missing (falsy) for the root. */
  function Parent(ancestors: seq<NodeId>): NodeId {
    if ancestors == [] then "" else ancestors[|ancestors| - 1]
  }

  function AncSet(ancestors: seq<NodeId>): set<NodeId> {
    set a | a in ancestors
  }

  /** Nodes and edges are only ever added. */
  ghost predicate Grows(s: DepGraph, s': DepGraph) {
    s.graph.labelOf.Keys <= s'.graph.labelOf.Keys &&
    forall a, c :: s.graph.HasEdge(a, c) ==> s'.graph.HasEdge(a, c)
  }

  // ---------------------------------------------------------------------------
  // The walk on the builder's state

  /** `if (parentNodeId) { addPkgNode(pkgInfo, id, nodeInfo); connectDep(parentNodeId, id); }`
      on the builder's state: the first of the two that throws decides the outcome. */
  function AddUnder(s: DepGraph, parent: NodeId, pkg: Pkg, id: NodeId, info: Option<NodeInfo>): (w: (Outcome, DepGraph))
    requires KeysAgree(s)
    ensures KeysAgree(w.1) && w.1.rootNodeId == s.rootNodeId
    ensures parent == "" ==> w == (Pass, s)
    ensures parent != "" ==> (w.0.Pass? <==> id != s.rootNodeId && (parent in s.graph.labelOf || parent == id))
    ensures w.0.Pass? && parent != "" ==> w.1.graph.labelOf == s.graph.labelOf[id := GraphNode(GetPkgId(pkg), info)]
  {
    if parent == "" then (Pass, s)
    else
      var added := AddPkgNodeTo(s, pkg, id, info);
      if added.Err? then (Fail(added.msg), s)
      else
        var connected := ConnectDepIn(added.value, parent, id);
        if connected.Err? then (Fail(connected.msg), added.value)
        else (Pass, connected.value)
  }

  /** On a well-formed graph the two calls only add: the new node, and on success
      the edge from the parent and nothing else. */
  lemma AddUnderGrows(s: DepGraph, parent: NodeId, pkg: Pkg, id: NodeId, info: Option<NodeInfo>)
    requires KeysAgree(s) && s.graph.Valid()
    ensures var w := AddUnder(s, parent, pkg, id, info);
      w.1.graph.Valid() && Grows(s, w.1) &&
      (w.0.Pass? && parent != "" ==> forall a, c :: w.1.graph.HasEdge(a, c) <==> s.graph.HasEdge(a, c) || (a == parent && c == id))
  {
    if parent != "" {
      var added := AddPkgNodeTo(s, pkg, id, info);
      if added.Ok? {
        var a := added.value;
        assert a.graph == s.graph.SetNode(id, GraphNode(GetPkgId(pkg), info));
        assert a.graph.Valid() && Grows(s, a);
        var connected := ConnectDepIn(a, parent, id);
        if connected.Ok? {
          assert connected.value.graph == a.graph.SetEdge(parent, id);
        }
      }
    }
  }

  /** What a walk leaves behind: its outcome, the builder's state and the shared
      deduplication set. */
  datatype Walked = Walked(outcome: Outcome, state: DepGraph, dedup: Option<set<NodeId>>)

  /** `dfsBuildGraph(nodeId, depGraph, builder, ancestors, deduplicationSet)` on the
      builder's state. The builder's state only grows, and the deduplication set
      (shared by reference below the root) only gains ids. */
  ghost function Walk(g: DepGraph, s: DepGraph, nodeId: NodeId, ancestors: seq<NodeId>, dedup: Option<set<NodeId>>): (w: Walked)
    requires Readable(g) && KeysAgree(s)
    requires nodeId in g.graph.labelOf && forall a :: a in ancestors ==> a in g.graph.labelOf
    ensures KeysAgree(w.state) && w.state.rootNodeId == s.rootNodeId
    ensures w.dedup.Some? == dedup.Some? && (dedup.Some? ==> dedup.value <= w.dedup.value)
    decreases g.graph.labelOf.Keys - AncSet(ancestors), 1, 0
  {
    if nodeId in ancestors then
      var connected := ConnectDepIn(s, Parent(ancestors), nodeId);
      if connected.Err? then Walked(Fail(connected.msg), s, dedup) else Walked(Pass, connected.value, dedup)
    else if dedup.Some? && nodeId in dedup.value then
      // The pruned copy: its dependency list is emptied, so no child is walked.
      var id := PrunedId(nodeId);
      var added := AddUnder(s, Parent(ancestors), PkgOf(g, nodeId), id, Some(MarkPruned(InfoOf(g, nodeId), "true")));
      Walked(added.0, added.1, Some(dedup.value + {id}))
    else
      var dedup' := if dedup.Some? then Some(dedup.value + {nodeId}) else None;
      var added := AddUnder(s, Parent(ancestors), PkgOf(g, nodeId), nodeId, InfoOf(g, nodeId));
      if added.0.Fail? then Walked(added.0, added.1, dedup')
      else WalkDeps(g, added.1, nodeId, ancestors, dedup', 0)
  }

  /** The loop over the dependencies of `v` from the `k`-th on. The root hands each
      of its direct dependencies a fresh deduplication set
      (`deduplicationSet || new Set()`); below it the set is shared. */
  ghost function WalkDeps(g: DepGraph, s: DepGraph, v: NodeId, ancestors: seq<NodeId>, dedup: Option<set<NodeId>>, k: nat): (w: Walked)
    requires Readable(g) && KeysAgree(s)
    requires v in g.graph.labelOf && v !in ancestors && forall a :: a in ancestors ==> a in g.graph.labelOf
    requires k <= |g.graph.succ[v]|
    ensures KeysAgree(w.state) && w.state.rootNodeId == s.rootNodeId
    ensures w.dedup.Some? == dedup.Some? && (dedup.Some? ==> dedup.value <= w.dedup.value)
    decreases g.graph.labelOf.Keys - AncSet(ancestors), 0, |g.graph.succ[v]| - k
  {
    if k == |g.graph.succ[v]| then Walked(Pass, s, dedup)
    else
      var dep := g.graph.succ[v][k];
      AncSetSnoc(ancestors, v);
      FewerLeft(g.graph.labelOf.Keys, AncSet(ancestors), v);
      var child := Walk(g, s, dep, ancestors + [v], if dedup.Some? then dedup else Some({}));
      var dedup' := if dedup.Some? then child.dedup else None;
      if child.outcome.Fail? then Walked(child.outcome, child.state, dedup')
      else WalkDeps(g, child.state, v, ancestors, dedup', k + 1)
  }

  lemma FewerLeft(keys: set<NodeId>, gray: set<NodeId>, v: NodeId)
    requires v in keys && v !in gray
    ensures keys - (gray + {v}) < keys - gray
  {
    assert v in keys - gray;
  }

  /** The walk below `v` has fewer unvisited nodes left than the walk of `v`. */
  lemma Shrinks(keys: set<NodeId>, ancestors: seq<NodeId>, v: NodeId)
    requires v in keys && v !in ancestors && forall a :: a in ancestors ==> a in keys
    ensures forall a :: a in ancestors + [v] ==> a in keys
    ensures keys - AncSet(ancestors + [v]) < keys - AncSet(ancestors)
    ensures |keys - AncSet(ancestors + [v])| < |keys - AncSet(ancestors)|
  {
    AncSetSnoc(ancestors, v);
    FewerLeft(keys, AncSet(ancestors), v);
    assert keys - AncSet(ancestors + [v]) == (keys - AncSet(ancestors)) - {v};
  }

  lemma AncSetSnoc(ancestors: seq<NodeId>, v: NodeId)
    ensures AncSet(ancestors + [v]) == AncSet(ancestors) + {v}
  {
  }

  /** A node met for the first time: once it is added, the walk goes on with its
      dependencies. */
  lemma WalkEnters(g: DepGraph, s: DepGraph, nodeId: NodeId, ancestors: seq<NodeId>, dedup: Option<set<NodeId>>)
    requires Readable(g) && KeysAgree(s)
    requires nodeId in g.graph.labelOf && forall a :: a in ancestors ==> a in g.graph.labelOf
    requires nodeId !in ancestors && !(dedup.Some? && nodeId in dedup.value)
    ensures var added := AddUnder(s, Parent(ancestors), PkgOf(g, nodeId), nodeId, InfoOf(g, nodeId));
      var dedup' := if dedup.Some? then Some(dedup.value + {nodeId}) else None;
      added.0.Pass? ==> Walk(g, s, nodeId, ancestors, dedup) == WalkDeps(g, added.1, nodeId, ancestors, dedup', 0)
  {
  }

  /** One turn of the dependency loop, unfolded. */
  lemma WalkDepsStep(g: DepGraph, s: DepGraph, v: NodeId, ancestors: seq<NodeId>, dedup: Option<set<NodeId>>, k: nat)
    requires Readable(g) && KeysAgree(s)
    requires v in g.graph.labelOf && v !in ancestors && forall a :: a in ancestors ==> a in g.graph.labelOf
    requires k < |g.graph.succ[v]|
    ensures g.graph.succ[v][k] in g.graph.labelOf
    ensures var child := Walk(g, s, g.graph.succ[v][k], ancestors + [v], if dedup.Some? then dedup else Some({}));
      var dedup' := if dedup.Some? then child.dedup else None;
      WalkDeps(g, s, v, ancestors, dedup, k) ==
        if child.outcome.Fail? then Walked(child.outcome, child.state, dedup')
        else WalkDeps(g, child.state, v, ancestors, dedup', k + 1)
  {
  }

  /** The turn of the dependency loop at `k`, given what the walk of the `k`-th
      dependency returned. */
  lemma DepStep(g: DepGraph, s: DepGraph, v: NodeId, ancestors: seq<NodeId>, dedup: Option<set<NodeId>>, k: nat,
                r: Outcome, s': DepGraph, d: Option<set<NodeId>>)
    requires Readable(g) && KeysAgree(s)
    requires v in g.graph.labelOf && v !in ancestors && forall a :: a in ancestors ==> a in g.graph.labelOf
    requires k < |g.graph.succ[v]| && g.graph.succ[v][k] in g.graph.labelOf
    requires Walked(r, s', d) == Walk(g, s, g.graph.succ[v][k], ancestors + [v], if dedup.Some? then dedup else Some({}))
    ensures WalkDeps(g, s, v, ancestors, dedup, k) ==
      if r.Fail? then Walked(r, s', if dedup.Some? then d else None)
      else WalkDeps(g, s', v, ancestors, if dedup.Some? then d else None, k + 1)
  {
    WalkDepsStep(g, s, v, ancestors, dedup, k);
  }

  // ---------------------------------------------------------------------------
  // Everything in the copy comes from the input

  /** A node of the copy is an input node with its package and information, or
      the pruned copy of one. */
  ghost predicate LabelFrom(g: DepGraph, n: NodeId, l: GraphNode) {
    (n in g.graph.labelOf && l == GraphNode(GetPkgId(PkgOf(g, n)), InfoOf(g, n))) ||
    (IsPrunedId(n) && Unpruned(n) in g.graph.labelOf &&
     l == GraphNode(GetPkgId(PkgOf(g, Unpruned(n))), Some(MarkPruned(InfoOf(g, Unpruned(n)), "true"))))
  }

  /** An edge of the copy is an input edge, or leads to the pruned copy of the
      input edge's target. */
  ghost predicate EdgeFrom(g: DepGraph, a: NodeId, c: NodeId) {
    a in g.graph.labelOf &&
    (c in Next(g.graph.succ, a) || (IsPrunedId(c) && Unpruned(c) in Next(g.graph.succ, a)))
  }

  /** Every edge and every node other than the root node comes from the input. */
  ghost predicate Sound(g: DepGraph, s: DepGraph) {
    (forall a, c :: s.graph.HasEdge(a, c) ==> EdgeFrom(g, a, c)) &&
    (forall n :: n in s.graph.labelOf && n != RootNodeId ==> LabelFrom(g, n, s.graph.labelOf[n]))
  }

  lemma AddUnderSound(g: DepGraph, s: DepGraph, parent: NodeId, pkg: Pkg, id: NodeId, info: Option<NodeInfo>)
    requires s.graph.Valid() && Sound(g, s)
    requires parent != "" ==> EdgeFrom(g, parent, id) && LabelFrom(g, id, GraphNode(GetPkgId(pkg), info))
    ensures Sound(g, AddUnder(s, parent, pkg, id, info).1)
  {
    if parent != "" {
      var added := AddPkgNodeTo(s, pkg, id, info);
      if added.Ok? {
        assert Sound(g, added.value);
      }
    }
  }

  lemma {:induction false} WalkSound(g: DepGraph, s: DepGraph, nodeId: NodeId, ancestors: seq<NodeId>, dedup: Option<set<NodeId>>)
    requires Readable(g) && s.graph.Valid()
    requires nodeId in g.graph.labelOf && forall a :: a in ancestors ==> a in g.graph.labelOf
    requires ancestors != [] ==> nodeId in Next(g.graph.succ, Parent(ancestors))
    ensures var w := Walk(g, s, nodeId, ancestors, dedup);
      w.state.graph.Valid() && Grows(s, w.state) && (Sound(g, s) ==> Sound(g, w.state))
    decreases g.graph.labelOf.Keys - AncSet(ancestors), 1, 0
  {
    if nodeId in ancestors {
    } else if dedup.Some? && nodeId in dedup.value {
      AddUnderGrows(s, Parent(ancestors), PkgOf(g, nodeId), PrunedId(nodeId), Some(MarkPruned(InfoOf(g, nodeId), "true")));
      if Sound(g, s) {
        AddUnderSound(g, s, Parent(ancestors), PkgOf(g, nodeId), PrunedId(nodeId), Some(MarkPruned(InfoOf(g, nodeId), "true")));
      }
    } else {
      var dedup' := if dedup.Some? then Some(dedup.value + {nodeId}) else None;
      AddUnderGrows(s, Parent(ancestors), PkgOf(g, nodeId), nodeId, InfoOf(g, nodeId));
      if Sound(g, s) {
        AddUnderSound(g, s, Parent(ancestors), PkgOf(g, nodeId), nodeId, InfoOf(g, nodeId));
      }
      var added := AddUnder(s, Parent(ancestors), PkgOf(g, nodeId), nodeId, InfoOf(g, nodeId));
      if added.0.Pass? {
        WalkEnters(g, s, nodeId, ancestors, dedup);
        WalkDepsSound(g, added.1, nodeId, ancestors, dedup', 0);
      }
    }
  }

  lemma {:induction false} WalkDepsSound(g: DepGraph, s: DepGraph, v: NodeId, ancestors: seq<NodeId>, dedup: Option<set<NodeId>>, k: nat)
    requires Readable(g) && s.graph.Valid()
    requires v in g.graph.labelOf && v !in ancestors && forall a :: a in ancestors ==> a in g.graph.labelOf
    requires k <= |g.graph.succ[v]|
    ensures var w := WalkDeps(g, s, v, ancestors, dedup, k);
      w.state.graph.Valid() && Grows(s, w.state) && (Sound(g, s) ==> Sound(g, w.state))
    decreases g.graph.labelOf.Keys - AncSet(ancestors), 0, |g.graph.succ[v]| - k
  {
    if k < |g.graph.succ[v]| {
      var dep := g.graph.succ[v][k];
      Shrinks(g.graph.labelOf.Keys, ancestors, v);
      WalkDepsStep(g, s, v, ancestors, dedup, k);
      var childDedup := if dedup.Some? then dedup else Some({});
      WalkSound(g, s, dep, ancestors + [v], childDedup);
      var child := Walk(g, s, dep, ancestors + [v], childDedup);
      if child.outcome.Pass? {
        WalkDepsSound(g, child.state, v, ancestors, if dedup.Some? then child.dedup else None, k + 1);
      }
    }
  }

  /** The root node keeps its label: the builder refuses to override it. */
  ghost predicate KeepsRoot(s: DepGraph, s': DepGraph) {
    s.rootNodeId in s.graph.labelOf ==>
      s.rootNodeId in s'.graph.labelOf && s'.graph.labelOf[s.rootNodeId] == s.graph.labelOf[s.rootNodeId]
  }

  lemma AddUnderKeepsRoot(s: DepGraph, parent: NodeId, pkg: Pkg, id: NodeId, info: Option<NodeInfo>)
    requires KeysAgree(s)
    ensures KeepsRoot(s, AddUnder(s, parent, pkg, id, info).1)
  {
  }

  lemma {:induction false} WalkKeepsRoot(g: DepGraph, s: DepGraph, nodeId: NodeId, ancestors: seq<NodeId>, dedup: Option<set<NodeId>>)
    requires Readable(g) && KeysAgree(s)
    requires nodeId in g.graph.labelOf && forall a :: a in ancestors ==> a in g.graph.labelOf
    ensures KeepsRoot(s, Walk(g, s, nodeId, ancestors, dedup).state)
    decreases g.graph.labelOf.Keys - AncSet(ancestors), 1, 0
  {
    if nodeId in ancestors {
    } else if dedup.Some? && nodeId in dedup.value {
      AddUnderKeepsRoot(s, Parent(ancestors), PkgOf(g, nodeId), PrunedId(nodeId), Some(MarkPruned(InfoOf(g, nodeId), "true")));
    } else {
      var dedup' := if dedup.Some? then Some(dedup.value + {nodeId}) else None;
      AddUnderKeepsRoot(s, Parent(ancestors), PkgOf(g, nodeId), nodeId, InfoOf(g, nodeId));
      var added := AddUnder(s, Parent(ancestors), PkgOf(g, nodeId), nodeId, InfoOf(g, nodeId));
      if added.0.Pass? {
        WalkDepsKeepsRoot(g, added.1, nodeId, ancestors, dedup', 0);
      }
    }
  }

  lemma {:induction false} WalkDepsKeepsRoot(g: DepGraph, s: DepGraph, v: NodeId, ancestors: seq<NodeId>, dedup: Option<set<NodeId>>, k: nat)
    requires Readable(g) && KeysAgree(s)
    requires v in g.graph.labelOf && v !in ancestors && forall a :: a in ancestors ==> a in g.graph.labelOf
    requires k <= |g.graph.succ[v]|
    ensures KeepsRoot(s, WalkDeps(g, s, v, ancestors, dedup, k).state)
    decreases g.graph.labelOf.Keys - AncSet(ancestors), 0, |g.graph.succ[v]| - k
  {
    if k < |g.graph.succ[v]| {
      var dep := g.graph.succ[v][k];
      AncSetSnoc(ancestors, v);
      FewerLeft(g.graph.labelOf.Keys, AncSet(ancestors), v);
      var childDedup := if dedup.Some? then dedup else Some({});
      WalkKeepsRoot(g, s, dep, ancestors + [v], childDedup);
      var child := Walk(g, s, dep, ancestors + [v], childDedup);
      var dedup' := if dedup.Some? then child.dedup else None;
      if child.outcome.Pass? {
        WalkDepsKeepsRoot(g, child.state, v, ancestors, dedup', k + 1);
      }
    }
  }

  // ---------------------------------------------------------------------------
  // Nothing reachable is lost

  /** The inputs the walk handles without failing: the root is 'root-node', and no
      id is empty text or ends in "_pruned". */
  ghost predicate Plain(g: DepGraph) {
    g.rootNodeId == RootNodeId &&
    forall n :: n in g.graph.labelOf ==> n != "" && !IsPrunedId(n)
  }

  /** Every input node in the copy that is no longer being walked has each of its
      input successors in the copy, joined to it directly or through a pruned copy. */
  ghost predicate Done(g: DepGraph, s: DepGraph, gray: set<NodeId>) {
    forall x, y :: x in s.graph.labelOf && x in g.graph.labelOf && x !in gray && y in Next(g.graph.succ, x) ==>
      y in s.graph.labelOf && (s.graph.HasEdge(x, y) || s.graph.HasEdge(x, PrunedId(y)))
  }

  /** The nodes being walked: the ancestors, and the root while it is walked. */
  function Pending(ancestors: seq<NodeId>, nodeId: NodeId): set<NodeId> {
    if ancestors == [] then {nodeId} else AncSet(ancestors)
  }

  /** What keeps the walk from failing on a plain input: the ancestors and the
      deduplicated ids are in the copy, and finished nodes are done. */
  ghost predicate OnTrack(g: DepGraph, s: DepGraph, ancestors: seq<NodeId>, dedup: Option<set<NodeId>>, gray: set<NodeId>) {
    (forall a :: a in ancestors ==> a in s.graph.labelOf) &&
    (dedup.Some? ==> dedup.value <= s.graph.labelOf.Keys) &&
    Done(g, s, gray)
  }

  /** The successors in `ts` are in the copy, each joined to `v` directly or
      through its pruned copy. */
  ghost predicate Linked(s: DepGraph, v: NodeId, ts: seq<NodeId>) {
    forall t :: t in ts ==> t in s.graph.labelOf && (s.graph.HasEdge(v, t) || s.graph.HasEdge(v, PrunedId(t)))
  }

  /** Entering a node: the copy gains it (and an edge to it), and it joins the
      nodes being walked. */
  lemma DoneEnter(g: DepGraph, s: DepGraph, s': DepGraph, gray: set<NodeId>, v: NodeId)
    requires Done(g, s, gray) && Grows(s, s') && s'.graph.labelOf.Keys <= s.graph.labelOf.Keys + {v}
    ensures Done(g, s', gray + {v})
    ensures v !in g.graph.labelOf ==> Done(g, s', gray)
  {
  }

  /** A child is walked with the ancestors extended by its parent. */
  lemma EnterChild(g: DepGraph, s: DepGraph, ancestors: seq<NodeId>, v: NodeId,
                   dedup: Option<set<NodeId>>, childDedup: Option<set<NodeId>>)
    requires v in s.graph.labelOf && OnTrack(g, s, ancestors, dedup, AncSet(ancestors) + {v})
    requires childDedup == if dedup.Some? then dedup else Some({})
    ensures OnTrack(g, s, ancestors + [v], childDedup, Pending(ancestors + [v], v))
  {
    AncSetSnoc(ancestors, v);
  }

  /** After a child's walk the copy holds the child, joined to its parent. */
  lemma LeaveChild(g: DepGraph, s: DepGraph, s': DepGraph, ancestors: seq<NodeId>, v: NodeId,
                   childDedup: Option<set<NodeId>>, dedup: Option<set<NodeId>>, ts: seq<NodeId>, t: NodeId)
    requires Linked(s, v, ts) && Grows(s, s')
    requires OnTrack(g, s', ancestors + [v], childDedup, AncSet(ancestors + [v]))
    requires dedup.Some? ==> dedup == childDedup
    requires t in s'.graph.labelOf && (s'.graph.HasEdge(v, t) || s'.graph.HasEdge(v, PrunedId(t)))
    ensures v in s'.graph.labelOf && OnTrack(g, s', ancestors, dedup, AncSet(ancestors) + {v})
    ensures Linked(s', v, ts + [t])
  {
    AncSetSnoc(ancestors, v);
    assert v in ancestors + [v];
  }

  /** Leaving a node once all its successors are in the copy. */
  lemma DoneLeave(g: DepGraph, s: DepGraph, gray: set<NodeId>, v: NodeId)
    requires Readable(g) && v in g.graph.labelOf
    requires Done(g, s, gray + {v}) && Linked(s, v, g.graph.succ[v])
    ensures Done(g, s, gray)
  {
  }

  /** Re-entering an ancestor only joins it to the parent, which is in the copy. */
  lemma AncestorPlain(g: DepGraph, s: DepGraph, nodeId: NodeId, ancestors: seq<NodeId>, dedup: Option<set<NodeId>>)
    requires Readable(g) && s.graph.Valid()
    requires nodeId in g.graph.labelOf && forall a :: a in ancestors ==> a in g.graph.labelOf
    requires nodeId in ancestors && OnTrack(g, s, ancestors, dedup, AncSet(ancestors))
    ensures var w := Walk(g, s, nodeId, ancestors, dedup);
      w.outcome.Pass? && OnTrack(g, w.state, ancestors, w.dedup, AncSet(ancestors)) &&
      nodeId in w.state.graph.labelOf && w.state.graph.HasEdge(Parent(ancestors), nodeId)
  {
    assert Parent(ancestors) in ancestors;
  }

  /** A node met again below the same direct dependency of the root gets its
      pruned copy, joined to the parent. */
  lemma PrunedPlain(g: DepGraph, s: DepGraph, nodeId: NodeId, ancestors: seq<NodeId>, dedup: Option<set<NodeId>>)
    requires Readable(g) && s.graph.Valid() && Plain(g) && s.rootNodeId == RootNodeId
    requires nodeId in g.graph.labelOf && forall a :: a in ancestors ==> a in g.graph.labelOf
    requires ancestors != [] && nodeId !in ancestors && dedup.Some? && nodeId in dedup.value
    requires OnTrack(g, s, ancestors, dedup, AncSet(ancestors))
    ensures var w := Walk(g, s, nodeId, ancestors, dedup);
      w.outcome.Pass? && OnTrack(g, w.state, ancestors, w.dedup, AncSet(ancestors)) &&
      nodeId in w.state.graph.labelOf && w.state.graph.HasEdge(Parent(ancestors), PrunedId(nodeId))
  {
    var id := PrunedId(nodeId);
    var added := AddUnder(s, Parent(ancestors), PkgOf(g, nodeId), id, Some(MarkPruned(InfoOf(g, nodeId), "true")));
    AddUnderGrows(s, Parent(ancestors), PkgOf(g, nodeId), id, Some(MarkPruned(InfoOf(g, nodeId), "true")));
    assert Parent(ancestors) in ancestors;
    DoneEnter(g, s, added.1, AncSet(ancestors), id);
  }

  /** A node met for the first time is put in the copy and joined to its parent;
      its own dependencies are walked next. */
  lemma EnterPlain(g: DepGraph, s: DepGraph, nodeId: NodeId, ancestors: seq<NodeId>, dedup: Option<set<NodeId>>)
    requires Readable(g) && s.graph.Valid() && Plain(g) && s.rootNodeId == RootNodeId
    requires nodeId in g.graph.labelOf && forall a :: a in ancestors ==> a in g.graph.labelOf
    requires ancestors == [] ==> nodeId == g.rootNodeId && nodeId in s.graph.labelOf && dedup.None?
    requires ancestors != [] ==> dedup.Some? && ancestors[0] == g.rootNodeId
    requires nodeId !in ancestors && !(dedup.Some? && nodeId in dedup.value)
    requires OnTrack(g, s, ancestors, dedup, Pending(ancestors, nodeId))
    ensures var added := AddUnder(s, Parent(ancestors), PkgOf(g, nodeId), nodeId, InfoOf(g, nodeId));
      var dedup' := if dedup.Some? then Some(dedup.value + {nodeId}) else None;
      added.0.Pass? && added.1.graph.Valid() && added.1.rootNodeId == RootNodeId &&
      nodeId in added.1.graph.labelOf && OnTrack(g, added.1, ancestors, dedup', AncSet(ancestors) + {nodeId}) &&
      Linked(added.1, nodeId, g.graph.succ[nodeId][..0]) &&
      (ancestors != [] ==> added.1.graph.HasEdge(Parent(ancestors), nodeId))
  {
    var added := AddUnder(s, Parent(ancestors), PkgOf(g, nodeId), nodeId, InfoOf(g, nodeId));
    AddUnderGrows(s, Parent(ancestors), PkgOf(g, nodeId), nodeId, InfoOf(g, nodeId));
    if ancestors != [] {
      assert Parent(ancestors) in ancestors && ancestors[0] in ancestors;
    }
    DoneEnter(g, s, added.1, Pending(ancestors, nodeId), nodeId);
    assert Pending(ancestors, nodeId) + {nodeId} == AncSet(ancestors) + {nodeId};
  }

  /** On a plain input the walk never fails: every node it enters below the root is
      put in the copy and joined to its parent, directly or through a pruned copy,
      and every node it leaves is done. */
  lemma {:induction false} WalkPlain(g: DepGraph, s: DepGraph, nodeId: NodeId, ancestors: seq<NodeId>, dedup: Option<set<NodeId>>)
    requires Readable(g) && s.graph.Valid() && Plain(g) && s.rootNodeId == RootNodeId
    requires nodeId in g.graph.labelOf && forall a :: a in ancestors ==> a in g.graph.labelOf
    requires ancestors == [] ==> nodeId == g.rootNodeId && nodeId in s.graph.labelOf && dedup.None?
    requires ancestors != [] ==> nodeId in Next(g.graph.succ, Parent(ancestors)) && dedup.Some? && ancestors[0] == g.rootNodeId
    requires OnTrack(g, s, ancestors, dedup, Pending(ancestors, nodeId))
    ensures var w := Walk(g, s, nodeId, ancestors, dedup);
      w.outcome.Pass? && OnTrack(g, w.state, ancestors, w.dedup, AncSet(ancestors)) &&
      (ancestors != [] ==>
         nodeId in w.state.graph.labelOf &&
         (w.state.graph.HasEdge(Parent(ancestors), nodeId) || w.state.graph.HasEdge(Parent(ancestors), PrunedId(nodeId))))
    decreases g.graph.labelOf.Keys - AncSet(ancestors), 1, 0
  {
    if nodeId in ancestors {
      AncestorPlain(g, s, nodeId, ancestors, dedup);
    } else if dedup.Some? && nodeId in dedup.value {
      PrunedPlain(g, s, nodeId, ancestors, dedup);
    } else {
      var dedup' := if dedup.Some? then Some(dedup.value + {nodeId}) else None;
      EnterPlain(g, s, nodeId, ancestors, dedup);
      var added := AddUnder(s, Parent(ancestors), PkgOf(g, nodeId), nodeId, InfoOf(g, nodeId));
      WalkEnters(g, s, nodeId, ancestors, dedup);
      WalkDepsPlain(g, added.1, nodeId, ancestors, dedup', 0);
      WalkDepsSound(g, added.1, nodeId, ancestors, dedup', 0);
    }
  }

  lemma {:induction false} WalkDepsPlain(g: DepGraph, s: DepGraph, v: NodeId, ancestors: seq<NodeId>, dedup: Option<set<NodeId>>, k: nat)
    requires Readable(g) && s.graph.Valid() && Plain(g) && s.rootNodeId == RootNodeId
    requires v in g.graph.labelOf && v !in ancestors && forall a :: a in ancestors ==> a in g.graph.labelOf
    requires ancestors == [] <==> dedup.None?
    requires if ancestors == [] then v == g.rootNodeId else ancestors[0] == g.rootNodeId
    requires k <= |g.graph.succ[v]|
    requires v in s.graph.labelOf && OnTrack(g, s, ancestors, dedup, AncSet(ancestors) + {v})
    requires Linked(s, v, g.graph.succ[v][..k])
    ensures var w := WalkDeps(g, s, v, ancestors, dedup, k);
      w.outcome.Pass? && OnTrack(g, w.state, ancestors, w.dedup, AncSet(ancestors))
    decreases g.graph.labelOf.Keys - AncSet(ancestors), 0, |g.graph.succ[v]| - k
  {
    var deps := g.graph.succ[v];
    if k == |deps| {
      assert deps[..k] == deps;
      DoneLeave(g, s, AncSet(ancestors), v);
    } else {
      var dep := deps[k];
      AncSetSnoc(ancestors, v);
      FewerLeft(g.graph.labelOf.Keys, AncSet(ancestors), v);
      var childDedup := if dedup.Some? then dedup else Some({});
      EnterChild(g, s, ancestors, v, dedup, childDedup);
      WalkPlain(g, s, dep, ancestors + [v], childDedup);
      WalkSound(g, s, dep, ancestors + [v], childDedup);
      var child := Walk(g, s, dep, ancestors + [v], childDedup);
      var dedup' := if dedup.Some? then child.dedup else None;
      LeaveChild(g, s, child.state, ancestors, v, child.dedup, dedup', deps[..k], dep);
      TakeOneMore(deps, k);
      WalkDepsStep(g, s, v, ancestors, dedup, k);
      WalkDepsPlain(g, child.state, v, ancestors, dedup', k + 1);
    }
  }

  lemma TakeOneMore(s: seq<NodeId>, k: nat)
    requires k < |s|
    ensures s[..k + 1] == s[..k] + [s[k]]
  {
  }

  /** Every node reachable from the root is in the copy, and every input edge out
      of such a node is kept, either as it is or as an edge to a pruned copy. */
  ghost predicate Complete(g: DepGraph, s: DepGraph) {
    (forall x :: Reaches(g.graph.succ, g.rootNodeId, x) ==> x in s.graph.labelOf) &&
    (forall x, y :: Reaches(g.graph.succ, g.rootNodeId, x) && y in Next(g.graph.succ, x) ==>
       s.graph.HasEdge(x, y) || s.graph.HasEdge(x, PrunedId(y)))
  }

  lemma DoneComplete(g: DepGraph, s: DepGraph)
    requires Readable(g) && g.rootNodeId in g.graph.labelOf && g.rootNodeId in s.graph.labelOf
    requires Done(g, s, {})
    ensures Complete(g, s)
  {
    var inBoth := s.graph.labelOf.Keys * g.graph.labelOf.Keys;
    assert Closed(g.graph.succ, inBoth);
    forall x | Reaches(g.graph.succ, g.rootNodeId, x) ensures x in inBoth {
      ClosedHoldsReach(g.graph.succ, inBoth, g.rootNodeId, x);
    }
  }

  /** The walk from the root of the input, started on a builder's state holding
      only its root node: the copy is sound and keeps the root's package. */
  lemma PruneSound(g: DepGraph, s0: DepGraph, outcome: Outcome, d: DepGraph, dedup: Option<set<NodeId>>)
    requires g.Valid() && s0 == NewGraph(g.pkgManager, Some(g.RootPkg()))
    requires Readable(g) && Walked(outcome, d, dedup) == Walk(g, s0, g.rootNodeId, [], None)
    ensures Sound(g, d) && d.rootNodeId == RootNodeId
    ensures RootNodeId in d.graph.labelOf && d.graph.labelOf[RootNodeId].pkgId == GetPkgId(g.RootPkg())
  {
    assert Sound(g, s0) by {
      forall a, c ensures !s0.graph.HasEdge(a, c) {
        if a in s0.graph.succ {
          assert a == RootNodeId;
        }
      }
    }
    WalkSound(g, s0, g.rootNodeId, [], None);
    WalkKeepsRoot(g, s0, g.rootNodeId, [], None);
  }

  /** The same walk on a plain input: it succeeds, keeps every reachable node and
      edge, and its pruned copies are leaves. */
  lemma PrunePlain(g: DepGraph, s0: DepGraph, outcome: Outcome, d: DepGraph, dedup: Option<set<NodeId>>)
    requires g.Valid() && s0 == NewGraph(g.pkgManager, Some(g.RootPkg())) && Plain(g)
    requires Readable(g) && Walked(outcome, d, dedup) == Walk(g, s0, g.rootNodeId, [], None)
    requires Sound(g, d) && RootNodeId in d.graph.labelOf
    ensures outcome.Pass? && Complete(g, d)
    ensures forall n, c :: IsPrunedId(n) ==> !d.graph.HasEdge(n, c)
  {
    assert Done(g, s0, {g.rootNodeId});
    WalkPlain(g, s0, g.rootNodeId, [], None);
    DoneComplete(g, d);
  }
}

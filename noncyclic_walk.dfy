/** The walk of `mapToNonCyclicGraph` on values: what `dfsBuildGraph` leaves in
    the builder's state, and what is proved about it. A node met again while it
    is still an ancestor is replaced by a childless `<id>_pruned` leaf labelled
    `pruned: 'cyclic'`; a node whose walk has finished (it is in the shared
    memoization set) is joined to its new parent without walking its
    dependencies again. */
module NonCyclicWalk {
  import opened Wrappers
  import opened Graphs
  import opened Types
  import opened DepGraphs
  import opened Builders
  import opened Replay
  import opened Dfs
  import opened PruneWalk

  const CyclicLabel := "cyclic"

  /** `getNode(nodeId)`: the node information, `{}` when the node has none. */
  function NodeInfoOf(g: DepGraph, n: NodeId): (r: Option<NodeInfo>)
    ensures r.Some?
    ensures n in g.graph.labelOf && g.graph.labelOf[n].info.Some? ==> r == g.graph.labelOf[n].info
    ensures n in g.graph.labelOf && g.graph.labelOf[n].info.None? ==> r == Some(NoInfo)
  {
    if n in g.graph.labelOf && g.graph.labelOf[n].info.Some? then g.graph.labelOf[n].info else Some(NoInfo)
  }

  /** The id `dfsBuildGraph` adds for `nodeId` below `ancestors`, and the
      information it adds it with. */
  function IdFor(nodeId: NodeId, ancestors: seq<NodeId>): (r: NodeId)
    ensures nodeId in ancestors ==> IsPrunedId(r) && Unpruned(r) == nodeId
    ensures nodeId !in ancestors ==> r == nodeId
  {
    if nodeId in ancestors then PrunedId(nodeId) else nodeId
  }

  function InfoFor(g: DepGraph, nodeId: NodeId, ancestors: seq<NodeId>): Option<NodeInfo> {
    if nodeId in ancestors then Some(MarkPruned(NodeInfoOf(g, nodeId), CyclicLabel)) else NodeInfoOf(g, nodeId)
  }

  /** What a walk leaves behind: its outcome, the builder's state and the shared
      memoization set. */
  datatype Mapped = Mapped(outcome: Outcome, state: DepGraph, memo: set<NodeId>)

  /** `dfsBuildGraph(nodeId, depGraph, builder, spinner, ancestors, memoizationSet)`
      on the builder's state. The state only grows, and the memoization set only
      gains ids. */
  ghost function Walk(g: DepGraph, s: DepGraph, nodeId: NodeId, ancestors: seq<NodeId>, memo: set<NodeId>): (w: Mapped)
    requires Readable(g) && KeysAgree(s)
    requires nodeId in g.graph.labelOf && forall a :: a in ancestors ==> a in g.graph.labelOf
    ensures KeysAgree(w.state) && w.state.rootNodeId == s.rootNodeId && memo <= w.memo
    decreases g.graph.labelOf.Keys - AncSet(ancestors), 1, 0
  {
    var id := IdFor(nodeId, ancestors);
    var added := AddUnder(s, Parent(ancestors), PkgOf(g, nodeId), id, InfoFor(g, nodeId, ancestors));
    if added.0.Fail? then Mapped(added.0, added.1, memo)
    else if nodeId in ancestors || nodeId in memo then
      // The dependency list is emptied: nothing below is walked.
      Mapped(Pass, added.1, memo + {id})
    else
      var deps := WalkDeps(g, added.1, nodeId, ancestors, memo, 0);
      if deps.outcome.Fail? then deps else Mapped(Pass, deps.state, deps.memo + {nodeId})
  }

  /** The loop over the dependencies of `v` from the `k`-th on, each walked with
      `ancestors.concat(v)` and the same memoization set. */
  ghost function WalkDeps(g: DepGraph, s: DepGraph, v: NodeId, ancestors: seq<NodeId>, memo: set<NodeId>, k: nat): (w: Mapped)
    requires Readable(g) && KeysAgree(s)
    requires v in g.graph.labelOf && v !in ancestors && forall a :: a in ancestors ==> a in g.graph.labelOf
    requires k <= |g.graph.succ[v]|
    ensures KeysAgree(w.state) && w.state.rootNodeId == s.rootNodeId && memo <= w.memo
    decreases g.graph.labelOf.Keys - AncSet(ancestors), 0, |g.graph.succ[v]| - k
  {
    if k == |g.graph.succ[v]| then Mapped(Pass, s, memo)
    else
      Shrinks(g.graph.labelOf.Keys, ancestors, v);
      var child := Walk(g, s, g.graph.succ[v][k], ancestors + [v], memo);
      if child.outcome.Fail? then child
      else WalkDeps(g, child.state, v, ancestors, child.memo, k + 1)
  }

  /** A node neither an ancestor nor memoized: once it is added, the walk goes on
      with its dependencies, and the node joins the set when they are done. */
  lemma WalkEnters(g: DepGraph, s: DepGraph, nodeId: NodeId, ancestors: seq<NodeId>, memo: set<NodeId>)
    requires Readable(g) && KeysAgree(s)
    requires nodeId in g.graph.labelOf && forall a :: a in ancestors ==> a in g.graph.labelOf
    requires nodeId !in ancestors && nodeId !in memo
    ensures var added := AddUnder(s, Parent(ancestors), PkgOf(g, nodeId), nodeId, NodeInfoOf(g, nodeId));
      var deps := WalkDeps(g, added.1, nodeId, ancestors, memo, 0);
      added.0.Pass? ==>
        Walk(g, s, nodeId, ancestors, memo) == if deps.outcome.Fail? then deps else Mapped(Pass, deps.state, deps.memo + {nodeId})
  {
  }

  /** An ancestor or a memoized node: once its id is added, the walk is over. */
  lemma WalkStops(g: DepGraph, s: DepGraph, nodeId: NodeId, ancestors: seq<NodeId>, memo: set<NodeId>)
    requires Readable(g) && KeysAgree(s)
    requires nodeId in g.graph.labelOf && forall a :: a in ancestors ==> a in g.graph.labelOf
    requires nodeId in ancestors || nodeId in memo
    ensures var id := IdFor(nodeId, ancestors);
      var added := AddUnder(s, Parent(ancestors), PkgOf(g, nodeId), id, InfoFor(g, nodeId, ancestors));
      added.0.Pass? ==> Walk(g, s, nodeId, ancestors, memo) == Mapped(Pass, added.1, memo + {id})
  {
  }

  /** One turn of the dependency loop, unfolded. */
  lemma WalkDepsStep(g: DepGraph, s: DepGraph, v: NodeId, ancestors: seq<NodeId>, memo: set<NodeId>, k: nat)
    requires Readable(g) && KeysAgree(s)
    requires v in g.graph.labelOf && v !in ancestors && forall a :: a in ancestors ==> a in g.graph.labelOf
    requires k < |g.graph.succ[v]|
    ensures g.graph.succ[v][k] in g.graph.labelOf
    ensures var child := Walk(g, s, g.graph.succ[v][k], ancestors + [v], memo);
      WalkDeps(g, s, v, ancestors, memo, k) ==
        if child.outcome.Fail? then child else WalkDeps(g, child.state, v, ancestors, child.memo, k + 1)
  {
  }

  /** The turn of the dependency loop at `k`, given what the walk of the `k`-th
      dependency returned. */
  lemma DepStep(g: DepGraph, s: DepGraph, v: NodeId, ancestors: seq<NodeId>, memo: set<NodeId>, k: nat,
                r: Outcome, s': DepGraph, m: set<NodeId>)
    requires Readable(g) && KeysAgree(s)
    requires v in g.graph.labelOf && v !in ancestors && forall a :: a in ancestors ==> a in g.graph.labelOf
    requires k < |g.graph.succ[v]| && g.graph.succ[v][k] in g.graph.labelOf
    requires Mapped(r, s', m) == Walk(g, s, g.graph.succ[v][k], ancestors + [v], memo)
    ensures WalkDeps(g, s, v, ancestors, memo, k) ==
      if r.Fail? then Mapped(r, s', m) else WalkDeps(g, s', v, ancestors, m, k + 1)
  {
    WalkDepsStep(g, s, v, ancestors, memo, k);
  }

  // ---------------------------------------------------------------------------
  // Everything in the new graph comes from the input

  /** A node of the new graph is an input node with its package and information,
      or the cyclic leaf of one. */
  ghost predicate CopiedFrom(g: DepGraph, n: NodeId, l: GraphNode) {
    (n in g.graph.labelOf && l == GraphNode(GetPkgId(PkgOf(g, n)), NodeInfoOf(g, n))) ||
    (IsPrunedId(n) && Unpruned(n) in g.graph.labelOf &&
     l == GraphNode(GetPkgId(PkgOf(g, Unpruned(n))), Some(MarkPruned(NodeInfoOf(g, Unpruned(n)), CyclicLabel))))
  }

  /** Every edge of the new graph comes from the input. */
  ghost predicate EdgesDerived(g: DepGraph, s: DepGraph) {
    forall a, c :: s.graph.HasEdge(a, c) ==> EdgeFrom(g, a, c)
  }

  /** Every node of the new graph other than the root node comes from the input. */
  ghost predicate NodesDerived(g: DepGraph, s: DepGraph) {
    forall n :: n in s.graph.labelOf && n != RootNodeId ==> CopiedFrom(g, n, s.graph.labelOf[n])
  }

  ghost predicate Derived(g: DepGraph, s: DepGraph) {
    EdgesDerived(g, s) && NodesDerived(g, s)
  }

  lemma AddUnderEdges(g: DepGraph, s: DepGraph, parent: NodeId, pkg: Pkg, id: NodeId, info: Option<NodeInfo>)
    requires s.graph.Valid() && EdgesDerived(g, s) && (parent != "" ==> EdgeFrom(g, parent, id))
    ensures EdgesDerived(g, AddUnder(s, parent, pkg, id, info).1)
  {
    if parent != "" {
      var added := AddPkgNodeTo(s, pkg, id, info);
      if added.Ok? {
        var a := added.value;
        assert a.graph == s.graph.SetNode(id, GraphNode(GetPkgId(pkg), info));
        var connected := ConnectDepIn(a, parent, id);
        if connected.Ok? {
          assert connected.value.graph == a.graph.SetEdge(parent, id);
        }
      }
    }
  }

  lemma AddUnderNodes(g: DepGraph, s: DepGraph, parent: NodeId, pkg: Pkg, id: NodeId, info: Option<NodeInfo>)
    requires KeysAgree(s) && NodesDerived(g, s) && (parent != "" ==> CopiedFrom(g, id, GraphNode(GetPkgId(pkg), info)))
    ensures NodesDerived(g, AddUnder(s, parent, pkg, id, info).1)
  {
  }

  /** The walk below a node keeps the builder's graph well formed and only adds
      to it. */
  lemma {:induction false} WalkValid(g: DepGraph, s: DepGraph, nodeId: NodeId, ancestors: seq<NodeId>, memo: set<NodeId>)
    requires Readable(g) && s.graph.Valid()
    requires nodeId in g.graph.labelOf && forall a :: a in ancestors ==> a in g.graph.labelOf
    ensures var w := Walk(g, s, nodeId, ancestors, memo);
      w.state.graph.Valid() && Grows(s, w.state)
    decreases g.graph.labelOf.Keys - AncSet(ancestors), 1, 0
  {
    var id := IdFor(nodeId, ancestors);
    var info := InfoFor(g, nodeId, ancestors);
    AddUnderGrows(s, Parent(ancestors), PkgOf(g, nodeId), id, info);
    var added := AddUnder(s, Parent(ancestors), PkgOf(g, nodeId), id, info);
    var w := Walk(g, s, nodeId, ancestors, memo);
    if added.0.Fail? {
      assert w.state == added.1;
    } else if nodeId in ancestors || nodeId in memo {
      WalkStops(g, s, nodeId, ancestors, memo);
      assert w.state == added.1;
    } else {
      WalkEnters(g, s, nodeId, ancestors, memo);
      WalkDepsValid(g, added.1, nodeId, ancestors, memo, 0);
    }
  }

  lemma {:induction false} WalkDepsValid(g: DepGraph, s: DepGraph, v: NodeId, ancestors: seq<NodeId>, memo: set<NodeId>, k: nat)
    requires Readable(g) && s.graph.Valid()
    requires v in g.graph.labelOf && v !in ancestors && forall a :: a in ancestors ==> a in g.graph.labelOf
    requires k <= |g.graph.succ[v]|
    ensures var w := WalkDeps(g, s, v, ancestors, memo, k);
      w.state.graph.Valid() && Grows(s, w.state)
    decreases g.graph.labelOf.Keys - AncSet(ancestors), 0, |g.graph.succ[v]| - k
  {
    var w := WalkDeps(g, s, v, ancestors, memo, k);
    if k == |g.graph.succ[v]| {
      assert w.state == s;
    } else {
      var dep := g.graph.succ[v][k];
      Shrinks(g.graph.labelOf.Keys, ancestors, v);
      WalkDepsStep(g, s, v, ancestors, memo, k);
      WalkValid(g, s, dep, ancestors + [v], memo);
      var child := Walk(g, s, dep, ancestors + [v], memo);
      if child.outcome.Pass? {
        WalkDepsValid(g, child.state, v, ancestors, child.memo, k + 1);
        assert w == WalkDeps(g, child.state, v, ancestors, child.memo, k + 1);
      } else {
        assert w == child;
      }
    }
  }

  /** The walk adds only edges that come from the input. */
  lemma {:induction false} WalkEdges(g: DepGraph, s: DepGraph, nodeId: NodeId, ancestors: seq<NodeId>, memo: set<NodeId>)
    requires Readable(g) && s.graph.Valid() && EdgesDerived(g, s)
    requires nodeId in g.graph.labelOf && forall a :: a in ancestors ==> a in g.graph.labelOf
    requires ancestors != [] ==> nodeId in Next(g.graph.succ, Parent(ancestors))
    ensures EdgesDerived(g, Walk(g, s, nodeId, ancestors, memo).state)
    decreases g.graph.labelOf.Keys - AncSet(ancestors), 1, 0
  {
    var id := IdFor(nodeId, ancestors);
    var info := InfoFor(g, nodeId, ancestors);
    AddUnderGrows(s, Parent(ancestors), PkgOf(g, nodeId), id, info);
    AddUnderEdges(g, s, Parent(ancestors), PkgOf(g, nodeId), id, info);
    var added := AddUnder(s, Parent(ancestors), PkgOf(g, nodeId), id, info);
    var w := Walk(g, s, nodeId, ancestors, memo);
    if added.0.Fail? {
      assert w.state == added.1;
    } else if nodeId in ancestors || nodeId in memo {
      WalkStops(g, s, nodeId, ancestors, memo);
      assert w.state == added.1;
    } else {
      WalkEnters(g, s, nodeId, ancestors, memo);
      WalkDepsEdges(g, added.1, nodeId, ancestors, memo, 0);
    }
  }

  lemma {:induction false} WalkDepsEdges(g: DepGraph, s: DepGraph, v: NodeId, ancestors: seq<NodeId>, memo: set<NodeId>, k: nat)
    requires Readable(g) && s.graph.Valid() && EdgesDerived(g, s)
    requires v in g.graph.labelOf && v !in ancestors && forall a :: a in ancestors ==> a in g.graph.labelOf
    requires k <= |g.graph.succ[v]|
    ensures EdgesDerived(g, WalkDeps(g, s, v, ancestors, memo, k).state)
    decreases g.graph.labelOf.Keys - AncSet(ancestors), 0, |g.graph.succ[v]| - k
  {
    var w := WalkDeps(g, s, v, ancestors, memo, k);
    if k == |g.graph.succ[v]| {
      assert w.state == s;
    } else {
      var dep := g.graph.succ[v][k];
      Shrinks(g.graph.labelOf.Keys, ancestors, v);
      WalkDepsStep(g, s, v, ancestors, memo, k);
      WalkValid(g, s, dep, ancestors + [v], memo);
      WalkEdges(g, s, dep, ancestors + [v], memo);
      var child := Walk(g, s, dep, ancestors + [v], memo);
      if child.outcome.Pass? {
        WalkDepsEdges(g, child.state, v, ancestors, child.memo, k + 1);
        assert w == WalkDeps(g, child.state, v, ancestors, child.memo, k + 1);
      } else {
        assert w == child;
      }
    }
  }

  /** The walk adds only nodes that come from the input. */
  lemma {:induction false} WalkNodes(g: DepGraph, s: DepGraph, nodeId: NodeId, ancestors: seq<NodeId>, memo: set<NodeId>)
    requires Readable(g) && s.graph.Valid() && NodesDerived(g, s)
    requires nodeId in g.graph.labelOf && forall a :: a in ancestors ==> a in g.graph.labelOf
    ensures NodesDerived(g, Walk(g, s, nodeId, ancestors, memo).state)
    decreases g.graph.labelOf.Keys - AncSet(ancestors), 1, 0
  {
    var id := IdFor(nodeId, ancestors);
    var info := InfoFor(g, nodeId, ancestors);
    AddUnderGrows(s, Parent(ancestors), PkgOf(g, nodeId), id, info);
    AddUnderNodes(g, s, Parent(ancestors), PkgOf(g, nodeId), id, info);
    var added := AddUnder(s, Parent(ancestors), PkgOf(g, nodeId), id, info);
    var w := Walk(g, s, nodeId, ancestors, memo);
    if added.0.Fail? {
      assert w.state == added.1;
    } else if nodeId in ancestors || nodeId in memo {
      WalkStops(g, s, nodeId, ancestors, memo);
      assert w.state == added.1;
    } else {
      WalkEnters(g, s, nodeId, ancestors, memo);
      WalkDepsNodes(g, added.1, nodeId, ancestors, memo, 0);
    }
  }

  lemma {:induction false} WalkDepsNodes(g: DepGraph, s: DepGraph, v: NodeId, ancestors: seq<NodeId>, memo: set<NodeId>, k: nat)
    requires Readable(g) && s.graph.Valid() && NodesDerived(g, s)
    requires v in g.graph.labelOf && v !in ancestors && forall a :: a in ancestors ==> a in g.graph.labelOf
    requires k <= |g.graph.succ[v]|
    ensures NodesDerived(g, WalkDeps(g, s, v, ancestors, memo, k).state)
    decreases g.graph.labelOf.Keys - AncSet(ancestors), 0, |g.graph.succ[v]| - k
  {
    var w := WalkDeps(g, s, v, ancestors, memo, k);
    if k == |g.graph.succ[v]| {
      assert w.state == s;
    } else {
      var dep := g.graph.succ[v][k];
      Shrinks(g.graph.labelOf.Keys, ancestors, v);
      WalkDepsStep(g, s, v, ancestors, memo, k);
      WalkValid(g, s, dep, ancestors + [v], memo);
      WalkNodes(g, s, dep, ancestors + [v], memo);
      var child := Walk(g, s, dep, ancestors + [v], memo);
      if child.outcome.Pass? {
        WalkDepsNodes(g, child.state, v, ancestors, child.memo, k + 1);
        assert w == WalkDeps(g, child.state, v, ancestors, child.memo, k + 1);
      } else {
        assert w == child;
      }
    }
  }

  // ---------------------------------------------------------------------------
  // Nothing reachable is lost

  /** Relabelling a node that is already there, or adding an edge, keeps what
      is done done. */
  lemma DoneSame(g: DepGraph, s: DepGraph, s': DepGraph, gray: set<NodeId>)
    requires Done(g, s, gray) && Grows(s, s') && s'.graph.labelOf.Keys == s.graph.labelOf.Keys
    ensures Done(g, s', gray)
  {
  }

  /** Re-entering an ancestor adds its cyclic leaf, joined to the parent. */
  lemma CyclicLeafPlain(g: DepGraph, s: DepGraph, nodeId: NodeId, ancestors: seq<NodeId>, memo: set<NodeId>)
    requires Readable(g) && s.graph.Valid() && Plain(g) && s.rootNodeId == RootNodeId
    requires nodeId in g.graph.labelOf && forall a :: a in ancestors ==> a in g.graph.labelOf
    requires nodeId in ancestors && OnTrack(g, s, ancestors, Some(memo), AncSet(ancestors))
    ensures var w := Walk(g, s, nodeId, ancestors, memo);
      w.outcome.Pass? && OnTrack(g, w.state, ancestors, Some(w.memo), AncSet(ancestors)) &&
      nodeId in w.state.graph.labelOf && w.state.graph.HasEdge(Parent(ancestors), PrunedId(nodeId))
  {
    var id := PrunedId(nodeId);
    var info := InfoFor(g, nodeId, ancestors);
    var added := AddUnder(s, Parent(ancestors), PkgOf(g, nodeId), id, info);
    AddUnderGrows(s, Parent(ancestors), PkgOf(g, nodeId), id, info);
    assert Parent(ancestors) in ancestors;
    WalkStops(g, s, nodeId, ancestors, memo);
    DoneEnter(g, s, added.1, AncSet(ancestors), id);
  }

  /** A memoized node is joined to its new parent; it is already done. */
  lemma MemoizedPlain(g: DepGraph, s: DepGraph, nodeId: NodeId, ancestors: seq<NodeId>, memo: set<NodeId>)
    requires Readable(g) && s.graph.Valid() && Plain(g) && s.rootNodeId == RootNodeId
    requires nodeId in g.graph.labelOf && forall a :: a in ancestors ==> a in g.graph.labelOf
    requires ancestors != [] && ancestors[0] == g.rootNodeId
    requires nodeId !in ancestors && nodeId in memo && OnTrack(g, s, ancestors, Some(memo), AncSet(ancestors))
    ensures var w := Walk(g, s, nodeId, ancestors, memo);
      w.outcome.Pass? && OnTrack(g, w.state, ancestors, Some(w.memo), AncSet(ancestors)) &&
      nodeId in w.state.graph.labelOf && w.state.graph.HasEdge(Parent(ancestors), nodeId)
  {
    var info := InfoFor(g, nodeId, ancestors);
    var added := AddUnder(s, Parent(ancestors), PkgOf(g, nodeId), nodeId, info);
    AddUnderGrows(s, Parent(ancestors), PkgOf(g, nodeId), nodeId, info);
    assert Parent(ancestors) in ancestors && ancestors[0] in ancestors;
    WalkStops(g, s, nodeId, ancestors, memo);
    DoneSame(g, s, added.1, AncSet(ancestors));
  }

  /** A node met for the first time is put in the graph and joined to its
      parent; its own dependencies are walked next. */
  lemma EnterPlain(g: DepGraph, s: DepGraph, nodeId: NodeId, ancestors: seq<NodeId>, memo: set<NodeId>)
    requires Readable(g) && s.graph.Valid() && Plain(g) && s.rootNodeId == RootNodeId
    requires nodeId in g.graph.labelOf && forall a :: a in ancestors ==> a in g.graph.labelOf
    requires ancestors == [] ==> nodeId == g.rootNodeId && nodeId in s.graph.labelOf
    requires ancestors != [] ==> ancestors[0] == g.rootNodeId
    requires nodeId !in ancestors && nodeId !in memo
    requires OnTrack(g, s, ancestors, Some(memo), Pending(ancestors, nodeId))
    ensures var added := AddUnder(s, Parent(ancestors), PkgOf(g, nodeId), nodeId, NodeInfoOf(g, nodeId));
      added.0.Pass? && added.1.graph.Valid() && added.1.rootNodeId == RootNodeId &&
      nodeId in added.1.graph.labelOf && OnTrack(g, added.1, ancestors, Some(memo), AncSet(ancestors) + {nodeId}) &&
      Linked(added.1, nodeId, g.graph.succ[nodeId][..0]) &&
      (ancestors != [] ==> added.1.graph.HasEdge(Parent(ancestors), nodeId))
  {
    var added := AddUnder(s, Parent(ancestors), PkgOf(g, nodeId), nodeId, NodeInfoOf(g, nodeId));
    AddUnderGrows(s, Parent(ancestors), PkgOf(g, nodeId), nodeId, NodeInfoOf(g, nodeId));
    if ancestors != [] {
      assert Parent(ancestors) in ancestors && ancestors[0] in ancestors;
    }
    DoneEnter(g, s, added.1, Pending(ancestors, nodeId), nodeId);
    assert Pending(ancestors, nodeId) + {nodeId} == AncSet(ancestors) + {nodeId};
  }

  /** On a plain input the walk never fails: every node it enters below the
      root is put in the graph and joined to its parent, directly or through a
      cyclic leaf, and every node it leaves is done. */
  lemma {:induction false} WalkPlain(g: DepGraph, s: DepGraph, nodeId: NodeId, ancestors: seq<NodeId>, memo: set<NodeId>)
    requires Readable(g) && s.graph.Valid() && Plain(g) && s.rootNodeId == RootNodeId
    requires nodeId in g.graph.labelOf && forall a :: a in ancestors ==> a in g.graph.labelOf
    requires ancestors == [] ==> nodeId == g.rootNodeId && nodeId in s.graph.labelOf && nodeId !in memo
    requires ancestors != [] ==> nodeId in Next(g.graph.succ, Parent(ancestors)) && ancestors[0] == g.rootNodeId
    requires OnTrack(g, s, ancestors, Some(memo), Pending(ancestors, nodeId))
    ensures var w := Walk(g, s, nodeId, ancestors, memo);
      w.outcome.Pass? && OnTrack(g, w.state, ancestors, Some(w.memo), AncSet(ancestors)) &&
      (ancestors != [] ==>
         nodeId in w.state.graph.labelOf &&
         (w.state.graph.HasEdge(Parent(ancestors), nodeId) || w.state.graph.HasEdge(Parent(ancestors), PrunedId(nodeId))))
    decreases g.graph.labelOf.Keys - AncSet(ancestors), 1, 0
  {
    if nodeId in ancestors {
      CyclicLeafPlain(g, s, nodeId, ancestors, memo);
    } else if nodeId in memo {
      MemoizedPlain(g, s, nodeId, ancestors, memo);
    } else {
      EnterPlain(g, s, nodeId, ancestors, memo);
      var added := AddUnder(s, Parent(ancestors), PkgOf(g, nodeId), nodeId, NodeInfoOf(g, nodeId));
      WalkEnters(g, s, nodeId, ancestors, memo);
      WalkDepsPlain(g, added.1, nodeId, ancestors, memo, 0);
      WalkDepsValid(g, added.1, nodeId, ancestors, memo, 0);
    }
  }

  lemma {:induction false} WalkDepsPlain(g: DepGraph, s: DepGraph, v: NodeId, ancestors: seq<NodeId>, memo: set<NodeId>, k: nat)
    requires Readable(g) && s.graph.Valid() && Plain(g) && s.rootNodeId == RootNodeId
    requires v in g.graph.labelOf && v !in ancestors && forall a :: a in ancestors ==> a in g.graph.labelOf
    requires if ancestors == [] then v == g.rootNodeId else ancestors[0] == g.rootNodeId
    requires k <= |g.graph.succ[v]|
    requires v in s.graph.labelOf && OnTrack(g, s, ancestors, Some(memo), AncSet(ancestors) + {v})
    requires Linked(s, v, g.graph.succ[v][..k])
    ensures var w := WalkDeps(g, s, v, ancestors, memo, k);
      w.outcome.Pass? && OnTrack(g, w.state, ancestors, Some(w.memo), AncSet(ancestors))
    decreases g.graph.labelOf.Keys - AncSet(ancestors), 0, |g.graph.succ[v]| - k
  {
    var deps := g.graph.succ[v];
    if k == |deps| {
      assert deps[..k] == deps;
      DoneLeave(g, s, AncSet(ancestors), v);
    } else {
      var dep := deps[k];
      Shrinks(g.graph.labelOf.Keys, ancestors, v);
      EnterChild(g, s, ancestors, v, Some(memo), Some(memo));
      WalkPlain(g, s, dep, ancestors + [v], memo);
      WalkValid(g, s, dep, ancestors + [v], memo);
      var child := Walk(g, s, dep, ancestors + [v], memo);
      LeaveChild(g, s, child.state, ancestors, v, Some(child.memo), Some(child.memo), deps[..k], dep);
      TakeOneMore(deps, k);
      WalkDepsStep(g, s, v, ancestors, memo, k);
      WalkDepsPlain(g, child.state, v, ancestors, child.memo, k + 1);
    }
  }

  // ---------------------------------------------------------------------------
  // The new graph has no cycles

  /** A rank in the order ids join the memoization set: every edge out of a
      memoized node leads to a node memoized before it. */
  ghost predicate Ranked(s: DepGraph, memo: set<NodeId>, rank: map<NodeId, nat>, n: nat) {
    rank.Keys == memo && (forall x :: x in rank ==> rank[x] < n) &&
    forall a, c :: a in memo && s.graph.HasEdge(a, c) ==> c in memo && rank[c] < rank[a]
  }

  /** Every node of the graph is memoized or still being walked. */
  ghost predicate Placed(s: DepGraph, memo: set<NodeId>, gray: set<NodeId>) {
    forall x :: x in s.graph.labelOf ==> x in memo || x in gray
  }

  /** Every edge a walk adds leaves a node that was not memoized when it began
      and leads to one that is memoized when it ends. */
  ghost predicate AddsDown(s: DepGraph, s': DepGraph, memo: set<NodeId>, memo': set<NodeId>) {
    forall a, c :: s'.graph.HasEdge(a, c) && !s.graph.HasEdge(a, c) ==> a !in memo && c in memo'
  }

  ghost predicate Extends(rank: map<NodeId, nat>, rank': map<NodeId, nat>) {
    forall x :: x in rank ==> x in rank' && rank'[x] == rank[x]
  }

  /** Adding a leaf `id` below a parent that is not memoized, and memoizing it. */
  lemma LeafFlow(s: DepGraph, s': DepGraph, memo: set<NodeId>, parent: NodeId, id: NodeId, gray: set<NodeId>)
    requires Placed(s, memo, gray) && parent !in memo
    requires s'.graph.labelOf.Keys <= s.graph.labelOf.Keys + {id}
    requires forall a, c :: s'.graph.HasEdge(a, c) ==> s.graph.HasEdge(a, c) || (a == parent && c == id)
    ensures Placed(s', memo + {id}, gray) && AddsDown(s, s', memo, memo + {id})
  {
  }

  lemma LeafRanked(s: DepGraph, s': DepGraph, memo: set<NodeId>, rank: map<NodeId, nat>, n: nat,
                   parent: NodeId, id: NodeId, gray: set<NodeId>) returns (rank': map<NodeId, nat>, n': nat)
    requires KeysAgree(s) && Ranked(s, memo, rank, n) && Placed(s, memo, gray)
    requires parent !in memo && parent != id && id !in gray
    requires forall a, c :: s'.graph.HasEdge(a, c) ==> s.graph.HasEdge(a, c) || (a == parent && c == id)
    ensures Ranked(s', memo + {id}, rank', n') && Extends(rank, rank')
  {
    if id in memo {
      rank', n' := rank, n;
    } else {
      assert id !in s.graph.succ;
      rank', n' := rank[id := n], n + 1;
    }
  }

  /** Adding a node met for the first time below a parent that is not memoized. */
  lemma EnterFlow(s: DepGraph, s': DepGraph, memo: set<NodeId>, v: NodeId, gray: set<NodeId>)
    requires Placed(s, memo, gray + {v}) && s'.graph.labelOf.Keys <= s.graph.labelOf.Keys + {v}
    ensures Placed(s', memo, gray + {v})
  {
  }

  lemma EnterRanked(s: DepGraph, s': DepGraph, memo: set<NodeId>, rank: map<NodeId, nat>, n: nat, parent: NodeId, v: NodeId)
    requires Ranked(s, memo, rank, n)
    requires parent !in memo && parent != v && forall c :: !s.graph.HasEdge(v, c)
    requires forall a, c :: s'.graph.HasEdge(a, c) ==> s.graph.HasEdge(a, c) || (a == parent && c == v)
    ensures Ranked(s', memo, rank, n) && forall c :: !s'.graph.HasEdge(v, c)
  {
  }

  /** Memoizing `v` once its dependencies are walked. */
  lemma LeaveFlow(s: DepGraph, s1: DepGraph, s2: DepGraph, memo: set<NodeId>, m2: set<NodeId>, parent: NodeId, v: NodeId, gray: set<NodeId>)
    requires forall a, c :: s1.graph.HasEdge(a, c) ==> s.graph.HasEdge(a, c) || (a == parent && c == v)
    requires parent !in memo && Placed(s2, m2, gray + {v}) && AddsDown(s1, s2, memo, m2)
    ensures Placed(s2, m2 + {v}, gray) && AddsDown(s, s2, memo, m2 + {v})
  {
  }

  /** It is ranked above everything it leads to. */
  lemma LeaveRanked(s2: DepGraph, m2: set<NodeId>, r2: map<NodeId, nat>, n2: nat, v: NodeId)
    returns (rank': map<NodeId, nat>, n': nat)
    requires Ranked(s2, m2, r2, n2) && v !in m2 && forall c :: s2.graph.HasEdge(v, c) ==> c in m2
    ensures Ranked(s2, m2 + {v}, rank', n') && Extends(r2, rank')
  {
    rank', n' := r2[v := n2], n2 + 1;
  }

  lemma OutsideSnoc(ancestors: seq<NodeId>, v: NodeId, memo: set<NodeId>)
    requires v !in memo && forall a :: a in ancestors ==> a !in memo
    ensures forall a :: a in ancestors + [v] ==> a !in memo
  {
  }

  /** The edges out of `v` still lead to memoized nodes after a walk that adds
      none out of memoized nodes. */
  lemma OutStays(s: DepGraph, s1: DepGraph, memo: set<NodeId>, m1: set<NodeId>, v: NodeId)
    requires memo <= m1 && AddsDown(s, s1, memo, m1) && forall c :: s.graph.HasEdge(v, c) ==> c in memo
    ensures forall c :: s1.graph.HasEdge(v, c) ==> c in m1
  {
  }

  /** Two walks one after the other. */
  lemma AddsDownTrans(s: DepGraph, s1: DepGraph, s2: DepGraph, memo: set<NodeId>, m1: set<NodeId>, m2: set<NodeId>)
    requires memo <= m1 <= m2 && AddsDown(s, s1, memo, m1) && AddsDown(s1, s2, m1, m2)
    ensures AddsDown(s, s2, memo, m2)
  {
  }

  /** On a plain input a successful walk leaves every node memoized or still
      being walked, memoizes the nodes it finishes but never an ancestor, and
      adds edges only out of nodes that were not memoized. */
  lemma {:induction false} WalkFlow(g: DepGraph, s: DepGraph, nodeId: NodeId, ancestors: seq<NodeId>, memo: set<NodeId>)
    requires Readable(g) && s.graph.Valid() && Plain(g)
    requires nodeId in g.graph.labelOf && forall a :: a in ancestors ==> a in g.graph.labelOf
    requires forall a :: a in ancestors ==> a !in memo
    requires Placed(s, memo, Pending(ancestors, nodeId)) && (ancestors == [] ==> memo == {})
    ensures var w := Walk(g, s, nodeId, ancestors, memo);
      w.outcome.Pass? ==>
        Placed(w.state, w.memo, AncSet(ancestors)) && AddsDown(s, w.state, memo, w.memo) &&
        forall a :: a in ancestors ==> a !in w.memo
    decreases g.graph.labelOf.Keys - AncSet(ancestors), 1, 0
  {
    var parent := Parent(ancestors);
    var id := IdFor(nodeId, ancestors);
    var info := InfoFor(g, nodeId, ancestors);
    var added := AddUnder(s, parent, PkgOf(g, nodeId), id, info);
    AddUnderGrows(s, parent, PkgOf(g, nodeId), id, info);
    if added.0.Pass? {
      if ancestors != [] {
        assert parent in ancestors;
      }
      if nodeId in ancestors || nodeId in memo {
        WalkStops(g, s, nodeId, ancestors, memo);
        LeafFlow(s, added.1, memo, parent, id, AncSet(ancestors));
      } else {
        EnterFlow(s, added.1, memo, nodeId, AncSet(ancestors));
        WalkEnters(g, s, nodeId, ancestors, memo);
        WalkDepsFlow(g, added.1, nodeId, ancestors, memo, 0);
        var deps := WalkDeps(g, added.1, nodeId, ancestors, memo, 0);
        if deps.outcome.Pass? {
          LeaveFlow(s, added.1, deps.state, memo, deps.memo, parent, nodeId, AncSet(ancestors));
        }
      }
    }
  }

  lemma {:induction false} WalkDepsFlow(g: DepGraph, s: DepGraph, v: NodeId, ancestors: seq<NodeId>, memo: set<NodeId>, k: nat)
    requires Readable(g) && s.graph.Valid() && Plain(g)
    requires v in g.graph.labelOf && v !in ancestors && forall a :: a in ancestors ==> a in g.graph.labelOf
    requires forall a :: a in ancestors ==> a !in memo
    requires k <= |g.graph.succ[v]|
    requires Placed(s, memo, AncSet(ancestors) + {v}) && v !in memo
    ensures var w := WalkDeps(g, s, v, ancestors, memo, k);
      w.outcome.Pass? ==>
        Placed(w.state, w.memo, AncSet(ancestors) + {v}) && AddsDown(s, w.state, memo, w.memo) &&
        v !in w.memo && forall a :: a in ancestors ==> a !in w.memo
    decreases g.graph.labelOf.Keys - AncSet(ancestors), 0, |g.graph.succ[v]| - k
  {
    if k < |g.graph.succ[v]| {
      var dep := g.graph.succ[v][k];
      Shrinks(g.graph.labelOf.Keys, ancestors, v);
      AncSetSnoc(ancestors, v);
      OutsideSnoc(ancestors, v, memo);
      WalkDepsStep(g, s, v, ancestors, memo, k);
      WalkFlow(g, s, dep, ancestors + [v], memo);
      WalkValid(g, s, dep, ancestors + [v], memo);
      var child := Walk(g, s, dep, ancestors + [v], memo);
      if child.outcome.Pass? {
        assert v in ancestors + [v];
        WalkDepsFlow(g, child.state, v, ancestors, child.memo, k + 1);
        var rest := WalkDeps(g, child.state, v, ancestors, child.memo, k + 1);
        if rest.outcome.Pass? {
          AddsDownTrans(s, child.state, rest.state, memo, child.memo, rest.memo);
        }
      }
    }
  }

  /** On a plain input a successful walk memoizes each node after everything it
      leads to: the rank falls along every edge out of a memoized node. */
  lemma {:induction false} WalkRanked(g: DepGraph, s: DepGraph, nodeId: NodeId, ancestors: seq<NodeId>, memo: set<NodeId>,
                                      rank: map<NodeId, nat>, n: nat) returns (rank': map<NodeId, nat>, n': nat)
    requires Readable(g) && s.graph.Valid() && Plain(g)
    requires nodeId in g.graph.labelOf && forall a :: a in ancestors ==> a in g.graph.labelOf
    requires forall a :: a in ancestors ==> a !in memo
    requires Ranked(s, memo, rank, n) && Placed(s, memo, Pending(ancestors, nodeId))
    requires ancestors == [] ==> memo == {} && forall c :: !s.graph.HasEdge(nodeId, c)
    ensures var w := Walk(g, s, nodeId, ancestors, memo);
      w.outcome.Pass? ==> Ranked(w.state, w.memo, rank', n') && Extends(rank, rank')
    decreases g.graph.labelOf.Keys - AncSet(ancestors), 1, 0
  {
    rank', n' := rank, n;
    var parent := Parent(ancestors);
    var id := IdFor(nodeId, ancestors);
    var info := InfoFor(g, nodeId, ancestors);
    var added := AddUnder(s, parent, PkgOf(g, nodeId), id, info);
    AddUnderGrows(s, parent, PkgOf(g, nodeId), id, info);
    if added.0.Fail? {
      return;
    }
    if ancestors != [] {
      assert parent in ancestors;
    } else {
      assert nodeId != "";
    }
    if nodeId in ancestors || nodeId in memo {
      WalkStops(g, s, nodeId, ancestors, memo);
      rank', n' := LeafRanked(s, added.1, memo, rank, n, parent, id, AncSet(ancestors));
    } else {
      assert forall c :: !s.graph.HasEdge(nodeId, c);
      EnterRanked(s, added.1, memo, rank, n, parent, nodeId);
      EnterFlow(s, added.1, memo, nodeId, AncSet(ancestors));
      WalkEnters(g, s, nodeId, ancestors, memo);
      var r1, n1 := WalkDepsRanked(g, added.1, nodeId, ancestors, memo, 0, rank, n);
      WalkDepsFlow(g, added.1, nodeId, ancestors, memo, 0);
      var deps := WalkDeps(g, added.1, nodeId, ancestors, memo, 0);
      if deps.outcome.Pass? {
        rank', n' := LeaveRanked(deps.state, deps.memo, r1, n1, nodeId);
      }
    }
  }

  lemma {:induction false} WalkDepsRanked(g: DepGraph, s: DepGraph, v: NodeId, ancestors: seq<NodeId>, memo: set<NodeId>, k: nat,
                                          rank: map<NodeId, nat>, n: nat) returns (rank': map<NodeId, nat>, n': nat)
    requires Readable(g) && s.graph.Valid() && Plain(g)
    requires v in g.graph.labelOf && v !in ancestors && forall a :: a in ancestors ==> a in g.graph.labelOf
    requires forall a :: a in ancestors ==> a !in memo
    requires k <= |g.graph.succ[v]|
    requires Ranked(s, memo, rank, n) && Placed(s, memo, AncSet(ancestors) + {v}) && v !in memo
    requires forall c :: s.graph.HasEdge(v, c) ==> c in memo
    ensures var w := WalkDeps(g, s, v, ancestors, memo, k);
      w.outcome.Pass? ==>
        Ranked(w.state, w.memo, rank', n') && Extends(rank, rank') && forall c :: w.state.graph.HasEdge(v, c) ==> c in w.memo
    decreases g.graph.labelOf.Keys - AncSet(ancestors), 0, |g.graph.succ[v]| - k
  {
    rank', n' := rank, n;
    if k < |g.graph.succ[v]| {
      var dep := g.graph.succ[v][k];
      Shrinks(g.graph.labelOf.Keys, ancestors, v);
      AncSetSnoc(ancestors, v);
      OutsideSnoc(ancestors, v, memo);
      WalkDepsStep(g, s, v, ancestors, memo, k);
      var r1, n1 := WalkRanked(g, s, dep, ancestors + [v], memo, rank, n);
      WalkFlow(g, s, dep, ancestors + [v], memo);
      WalkValid(g, s, dep, ancestors + [v], memo);
      var child := Walk(g, s, dep, ancestors + [v], memo);
      if child.outcome.Pass? {
        assert v in ancestors + [v];
        OutStays(s, child.state, memo, child.memo, v);
        rank', n' := WalkDepsRanked(g, child.state, v, ancestors, child.memo, k + 1, r1, n1);
      }
    }
  }

  /** A builder's starting state holds the root node and no edge. */
  lemma StartDerived(g: DepGraph, s0: DepGraph, pkgManager: PkgManager, rootPkg: Option<Pkg>)
    requires s0 == NewGraph(pkgManager, rootPkg)
    ensures EdgesDerived(g, s0) && NodesDerived(g, s0)
  {
    forall a, c ensures !s0.graph.HasEdge(a, c) {
      if a in s0.graph.succ {
        assert a == RootNodeId;
      }
    }
  }

  /** The walk from the root of the input, started on a builder's state holding
      only its root node: the new graph is well formed, keeps the root node and
      holds nothing that does not come from the input. */
  lemma MapDerived(g: DepGraph, s0: DepGraph, outcome: Outcome, d: DepGraph, memo: set<NodeId>)
    requires g.Valid() && s0 == NewGraph(g.pkgManager, Some(g.RootPkg()))
    requires Readable(g) && Mapped(outcome, d, memo) == Walk(g, s0, g.rootNodeId, [], {})
    ensures d.graph.Valid() && Derived(g, d)
    ensures d.rootNodeId == RootNodeId && RootNodeId in d.graph.labelOf
  {
    StartDerived(g, s0, g.pkgManager, Some(g.RootPkg()));
    WalkValid(g, s0, g.rootNodeId, [], {});
    WalkEdges(g, s0, g.rootNodeId, [], {});
    WalkNodes(g, s0, g.rootNodeId, [], {});
  }

  /** The same walk on a plain input: it succeeds and keeps every reachable node
      and edge, an edge that closed a cycle now leading to a cyclic leaf. */
  lemma MapPlain(g: DepGraph, s0: DepGraph, outcome: Outcome, d: DepGraph, memo: set<NodeId>)
    requires g.Valid() && s0 == NewGraph(g.pkgManager, Some(g.RootPkg())) && Plain(g)
    requires Readable(g) && Mapped(outcome, d, memo) == Walk(g, s0, g.rootNodeId, [], {})
    ensures outcome.Pass? && Complete(g, d)
  {
    assert Done(g, s0, {g.rootNodeId});
    WalkPlain(g, s0, g.rootNodeId, [], {});
    WalkValid(g, s0, g.rootNodeId, [], {});
    DoneComplete(g, d);
  }

  /** The walk from the root of a plain input, started on a builder's state
      holding only its root node, leaves a graph without cycles. */
  lemma MapAcyclic(g: DepGraph, s0: DepGraph, outcome: Outcome, d: DepGraph, memo: set<NodeId>)
    requires g.Valid() && s0 == NewGraph(g.pkgManager, Some(g.RootPkg())) && Plain(g)
    requires Readable(g) && Mapped(outcome, d, memo) == Walk(g, s0, g.rootNodeId, [], {})
    ensures outcome.Pass? ==> Acyclic(d.graph.succ)
  {
    assert forall c :: !s0.graph.HasEdge(g.rootNodeId, c);
    var rank, n := WalkRanked(g, s0, g.rootNodeId, [], {}, map[], 0);
    WalkFlow(g, s0, g.rootNodeId, [], {});
    WalkValid(g, s0, g.rootNodeId, [], {});
    if outcome.Pass? {
      RankedAcyclic(d, memo, rank, n);
    }
  }

  /** A graph all of whose nodes are memoized, with the rank falling along every
      edge, has no cycles. */
  lemma RankedAcyclic(d: DepGraph, memo: set<NodeId>, rank: map<NodeId, nat>, n: nat)
    requires d.graph.Valid() && Ranked(d, memo, rank, n) && Placed(d, memo, {})
    ensures Acyclic(d.graph.succ)
  {
    var keys := d.graph.labelOf.Keys;
    ValidAdjClosed(d.graph);
    forall p | IsWalk(d.graph.succ, p) ensures Distinct(p) {
      if |p| > 1 {
        assert p[1] in Next(d.graph.succ, p[0]);
      }
      if |p| > 0 && p[0] in keys {
        RankedWalkDistinct(d.graph.succ, keys, rank, p);
      }
    }
  }
}

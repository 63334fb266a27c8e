/** The walk of `filterNodesFromGraph` on values. The source pops `[nodeId,
    parentNodeId]` pairs off a stack with no visited set: a filtered node is
    skipped, any other is added under its parent and its dependencies are pushed
    in reverse, so they come off the stack in their own order. That is a
    pre-order walk, written here as recursion, which ends exactly when no cycle
    can be reached from the root once the filtered nodes are taken to lead
    nowhere. */
module FilterWalk {
  import opened Wrappers
  import opened Graphs
  import opened Types
  import opened DepGraphs
  import opened Builders
  import opened Replay
  import opened Dfs
  import PruneWalk

  // ---------------------------------------------------------------------------
  // What the walk can reach

  /** The successor lists the walk follows: it never looks past a filtered node. */
  function Cut(succ: Adj, filtered: set<NodeId>): (r: Adj)
    ensures r.Keys == succ.Keys
    ensures forall v :: Next(r, v) == if v in filtered then [] else Next(succ, v)
  {
    map v | v in succ :: if v in filtered then [] else succ[v]
  }

  /** The walk from the root ends: no cycle is reachable from it along edges
      that do not leave a filtered node. */
  ghost predicate Walkable(g: DepGraph, filtered: set<NodeId>) {
    !CycleReachable(Cut(g.graph.succ, filtered), g.rootNodeId)
  }

  /** Nodes the walk pops: reachable from the root without passing through a
      filtered node (the last one may be filtered). */
  ghost predicate Visits(g: DepGraph, filtered: set<NodeId>, v: NodeId) {
    Reaches(Cut(g.graph.succ, filtered), g.rootNodeId, v)
  }

  /** The nodes reachable from `v` by at least one edge the walk follows. */
  ghost function Below(g: DepGraph, filtered: set<NodeId>, v: NodeId): set<NodeId> {
    set x | x in g.graph.labelOf && ReachesPlus(Cut(g.graph.succ, filtered), v, x)
  }

  /** From a node reached from `root` no edge leads back to it, when no cycle is
      reachable from `root`. */
  lemma NoWayBack(adj: Adj, root: NodeId, a: NodeId, b: NodeId)
    requires !CycleReachable(adj, root) && Reaches(adj, root, a) && b in Next(adj, a)
    ensures !Reaches(adj, b, a)
  {
    var p :| IsWalk(adj, p) && |p| > 0 && p[0] == root && p[|p| - 1] == a;
    forall q | IsWalk(adj, q) && |q| > 0 && q[0] == b ensures q[|q| - 1] != a {
      var w := p + q;
      forall i | 0 <= i < |w| - 1 ensures w[i + 1] in Next(adj, w[i]) {
        if i >= |p| {
          assert w[i] == q[i - |p|] && w[i + 1] == q[i - |p| + 1];
        }
      }
      assert IsWalk(adj, w) && w[0] == root;
      assert Distinct(w);
      assert w[|p| - 1] == a && w[|w| - 1] == q[|q| - 1];
    }
  }

  /** A walk from `a` to `b` is empty of edges, or starts with one. */
  lemma ReachesFirst(adj: Adj, a: NodeId, b: NodeId)
    requires Reaches(adj, a, b)
    ensures a == b || exists w :: w in Next(adj, a) && Reaches(adj, w, b)
  {
    var p :| IsWalk(adj, p) && |p| > 0 && p[0] == a && p[|p| - 1] == b;
    if |p| > 1 {
      var q := p[1..];
      assert IsWalk(adj, q) && q[0] == p[1] && q[|q| - 1] == b;
      assert p[1] in Next(adj, a);
    }
  }

  /** Going down an edge out of a node that is not filtered: the child is
      visited too, and fewer nodes lie below it. */
  lemma Descend(g: DepGraph, filtered: set<NodeId>, v: NodeId, c: NodeId)
    requires Readable(g) && Walkable(g, filtered)
    requires v in g.graph.labelOf && v !in filtered && Visits(g, filtered, v)
    requires c in g.graph.succ[v]
    ensures c in g.graph.labelOf && Visits(g, filtered, c)
    ensures |Below(g, filtered, c)| < |Below(g, filtered, v)|
  {
    var cut := Cut(g.graph.succ, filtered);
    assert c in Next(cut, v);
    ReachesEdge(cut, v, c);
    ReachesTrans(cut, g.rootNodeId, v, c);
    forall x | x in Below(g, filtered, c) ensures x in Below(g, filtered, v) {
      var w :| w in Next(cut, c) && Reaches(cut, w, x);
      ReachesStep(cut, c, w, x);
    }
    ReachesRefl(cut, c);
    assert c in Below(g, filtered, v);
    forall w | w in Next(cut, c) ensures !Reaches(cut, w, c) {
      NoWayBack(cut, g.rootNodeId, c, w);
    }
    assert c !in Below(g, filtered, c);
    Smaller(Below(g, filtered, c), Below(g, filtered, v), c);
  }

  lemma Smaller(a: set<NodeId>, b: set<NodeId>, x: NodeId)
    requires a <= b && x in b && x !in a
    ensures |a| < |b|
  {
    assert b == a + (b - a);
    assert x in b - a;
  }

  // ---------------------------------------------------------------------------
  // The walk

  /** The information the walk adds a node with: `getNode`, empty normalised to
      nothing. */
  function InfoOf(g: DepGraph, n: NodeId): Option<NodeInfo> {
    PruneWalk.InfoOf(g, n)
  }

  /** Popping `[v, parent]`: a filtered node is skipped; any other is added under
      a truthy parent and its dependencies are walked in their order. */
  ghost function Expand(g: DepGraph, filtered: set<NodeId>, s: DepGraph, v: NodeId, parent: NodeId): (w: (Outcome, DepGraph))
    requires Readable(g) && KeysAgree(s) && Walkable(g, filtered)
    requires v in g.graph.labelOf && Visits(g, filtered, v)
    ensures KeysAgree(w.1) && w.1.rootNodeId == s.rootNodeId
    decreases |Below(g, filtered, v)|, 1, 0
  {
    if v in filtered then (Pass, s)
    else
      var added := PruneWalk.AddUnder(s, parent, PkgOf(g, v), v, InfoOf(g, v));
      if added.0.Fail? then added
      else ExpandDeps(g, filtered, added.1, v, 0)
  }

  /** The dependencies of `v` from the `k`-th on, each walked below `v`. */
  ghost function ExpandDeps(g: DepGraph, filtered: set<NodeId>, s: DepGraph, v: NodeId, k: nat): (w: (Outcome, DepGraph))
    requires Readable(g) && KeysAgree(s) && Walkable(g, filtered)
    requires v in g.graph.labelOf && v !in filtered && Visits(g, filtered, v)
    requires k <= |g.graph.succ[v]|
    ensures KeysAgree(w.1) && w.1.rootNodeId == s.rootNodeId
    decreases |Below(g, filtered, v)|, 0, |g.graph.succ[v]| - k
  {
    if k == |g.graph.succ[v]| then (Pass, s)
    else
      Descend(g, filtered, v, g.graph.succ[v][k]);
      var child := Expand(g, filtered, s, g.graph.succ[v][k], v);
      if child.0.Fail? then child
      else ExpandDeps(g, filtered, child.1, v, k + 1)
  }

  /** A node that is not filtered, unfolded. */
  lemma ExpandEnters(g: DepGraph, filtered: set<NodeId>, s: DepGraph, v: NodeId, parent: NodeId)
    requires Readable(g) && KeysAgree(s) && Walkable(g, filtered)
    requires v in g.graph.labelOf && Visits(g, filtered, v) && v !in filtered
    ensures var added := PruneWalk.AddUnder(s, parent, PkgOf(g, v), v, InfoOf(g, v));
      Expand(g, filtered, s, v, parent) == if added.0.Fail? then added else ExpandDeps(g, filtered, added.1, v, 0)
  {
  }

  /** One turn of the dependency loop, unfolded. */
  lemma ExpandDepsStep(g: DepGraph, filtered: set<NodeId>, s: DepGraph, v: NodeId, k: nat)
    requires Readable(g) && KeysAgree(s) && Walkable(g, filtered)
    requires v in g.graph.labelOf && v !in filtered && Visits(g, filtered, v)
    requires k < |g.graph.succ[v]|
    ensures g.graph.succ[v][k] in g.graph.labelOf && Visits(g, filtered, g.graph.succ[v][k])
    ensures var child := Expand(g, filtered, s, g.graph.succ[v][k], v);
      ExpandDeps(g, filtered, s, v, k) == if child.0.Fail? then child else ExpandDeps(g, filtered, child.1, v, k + 1)
  {
    Descend(g, filtered, v, g.graph.succ[v][k]);
  }

  // ---------------------------------------------------------------------------
  // The stack

  /** Every pair on the stack names a node the walk visits. */
  ghost predicate Queued(g: DepGraph, filtered: set<NodeId>, queue: seq<(NodeId, NodeId)>) {
    forall i :: 0 <= i < |queue| ==> queue[i].0 in g.graph.labelOf && Visits(g, filtered, queue[i].0)
  }

  /** The rest of the loop: the pair on top of the stack (its last element) is
      walked, then the pairs below it. */
  ghost function StackRun(g: DepGraph, filtered: set<NodeId>, s: DepGraph, queue: seq<(NodeId, NodeId)>): (w: (Outcome, DepGraph))
    requires Readable(g) && KeysAgree(s) && Walkable(g, filtered) && Queued(g, filtered, queue)
    decreases |queue|
  {
    if queue == [] then (Pass, s)
    else
      var top := queue[|queue| - 1];
      var r := Expand(g, filtered, s, top.0, top.1);
      if r.0.Fail? then r else StackRun(g, filtered, r.1, queue[..|queue| - 1])
  }

  /** How many pairs the walk of `v` pops, `v` included. */
  ghost function Count(g: DepGraph, filtered: set<NodeId>, v: NodeId): (n: nat)
    requires Readable(g) && Walkable(g, filtered)
    requires v in g.graph.labelOf && Visits(g, filtered, v)
    ensures n >= 1
    decreases |Below(g, filtered, v)|, 1, 0
  {
    if v in filtered then 1 else 1 + CountDeps(g, filtered, v, 0)
  }

  ghost function CountDeps(g: DepGraph, filtered: set<NodeId>, v: NodeId, k: nat): nat
    requires Readable(g) && Walkable(g, filtered)
    requires v in g.graph.labelOf && v !in filtered && Visits(g, filtered, v)
    requires k <= |g.graph.succ[v]|
    decreases |Below(g, filtered, v)|, 0, |g.graph.succ[v]| - k
  {
    if k == |g.graph.succ[v]| then 0
    else
      Descend(g, filtered, v, g.graph.succ[v][k]);
      Count(g, filtered, g.graph.succ[v][k]) + CountDeps(g, filtered, v, k + 1)
  }

  /** How many pairs the loop still pops: it falls with every turn. */
  ghost function StackCount(g: DepGraph, filtered: set<NodeId>, queue: seq<(NodeId, NodeId)>): nat
    requires Readable(g) && Walkable(g, filtered) && Queued(g, filtered, queue)
    decreases |queue|
  {
    if queue == [] then 0
    else StackCount(g, filtered, queue[..|queue| - 1]) + Count(g, filtered, queue[|queue| - 1].0)
  }

  /** `for (const dep of deps) queue.push([dep, v])`. */
  function Pushed(deps: seq<NodeId>, v: NodeId): (r: seq<(NodeId, NodeId)>)
    ensures |r| == |deps| && forall j :: 0 <= j < |deps| ==> r[j] == (deps[j], v)
  {
    seq(|deps|, j requires 0 <= j < |deps| => (deps[j], v))
  }

  /** The reversed dependencies from the `k`-th on are those from the `k+1`-th
      on with the `k`-th on top. */
  lemma PushedStep(deps: seq<NodeId>, v: NodeId, k: nat)
    requires k < |deps|
    ensures Pushed(Reverse(deps[k..]), v) == Pushed(Reverse(deps[k + 1..]), v) + [(deps[k], v)]
  {
    assert deps[k..][1..] == deps[k + 1..];
    assert Reverse(deps[k..]) == Reverse(deps[k + 1..]) + [deps[k]];
  }

  /** The dependencies of a visited, unfiltered node can all be queued. */
  lemma QueuedPush(g: DepGraph, filtered: set<NodeId>, rest: seq<(NodeId, NodeId)>, v: NodeId, k: nat)
    requires Readable(g) && Walkable(g, filtered) && Queued(g, filtered, rest)
    requires v in g.graph.labelOf && v !in filtered && Visits(g, filtered, v)
    requires k <= |g.graph.succ[v]|
    ensures Queued(g, filtered, rest + Pushed(Reverse(g.graph.succ[v][k..]), v))
  {
    var q := rest + Pushed(Reverse(g.graph.succ[v][k..]), v);
    forall i | 0 <= i < |q| ensures q[i].0 in g.graph.labelOf && Visits(g, filtered, q[i].0) {
      if i >= |rest| {
        var deps := g.graph.succ[v][k..];
        assert q[i].0 == Reverse(deps)[i - |rest|] == deps[|deps| - 1 - (i - |rest|)];
        Descend(g, filtered, v, q[i].0);
      }
    }
  }

  /** One turn of the loop: the top pair is walked, then the pairs below it. */
  lemma StackPop(g: DepGraph, filtered: set<NodeId>, s: DepGraph, q: seq<(NodeId, NodeId)>, top: (NodeId, NodeId), below: seq<(NodeId, NodeId)>)
    requires Readable(g) && KeysAgree(s) && Walkable(g, filtered) && Queued(g, filtered, q)
    requires q != [] && q[|q| - 1] == top && q[..|q| - 1] == below
    ensures Queued(g, filtered, below) && top.0 in g.graph.labelOf && Visits(g, filtered, top.0)
    ensures var r := Expand(g, filtered, s, top.0, top.1);
      StackRun(g, filtered, s, q) == if r.0.Fail? then r else StackRun(g, filtered, r.1, below)
  {
    QueuedBelow(g, filtered, q, top, below);
  }

  /** What is below the top of a stack of visited nodes is one too. */
  lemma QueuedBelow(g: DepGraph, filtered: set<NodeId>, q: seq<(NodeId, NodeId)>, top: (NodeId, NodeId), below: seq<(NodeId, NodeId)>)
    requires Queued(g, filtered, q)
    requires q != [] && q[|q| - 1] == top && q[..|q| - 1] == below
    ensures Queued(g, filtered, below) && top.0 in g.graph.labelOf && Visits(g, filtered, top.0)
  {
    forall i | 0 <= i < |below| ensures below[i].0 in g.graph.labelOf && Visits(g, filtered, below[i].0) {
      assert below[i] == q[i];
    }
  }

  /** The pops left: those of the top pair's walk and of the pairs below it. */
  lemma StackCountPop(g: DepGraph, filtered: set<NodeId>, q: seq<(NodeId, NodeId)>, top: (NodeId, NodeId), below: seq<(NodeId, NodeId)>)
    requires Readable(g) && Walkable(g, filtered) && Queued(g, filtered, q)
    requires q != [] && q[|q| - 1] == top && q[..|q| - 1] == below
    ensures Queued(g, filtered, below) && top.0 in g.graph.labelOf && Visits(g, filtered, top.0)
    ensures StackCount(g, filtered, q) == StackCount(g, filtered, below) + Count(g, filtered, top.0)
  {
    QueuedBelow(g, filtered, q, top, below);
  }

  /** The pairs pushed for the dependencies of `v` from the `k`-th on hold
      the `k`-th on top and those from the `k+1`-th on below it. */
  lemma PopPushed(rest: seq<(NodeId, NodeId)>, deps: seq<NodeId>, v: NodeId, k: nat, q: seq<(NodeId, NodeId)>, below: seq<(NodeId, NodeId)>)
    requires k < |deps|
    requires q == rest + Pushed(Reverse(deps[k..]), v) && below == rest + Pushed(Reverse(deps[k + 1..]), v)
    ensures q != [] && q[|q| - 1] == (deps[k], v) && q[..|q| - 1] == below
  {
    PushedStep(deps, v, k);
    assert q == below + [(deps[k], v)];
  }

  /** Nothing is pushed once the dependencies run out. */
  lemma PushedNone(rest: seq<(NodeId, NodeId)>, deps: seq<NodeId>, v: NodeId)
    ensures rest + Pushed(Reverse(deps[|deps|..]), v) == rest
  {
    assert deps[|deps|..] == [];
  }

  /** One turn for the `k`-th dependency of `v`: it is on top, and below it
      the dependencies after it. */
  lemma PushedPop(g: DepGraph, filtered: set<NodeId>, s: DepGraph, rest: seq<(NodeId, NodeId)>, v: NodeId, k: nat)
    requires Readable(g) && KeysAgree(s) && Walkable(g, filtered) && Queued(g, filtered, rest)
    requires v in g.graph.labelOf && v !in filtered && Visits(g, filtered, v)
    requires k < |g.graph.succ[v]|
    requires Queued(g, filtered, rest + Pushed(Reverse(g.graph.succ[v][k..]), v))
    ensures Queued(g, filtered, rest + Pushed(Reverse(g.graph.succ[v][k + 1..]), v))
    ensures g.graph.succ[v][k] in g.graph.labelOf && Visits(g, filtered, g.graph.succ[v][k])
    ensures var child := Expand(g, filtered, s, g.graph.succ[v][k], v);
      && StackRun(g, filtered, s, rest + Pushed(Reverse(g.graph.succ[v][k..]), v)) ==
        (if child.0.Fail? then child
         else StackRun(g, filtered, child.1, rest + Pushed(Reverse(g.graph.succ[v][k + 1..]), v)))
      && ExpandDeps(g, filtered, s, v, k) ==
        (if child.0.Fail? then child else ExpandDeps(g, filtered, child.1, v, k + 1))
  {
    var deps := g.graph.succ[v];
    var q := rest + Pushed(Reverse(deps[k..]), v);
    var below := rest + Pushed(Reverse(deps[k + 1..]), v);
    PopPushed(rest, deps, v, k, q, below);
    QueuedPush(g, filtered, rest, v, k + 1);
    Descend(g, filtered, v, deps[k]);
    ExpandDepsStep(g, filtered, s, v, k);
    StackPop(g, filtered, s, q, (deps[k], v), below);
  }

  /** Pushing the reversed dependencies of `v` from the `k`-th on, then running
      the stack, walks those dependencies in order and then the rest. */
  lemma {:induction false} StackDeps(g: DepGraph, filtered: set<NodeId>, s: DepGraph, rest: seq<(NodeId, NodeId)>, v: NodeId, k: nat)
    requires Readable(g) && KeysAgree(s) && Walkable(g, filtered) && Queued(g, filtered, rest)
    requires v in g.graph.labelOf && v !in filtered && Visits(g, filtered, v)
    requires k <= |g.graph.succ[v]|
    requires Queued(g, filtered, rest + Pushed(Reverse(g.graph.succ[v][k..]), v))
    ensures var d := ExpandDeps(g, filtered, s, v, k);
      StackRun(g, filtered, s, rest + Pushed(Reverse(g.graph.succ[v][k..]), v)) ==
        if d.0.Fail? then d else StackRun(g, filtered, d.1, rest)
    decreases |g.graph.succ[v]| - k
  {
    var deps := g.graph.succ[v];
    if k == |deps| {
      PushedNone(rest, deps, v);
    } else {
      PushedPop(g, filtered, s, rest, v, k);
      var child := Expand(g, filtered, s, deps[k], v);
      if child.0.Pass? {
        StackDeps(g, filtered, child.1, rest, v, k + 1);
      }
    }
  }

  /** The count of the `k`-th dependency's turn. */
  lemma CountPop(g: DepGraph, filtered: set<NodeId>, rest: seq<(NodeId, NodeId)>, v: NodeId, k: nat)
    requires Readable(g) && Walkable(g, filtered) && Queued(g, filtered, rest)
    requires v in g.graph.labelOf && v !in filtered && Visits(g, filtered, v)
    requires k < |g.graph.succ[v]|
    requires Queued(g, filtered, rest + Pushed(Reverse(g.graph.succ[v][k..]), v))
    ensures Queued(g, filtered, rest + Pushed(Reverse(g.graph.succ[v][k + 1..]), v))
    ensures g.graph.succ[v][k] in g.graph.labelOf && Visits(g, filtered, g.graph.succ[v][k])
    ensures StackCount(g, filtered, rest + Pushed(Reverse(g.graph.succ[v][k..]), v)) ==
      StackCount(g, filtered, rest + Pushed(Reverse(g.graph.succ[v][k + 1..]), v)) + Count(g, filtered, g.graph.succ[v][k])
    ensures CountDeps(g, filtered, v, k) == Count(g, filtered, g.graph.succ[v][k]) + CountDeps(g, filtered, v, k + 1)
  {
    var deps := g.graph.succ[v];
    var q := rest + Pushed(Reverse(deps[k..]), v);
    var below := rest + Pushed(Reverse(deps[k + 1..]), v);
    PopPushed(rest, deps, v, k, q, below);
    QueuedPush(g, filtered, rest, v, k + 1);
    Descend(g, filtered, v, deps[k]);
    StackCountPop(g, filtered, q, (deps[k], v), below);
  }

  /** The pairs pushed for the dependencies of `v` from the `k`-th on count the
      pops of their walks. */
  lemma {:induction false} CountPushed(g: DepGraph, filtered: set<NodeId>, rest: seq<(NodeId, NodeId)>, v: NodeId, k: nat)
    requires Readable(g) && Walkable(g, filtered) && Queued(g, filtered, rest)
    requires v in g.graph.labelOf && v !in filtered && Visits(g, filtered, v)
    requires k <= |g.graph.succ[v]|
    requires Queued(g, filtered, rest + Pushed(Reverse(g.graph.succ[v][k..]), v))
    ensures StackCount(g, filtered, rest + Pushed(Reverse(g.graph.succ[v][k..]), v)) ==
      StackCount(g, filtered, rest) + CountDeps(g, filtered, v, k)
    decreases |g.graph.succ[v]| - k
  {
    var deps := g.graph.succ[v];
    if k == |deps| {
      PushedNone(rest, deps, v);
    } else {
      CountPop(g, filtered, rest, v, k);
      CountPushed(g, filtered, rest, v, k + 1);
    }
  }

  // ---------------------------------------------------------------------------
  // The whole walk

  /** The builder's state after the whole walk from the root, started on a
      builder holding only its root node. */
  ghost function Filtered(g: DepGraph, filtered: set<NodeId>): (w: (Outcome, DepGraph))
    requires g.Valid() && Walkable(g, filtered)
  {
    ValidReadable(g);
    ReachesRefl(Cut(g.graph.succ, filtered), g.rootNodeId);
    Expand(g, filtered, NewGraph(g.pkgManager, Some(g.RootPkg())), g.rootNodeId, "")
  }

  /** The loop starts with the root alone on the stack and no parent. */
  lemma StackStart(g: DepGraph, filtered: set<NodeId>, s0: DepGraph)
    requires g.Valid() && Walkable(g, filtered)
    requires s0 == NewGraph(g.pkgManager, Some(g.RootPkg()))
    ensures Readable(g) && Queued(g, filtered, [(g.rootNodeId, "")])
    ensures StackRun(g, filtered, s0, [(g.rootNodeId, "")]) == Filtered(g, filtered)
  {
    ValidReadable(g);
    ReachesRefl(Cut(g.graph.succ, filtered), g.rootNodeId);
    var q := [(g.rootNodeId, "")];
    QueuedOne(g, filtered, q);
    assert q[..0] == [];
    StackPop(g, filtered, s0, q, q[0], []);
  }

  lemma QueuedOne(g: DepGraph, filtered: set<NodeId>, q: seq<(NodeId, NodeId)>)
    requires |q| == 1 && q[0].0 in g.graph.labelOf && Visits(g, filtered, q[0].0)
    ensures Queued(g, filtered, q)
  {
  }

  // ---------------------------------------------------------------------------
  // The walk keeps the builder's graph well formed and only adds to it

  lemma {:induction false} ExpandValid(g: DepGraph, filtered: set<NodeId>, s: DepGraph, v: NodeId, parent: NodeId)
    requires Readable(g) && s.graph.Valid() && Walkable(g, filtered)
    requires v in g.graph.labelOf && Visits(g, filtered, v)
    ensures var w := Expand(g, filtered, s, v, parent);
      w.1.graph.Valid() && PruneWalk.Grows(s, w.1)
    decreases |Below(g, filtered, v)|, 1, 0
  {
    var w := Expand(g, filtered, s, v, parent);
    if v in filtered {
      assert w.1 == s;
    } else {
      PruneWalk.AddUnderGrows(s, parent, PkgOf(g, v), v, InfoOf(g, v));
      var added := PruneWalk.AddUnder(s, parent, PkgOf(g, v), v, InfoOf(g, v));
      ExpandEnters(g, filtered, s, v, parent);
      if added.0.Pass? {
        ExpandDepsValid(g, filtered, added.1, v, 0);
      }
    }
  }

  lemma {:induction false} ExpandDepsValid(g: DepGraph, filtered: set<NodeId>, s: DepGraph, v: NodeId, k: nat)
    requires Readable(g) && s.graph.Valid() && Walkable(g, filtered)
    requires v in g.graph.labelOf && v !in filtered && Visits(g, filtered, v)
    requires k <= |g.graph.succ[v]|
    ensures var w := ExpandDeps(g, filtered, s, v, k);
      w.1.graph.Valid() && PruneWalk.Grows(s, w.1)
    decreases |Below(g, filtered, v)|, 0, |g.graph.succ[v]| - k
  {
    var w := ExpandDeps(g, filtered, s, v, k);
    if k == |g.graph.succ[v]| {
      assert w.1 == s;
    } else {
      var dep := g.graph.succ[v][k];
      ExpandDepsStep(g, filtered, s, v, k);
      Descend(g, filtered, v, dep);
      ExpandValid(g, filtered, s, dep, v);
      var child := Expand(g, filtered, s, dep, v);
      if child.0.Pass? {
        ExpandDepsValid(g, filtered, child.1, v, k + 1);
        assert w == ExpandDeps(g, filtered, child.1, v, k + 1);
      } else {
        assert w == child;
      }
    }
  }

  // ---------------------------------------------------------------------------
  // The new graph holds only what the walk reaches

  /** Every edge of the new graph is an input edge between two nodes the walk
      visits and does not filter. */
  ghost predicate KeptEdges(g: DepGraph, filtered: set<NodeId>, s: DepGraph) {
    forall a, c :: s.graph.HasEdge(a, c) ==> KeptEdge(g, filtered, a, c)
  }

  ghost predicate KeptEdge(g: DepGraph, filtered: set<NodeId>, a: NodeId, c: NodeId) {
    a in g.graph.labelOf && a !in filtered && c !in filtered && Visits(g, filtered, a) && c in Next(g.graph.succ, a)
  }

  /** Every node of the new graph other than the root node is an input node the
      walk visits and does not filter, with its package and information. */
  ghost predicate KeptNodes(g: DepGraph, filtered: set<NodeId>, s: DepGraph) {
    forall n :: n in s.graph.labelOf && n != RootNodeId ==>
      n in g.graph.labelOf && n !in filtered && Visits(g, filtered, n) &&
      s.graph.labelOf[n] == GraphNode(GetPkgId(PkgOf(g, n)), InfoOf(g, n))
  }

  /** The parent a node is walked below: an unfiltered visited node with an edge
      to it, or none. */
  ghost predicate Below1(g: DepGraph, filtered: set<NodeId>, v: NodeId, parent: NodeId) {
    parent != "" ==>
      parent in g.graph.labelOf && parent !in filtered && Visits(g, filtered, parent) && v in Next(g.graph.succ, parent)
  }

  /** Adding a node under its parent keeps the new graph's edges kept. */
  lemma AddUnderEdges(g: DepGraph, filtered: set<NodeId>, s: DepGraph, v: NodeId, parent: NodeId)
    requires s.graph.Valid() && KeysAgree(s) && KeptEdges(g, filtered, s)
    requires v !in filtered && Below1(g, filtered, v, parent)
    ensures KeptEdges(g, filtered, PruneWalk.AddUnder(s, parent, PkgOf(g, v), v, InfoOf(g, v)).1)
  {
    if parent != "" {
      var a := AddPkgNodeTo(s, PkgOf(g, v), v, InfoOf(g, v));
      var added := PruneWalk.AddUnder(s, parent, PkgOf(g, v), v, InfoOf(g, v));
      if a.Ok? {
        assert KeptEdges(g, filtered, a.value);
        var c := ConnectDepIn(a.value, parent, v);
        if c.Ok? {
          assert KeptEdge(g, filtered, parent, v);
          forall x, y | c.value.graph.HasEdge(x, y) ensures KeptEdge(g, filtered, x, y) {
            if x != parent || y != v {
              assert a.value.graph.HasEdge(x, y);
            }
          }
          assert added.1 == c.value;
        } else {
          assert added.1 == a.value;
        }
      } else {
        assert added.1 == s;
      }
    }
  }

  /** Adding a visited, unfiltered node keeps the new graph's nodes kept. */
  lemma AddUnderNodes(g: DepGraph, filtered: set<NodeId>, s: DepGraph, v: NodeId, parent: NodeId)
    requires KeysAgree(s) && KeptNodes(g, filtered, s)
    requires v in g.graph.labelOf && v !in filtered && Visits(g, filtered, v)
    ensures KeptNodes(g, filtered, PruneWalk.AddUnder(s, parent, PkgOf(g, v), v, InfoOf(g, v)).1)
  {
  }

  lemma {:induction false} ExpandEdges(g: DepGraph, filtered: set<NodeId>, s: DepGraph, v: NodeId, parent: NodeId)
    requires Readable(g) && s.graph.Valid() && Walkable(g, filtered) && KeptEdges(g, filtered, s)
    requires v in g.graph.labelOf && Visits(g, filtered, v) && Below1(g, filtered, v, parent)
    ensures KeptEdges(g, filtered, Expand(g, filtered, s, v, parent).1)
    decreases |Below(g, filtered, v)|, 1, 0
  {
    var w := Expand(g, filtered, s, v, parent);
    if v in filtered {
      assert w.1 == s;
    } else {
      PruneWalk.AddUnderGrows(s, parent, PkgOf(g, v), v, InfoOf(g, v));
      AddUnderEdges(g, filtered, s, v, parent);
      var added := PruneWalk.AddUnder(s, parent, PkgOf(g, v), v, InfoOf(g, v));
      ExpandEnters(g, filtered, s, v, parent);
      if added.0.Pass? {
        ExpandDepsEdges(g, filtered, added.1, v, 0);
        assert w == ExpandDeps(g, filtered, added.1, v, 0);
      } else {
        assert w.1 == added.1;
      }
    }
  }

  lemma {:induction false} ExpandDepsEdges(g: DepGraph, filtered: set<NodeId>, s: DepGraph, v: NodeId, k: nat)
    requires Readable(g) && s.graph.Valid() && Walkable(g, filtered) && KeptEdges(g, filtered, s)
    requires v in g.graph.labelOf && v !in filtered && Visits(g, filtered, v)
    requires k <= |g.graph.succ[v]|
    ensures KeptEdges(g, filtered, ExpandDeps(g, filtered, s, v, k).1)
    decreases |Below(g, filtered, v)|, 0, |g.graph.succ[v]| - k
  {
    var w := ExpandDeps(g, filtered, s, v, k);
    if k == |g.graph.succ[v]| {
      assert w.1 == s;
    } else {
      var dep := g.graph.succ[v][k];
      ExpandDepsStep(g, filtered, s, v, k);
      Descend(g, filtered, v, dep);
      ExpandValid(g, filtered, s, dep, v);
      ExpandEdges(g, filtered, s, dep, v);
      var child := Expand(g, filtered, s, dep, v);
      if child.0.Pass? {
        ExpandDepsEdges(g, filtered, child.1, v, k + 1);
        assert w == ExpandDeps(g, filtered, child.1, v, k + 1);
      } else {
        assert w == child;
      }
    }
  }

  lemma {:induction false} ExpandNodes(g: DepGraph, filtered: set<NodeId>, s: DepGraph, v: NodeId, parent: NodeId)
    requires Readable(g) && s.graph.Valid() && Walkable(g, filtered) && KeptNodes(g, filtered, s)
    requires v in g.graph.labelOf && Visits(g, filtered, v)
    ensures KeptNodes(g, filtered, Expand(g, filtered, s, v, parent).1)
    decreases |Below(g, filtered, v)|, 1, 0
  {
    var w := Expand(g, filtered, s, v, parent);
    if v in filtered {
      assert w.1 == s;
    } else {
      var added := PruneWalk.AddUnder(s, parent, PkgOf(g, v), v, InfoOf(g, v));
      PruneWalk.AddUnderGrows(s, parent, PkgOf(g, v), v, InfoOf(g, v));
      AddUnderNodes(g, filtered, s, v, parent);
      ExpandEnters(g, filtered, s, v, parent);
      if added.0.Pass? {
        ExpandDepsNodes(g, filtered, added.1, v, 0);
        assert w == ExpandDeps(g, filtered, added.1, v, 0);
      } else {
        assert w.1 == added.1;
      }
    }
  }

  lemma {:induction false} ExpandDepsNodes(g: DepGraph, filtered: set<NodeId>, s: DepGraph, v: NodeId, k: nat)
    requires Readable(g) && s.graph.Valid() && Walkable(g, filtered) && KeptNodes(g, filtered, s)
    requires v in g.graph.labelOf && v !in filtered && Visits(g, filtered, v)
    requires k <= |g.graph.succ[v]|
    ensures KeptNodes(g, filtered, ExpandDeps(g, filtered, s, v, k).1)
    decreases |Below(g, filtered, v)|, 0, |g.graph.succ[v]| - k
  {
    var w := ExpandDeps(g, filtered, s, v, k);
    if k == |g.graph.succ[v]| {
      assert w.1 == s;
    } else {
      var dep := g.graph.succ[v][k];
      ExpandDepsStep(g, filtered, s, v, k);
      Descend(g, filtered, v, dep);
      ExpandValid(g, filtered, s, dep, v);
      ExpandNodes(g, filtered, s, dep, v);
      var child := Expand(g, filtered, s, dep, v);
      if child.0.Pass? {
        ExpandDepsNodes(g, filtered, child.1, v, k + 1);
        assert w == ExpandDeps(g, filtered, child.1, v, k + 1);
      } else {
        assert w == child;
      }
    }
  }

  // ---------------------------------------------------------------------------
  // The new graph holds everything the walk reaches

  /** The inputs the walk never fails on: the root is 'root-node' and no node id
      is empty text (an empty parent id is falsy, and its children would not be
      added). */
  ghost predicate Plain(g: DepGraph) {
    g.rootNodeId == RootNodeId && forall n :: n in g.graph.labelOf ==> n != ""
  }

  /** Every unfiltered node reachable from `v` along the edges the walk follows
      is in the new graph, with each of its edges to an unfiltered node. */
  ghost predicate Covered(g: DepGraph, filtered: set<NodeId>, s: DepGraph, v: NodeId) {
    (forall x :: Reaches(Cut(g.graph.succ, filtered), v, x) && x !in filtered ==> x in s.graph.labelOf) &&
    (forall x, y :: Reaches(Cut(g.graph.succ, filtered), v, x) && x !in filtered && y in Next(g.graph.succ, x) && y !in filtered ==>
       s.graph.HasEdge(x, y))
  }

  /** The dependencies of `v` before the `k`-th are covered and joined to `v`. */
  ghost predicate CoveredDeps(g: DepGraph, filtered: set<NodeId>, s: DepGraph, v: NodeId, k: nat)
    requires v in g.graph.succ && k <= |g.graph.succ[v]|
  {
    forall j :: 0 <= j < k && g.graph.succ[v][j] !in filtered ==>
      Covered(g, filtered, s, g.graph.succ[v][j]) && s.graph.HasEdge(v, g.graph.succ[v][j])
  }

  lemma CoveredGrows(g: DepGraph, filtered: set<NodeId>, s: DepGraph, s': DepGraph, v: NodeId, k: nat)
    requires v in g.graph.succ && k <= |g.graph.succ[v]|
    requires CoveredDeps(g, filtered, s, v, k) && PruneWalk.Grows(s, s')
    ensures CoveredDeps(g, filtered, s', v, k)
  {
  }

  lemma CoveredNext(g: DepGraph, filtered: set<NodeId>, s: DepGraph, v: NodeId, k: nat)
    requires v in g.graph.succ && k < |g.graph.succ[v]| && CoveredDeps(g, filtered, s, v, k)
    requires g.graph.succ[v][k] !in filtered ==>
      Covered(g, filtered, s, g.graph.succ[v][k]) && s.graph.HasEdge(v, g.graph.succ[v][k])
    ensures CoveredDeps(g, filtered, s, v, k + 1)
  {
  }

  /** A node in the graph whose dependencies are all covered and joined to it
      is covered. */
  lemma CoverUp(g: DepGraph, filtered: set<NodeId>, s: DepGraph, v: NodeId)
    requires Readable(g) && v in g.graph.labelOf && v !in filtered && v in s.graph.labelOf
    requires CoveredDeps(g, filtered, s, v, |g.graph.succ[v]|)
    ensures Covered(g, filtered, s, v)
  {
    var cut := Cut(g.graph.succ, filtered);
    var deps := g.graph.succ[v];
    forall x | Reaches(cut, v, x) && x !in filtered
      ensures x in s.graph.labelOf && forall y :: y in Next(g.graph.succ, x) && y !in filtered ==> s.graph.HasEdge(x, y)
    {
      ReachesFirst(cut, v, x);
      if x == v {
        forall y | y in Next(g.graph.succ, x) && y !in filtered ensures s.graph.HasEdge(x, y) {
          var j :| 0 <= j < |deps| && deps[j] == y;
        }
      } else {
        var c :| c in Next(cut, v) && Reaches(cut, c, x);
        var j :| 0 <= j < |deps| && deps[j] == c;
        ReachesFirst(cut, c, x);
      }
    }
  }

  lemma {:induction false} ExpandCovers(g: DepGraph, filtered: set<NodeId>, s: DepGraph, v: NodeId, parent: NodeId)
    requires Readable(g) && s.graph.Valid() && Walkable(g, filtered) && Plain(g) && s.rootNodeId == RootNodeId
    requires v in g.graph.labelOf && Visits(g, filtered, v) && Below1(g, filtered, v, parent)
    requires parent == "" ==> v == g.rootNodeId && v in s.graph.labelOf
    requires parent != "" ==> parent in s.graph.labelOf
    ensures var w := Expand(g, filtered, s, v, parent);
      w.0.Pass? && (v !in filtered ==> Covered(g, filtered, w.1, v)) &&
      (v !in filtered && parent != "" ==> w.1.graph.HasEdge(parent, v))
    decreases |Below(g, filtered, v)|, 1, 0
  {
    if v !in filtered {
      var cut := Cut(g.graph.succ, filtered);
      if parent != "" {
        NoWayBack(cut, g.rootNodeId, parent, v);
        assert v != g.rootNodeId;
      }
      PruneWalk.AddUnderGrows(s, parent, PkgOf(g, v), v, InfoOf(g, v));
      var added := PruneWalk.AddUnder(s, parent, PkgOf(g, v), v, InfoOf(g, v));
      ExpandEnters(g, filtered, s, v, parent);
      ExpandDepsCovers(g, filtered, added.1, v, 0);
      ExpandDepsValid(g, filtered, added.1, v, 0);
      var w := ExpandDeps(g, filtered, added.1, v, 0);
      CoverUp(g, filtered, w.1, v);
    }
  }

  lemma {:induction false} ExpandDepsCovers(g: DepGraph, filtered: set<NodeId>, s: DepGraph, v: NodeId, k: nat)
    requires Readable(g) && s.graph.Valid() && Walkable(g, filtered) && Plain(g) && s.rootNodeId == RootNodeId
    requires v in g.graph.labelOf && v !in filtered && Visits(g, filtered, v) && v in s.graph.labelOf
    requires k <= |g.graph.succ[v]| && CoveredDeps(g, filtered, s, v, k)
    ensures var w := ExpandDeps(g, filtered, s, v, k);
      w.0.Pass? && CoveredDeps(g, filtered, w.1, v, |g.graph.succ[v]|)
    decreases |Below(g, filtered, v)|, 0, |g.graph.succ[v]| - k
  {
    if k < |g.graph.succ[v]| {
      var dep := g.graph.succ[v][k];
      ExpandDepsStep(g, filtered, s, v, k);
      Descend(g, filtered, v, dep);
      ExpandCovers(g, filtered, s, dep, v);
      ExpandValid(g, filtered, s, dep, v);
      var child := Expand(g, filtered, s, dep, v);
      CoveredGrows(g, filtered, s, child.1, v, k);
      CoveredNext(g, filtered, child.1, v, k);
      ExpandDepsCovers(g, filtered, child.1, v, k + 1);
      assert ExpandDeps(g, filtered, s, v, k) == ExpandDeps(g, filtered, child.1, v, k + 1);
    }
  }

  // ---------------------------------------------------------------------------
  // What `filterNodesFromGraph` leaves

  /** The new graph is well formed and holds exactly the unfiltered nodes the
      walk reaches and the input edges between them; on a plain input the walk
      never fails. */
  lemma FilterKeepsOnly(g: DepGraph, filtered: set<NodeId>)
    requires g.Valid() && Walkable(g, filtered)
    ensures var w := Filtered(g, filtered);
      w.1.graph.Valid() && w.1.rootNodeId == RootNodeId && RootNodeId in w.1.graph.labelOf &&
      KeptEdges(g, filtered, w.1) && KeptNodes(g, filtered, w.1)
  {
    ValidReadable(g);
    ReachesRefl(Cut(g.graph.succ, filtered), g.rootNodeId);
    var s0 := NewGraph(g.pkgManager, Some(g.RootPkg()));
    StartKept(g, filtered, s0, g.pkgManager, Some(g.RootPkg()));
    ExpandValid(g, filtered, s0, g.rootNodeId, "");
    ExpandEdges(g, filtered, s0, g.rootNodeId, "");
    ExpandNodes(g, filtered, s0, g.rootNodeId, "");
  }

  /** A builder's starting state holds the root node and no edge. */
  lemma StartKept(g: DepGraph, filtered: set<NodeId>, s0: DepGraph, pkgManager: PkgManager, rootPkg: Option<Pkg>)
    requires s0 == NewGraph(pkgManager, rootPkg)
    ensures KeptEdges(g, filtered, s0) && KeptNodes(g, filtered, s0)
  {
    forall a, c ensures !s0.graph.HasEdge(a, c) {
      if a in s0.graph.succ {
        assert a == RootNodeId;
      }
    }
  }

  /** On a plain input the walk succeeds and every unfiltered node reachable
      from the root without passing through a filtered node is kept, with its
      edges to unfiltered nodes. */
  lemma FilterKeepsAll(g: DepGraph, filtered: set<NodeId>)
    requires g.Valid() && Walkable(g, filtered) && Plain(g)
    ensures var w := Filtered(g, filtered);
      w.0.Pass? && (g.rootNodeId !in filtered ==> Covered(g, filtered, w.1, g.rootNodeId))
  {
    ValidReadable(g);
    ReachesRefl(Cut(g.graph.succ, filtered), g.rootNodeId);
    var s0 := NewGraph(g.pkgManager, Some(g.RootPkg()));
    ExpandCovers(g, filtered, s0, g.rootNodeId, "");
  }
}

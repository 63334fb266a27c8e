/** Directed graphs over text node ids, as the graphlib `Graph` class provides them
    to the dependency graph: nodes in insertion order, one label per node, and
    successor and predecessor lists in edge-insertion order, with no parallel
    edges. Also walks, reachability and cycles over an adjacency map. */
module Graphs {
  import opened Wrappers

  type NodeId = string

  /** Successor lists keyed by node; a node without an entry has no successors. */
  type Adj = map<NodeId, seq<NodeId>>

  predicate Distinct<T(==)>(s: seq<T>) {
    forall i, j :: 0 <= i < j < |s| ==> s[i] != s[j]
  }

  /** `xs.findIndex(x => x === t)` and `xs.indexOf(t)`: the first position of `t`, or -1. */
  function FindIndex(xs: seq<NodeId>, t: NodeId): (i: int)
    ensures -1 <= i < |xs|
    ensures i == -1 <==> t !in xs
    ensures 0 <= i ==> xs[i] == t && t !in xs[..i]
  {
    if xs == [] then -1
    else if xs[0] == t then 0
    else
      var i := FindIndex(xs[1..], t);
      assert xs == [xs[0]] + xs[1..];
      if i == -1 then -1 else (assert xs[..i + 1] == [xs[0]] + xs[1..][..i]; i + 1)
  }

  function Next(adj: Adj, v: NodeId): seq<NodeId> {
    if v in adj then adj[v] else []
  }

  /** Each entry of `p` after the first is a successor of the entry before it. */
  ghost predicate IsWalk(adj: Adj, p: seq<NodeId>) {
    forall i :: 0 <= i < |p| - 1 ==> p[i + 1] in Next(adj, p[i])
  }

  ghost predicate Reaches(adj: Adj, a: NodeId, b: NodeId) {
    exists p :: IsWalk(adj, p) && |p| > 0 && p[0] == a && p[|p| - 1] == b
  }

  /** Some walk from `start` visits a node twice: a cycle is reachable from `start`. */
  ghost predicate CycleReachable(adj: Adj, start: NodeId) {
    exists p :: IsWalk(adj, p) && |p| > 0 && p[0] == start && !Distinct(p)
  }

  /** No walk anywhere visits a node twice. */
  ghost predicate Acyclic(adj: Adj) {
    forall p :: IsWalk(adj, p) ==> Distinct(p)
  }

  /** `s` is closed under taking successors. */
  ghost predicate Closed(adj: Adj, s: set<NodeId>) {
    forall v, w :: v in s && w in Next(adj, v) ==> w in s
  }

  lemma ReachesRefl(adj: Adj, a: NodeId)
    ensures Reaches(adj, a, a)
  {
    assert IsWalk(adj, [a]);
  }

  lemma ReachesStep(adj: Adj, a: NodeId, b: NodeId, c: NodeId)
    requires b in Next(adj, a) && Reaches(adj, b, c)
    ensures Reaches(adj, a, c)
  {
    var p :| IsWalk(adj, p) && |p| > 0 && p[0] == b && p[|p| - 1] == c;
    var q := [a] + p;
    assert forall i :: 1 <= i < |q| - 1 ==> q[i] == p[i - 1] && q[i + 1] == p[i];
    assert IsWalk(adj, q);
  }

  lemma ReachesEdge(adj: Adj, a: NodeId, b: NodeId)
    requires b in Next(adj, a)
    ensures Reaches(adj, a, b)
  {
    ReachesRefl(adj, b);
    ReachesStep(adj, a, b, b);
  }

  lemma {:induction false} WalkReaches(adj: Adj, p: seq<NodeId>)
    requires IsWalk(adj, p) && |p| > 0
    ensures Reaches(adj, p[0], p[|p| - 1])
  {
  }

  lemma ReachesTrans(adj: Adj, a: NodeId, b: NodeId, c: NodeId)
    requires Reaches(adj, a, b) && Reaches(adj, b, c)
    ensures Reaches(adj, a, c)
  {
    var p :| IsWalk(adj, p) && |p| > 0 && p[0] == a && p[|p| - 1] == b;
    var q :| IsWalk(adj, q) && |q| > 0 && q[0] == b && q[|q| - 1] == c;
    var r := p + q[1..];
    forall i | 0 <= i < |r| - 1 ensures r[i + 1] in Next(adj, r[i]) {
      if i < |p| - 1 {
      } else {
        assert r[i] == q[i - |p| + 1] && r[i + 1] == q[i - |p| + 2];
      }
    }
    assert IsWalk(adj, r);
  }

  /** A set closed under successors holds everything reachable from its members. */
  lemma {:induction false} ClosedHoldsReach(adj: Adj, s: set<NodeId>, a: NodeId, b: NodeId)
    requires Closed(adj, s) && a in s && Reaches(adj, a, b)
    ensures b in s
  {
    var p :| IsWalk(adj, p) && |p| > 0 && p[0] == a && p[|p| - 1] == b;
    var k := 0;
    while k < |p| - 1
      invariant 0 <= k < |p| && p[k] in s
    {
      k := k + 1;
    }
  }

  /** If a rank strictly falls along every edge out of a closed set, no walk
      from inside it repeats a node. */
  lemma RankedWalkDistinct(adj: Adj, s: set<NodeId>, rank: map<NodeId, nat>, p: seq<NodeId>)
    requires Closed(adj, s) && s <= rank.Keys
    requires forall v, w :: v in s && w in Next(adj, v) ==> rank[w] < rank[v]
    requires IsWalk(adj, p) && |p| > 0 && p[0] in s
    ensures Distinct(p)
  {
    assert forall i :: 0 <= i < |p| ==> p[i] in s by {
      forall i | 0 <= i < |p| ensures p[i] in s {
        var k := 0;
        while k < i
          invariant 0 <= k <= i && p[k] in s
        {
          k := k + 1;
        }
      }
    }
    forall i, j | 0 <= i < j < |p| ensures p[i] != p[j] {
      var k := i;
      while k < j
        invariant i <= k <= j && rank[p[k]] <= rank[p[i]] - (k - i)
      {
        k := k + 1;
      }
    }
  }

  /** A distinct list drawn from a set is no longer than the set. */
  lemma {:induction false} DistinctWithin<T>(p: seq<T>, s: set<T>)
    requires Distinct(p) && forall x :: x in p ==> x in s
    ensures |p| <= |s|
    decreases |p|
  {
    if p != [] {
      var x := p[|p| - 1];
      assert forall y :: y in p[..|p| - 1] ==> y in s - {x};
      DistinctWithin(p[..|p| - 1], s - {x});
    }
  }

  /** A walk with a repeated node makes the graph cyclic. */
  lemma RepeatNotAcyclic(adj: Adj, p: seq<NodeId>)
    requires IsWalk(adj, p) && !Distinct(p)
    ensures !Acyclic(adj)
  {
  }

  /** `a` has a successor from which `b` is reachable: a walk of at least one edge. */
  ghost predicate ReachesPlus(adj: Adj, a: NodeId, b: NodeId) {
    exists w :: w in Next(adj, a) && Reaches(adj, w, b)
  }

  lemma ReachesPlusSelfCyclic(adj: Adj, a: NodeId)
    requires ReachesPlus(adj, a, a)
    ensures !Acyclic(adj)
  {
    var w :| w in Next(adj, a) && Reaches(adj, w, a);
    var p :| IsWalk(adj, p) && |p| > 0 && p[0] == w && p[|p| - 1] == a;
    var q := [a] + p;
    assert IsWalk(adj, q);
    assert q[0] == q[|q| - 1];
    RepeatNotAcyclic(adj, q);
  }

  /** `pred` lists exactly the reversed edges of `succ`. */
  ghost predicate Mirror(succ: Adj, pred: Adj) {
    forall v, w :: w in Next(pred, v) <==> v in Next(succ, w)
  }

  function Reverse<T>(s: seq<T>): (r: seq<T>)
    ensures |r| == |s| && forall i :: 0 <= i < |s| ==> r[i] == s[|s| - 1 - i]
  {
    if s == [] then [] else Reverse(s[1..]) + [s[0]]
  }

  lemma ReverseWalk(succ: Adj, pred: Adj, p: seq<NodeId>)
    requires Mirror(succ, pred) && IsWalk(pred, p)
    ensures IsWalk(succ, Reverse(p)) && (Distinct(p) <==> Distinct(Reverse(p)))
  {
    var r := Reverse(p);
    forall i | 0 <= i < |r| - 1 ensures r[i + 1] in Next(succ, r[i]) {
      var j := |p| - 2 - i;
      assert r[i] == p[j + 1] && r[i + 1] == p[j];
    }
    if !Distinct(p) {
      var i, j :| 0 <= i < j < |p| && p[i] == p[j];
      assert r[|p| - 1 - j] == r[|p| - 1 - i];
    }
    if !Distinct(r) {
      var i, j :| 0 <= i < j < |r| && r[i] == r[j];
      assert p[|p| - 1 - j] == p[|p| - 1 - i];
    }
  }

  /** Reversing every edge neither creates nor removes cycles. */
  lemma MirrorAcyclic(succ: Adj, pred: Adj)
    requires Mirror(succ, pred)
    ensures Acyclic(succ) <==> Acyclic(pred)
  {
    if !Acyclic(pred) {
      var p :| IsWalk(pred, p) && !Distinct(p);
      ReverseWalk(succ, pred, p);
      RepeatNotAcyclic(succ, Reverse(p));
    }
    if !Acyclic(succ) {
      assert Mirror(pred, succ);
      var p :| IsWalk(succ, p) && !Distinct(p);
      ReverseWalk(pred, succ, p);
      RepeatNotAcyclic(pred, Reverse(p));
    }
  }

  /** `nodes` lists exactly the members of `keys`. */
  ghost predicate Listed(nodes: seq<NodeId>, keys: set<NodeId>) {
    forall v :: v in keys <==> v in nodes
  }

  /** No adjacency list repeats a node. */
  ghost predicate ListsDistinct(adj: Adj) {
    forall v :: v in adj ==> Distinct(adj[v])
  }

  /** A graph as graphlib keeps it. */
  datatype Graph<L> = Graph(nodes: seq<NodeId>, labelOf: map<NodeId, L>, succ: Adj, pred: Adj) {

    /** Nodes are listed once; labels, successor and predecessor lists exist exactly
        for the nodes; edges join nodes, are not repeated, and are recorded on both
        ends. */
    ghost predicate Valid() {
      Distinct(nodes) && Listed(nodes, labelOf.Keys) &&
      succ.Keys == labelOf.Keys && pred.Keys == labelOf.Keys &&
      ListsDistinct(succ) && ListsDistinct(pred) && Mirror(succ, pred)
    }

    predicate HasNode(v: NodeId) { v in labelOf }

    predicate HasEdge(v: NodeId, w: NodeId) { v in succ && w in succ[v] }

    /** `g.successors(v)`: `None` for an unknown node. */
    function Successors(v: NodeId): (r: Option<seq<NodeId>>)
      ensures r.Some? <==> v in succ
      ensures r.Some? ==> forall w :: w in r.value <==> HasEdge(v, w)
    {
      if v in succ then Some(succ[v]) else None
    }

    /** `g.predecessors(v)`: `None` for an unknown node. */
    function Predecessors(v: NodeId): (r: Option<seq<NodeId>>)
      ensures r.Some? <==> v in pred
      ensures Valid() && r.Some? ==> forall w :: w in r.value <==> HasEdge(w, v)
    {
      if v in pred then PredecessorEdges(this, v); Some(pred[v]) else None
    }

    /** `g.setNode(v, l)`: relabels a known node, or appends a new one without edges. */
    function SetNode(v: NodeId, l: L): (g: Graph<L>)
      ensures Valid() ==> g.Valid()
      ensures g.labelOf == labelOf[v := l]
      ensures g.nodes == if v in labelOf then nodes else nodes + [v]
      ensures Valid() ==> forall a, b :: g.HasEdge(a, b) <==> HasEdge(a, b)
      ensures Valid() ==> forall a :: a in succ ==> g.succ[a] == succ[a] && g.pred[a] == pred[a]
    {
      if v in labelOf then
        assert Valid() ==> Graph(nodes, labelOf[v := l], succ, pred).Valid() by {
          if Valid() { RelabelValid(this, v, l); }
        }
        Graph(nodes, labelOf[v := l], succ, pred)
      else
        var g := Graph(nodes + [v], labelOf[v := l], succ[v := []], pred[v := []]);
        assert Valid() ==> g.Valid() && v !in succ by {
          if Valid() { NewNodeValid(this, v, l); }
        }
        g
    }

    /** `g.setEdge(v, w)` between known nodes: adds the edge unless it is present. */
    function SetEdge(v: NodeId, w: NodeId): (g: Graph<L>)
      requires v in succ && w in pred
      ensures Valid() && HasNode(v) && HasNode(w) ==> g.Valid()
      ensures g.nodes == nodes && g.labelOf == labelOf
      ensures forall a, b :: g.HasEdge(a, b) <==> HasEdge(a, b) || (a == v && b == w)
      ensures g.succ == if HasEdge(v, w) then succ else succ[v := succ[v] + [w]]
      ensures g.pred == if HasEdge(v, w) then pred else pred[w := pred[w] + [v]]
    {
      if w in succ[v] then this
      else
        var g := Graph(nodes, labelOf, succ[v := succ[v] + [w]], pred[w := pred[w] + [v]]);
        assert Valid() && HasNode(v) && HasNode(w) ==> g.Valid() by {
          if Valid() && HasNode(v) && HasNode(w) { NewEdgeValid(this, v, w); }
        }
        g
    }

    /** `g.sinks()`: the nodes without successors, in node order. */
    function Sinks(): (r: seq<NodeId>)
      requires Valid()
      ensures forall v :: v in r <==> v in labelOf && succ[v] == []
    {
      SinksOf(nodes)
    }

    function SinksOf(vs: seq<NodeId>): (r: seq<NodeId>)
      requires Valid() && forall v :: v in vs ==> v in labelOf
      ensures forall v :: v in r <==> v in vs && succ[v] == []
    {
      if vs == [] then []
      else (if succ[vs[0]] == [] then [vs[0]] else []) + SinksOf(vs[1..])
    }
  }

  lemma NewNodeValid<L>(g: Graph<L>, v: NodeId, l: L)
    requires g.Valid() && v !in g.labelOf
    ensures Graph(g.nodes + [v], g.labelOf[v := l], g.succ[v := []], g.pred[v := []]).Valid()
  {
    var h := Graph(g.nodes + [v], g.labelOf[v := l], g.succ[v := []], g.pred[v := []]);
    assert Distinct(h.nodes);
    forall u ensures u in h.labelOf.Keys <==> u in h.nodes {
      assert u in g.labelOf.Keys <==> u in g.nodes;
    }
    assert Listed(h.nodes, h.labelOf.Keys);
    assert ListsDistinct(h.succ) && ListsDistinct(h.pred);
    forall a, b ensures b in Next(h.pred, a) <==> a in Next(h.succ, b) {
      if a == v || b == v {
        assert a == v ==> Next(h.pred, a) == [];
        assert b == v ==> Next(h.succ, b) == [];
        assert b !in Next(h.pred, a) && a !in Next(h.succ, b) by {
          if a == v {
            assert Next(g.pred, v) == [];
            assert v !in Next(g.succ, b);
          }
          if b == v {
            assert Next(g.succ, v) == [];
            assert v !in Next(g.pred, a);
          }
        }
      } else {
        assert Next(h.pred, a) == Next(g.pred, a) && Next(h.succ, b) == Next(g.succ, b);
        assert b in Next(g.pred, a) <==> a in Next(g.succ, b);
      }
    }
    assert Mirror(h.succ, h.pred);
  }

  lemma RelabelValid<L>(g: Graph<L>, v: NodeId, l: L)
    requires g.Valid() && v in g.labelOf
    ensures Graph(g.nodes, g.labelOf[v := l], g.succ, g.pred).Valid()
  {
    var h := Graph(g.nodes, g.labelOf[v := l], g.succ, g.pred);
    assert h.labelOf.Keys == g.labelOf.Keys;
    assert Listed(h.nodes, h.labelOf.Keys);
  }

  lemma NewEdgeValid<L>(g: Graph<L>, v: NodeId, w: NodeId)
    requires g.Valid() && g.HasNode(v) && g.HasNode(w) && !g.HasEdge(v, w)
    ensures Graph(g.nodes, g.labelOf, g.succ[v := g.succ[v] + [w]], g.pred[w := g.pred[w] + [v]]).Valid()
  {
    var h := Graph(g.nodes, g.labelOf, g.succ[v := g.succ[v] + [w]], g.pred[w := g.pred[w] + [v]]);
    assert v !in Next(g.pred, w) by {
      assert w !in Next(g.succ, v);
    }
    assert ListsDistinct(h.succ) && ListsDistinct(h.pred);
    forall a, b ensures b in Next(h.pred, a) <==> a in Next(h.succ, b) {
      assert b in Next(g.pred, a) <==> a in Next(g.succ, b);
    }
    assert Mirror(h.succ, h.pred);
  }

  lemma PredecessorEdges<L>(g: Graph<L>, v: NodeId)
    requires v in g.pred
    ensures g.Valid() ==> forall w :: w in g.pred[v] <==> g.HasEdge(w, v)
  {
    if g.Valid() {
      forall w ensures w in g.pred[v] <==> g.HasEdge(w, v) {
        assert w in Next(g.pred, v) <==> v in Next(g.succ, w);
      }
    }
  }

  /** In a valid graph every edge joins two nodes, on both ends' lists. */
  lemma ValidMirror<L>(g: Graph<L>)
    requires g.Valid()
    ensures Mirror(g.succ, g.pred)
    ensures forall v, w :: v in g.succ && w in g.succ[v] ==> w in g.succ
    ensures forall v, w :: v in g.pred && w in g.pred[v] ==> w in g.pred
  {
    forall v, w | v in g.succ && w in g.succ[v] ensures w in g.succ {
      assert w in Next(g.succ, v);
      assert v in Next(g.pred, w);
    }
    forall v, w | v in g.pred && w in g.pred[v] ensures w in g.pred {
      assert w in Next(g.pred, v);
      assert v in Next(g.succ, w);
    }
  }

  function EmptyGraph<L>(): (g: Graph<L>)
    ensures g.Valid() && g.nodes == []
  {
    Graph([], map[], map[], map[])
  }
}

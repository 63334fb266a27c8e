/** graphlib's `topsort` and `isAcyclic`. The walk starts at every sink and
    follows predecessors depth first; meeting a node that is still on the walk
    stack, or leaving a node unvisited, raises `CycleException`. */
module Topsort {
  import opened Wrappers
  import opened Graphs

  const CycleException := "CycleException"

  /** Each recorded node comes after all of its predecessors. */
  ghost predicate PredsFirst(pred: Adj, results: seq<NodeId>) {
    forall i, w :: 0 <= i < |results| && w in Next(pred, results[i]) ==> w in results[..i]
  }

  /** What `visit` keeps between calls: `stack` holds the nodes being visited,
      the finished ones are exactly the recorded ones, and a finished node has all
      of its predecessors visited. */
  ghost predicate VisitState(pred: Adj, visited: set<NodeId>, stack: set<NodeId>, results: seq<NodeId>) {
    stack <= visited && Distinct(results) &&
    (forall x :: x in results <==> x in visited - stack) &&
    (forall x, w :: x in visited - stack && w in Next(pred, x) ==> w in visited) &&
    PredsFirst(pred, results)
  }

  /** `visit(node)`: on `true` it threw `CycleException`, and then the graph has a
      cycle; otherwise the node is visited, and `stack` is as it was. */
  method Visit(pred: Adj, node: NodeId, visited: set<NodeId>, stack: set<NodeId>, results: seq<NodeId>)
    returns (cycle: bool, visited': set<NodeId>, results': seq<NodeId>)
    requires node in pred && forall v, w :: v in pred && w in pred[v] ==> w in pred
    requires visited <= pred.Keys && VisitState(pred, visited, stack, results)
    requires forall s :: s in stack ==> ReachesPlus(pred, s, node)
    ensures cycle ==> !Acyclic(pred)
    ensures !cycle ==> visited <= visited' <= pred.Keys && node in visited' && node !in stack
    ensures !cycle ==> VisitState(pred, visited', stack, results')
    ensures !cycle ==> |results| <= |results'| && results'[..|results|] == results
    decreases pred.Keys - visited
  {
    if node in stack {
      ReachesPlusSelfCyclic(pred, node);
      return true, visited, results;
    }
    if node in visited {
      return false, visited, results;
    }
    visited' := visited + {node};
    results' := results;
    var preds := pred[node];
    var k := 0;
    while k < |preds|
      invariant 0 <= k <= |preds|
      invariant visited + {node} <= visited' <= pred.Keys
      invariant VisitState(pred, visited', stack + {node}, results')
      invariant forall j :: 0 <= j < k ==> preds[j] in visited' && preds[j] !in stack + {node}
      invariant |results| <= |results'| && results'[..|results|] == results
    {
      var w := preds[k];
      StackReaches(pred, stack, node, w);
      ghost var before := results';
      cycle, visited', results' := Visit(pred, w, visited', stack + {node}, results');
      if cycle {
        return true, visited', results';
      }
      assert results'[..|results|] == before[..|results|];
      k := k + 1;
    }
    assert node !in results';
    PredsFirstAppend(pred, results', node);
    results' := results' + [node];
    cycle := false;
  }

  lemma StackReaches(pred: Adj, stack: set<NodeId>, node: NodeId, w: NodeId)
    requires forall s :: s in stack ==> ReachesPlus(pred, s, node)
    requires w in Next(pred, node)
    ensures forall s :: s in stack + {node} ==> ReachesPlus(pred, s, w)
  {
    ReachesRefl(pred, w);
    forall s | s in stack + {node} ensures ReachesPlus(pred, s, w) {
      if s != node {
        var u :| u in Next(pred, s) && Reaches(pred, u, node);
        ReachesStep(pred, node, w, w);
        ReachesTrans(pred, u, node, w);
      }
    }
  }

  lemma PredsFirstAppend(pred: Adj, results: seq<NodeId>, node: NodeId)
    requires PredsFirst(pred, results)
    requires forall w :: w in Next(pred, node) ==> w in results
    ensures PredsFirst(pred, results + [node])
  {
    var r := results + [node];
    forall i, w | 0 <= i < |r| && w in Next(pred, r[i]) ensures w in r[..i] {
      if i < |results| {
        assert r[..i] == results[..i];
      } else {
        assert r[..i] == results;
      }
    }
  }

  /** `topsort(g)`: every node once, each after its predecessors, or `CycleException`. */
  method TopSort<L>(g: Graph<L>) returns (r: Result<seq<NodeId>>)
    requires g.Valid()
    ensures r.Err? ==> r.msg == CycleException && !Acyclic(g.succ)
    ensures r.Ok? ==> Distinct(r.value) && PredsFirst(g.pred, r.value)
    ensures r.Ok? ==> forall v :: v in r.value <==> v in g.labelOf
  {
    ValidMirror(g);
    MirrorAcyclic(g.succ, g.pred);
    assert forall v, w :: v in g.pred && w in g.pred[v] ==> w in g.pred;
    var sinks := g.Sinks();
    r := TopSortFrom(g.succ, g.pred, sinks);
  }

  /** The body of `topsort` over the predecessor lists and the sink list. */
  method TopSortFrom(succ: Adj, pred: Adj, sinks: seq<NodeId>) returns (r: Result<seq<NodeId>>)
    requires Mirror(succ, pred) && succ.Keys == pred.Keys
    requires forall v, w :: v in pred && w in pred[v] ==> w in pred
    requires forall v :: v in sinks <==> v in succ && succ[v] == []
    ensures r.Err? ==> r.msg == CycleException && !Acyclic(pred)
    ensures r.Ok? ==> Distinct(r.value) && PredsFirst(pred, r.value)
    ensures r.Ok? ==> forall v :: v in r.value <==> v in pred
  {
    var visited: set<NodeId> := {};
    var results: seq<NodeId> := [];
    var k := 0;
    while k < |sinks|
      invariant 0 <= k <= |sinks|
      invariant visited <= pred.Keys && VisitState(pred, visited, {}, results)
      invariant forall j :: 0 <= j < k ==> sinks[j] in visited
    {
      var cycle;
      cycle, visited, results := Visit(pred, sinks[k], visited, {}, results);
      if cycle {
        return Err(CycleException);
      }
      k := k + 1;
    }
    if |visited| != |pred.Keys| {
      ghost var x := UnvisitedNode(pred.Keys, visited);
      MirrorAcyclic(succ, pred);
      UnvisitedCyclic(succ, pred, visited, x, |pred.Keys| + 1);
      return Err(CycleException);
    }
    SameSizeSubset(visited, pred.Keys);
    return Ok(results);
  }

  ghost function UnvisitedNode(all: set<NodeId>, visited: set<NodeId>): (x: NodeId)
    requires visited <= all && visited != all
    ensures x in all && x !in visited
  {
    assert !(all <= visited);
    var x :| x in all && x !in visited; x
  }

  /** A subset as large as its superset is the superset. */
  lemma {:induction false} SameSizeSubset<T>(a: set<T>, b: set<T>)
    requires a <= b && |a| == |b|
    ensures a == b
    decreases |a|
  {
    if a != {} {
      var y :| y in a;
      assert |b - {y}| == |b| - 1;
      SameSizeSubset(a - {y}, b - {y});
      assert a == (a - {y}) + {y} && b == (b - {y}) + {y};
    } else {
      assert |b| == 0;
    }
  }

  /** From a node no sink search reached, successors lead only to unreached,
      non-sink nodes, so a walk of any length stays among them. */
  lemma {:induction false} UnvisitedCyclic(succ: Adj, pred: Adj, visited: set<NodeId>, x: NodeId, n: nat)
    requires Mirror(succ, pred) && succ.Keys == pred.Keys
    requires forall v, w :: v in pred && w in pred[v] ==> w in pred
    requires forall v :: v in succ && succ[v] == [] ==> v in visited
    requires forall y, w :: y in visited && w in Next(pred, y) ==> w in visited
    requires x in succ && x !in visited && n == |succ.Keys| + 1
    ensures !Acyclic(pred)
  {
    var p := UnvisitedWalk(succ, pred, visited, x, n);
    if Distinct(p) {
      DistinctWithin(p, succ.Keys);
    }
    MirrorAcyclic(succ, pred);
    RepeatNotAcyclic(succ, p);
  }

  lemma {:induction false} UnvisitedWalk(succ: Adj, pred: Adj, visited: set<NodeId>, x: NodeId, n: nat)
    returns (p: seq<NodeId>)
    requires Mirror(succ, pred) && succ.Keys == pred.Keys
    requires forall v, w :: v in pred && w in pred[v] ==> w in pred
    requires forall v :: v in succ && succ[v] == [] ==> v in visited
    requires forall y, w :: y in visited && w in Next(pred, y) ==> w in visited
    requires x in succ && x !in visited && n > 0
    ensures |p| == n && p[0] == x && IsWalk(succ, p)
    ensures forall y :: y in p ==> y in succ.Keys
    decreases n
  {
    if n == 1 {
      p := [x];
    } else {
      var y := succ[x][0];
      assert y in Next(succ, x);
      assert x in Next(pred, y);
      assert y in pred;
      var rest := UnvisitedWalk(succ, pred, visited, y, n - 1);
      p := [x] + rest;
      assert forall i :: 1 <= i < |p| - 1 ==> p[i] == rest[i - 1] && p[i + 1] == rest[i];
    }
  }

  /** A topological order of all nodes leaves no room for a cycle. */
  lemma TopologicalAcyclic(succ: Adj, pred: Adj, order: seq<NodeId>)
    requires Mirror(succ, pred) && Distinct(order) && PredsFirst(pred, order)
    requires forall v, w :: v in succ && w in succ[v] ==> w in succ
    requires forall v :: v in succ ==> v in order
    ensures Acyclic(succ)
  {
    var rank := map v | v in order :: |order| - Position(order, v);
    forall v, w | v in succ.Keys && w in Next(succ, v) ensures rank[w] < rank[v] {
      assert v in Next(pred, w);
      var j := Position(order, w);
      assert v in order[..j];
      var i :| 0 <= i < j && order[i] == v;
      assert Position(order, v) == i;
    }
    forall p | IsWalk(succ, p) ensures Distinct(p) {
      if |p| > 1 {
        assert p[1] in Next(succ, p[0]);
        assert Closed(succ, succ.Keys);
        RankedWalkDistinct(succ, succ.Keys, rank, p);
      }
    }
  }

  function Position(s: seq<NodeId>, x: NodeId): (i: nat)
    requires x in s
    ensures i < |s| && s[i] == x && x !in s[..i]
  {
    if s[0] == x then 0 else 1 + Position(s[1..], x)
  }

  /** `isAcyclic(g)`: `topsort` completes exactly on graphs without a directed cycle. */
  method IsAcyclic<L>(g: Graph<L>) returns (r: bool)
    requires g.Valid()
    ensures r <==> Acyclic(g.succ)
  {
    var t := TopSort(g);
    r := t.Ok?;
    if r {
      ValidMirror(g);
      assert forall v, w :: v in g.succ && w in g.succ[v] ==> w in g.succ;
      TopologicalAcyclic(g.succ, g.pred, t.value);
    }
  }
}

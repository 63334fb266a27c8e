/** graphlib's depth-first traversal (`dfs`, `doDfs`) and `postorder`, on a
    directed graph: the walk follows successors. */
module Dfs {
  import opened Wrappers
  import opened Graphs

  /** `x` is reachable from one of the start nodes. */
  ghost predicate ReachableFromAny(adj: Adj, vs: seq<NodeId>, x: NodeId) {
    exists v :: v in vs && Reaches(adj, v, x)
  }

  /** Every visited node that is no longer on the walk stack has all of its
      successors visited. */
  ghost predicate FinishedClosed(adj: Adj, visited: set<NodeId>, gray: set<NodeId>) {
    gray <= visited && forall x, w :: x in visited - gray && w in Next(adj, x) ==> w in visited
  }

  /** Post-order: each recorded node's successors were recorded before it, unless
      they reach it (a back edge of a cycle). */
  ghost predicate PostOrdered(adj: Adj, acc: seq<NodeId>) {
    forall i, w :: 0 <= i < |acc| && w in Next(adj, acc[i]) ==> w in acc[..i] || Reaches(adj, w, acc[i])
  }

  /** Everything `doDfs` may assume about the shared state between two calls;
      `gray` is the stack of nodes whose traversal has begun but not ended. */
  ghost predicate DfsState(adj: Adj, post: bool, visited: set<NodeId>, acc: seq<NodeId>, gray: set<NodeId>) {
    Distinct(acc) && FinishedClosed(adj, visited, gray) &&
    (forall x :: x in acc <==> x in visited - (if post then gray else {})) &&
    (post ==> PostOrdered(adj, acc))
  }

  /** Every successor has a successor list of its own. */
  ghost predicate AdjClosed(adj: Adj) {
    forall v, w :: v in adj && w in adj[v] ==> w in adj
  }

  lemma ValidAdjClosed<L>(g: Graph<L>)
    requires g.Valid()
    ensures AdjClosed(g.succ) && g.succ.Keys == g.labelOf.Keys
  {
    ValidMirror(g);
  }

  lemma ReachesFromGray(adj: Adj, gray: set<NodeId>, v: NodeId, w: NodeId)
    requires forall x :: x in gray ==> Reaches(adj, x, v)
    requires w in Next(adj, v)
    ensures forall x :: x in gray + {v} ==> Reaches(adj, x, w)
  {
    forall x | x in gray + {v} ensures Reaches(adj, x, w) {
      ReachesEdge(adj, v, w);
      if x != v { ReachesTrans(adj, x, v, w); }
    }
  }

  /** `doDfs(g, v, postorder, visited, navigation, acc)`: threads the shared
      `visited` set and `acc` list through the recursion. A node not yet visited is
      recorded first (pre-order) or last (post-order) among the nodes its call adds. */
  method DoDfs(adj: Adj, v: NodeId, post: bool, visited: set<NodeId>, acc: seq<NodeId>, ghost gray: set<NodeId>)
    returns (visited': set<NodeId>, acc': seq<NodeId>)
    requires AdjClosed(adj) && v in adj && visited <= adj.Keys
    requires DfsState(adj, post, visited, acc, gray)
    requires forall x :: x in gray ==> Reaches(adj, x, v)
    ensures visited <= visited' <= adj.Keys && v in visited'
    ensures DfsState(adj, post, visited', acc', gray)
    ensures |acc| <= |acc'| && acc'[..|acc|] == acc
    ensures forall x :: x in visited' - visited ==> Reaches(adj, v, x)
    ensures v !in visited && !post ==> |acc'| > |acc| && acc'[|acc|] == v
    ensures v !in visited && post ==> |acc'| > |acc| && acc'[|acc'| - 1] == v
    decreases adj.Keys - visited, 1
  {
    if v in visited {
      return visited, acc;
    }
    visited', acc' := Enter(adj, v, post, visited, acc, gray);
    visited', acc' := VisitChildren(adj, v, post, visited', acc', gray);
    if post {
      Leave(adj, v, visited', acc', gray);
      acc' := acc' + [v];
    }
    PrefixOfPrefix(acc, if post then acc else acc + [v], acc');
  }

  /** The `each(navigation(v), ...)` loop of `doDfs`: one recursive call per successor. */
  method VisitChildren(adj: Adj, v: NodeId, post: bool, visited: set<NodeId>, acc: seq<NodeId>, ghost gray: set<NodeId>)
    returns (visited': set<NodeId>, acc': seq<NodeId>)
    requires AdjClosed(adj) && v in adj && v in visited && visited <= adj.Keys
    requires DfsState(adj, post, visited, acc, gray + {v})
    requires forall x :: x in gray ==> Reaches(adj, x, v)
    ensures visited <= visited' <= adj.Keys
    ensures DfsState(adj, post, visited', acc', gray + {v})
    ensures forall w :: w in adj[v] ==> w in visited'
    ensures |acc| <= |acc'| && acc'[..|acc|] == acc
    ensures forall x :: x in visited' - visited ==> Reaches(adj, v, x)
    decreases adj.Keys - (visited - {v}), 0
  {
    visited', acc' := visited, acc;
    var succs := adj[v];
    var k := 0;
    while k < |succs|
      invariant 0 <= k <= |succs|
      invariant visited <= visited' <= adj.Keys
      invariant DfsState(adj, post, visited', acc', gray + {v})
      invariant forall j :: 0 <= j < k ==> succs[j] in visited'
      invariant |acc| <= |acc'| && acc'[..|acc|] == acc
      invariant forall x :: x in visited' - visited ==> Reaches(adj, v, x)
    {
      var w := succs[k];
      ReachesFromGray(adj, gray, v, w);
      ghost var before := visited';
      ghost var accBefore := acc';
      visited', acc' := DoDfs(adj, w, post, visited', acc', gray + {v});
      Grown(adj, v, w, visited, before, visited');
      PrefixOfPrefix(acc, accBefore, acc');
      k := k + 1;
    }
  }

  /** The bookkeeping on entering a node: mark it visited, and record it in pre-order. */
  method Enter(adj: Adj, v: NodeId, post: bool, visited: set<NodeId>, acc: seq<NodeId>, ghost gray: set<NodeId>)
    returns (visited': set<NodeId>, acc': seq<NodeId>)
    requires AdjClosed(adj) && v in adj && v !in visited && visited <= adj.Keys
    requires DfsState(adj, post, visited, acc, gray)
    ensures visited' == visited + {v} && acc' == if post then acc else acc + [v]
    ensures DfsState(adj, post, visited', acc', gray + {v})
    ensures forall x :: x in visited' - visited ==> Reaches(adj, v, x)
  {
    assert v !in acc;
    visited' := visited + {v};
    acc' := if post then acc else acc + [v];
    ReachesRefl(adj, v);
  }

  /** The bookkeeping on leaving a node in post-order: every successor is visited,
      so recording the node keeps the state. */
  lemma Leave(adj: Adj, v: NodeId, visited: set<NodeId>, acc: seq<NodeId>, gray: set<NodeId>)
    requires AdjClosed(adj) && v in adj && v in visited && v !in gray
    requires DfsState(adj, true, visited, acc, gray + {v})
    requires forall x :: x in gray ==> Reaches(adj, x, v)
    requires forall w :: w in adj[v] ==> w in visited
    ensures DfsState(adj, true, visited, acc + [v], gray)
  {
    assert v !in acc;
    forall w | w in Next(adj, v) ensures w in acc || w in gray || w == v {
    }
    PostOrderedAppend(adj, acc, v, gray);
  }

  lemma Grown(adj: Adj, v: NodeId, w: NodeId, visited: set<NodeId>, before: set<NodeId>, after: set<NodeId>)
    requires w in Next(adj, v) && before <= after
    requires forall x :: x in before - visited ==> Reaches(adj, v, x)
    requires forall x :: x in after - before ==> Reaches(adj, w, x)
    ensures forall x :: x in after - visited ==> Reaches(adj, v, x)
  {
    forall x | x in after - visited ensures Reaches(adj, v, x) {
      if x !in before {
        ReachesEdge(adj, v, w);
        ReachesTrans(adj, v, w, x);
      }
    }
  }

  lemma PrefixOfPrefix<T>(a: seq<T>, b: seq<T>, c: seq<T>)
    requires |a| <= |b| && b[..|a|] == a
    requires |b| <= |c| && c[..|b|] == b
    ensures |a| <= |c| && c[..|a|] == a
  {
    assert c[..|a|] == c[..|b|][..|a|];
  }

  lemma PostOrderedAppend(adj: Adj, acc: seq<NodeId>, v: NodeId, gray: set<NodeId>)
    requires PostOrdered(adj, acc)
    requires forall x :: x in gray ==> Reaches(adj, x, v)
    requires forall w :: w in Next(adj, v) ==> w in acc || w in gray || w == v
    ensures PostOrdered(adj, acc + [v])
  {
    var acc' := acc + [v];
    forall i, w | 0 <= i < |acc'| && w in Next(adj, acc'[i])
      ensures w in acc'[..i] || Reaches(adj, w, acc'[i])
    {
      if i < |acc| {
        assert acc'[..i] == acc[..i];
      } else {
        assert acc'[..i] == acc;
        if w == v { ReachesRefl(adj, v); }
      }
    }
  }

  /** `dfs(g, vs, order)` on a directed graph; an unknown start node throws. */
  method Dfs<L>(g: Graph<L>, vs: seq<NodeId>, post: bool) returns (r: Result<seq<NodeId>>)
    requires g.Valid()
    ensures r.Ok? <==> forall v :: v in vs ==> v in g.labelOf
    ensures r.Err? ==> exists v :: v in vs && v !in g.labelOf && r.msg == "Graph does not have node: " + v
    ensures r.Ok? ==> Distinct(r.value)
    ensures r.Ok? ==> forall x :: x in r.value <==> ReachableFromAny(g.succ, vs, x)
    ensures r.Ok? && post ==> PostOrdered(g.succ, r.value)
  {
    ValidAdjClosed(g);
    r := DfsOver(g.succ, vs, post);
  }

  /** The body of `dfs` over the successor lists: `each(vs, ...)` with a shared
      `visited` set and `acc` list. */
  method DfsOver(adj: Adj, vs: seq<NodeId>, post: bool) returns (r: Result<seq<NodeId>>)
    requires AdjClosed(adj)
    ensures r.Ok? <==> forall v :: v in vs ==> v in adj
    ensures r.Err? ==> exists v :: v in vs && v !in adj && r.msg == "Graph does not have node: " + v
    ensures r.Ok? ==> Distinct(r.value)
    ensures r.Ok? ==> forall x :: x in r.value <==> ReachableFromAny(adj, vs, x)
    ensures r.Ok? && post ==> PostOrdered(adj, r.value)
  {
    var visited: set<NodeId> := {};
    var acc: seq<NodeId> := [];
    var k := 0;
    while k < |vs|
      invariant 0 <= k <= |vs|
      invariant forall j :: 0 <= j < k ==> vs[j] in adj
      invariant visited <= adj.Keys
      invariant DfsState(adj, post, visited, acc, {})
      invariant forall j :: 0 <= j < k ==> vs[j] in visited
      invariant forall x :: x in visited ==> ReachableFromAny(adj, vs, x)
    {
      var v := vs[k];
      if v !in adj {
        return Err("Graph does not have node: " + v);
      }
      ghost var before := visited;
      visited, acc := DoDfs(adj, v, post, visited, acc, {});
      ReachableGrown(adj, vs, k, before, visited);
      k := k + 1;
    }
    VisitedHoldsReach(adj, vs, visited);
    return Ok(acc);
  }

  lemma ReachableGrown(adj: Adj, vs: seq<NodeId>, k: nat, before: set<NodeId>, after: set<NodeId>)
    requires k < |vs|
    requires forall x :: x in before ==> ReachableFromAny(adj, vs, x)
    requires forall x :: x in after - before ==> Reaches(adj, vs[k], x)
    ensures forall x :: x in after ==> ReachableFromAny(adj, vs, x)
  {
    forall x | x in after ensures ReachableFromAny(adj, vs, x) {
      if x !in before {
        assert vs[k] in vs && Reaches(adj, vs[k], x);
      }
    }
  }

  lemma VisitedHoldsReach(adj: Adj, vs: seq<NodeId>, visited: set<NodeId>)
    requires FinishedClosed(adj, visited, {})
    requires forall v :: v in vs ==> v in visited
    ensures forall x :: ReachableFromAny(adj, vs, x) ==> x in visited
  {
    assert Closed(adj, visited) by {
      assert visited - {} == visited;
    }
    forall x | ReachableFromAny(adj, vs, x) ensures x in visited {
      var v :| v in vs && Reaches(adj, v, x);
      ClosedHoldsReach(adj, visited, v, x);
    }
  }

  /** `postorder(g, vs)` is `dfs(g, vs, 'post')`. */
  method Postorder<L>(g: Graph<L>, vs: seq<NodeId>) returns (r: Result<seq<NodeId>>)
    requires g.Valid()
    ensures r.Ok? <==> forall v :: v in vs ==> v in g.labelOf
    ensures r.Ok? ==> Distinct(r.value)
    ensures r.Ok? ==> forall x :: x in r.value <==> ReachableFromAny(g.succ, vs, x)
    ensures r.Ok? ==> PostOrdered(g.succ, r.value)
  {
    r := Dfs(g, vs, true);
  }

  lemma ClosedWalkNotAcyclic(adj: Adj, q: seq<NodeId>)
    requires IsWalk(adj, q) && |q| >= 2 && q[0] == q[|q| - 1]
    ensures !Acyclic(adj)
  {
    assert !Distinct(q);
  }

  /** In a graph without cycles, post-order lists every successor before its node. */
  lemma PostOrderedAcyclic(adj: Adj, acc: seq<NodeId>, i: nat, w: NodeId)
    requires Acyclic(adj) && PostOrdered(adj, acc)
    requires i < |acc| && w in Next(adj, acc[i])
    ensures w in acc[..i]
  {
    if w !in acc[..i] {
      assert Reaches(adj, w, acc[i]);
      var p :| IsWalk(adj, p) && |p| > 0 && p[0] == w && p[|p| - 1] == acc[i];
      var q := p + [w];
      assert IsWalk(adj, q);
      ClosedWalkNotAcyclic(adj, q);
    }
  }
}

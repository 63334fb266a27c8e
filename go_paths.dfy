/** The path search of the Go `DepGraph` (`findPath`), on nodes numbered by
    their position in `Graph.Nodes`: `deps[i]` lists the positions of the
    dependencies of node `i`, as the `deps` pointers do once the graph is
    indexed. The search is a depth-first walk with one visited set shared by all
    siblings. */
module GoPaths {
  import opened Wrappers

  /** Every dependency of every node is a node. */
  ghost predicate Linked(deps: seq<seq<nat>>) {
    forall i, j :: 0 <= i < |deps| && 0 <= j < |deps[i]| ==> deps[i][j] < |deps|
  }

  /** The positions `0 .. n - 1`. */
  function Below(n: nat): (r: set<nat>)
    ensures forall i :: i in r <==> 0 <= i < n
  {
    if n == 0 then {} else Below(n - 1) + {n - 1}
  }

  function AllNodes(deps: seq<seq<nat>>): set<nat> {
    Below(|deps|)
  }

  /** Every entry of `p` is a node. */
  predicate Inside(deps: seq<seq<nat>>, p: seq<nat>) {
    forall k :: 0 <= k < |p| ==> p[k] < |deps|
  }

  /** Each entry of `p` after the first is a dependency of the entry before it. */
  ghost predicate IsWalk(deps: seq<seq<nat>>, p: seq<nat>) {
    forall k :: 0 <= k < |p| - 1 ==> p[k] < |deps| && p[k + 1] in deps[p[k]]
  }

  /** `p` leads from `s` to `e` along dependencies. */
  ghost predicate WalkBetween(deps: seq<seq<nat>>, p: seq<nat>, s: nat, e: nat) {
    |p| > 0 && p[0] == s && p[|p| - 1] == e && IsWalk(deps, p)
  }

  ghost predicate Reachable(deps: seq<seq<nat>>, s: nat, e: nat) {
    exists p :: WalkBetween(deps, p, s, e)
  }

  /** `findPath(start, end, visited)`: `[start]` when the two are the same node,
      nothing when `start` was visited, otherwise `start` marked visited and put
      in front of the first path found from one of its dependencies. Also gives
      the visited set left behind. */
  function Find(deps: seq<seq<nat>>, start: nat, end: nat, visited: set<nat>): (r: (Option<seq<nat>>, set<nat>))
    requires Linked(deps) && start < |deps| && visited <= AllNodes(deps)
    ensures visited <= r.1 <= AllNodes(deps)
    ensures r.0.Some? ==> Inside(deps, r.0.value)
    decreases AllNodes(deps) - visited, 0, 0
  {
    if start == end then (Some([start]), visited)
    else if start in visited then (None, visited)
    else FindIn(deps, start, end, 0, visited + {start})
  }

  /** The loop of `findPath` over the dependencies of `start` from the `i`-th on. */
  function FindIn(deps: seq<seq<nat>>, start: nat, end: nat, i: nat, visited: set<nat>): (r: (Option<seq<nat>>, set<nat>))
    requires Linked(deps) && start < |deps| && i <= |deps[start]| && visited <= AllNodes(deps)
    requires start in visited
    ensures visited <= r.1 <= AllNodes(deps)
    ensures r.0.Some? ==> Inside(deps, r.0.value)
    decreases AllNodes(deps) - visited, 1, |deps[start]| - i
  {
    if i == |deps[start]| then (None, visited)
    else
      var sub := Find(deps, deps[start][i], end, visited);
      if sub.0.Some? then (Some([start] + sub.0.value), sub.1)
      else FindIn(deps, start, end, i + 1, sub.1)
  }

  // ---------------------------------------------------------------------------
  // A path found is a walk from start to end.

  lemma PrependWalk(deps: seq<seq<nat>>, s: nat, q: seq<nat>, e: nat)
    requires s < |deps| && |q| > 0 && q[0] in deps[s] && WalkBetween(deps, q, q[0], e)
    ensures WalkBetween(deps, [s] + q, s, e)
  {
    var p := [s] + q;
    forall k | 0 <= k < |p| - 1 ensures p[k] < |deps| && p[k + 1] in deps[p[k]] {
      if k > 0 {
        assert p[k] == q[k - 1] && p[k + 1] == q[k];
      }
    }
  }

  lemma {:induction false} FindWalks(deps: seq<seq<nat>>, start: nat, end: nat, visited: set<nat>)
    requires Linked(deps) && start < |deps| && visited <= AllNodes(deps)
    ensures Find(deps, start, end, visited).0.Some? ==>
              WalkBetween(deps, Find(deps, start, end, visited).0.value, start, end)
    decreases AllNodes(deps) - visited, 0, 0
  {
    if start != end && start !in visited {
      FindInWalks(deps, start, end, 0, visited + {start});
    }
  }

  lemma {:induction false} FindInWalks(deps: seq<seq<nat>>, start: nat, end: nat, i: nat, visited: set<nat>)
    requires Linked(deps) && start < |deps| && i <= |deps[start]| && visited <= AllNodes(deps)
    requires start in visited
    ensures FindIn(deps, start, end, i, visited).0.Some? ==>
              WalkBetween(deps, FindIn(deps, start, end, i, visited).0.value, start, end)
    decreases AllNodes(deps) - visited, 1, |deps[start]| - i
  {
    if i < |deps[start]| {
      var d := deps[start][i];
      var sub := Find(deps, d, end, visited);
      FindWalks(deps, d, end, visited);
      if sub.0.Some? {
        PrependWalk(deps, start, sub.0.value, end);
      } else {
        FindInWalks(deps, start, end, i + 1, sub.1);
      }
    }
  }

  // ---------------------------------------------------------------------------
  // A search that finds nothing leaves a visited set closed under dependencies.

  /** Every visited node not in `open` has all its dependencies visited. */
  ghost predicate ClosedBut(deps: seq<seq<nat>>, visited: set<nat>, open: set<nat>) {
    forall v, j :: v in visited && v !in open && v < |deps| && 0 <= j < |deps[v]| ==> deps[v][j] in visited
  }

  lemma {:induction false} FindClosed(deps: seq<seq<nat>>, start: nat, end: nat, visited: set<nat>, open: set<nat>)
    requires Linked(deps) && start < |deps| && visited <= AllNodes(deps)
    requires ClosedBut(deps, visited, open) && end !in visited
    ensures var r := Find(deps, start, end, visited);
            r.0.None? ==> ClosedBut(deps, r.1, open) && start in r.1 && end !in r.1
    decreases AllNodes(deps) - visited, 0, 0
  {
    if start != end && start !in visited {
      var v1 := visited + {start};
      FindInClosed(deps, start, end, 0, v1, open);
    }
  }

  lemma {:induction false} FindInClosed(deps: seq<seq<nat>>, start: nat, end: nat, i: nat, visited: set<nat>,
                                        open: set<nat>)
    requires Linked(deps) && start < |deps| && i <= |deps[start]| && visited <= AllNodes(deps)
    requires start in visited && start != end
    requires ClosedBut(deps, visited, open + {start})
    requires end !in visited
    requires forall j :: 0 <= j < i ==> deps[start][j] in visited
    ensures var r := FindIn(deps, start, end, i, visited);
            r.0.None? ==> ClosedBut(deps, r.1, open) && end !in r.1
    decreases AllNodes(deps) - visited, 1, |deps[start]| - i
  {
    if i == |deps[start]| {
      forall v, j | v in visited && v !in open && v < |deps| && 0 <= j < |deps[v]| ensures deps[v][j] in visited {
        if v != start {
          assert v !in open + {start};
        }
      }
    } else {
      var d := deps[start][i];
      var sub := Find(deps, d, end, visited);
      FindClosed(deps, d, end, visited, open + {start});
      if sub.0.None? {
        FindInClosed(deps, start, end, i + 1, sub.1, open);
      }
    }
  }

  /** Every entry of a walk that starts at a visited node stays visited when the
      visited set is closed under dependencies. */
  lemma {:induction false} WalkStays(deps: seq<seq<nat>>, visited: set<nat>, p: seq<nat>, k: nat)
    requires ClosedBut(deps, visited, {}) && IsWalk(deps, p) && |p| > 0 && p[0] in visited && k < |p|
    ensures p[k] in visited
  {
    if k > 0 {
      WalkStays(deps, visited, p, k - 1);
      var v := p[k - 1];
      assert v < |deps| && p[k] in deps[v];
      var j :| 0 <= j < |deps[v]| && deps[v][j] == p[k];
    }
  }

  /** `findPath(start, end, {})` finds a path exactly when `end` can be reached
      from `start`, and the path it finds leads there. */
  lemma FindIffReachable(deps: seq<seq<nat>>, start: nat, end: nat)
    requires Linked(deps) && start < |deps|
    ensures Find(deps, start, end, {}).0.Some? <==> Reachable(deps, start, end)
    ensures Find(deps, start, end, {}).0.Some? ==> WalkBetween(deps, Find(deps, start, end, {}).0.value, start, end)
  {
    FindWalks(deps, start, end, {});
    var r := Find(deps, start, end, {});
    if r.0.None? {
      FindClosed(deps, start, end, {}, {});
      forall p | |p| > 0 && p[0] == start && IsWalk(deps, p) ensures p[|p| - 1] != end {
        WalkStays(deps, r.1, p, |p| - 1);
      }
    }
  }

  // ---------------------------------------------------------------------------
  // `GetPathsToPkg`: one search from the root per node of the package.

  /** The paths found from `root` to the nodes `ns`, in the order of `ns`; a node
      that cannot be reached contributes nothing. */
  function PathsTo(deps: seq<seq<nat>>, root: nat, ns: seq<nat>): (r: seq<seq<nat>>)
    requires Linked(deps) && root < |deps|
    ensures forall k :: 0 <= k < |r| ==> Inside(deps, r[k])
  {
    if ns == [] then []
    else
      var rest := PathsTo(deps, root, ns[..|ns| - 1]);
      var found := Find(deps, root, ns[|ns| - 1], {}).0;
      if found.Some? then rest + [found.value] else rest
  }

  /** The nodes of `ns` that can be reached from `root`, in order. */
  ghost function ReachableAmong(deps: seq<seq<nat>>, root: nat, ns: seq<nat>): seq<nat> {
    if ns == [] then []
    else
      var rest := ReachableAmong(deps, root, ns[..|ns| - 1]);
      if Reachable(deps, root, ns[|ns| - 1]) then rest + [ns[|ns| - 1]] else rest
  }

  /** One path per reachable node of `ns`, in order, each leading from the root to
      its node. */
  lemma {:induction false} PathsToReachable(deps: seq<seq<nat>>, root: nat, ns: seq<nat>)
    requires Linked(deps) && root < |deps|
    ensures |PathsTo(deps, root, ns)| == |ReachableAmong(deps, root, ns)|
    ensures forall k :: 0 <= k < |PathsTo(deps, root, ns)| ==>
              WalkBetween(deps, PathsTo(deps, root, ns)[k], root, ReachableAmong(deps, root, ns)[k])
  {
    if ns != [] {
      PathsToReachable(deps, root, ns[..|ns| - 1]);
      FindIffReachable(deps, root, ns[|ns| - 1]);
    }
  }
}

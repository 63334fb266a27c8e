/** What `equals` / `nodeEquals` decide about two graphs. The comparison pairs
    each node's dependencies position by position once both lists are sorted by
    package id, and follows the pairs from the two roots. `true` means that every
    pair reached that way agrees, and the converse holds as long as no node id
    holds "_", the separator of the keys recording traversed pairs. */
module NodeEquality {
  import opened Wrappers
  import opened Types
  import opened Graphs
  import opened Strings
  import opened Sorting
  import opened OrderedMaps
  import opened Dfs
  import opened DepGraphs

  /** `(x2, y2)` is compared right after `(x, y)`: the dependencies at the same
      position once both lists are sorted by package id. */
  ghost predicate ChildPair(a: DepGraph, b: DepGraph, x: NodeId, y: NodeId, x2: NodeId, y2: NodeId)
    requires Readable(a) && Readable(b)
  {
    x in a.graph.labelOf && y in b.graph.labelOf && |a.graph.succ[x]| == |b.graph.succ[y]| &&
    exists i :: 0 <= i < |a.graph.succ[x]| && SortedDepsOf(a, x)[i] == x2 && SortedDepsOf(b, y)[i] == y2
  }

  /** A chain of pairs, each paired with the one before it. */
  ghost predicate PairWalk(a: DepGraph, b: DepGraph, p: seq<(NodeId, NodeId)>)
    requires Readable(a) && Readable(b)
  {
    forall k :: 0 <= k < |p| - 1 ==> ChildPair(a, b, p[k].0, p[k].1, p[k + 1].0, p[k + 1].1)
  }

  /** `p` is a chain of pairs starting at `(x, y)`. */
  ghost predicate WalkFrom(a: DepGraph, b: DepGraph, x: NodeId, y: NodeId, p: seq<(NodeId, NodeId)>)
    requires Readable(a) && Readable(b)
  {
    |p| > 0 && p[0] == (x, y) && PairWalk(a, b, p)
  }

  /** The last pair of a chain is a pair of nodes that agrees. */
  ghost predicate LastAgrees(a: DepGraph, b: DepGraph, p: seq<(NodeId, NodeId)>, compareRoot: bool)
    requires Readable(a) && Readable(b) && |p| > 0
  {
    p[|p| - 1].0 in a.graph.labelOf && p[|p| - 1].1 in b.graph.labelOf &&
    PairAgrees(a, p[|p| - 1].0, b, p[|p| - 1].1, compareRoot)
  }

  /** Every pair reached from `(x, y)` agrees. */
  ghost predicate AllAgree(a: DepGraph, b: DepGraph, x: NodeId, y: NodeId, compareRoot: bool)
    requires Readable(a) && Readable(b)
  {
    forall p: seq<(NodeId, NodeId)> :: WalkFrom(a, b, x, y, p) ==> LastAgrees(a, b, p, compareRoot)
  }

  /** No node id holds the separator of the pair keys. */
  ghost predicate PlainIds(g: DepGraph) {
    forall v :: v in g.graph.labelOf ==> '_' !in v
  }

  /** Distinct pairs of nodes are recorded under distinct keys. */
  ghost predicate KeyInjective<K>(a: DepGraph, b: DepGraph, key: (NodeId, NodeId) -> K) {
    forall x, y, x2, y2 ::
      (x in a.graph.labelOf && x2 in a.graph.labelOf && y in b.graph.labelOf && y2 in b.graph.labelOf &&
       key(x, y) == key(x2, y2)) ==> x == x2 && y == y2
  }

  // ---------------------------------------------------------------------------
  // Agreement of every reached pair gives true.

  /** `(x, y)` agrees and so does every pair reached from it. */
  ghost predicate Agreeing(a: DepGraph, b: DepGraph, x: NodeId, y: NodeId, compareRoot: bool) {
    Readable(a) && Readable(b) && x in a.graph.labelOf && y in b.graph.labelOf &&
    PairAgrees(a, x, b, y, compareRoot) && AllAgree(a, b, x, y, compareRoot)
  }

  lemma ChildAgrees(a: DepGraph, b: DepGraph, x: NodeId, y: NodeId, i: nat, compareRoot: bool)
    requires Readable(a) && Readable(b) && x in a.graph.labelOf && y in b.graph.labelOf
    requires |a.graph.succ[x]| == |b.graph.succ[y]| && i < |a.graph.succ[x]|
    requires AllAgree(a, b, x, y, compareRoot)
    ensures SortedDepsOf(a, x)[i] in a.graph.labelOf && SortedDepsOf(b, y)[i] in b.graph.labelOf
    ensures AllAgree(a, b, SortedDepsOf(a, x)[i], SortedDepsOf(b, y)[i], compareRoot)
  {
    var x2, y2 := SortedDepsOf(a, x)[i], SortedDepsOf(b, y)[i];
    forall p: seq<(NodeId, NodeId)> | WalkFrom(a, b, x2, y2, p) ensures LastAgrees(a, b, p, compareRoot)
    {
      var q := [(x, y)] + p;
      assert ChildPair(a, b, x, y, x2, y2);
      forall k | 0 <= k < |q| - 1 ensures ChildPair(a, b, q[k].0, q[k].1, q[k + 1].0, q[k + 1].1) {
        if k > 0 {
          assert q[k] == p[k - 1] && q[k + 1] == p[k];
        }
      }
      assert WalkFrom(a, b, x, y, q);
      assert q[|q| - 1] == p[|p| - 1];
    }
  }

  lemma {:induction false} AgreeEq<K>(a: DepGraph, x: NodeId, b: DepGraph, y: NodeId, compareRoot: bool,
                                          t: set<K>, key: (NodeId, NodeId) -> K)
    requires Readable(a) && Readable(b) && x in a.graph.labelOf && y in b.graph.labelOf
    requires AllAgree(a, b, x, y, compareRoot)
    ensures NodeEq(a, x, b, y, compareRoot, t, key).0
    decreases PairKeys(a, b, key) - t, 1, 0
  {
    var p := [(x, y)];
    assert WalkFrom(a, b, x, y, p);
    DepsAgreeEq(a, x, b, y, 0, compareRoot, t, key);
  }

  lemma {:induction false} DepsAgreeEq<K>(a: DepGraph, x: NodeId, b: DepGraph, y: NodeId, i: nat,
                                              compareRoot: bool, t: set<K>, key: (NodeId, NodeId) -> K)
    requires Agreeing(a, b, x, y, compareRoot)
    requires i <= |a.graph.succ[x]|
    ensures DepsEq(a, SortedDepsOf(a, x), b, SortedDepsOf(b, y), i, compareRoot, t, key).0
    decreases PairKeys(a, b, key) - t, 0, |a.graph.succ[x]| - i + 1
  {
    var da, db := SortedDepsOf(a, x), SortedDepsOf(b, y);
    if i == |da| {
      DepsEqEnd(a, da, b, db, i, compareRoot, t, key);
    } else if key(da[i], db[i]) in t {
      DepsAgreeEq(a, x, b, y, i + 1, compareRoot, t, key);
      DepsEqSkip(a, da, b, db, i, compareRoot, t, key);
    } else {
      FreshAgreeEq(a, x, b, y, i, compareRoot, t, key);
    }
  }

  /** A pair that agrees goes on to the loop over its dependencies. */
  lemma NodeEqUnfold<K>(a: DepGraph, x: NodeId, b: DepGraph, y: NodeId, compareRoot: bool,
                            t: set<K>, key: (NodeId, NodeId) -> K)
    requires Readable(a) && Readable(b) && x in a.graph.labelOf && y in b.graph.labelOf
    requires PairAgrees(a, x, b, y, compareRoot)
    ensures NodeEq(a, x, b, y, compareRoot, t, key) ==
              DepsEq(a, SortedDepsOf(a, x), b, SortedDepsOf(b, y), 0, compareRoot, t, key)
  {
  }

  /** The loop of `nodeEquals` ends true once every position is passed. */
  lemma DepsEqEnd<K>(a: DepGraph, da: seq<NodeId>, b: DepGraph, db: seq<NodeId>, i: nat,
                         compareRoot: bool, t: set<K>, key: (NodeId, NodeId) -> K)
    requires Readable(a) && Readable(b) && |da| == |db| && i == |da|
    requires forall x :: x in da ==> x in a.graph.labelOf
    requires forall y :: y in db ==> y in b.graph.labelOf
    ensures DepsEq(a, da, b, db, i, compareRoot, t, key) == (true, t)
  {
  }

  /** A position whose pair is not recorded yet compares that pair first. */
  lemma DepsEqFresh<K>(a: DepGraph, da: seq<NodeId>, b: DepGraph, db: seq<NodeId>, i: nat,
                           compareRoot: bool, t: set<K>, key: (NodeId, NodeId) -> K)
    requires Readable(a) && Readable(b) && |da| == |db| && i < |da| && key(da[i], db[i]) !in t
    requires forall x :: x in da ==> x in a.graph.labelOf
    requires forall y :: y in db ==> y in b.graph.labelOf
    ensures var sub := NodeEq(a, da[i], b, db[i], compareRoot, t + {key(da[i], db[i])}, key);
            DepsEq(a, da, b, db, i, compareRoot, t, key) ==
              if sub.0 then DepsEq(a, da, b, db, i + 1, compareRoot, sub.1, key) else sub
  {
  }

  /** A position whose pair is recorded already is passed over unchanged. */
  lemma DepsEqSkip<K>(a: DepGraph, da: seq<NodeId>, b: DepGraph, db: seq<NodeId>, i: nat,
                          compareRoot: bool, t: set<K>, key: (NodeId, NodeId) -> K)
    requires Readable(a) && Readable(b) && |da| == |db| && i < |da| && key(da[i], db[i]) in t
    requires forall x :: x in da ==> x in a.graph.labelOf
    requires forall y :: y in db ==> y in b.graph.labelOf
    ensures DepsEq(a, da, b, db, i, compareRoot, t, key) == DepsEq(a, da, b, db, i + 1, compareRoot, t, key)
  {
  }

  /** The turn of `DepsAgreeEq` for a pair not recorded yet. */
  lemma {:induction false} FreshAgreeEq<K>(a: DepGraph, x: NodeId, b: DepGraph, y: NodeId, i: nat,
                                               compareRoot: bool, t: set<K>, key: (NodeId, NodeId) -> K)
    requires Agreeing(a, b, x, y, compareRoot)
    requires i < |a.graph.succ[x]| && key(SortedDepsOf(a, x)[i], SortedDepsOf(b, y)[i]) !in t
    ensures DepsEq(a, SortedDepsOf(a, x), b, SortedDepsOf(b, y), i, compareRoot, t, key).0
    decreases PairKeys(a, b, key) - t, 0, |a.graph.succ[x]| - i
  {
    var da, db := SortedDepsOf(a, x), SortedDepsOf(b, y);
    var k := key(da[i], db[i]);
    PairKeyIn(a, b, key, da[i], db[i]);
    ChildAgrees(a, b, x, y, i, compareRoot);
    AgreeEq(a, da[i], b, db[i], compareRoot, t + {k}, key);
    var sub := NodeEq(a, da[i], b, db[i], compareRoot, t + {k}, key);
    DepsAgreeEq(a, x, b, y, i + 1, compareRoot, sub.1, key);
    DepsEqFresh(a, da, b, db, i, compareRoot, t, key);
  }

  /** `nodeEquals` answers true whenever every pair reached from the two nodes
      agrees, whatever pairs were already recorded and however they are keyed. */
  lemma AllAgreeEquals<K>(a: DepGraph, x: NodeId, b: DepGraph, y: NodeId, compareRoot: bool,
                              t: set<K>, key: (NodeId, NodeId) -> K)
    requires Readable(a) && Readable(b) && x in a.graph.labelOf && y in b.graph.labelOf
    requires AllAgree(a, b, x, y, compareRoot)
    ensures NodeEq(a, x, b, y, compareRoot, t, key).0
  {
    AgreeEq(a, x, b, y, compareRoot, t, key);
  }

  /** Pairing a graph with itself stays on pairs of one node with itself. */
  lemma {:induction false} SelfWalkDiagonal(g: DepGraph, v: NodeId, p: seq<(NodeId, NodeId)>)
    requires Readable(g) && v in g.graph.labelOf
    requires |p| > 0 && p[0] == (v, v) && PairWalk(g, g, p)
    ensures p[|p| - 1].0 == p[|p| - 1].1 && p[|p| - 1].0 in g.graph.labelOf
    decreases |p|
  {
    if |p| > 1 {
      var q := p[..|p| - 1];
      assert PairWalk(g, g, q) by {
        forall k | 0 <= k < |q| - 1 ensures ChildPair(g, g, q[k].0, q[k].1, q[k + 1].0, q[k + 1].1) {
          assert q[k] == p[k] && q[k + 1] == p[k + 1];
        }
      }
      SelfWalkDiagonal(g, v, q);
      assert ChildPair(g, g, p[|p| - 2].0, p[|p| - 2].1, p[|p| - 1].0, p[|p| - 1].1);
    }
  }

  /** A node equals itself: `g.equals(g)` is true, with or without the root. */
  lemma SelfEquals(g: DepGraph, v: NodeId, compareRoot: bool)
    requires Readable(g) && v in g.graph.labelOf
    ensures NodeEq(g, v, g, v, compareRoot, {}, PairKey).0
  {
    forall p: seq<(NodeId, NodeId)> | WalkFrom(g, g, v, v, p) ensures LastAgrees(g, g, p, compareRoot)
    {
      SelfWalkDiagonal(g, v, p);
    }
    AgreeEq(g, v, g, v, compareRoot, {}, PairKey);
  }

  // ---------------------------------------------------------------------------
  // True gives agreement of every reached pair when keys name one pair.

  /** The pair agrees and the key of every pair of its dependencies is in `t`. */
  ghost predicate Checked<K>(a: DepGraph, b: DepGraph, x: NodeId, y: NodeId, compareRoot: bool,
                                 t: set<K>, key: (NodeId, NodeId) -> K)
    requires Readable(a) && Readable(b)
  {
    x in a.graph.labelOf && y in b.graph.labelOf && PairAgrees(a, x, b, y, compareRoot) &&
    forall i :: 0 <= i < |a.graph.succ[x]| ==> key(SortedDepsOf(a, x)[i], SortedDepsOf(b, y)[i]) in t
  }

  /** Every pair whose key was recorded after `t0` was checked. */
  ghost predicate RecordedChecked<K>(a: DepGraph, b: DepGraph, compareRoot: bool, t0: set<K>, t: set<K>,
                                         key: (NodeId, NodeId) -> K)
    requires Readable(a) && Readable(b)
  {
    forall x, y :: x in a.graph.labelOf && y in b.graph.labelOf && key(x, y) in t && key(x, y) !in t0 ==>
      Checked(a, b, x, y, compareRoot, t, key)
  }

  lemma CheckedGrows<K>(a: DepGraph, b: DepGraph, x: NodeId, y: NodeId, compareRoot: bool,
                            t: set<K>, t2: set<K>, key: (NodeId, NodeId) -> K)
    requires Readable(a) && Readable(b) && t <= t2
    requires Checked(a, b, x, y, compareRoot, t, key)
    ensures Checked(a, b, x, y, compareRoot, t2, key)
  {
  }

  lemma {:induction false} EqChecked<K>(a: DepGraph, x: NodeId, b: DepGraph, y: NodeId, compareRoot: bool,
                                            t: set<K>, key: (NodeId, NodeId) -> K)
    requires Readable(a) && Readable(b) && KeyInjective(a, b, key)
    requires x in a.graph.labelOf && y in b.graph.labelOf
    ensures NodeEq(a, x, b, y, compareRoot, t, key).0 ==>
              Checked(a, b, x, y, compareRoot, NodeEq(a, x, b, y, compareRoot, t, key).1, key) &&
              RecordedChecked(a, b, compareRoot, t, NodeEq(a, x, b, y, compareRoot, t, key).1, key)
    decreases PairKeys(a, b, key) - t, 1, 0
  {
    if PairAgrees(a, x, b, y, compareRoot) {
      DepsChecked(a, x, b, y, 0, compareRoot, t, key);
      DepsKeys(a, SortedDepsOf(a, x), b, SortedDepsOf(b, y), 0, compareRoot, t, key);
    }
  }

  /** A loop that answers true has recorded the key of every pair from `i` on. */
  lemma {:induction false} DepsKeys<K>(a: DepGraph, da: seq<NodeId>, b: DepGraph, db: seq<NodeId>, i: nat,
                                           compareRoot: bool, t: set<K>, key: (NodeId, NodeId) -> K)
    requires Readable(a) && Readable(b) && |da| == |db| && i <= |da|
    requires forall x :: x in da ==> x in a.graph.labelOf
    requires forall y :: y in db ==> y in b.graph.labelOf
    ensures var r := DepsEq(a, da, b, db, i, compareRoot, t, key);
            r.0 ==> forall j :: i <= j < |da| ==> key(da[j], db[j]) in r.1
    decreases |da| - i
  {
    if i < |da| {
      var k := key(da[i], db[i]);
      if k in t {
        DepsKeys(a, da, b, db, i + 1, compareRoot, t, key);
      } else {
        PairKeyIn(a, b, key, da[i], db[i]);
        var sub := NodeEq(a, da[i], b, db[i], compareRoot, t + {k}, key);
        if sub.0 {
          DepsKeys(a, da, b, db, i + 1, compareRoot, sub.1, key);
        }
      }
    }
  }

  lemma {:induction false} DepsChecked<K>(a: DepGraph, x: NodeId, b: DepGraph, y: NodeId, i: nat,
                                              compareRoot: bool, t: set<K>, key: (NodeId, NodeId) -> K)
    requires Readable(a) && Readable(b) && KeyInjective(a, b, key)
    requires x in a.graph.labelOf && y in b.graph.labelOf && PairAgrees(a, x, b, y, compareRoot)
    requires i <= |a.graph.succ[x]|
    ensures var r := DepsEq(a, SortedDepsOf(a, x), b, SortedDepsOf(b, y), i, compareRoot, t, key);
            r.0 ==> RecordedChecked(a, b, compareRoot, t, r.1, key)
    decreases PairKeys(a, b, key) - t, 0, |a.graph.succ[x]| - i + 1
  {
    var da, db := SortedDepsOf(a, x), SortedDepsOf(b, y);
    if i == |da| {
      DepsEqEnd(a, da, b, db, i, compareRoot, t, key);
    } else if key(da[i], db[i]) in t {
      DepsChecked(a, x, b, y, i + 1, compareRoot, t, key);
      DepsEqSkip(a, da, b, db, i, compareRoot, t, key);
    } else {
      FreshChecked(a, x, b, y, i, compareRoot, t, key);
    }
  }

  /** The turn of `DepsChecked` for a pair not recorded yet. */
  lemma {:induction false} FreshChecked<K>(a: DepGraph, x: NodeId, b: DepGraph, y: NodeId, i: nat,
                                               compareRoot: bool, t: set<K>, key: (NodeId, NodeId) -> K)
    requires Readable(a) && Readable(b) && KeyInjective(a, b, key)
    requires x in a.graph.labelOf && y in b.graph.labelOf && PairAgrees(a, x, b, y, compareRoot)
    requires i < |a.graph.succ[x]| && key(SortedDepsOf(a, x)[i], SortedDepsOf(b, y)[i]) !in t
    ensures var r := DepsEq(a, SortedDepsOf(a, x), b, SortedDepsOf(b, y), i, compareRoot, t, key);
            r.0 ==> RecordedChecked(a, b, compareRoot, t, r.1, key)
    decreases PairKeys(a, b, key) - t, 0, |a.graph.succ[x]| - i
  {
    var da, db := SortedDepsOf(a, x), SortedDepsOf(b, y);
    var k := key(da[i], db[i]);
    PairKeyIn(a, b, key, da[i], db[i]);
    var t1 := t + {k};
    var sub := NodeEq(a, da[i], b, db[i], compareRoot, t1, key);
    EqChecked(a, da[i], b, db[i], compareRoot, t1, key);
    DepsEqFresh(a, da, b, db, i, compareRoot, t, key);
    if sub.0 {
      var r := DepsEq(a, da, b, db, i + 1, compareRoot, sub.1, key);
      DepsChecked(a, x, b, y, i + 1, compareRoot, sub.1, key);
      if r.0 {
        RecordedJoin(a, b, compareRoot, t, t1, sub.1, r.1, da[i], db[i], key);
      }
    }
  }

  /** Joins what the recursive call on a pair and the rest of the loop recorded. */
  lemma RecordedJoin<K>(a: DepGraph, b: DepGraph, compareRoot: bool, t: set<K>, t1: set<K>,
                            s: set<K>, r: set<K>, x: NodeId, y: NodeId, key: (NodeId, NodeId) -> K)
    requires Readable(a) && Readable(b) && KeyInjective(a, b, key)
    requires x in a.graph.labelOf && y in b.graph.labelOf
    requires t1 == t + {key(x, y)} && t1 <= s <= r
    requires Checked(a, b, x, y, compareRoot, s, key)
    requires RecordedChecked(a, b, compareRoot, t1, s, key)
    requires RecordedChecked(a, b, compareRoot, s, r, key)
    ensures RecordedChecked(a, b, compareRoot, t, r, key)
  {
    forall x2, y2 | x2 in a.graph.labelOf && y2 in b.graph.labelOf && key(x2, y2) in r && key(x2, y2) !in t
      ensures Checked(a, b, x2, y2, compareRoot, r, key)
    {
      if key(x2, y2) !in s {
      } else if key(x2, y2) == key(x, y) {
        assert x2 == x && y2 == y;
        CheckedGrows(a, b, x, y, compareRoot, s, r, key);
      } else {
        CheckedGrows(a, b, x2, y2, compareRoot, s, r, key);
      }
    }
  }

  lemma {:induction false} WalkChecked<K>(a: DepGraph, b: DepGraph, x: NodeId, y: NodeId, compareRoot: bool,
                                              t: set<K>, key: (NodeId, NodeId) -> K, p: seq<(NodeId, NodeId)>)
    requires Readable(a) && Readable(b)
    requires Checked(a, b, x, y, compareRoot, t, key) && RecordedChecked(a, b, compareRoot, {}, t, key)
    requires |p| > 0 && p[0] == (x, y) && PairWalk(a, b, p)
    ensures Checked(a, b, p[|p| - 1].0, p[|p| - 1].1, compareRoot, t, key)
    decreases |p|
  {
    if |p| > 1 {
      var q := p[..|p| - 1];
      assert PairWalk(a, b, q) by {
        forall k | 0 <= k < |q| - 1 ensures ChildPair(a, b, q[k].0, q[k].1, q[k + 1].0, q[k + 1].1) {
          assert q[k] == p[k] && q[k + 1] == p[k + 1];
        }
      }
      WalkChecked(a, b, x, y, compareRoot, t, key, q);
      var u, w := p[|p| - 2], p[|p| - 1];
      assert ChildPair(a, b, u.0, u.1, w.0, w.1);
      var i :| 0 <= i < |a.graph.succ[u.0]| && SortedDepsOf(a, u.0)[i] == w.0 && SortedDepsOf(b, u.1)[i] == w.1;
      assert key(w.0, w.1) in t;
    }
  }

  /** When keys name one pair, `nodeEquals` from no recorded pair answers true
      only if every pair reached from the two nodes agrees. */
  lemma EqualsAllAgree<K>(a: DepGraph, x: NodeId, b: DepGraph, y: NodeId, compareRoot: bool,
                              key: (NodeId, NodeId) -> K)
    requires Readable(a) && Readable(b) && KeyInjective(a, b, key)
    requires x in a.graph.labelOf && y in b.graph.labelOf
    requires NodeEq(a, x, b, y, compareRoot, {}, key).0
    ensures AllAgree(a, b, x, y, compareRoot)
  {
    var t := NodeEq(a, x, b, y, compareRoot, {}, key).1;
    EqChecked(a, x, b, y, compareRoot, {}, key);
    forall p: seq<(NodeId, NodeId)> | WalkFrom(a, b, x, y, p) ensures LastAgrees(a, b, p, compareRoot)
    {
      WalkChecked(a, b, x, y, compareRoot, t, key, p);
    }
  }

  // ---------------------------------------------------------------------------
  // The keys `nodeEquals` records, as written and corrected.

  /** The position of the first "_" in a string, or its length. */
  function SepIndex(k: string): (r: nat)
    ensures r <= |k|
  {
    if k == [] || k[0] == '_' then 0 else 1 + SepIndex(k[1..])
  }

  lemma {:induction false} SepIndexOfKey(x: NodeId, y: NodeId)
    requires '_' !in x
    ensures SepIndex(PairKey(x, y)) == |x|
    decreases |x|
  {
    if x != [] {
      assert PairKey(x, y)[1..] == PairKey(x[1..], y);
      SepIndexOfKey(x[1..], y);
    }
  }

  /** When the first graph's ids hold no "_", a "_"-joined key names one pair. */
  lemma PlainKeysInjective(a: DepGraph, b: DepGraph)
    requires PlainIds(a)
    ensures KeyInjective(a, b, PairKey)
  {
    forall x, y, x2, y2 | x in a.graph.labelOf && x2 in a.graph.labelOf && y in b.graph.labelOf &&
                          y2 in b.graph.labelOf && PairKey(x, y) == PairKey(x2, y2)
      ensures x == x2 && y == y2
    {
      var k := PairKey(x, y);
      SepIndexOfKey(x, y);
      SepIndexOfKey(x2, y2);
      assert x == k[..|x|] == x2;
      assert y == k[|x| + 1..] == y2;
    }
  }

  /** `nodeEquals` as written: when no node id of the first graph holds "_", it
      answers true exactly when every pair reached from the two nodes agrees. */
  lemma NodeEqualsPlain(a: DepGraph, x: NodeId, b: DepGraph, y: NodeId, compareRoot: bool)
    requires Readable(a) && Readable(b) && PlainIds(a)
    requires x in a.graph.labelOf && y in b.graph.labelOf
    ensures NodeEq(a, x, b, y, compareRoot, {}, PairKey).0 <==> AllAgree(a, b, x, y, compareRoot)
  {
    PlainKeysInjective(a, b);
    if NodeEq(a, x, b, y, compareRoot, {}, PairKey).0 {
      EqualsAllAgree(a, x, b, y, compareRoot, PairKey);
    } else if AllAgree(a, b, x, y, compareRoot) {
      AgreeEq(a, x, b, y, compareRoot, {}, PairKey);
    }
  }

  /** The pair itself as the key of a compared pair. */
  function PairOf(x: NodeId, y: NodeId): (NodeId, NodeId) {
    (x, y)
  }

  /** `nodeEquals` recording pairs rather than joined strings: true exactly when
      every pair reached from the two nodes agrees, for every pair of graphs. */
  lemma NodeEqualsByPairs(a: DepGraph, x: NodeId, b: DepGraph, y: NodeId, compareRoot: bool)
    requires Readable(a) && Readable(b) && x in a.graph.labelOf && y in b.graph.labelOf
    ensures NodeEq(a, x, b, y, compareRoot, {}, PairOf).0 <==> AllAgree(a, b, x, y, compareRoot)
  {
    if NodeEq(a, x, b, y, compareRoot, {}, PairOf).0 {
      EqualsAllAgree(a, x, b, y, compareRoot, PairOf);
    } else if AllAgree(a, b, x, y, compareRoot) {
      AgreeEq(a, x, b, y, compareRoot, {}, PairOf);
    }
  }

  /** Left graph of the collision: the root depends on "a_b" and on "a", all
      nodes belong to one package and carry no information. */
  function CollideLeft(): DepGraph {
    var n := GraphNode("p@1", None);
    DepGraph(Graph(["r", "a_b", "a"], map["r" := n, "a_b" := n, "a" := n],
                   map["r" := ["a_b", "a"], "a_b" := [], "a" := []],
                   map["r" := [], "a_b" := ["r"], "a" := ["r"]]),
             "r", OMap(["p@1"], map["p@1" := Pkg("p", Some("1"))]),
             map["p@1" := ["r", "a_b", "a"]], PkgManager("npm", None, []))
  }

  /** Right graph of the collision: the root depends on "c" and on "b_c", and
      "b_c" carries labels. */
  function CollideRight(): DepGraph {
    var n := GraphNode("p@1", None);
    var labelled := GraphNode("p@1", Some(NodeInfo(None, Some(map["scope" := "dev"]))));
    DepGraph(Graph(["r", "c", "b_c"], map["r" := n, "c" := n, "b_c" := labelled],
                   map["r" := ["c", "b_c"], "c" := [], "b_c" := []],
                   map["r" := [], "c" := ["r"], "b_c" := ["r"]]),
             "r", OMap(["p@1"], map["p@1" := Pkg("p", Some("1"))]),
             map["p@1" := ["r", "c", "b_c"]], PkgManager("npm", None, []))
  }

  lemma CollideReadable()
    ensures Readable(CollideLeft()) && Readable(CollideRight())
  {
    var a, b := CollideLeft(), CollideRight();
    assert AdjClosed(a.graph.succ);
    assert AdjClosed(b.graph.succ);
  }

  /** Dependencies of one package keep their order once sorted. */
  lemma SortTwoEqual<T>(x: T, y: T, lt: (T, T) -> bool)
    requires !lt(y, x)
    ensures Sort([x, y], lt) == [x, y]
  {
    assert [x, y][1..] == [y];
    assert Sort([y], lt) == [y];
  }

  lemma LeftDeps()
    ensures Readable(CollideLeft())
    ensures SortedDepsOf(CollideLeft(), "r") == ["a_b", "a"]
  {
    var a := CollideLeft();
    CollideReadable();
    var deps := a.graph.succ["r"];
    assert deps == ["a_b", "a"];
    LexLessIrreflexive("p@1");
    assert NodePkgId(a, "a") == "p@1" && NodePkgId(a, "a_b") == "p@1";
    assert ByPkgId(a)("a", "a_b") == LexLess("p@1", "p@1");
    SortTwoEqual("a_b", "a", ByPkgId(a));
  }

  lemma RightDeps()
    ensures Readable(CollideRight())
    ensures SortedDepsOf(CollideRight(), "r") == ["c", "b_c"]
  {
    var b := CollideRight();
    CollideReadable();
    var deps := b.graph.succ["r"];
    assert deps == ["c", "b_c"];
    LexLessIrreflexive("p@1");
    assert NodePkgId(b, "b_c") == "p@1" && NodePkgId(b, "c") == "p@1";
    assert ByPkgId(b)("b_c", "c") == LexLess("p@1", "p@1");
    SortTwoEqual("c", "b_c", ByPkgId(b));
  }

  lemma RootPairAgrees()
    ensures Readable(CollideLeft()) && Readable(CollideRight())
    ensures PairAgrees(CollideLeft(), "r", CollideRight(), "r", true)
  {
    CollideReadable();
    assert CollideLeft().graph.labelOf["r"] == CollideRight().graph.labelOf["r"];
  }

  lemma LeafPairEquals(t: set<string>)
    ensures Readable(CollideLeft()) && Readable(CollideRight())
    ensures NodeEq(CollideLeft(), "a_b", CollideRight(), "c", true, t, PairKey) == (true, t)
  {
    var a, b := CollideLeft(), CollideRight();
    CollideReadable();
    assert a.graph.labelOf["a_b"] == b.graph.labelOf["c"];
    assert a.graph.succ["a_b"] == [] && b.graph.succ["c"] == [];
    assert PairAgrees(a, "a_b", b, "c", true);
  }

  lemma SecondPairDiffers()
    ensures Readable(CollideLeft()) && Readable(CollideRight())
    ensures !PairAgrees(CollideLeft(), "a", CollideRight(), "b_c", true)
  {
    var a, b := CollideLeft(), CollideRight();
    CollideReadable();
    assert a.graph.labelOf["a"].info.None?;
    assert b.graph.labelOf["b_c"].info.Some?;
    assert a.GetNode("a") != b.GetNode("b_c");
  }

  /** A second pair whose key repeats the first pair's is never compared: the
      answer is that of the first pair alone. */
  lemma SkippedPairEquals(a: DepGraph, x: NodeId, b: DepGraph, y: NodeId, compareRoot: bool,
                          x1: NodeId, y1: NodeId, x2: NodeId, y2: NodeId)
    requires Readable(a) && Readable(b) && x in a.graph.labelOf && y in b.graph.labelOf
    requires PairAgrees(a, x, b, y, compareRoot)
    requires SortedDepsOf(a, x) == [x1, x2] && SortedDepsOf(b, y) == [y1, y2]
    requires PairKey(x2, y2) == PairKey(x1, y1)
    requires NodeEq(a, x1, b, y1, compareRoot, {PairKey(x1, y1)}, PairKey) == (true, {PairKey(x1, y1)})
    ensures NodeEq(a, x, b, y, compareRoot, {}, PairKey).0
  {
    var t := {PairKey(x1, y1)};
    var da, db := SortedDepsOf(a, x), SortedDepsOf(b, y);
    assert da[0] == x1 && db[0] == y1 && da[1] == x2 && db[1] == y2;
    AddToEmpty(PairKey(da[0], db[0]));
    NodeEqUnfold(a, x, b, y, compareRoot, {}, PairKey);
    DepsEqFresh(a, da, b, db, 0, compareRoot, {}, PairKey);
    DepsEqSkip(a, da, b, db, 1, compareRoot, t, PairKey);
    DepsEqEnd(a, da, b, db, 2, compareRoot, t, PairKey);
  }

  lemma AddToEmpty<T>(k: T)
    ensures {} + {k} == {k}
  {
  }

  /** A second pair that differs breaks the agreement of the pairs reached. */
  lemma SecondPairBreaks(a: DepGraph, x: NodeId, b: DepGraph, y: NodeId, compareRoot: bool,
                         x1: NodeId, y1: NodeId, x2: NodeId, y2: NodeId)
    requires Readable(a) && Readable(b) && x in a.graph.labelOf && y in b.graph.labelOf
    requires |a.graph.succ[x]| == |b.graph.succ[y]|
    requires SortedDepsOf(a, x) == [x1, x2] && SortedDepsOf(b, y) == [y1, y2]
    requires !PairAgrees(a, x2, b, y2, compareRoot)
    ensures !AllAgree(a, b, x, y, compareRoot)
  {
    assert ChildPair(a, b, x, y, x2, y2) by {
      assert 1 < |a.graph.succ[x]| && SortedDepsOf(a, x)[1] == x2 && SortedDepsOf(b, y)[1] == y2;
    }
    var p := StepWalk(a, b, x, y, x2, y2);
    assert !LastAgrees(a, b, p, compareRoot);
  }

  /** A pair and one pair compared right after it form a chain. */
  lemma StepWalk(a: DepGraph, b: DepGraph, x: NodeId, y: NodeId, x2: NodeId, y2: NodeId)
    returns (p: seq<(NodeId, NodeId)>)
    requires Readable(a) && Readable(b) && ChildPair(a, b, x, y, x2, y2)
    ensures p == [(x, y), (x2, y2)] && WalkFrom(a, b, x, y, p)
  {
    p := [(x, y), (x2, y2)];
    assert PairWalk(a, b, p) by {
      forall k | 0 <= k < |p| - 1 ensures ChildPair(a, b, p[k].0, p[k].1, p[k + 1].0, p[k + 1].1) {
        assert k == 0;
      }
    }
  }

  lemma KeysCollide()
    ensures PairKey("a", "b_c") == PairKey("a_b", "c")
  {
    assert PairKey("a", "b_c") == "a_b_c";
    assert PairKey("a_b", "c") == "a_b_c";
  }

  lemma CollideAsWritten()
    ensures Readable(CollideLeft()) && Readable(CollideRight())
    ensures NodeEq(CollideLeft(), "r", CollideRight(), "r", true, {}, PairKey).0
  {
    LeftDeps();
    RightDeps();
    RootPairAgrees();
    KeysCollide();
    LeafPairEquals({PairKey("a_b", "c")});
    SkippedPairEquals(CollideLeft(), "r", CollideRight(), "r", true, "a_b", "c", "a", "b_c");
  }

  lemma CollideDiffers()
    ensures Readable(CollideLeft()) && Readable(CollideRight())
    ensures !AllAgree(CollideLeft(), CollideRight(), "r", "r", true)
  {
    LeftDeps();
    RightDeps();
    RootPairAgrees();
    SecondPairDiffers();
    SecondPairBreaks(CollideLeft(), "r", CollideRight(), "r", true, "a_b", "c", "a", "b_c");
  }

  /** `nodeEquals` as written calls the two graphs equal although their second
      pair ("a", "b_c") differs in its information: that pair's key "a_b_c" is
      the key of the first pair ("a_b", "c"), so it is skipped as compared.
      Recording the pairs themselves tells the graphs apart. */
  lemma KeyCollisionEquals()
    ensures Readable(CollideLeft()) && Readable(CollideRight())
    ensures NodeEq(CollideLeft(), "r", CollideRight(), "r", true, {}, PairKey).0
    ensures !AllAgree(CollideLeft(), CollideRight(), "r", "r", true)
    ensures !NodeEq(CollideLeft(), "r", CollideRight(), "r", true, {}, PairOf).0
  {
    CollideAsWritten();
    CollideDiffers();
    NodeEqualsByPairs(CollideLeft(), "r", CollideRight(), "r", true);
  }
}

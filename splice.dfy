/** The list half of `reconnectCycles` (`src/cycles/reconnect-cycles.ts`): a
    node's removed-edge tokens are read back from its label, parsed, sorted by
    index and spliced into its edge list at those indices. The lemmas here show
    that splicing back the tokens `cutCycles` records restores the list it cut. */
module Splice {
  import opened Wrappers
  import opened Strings
  import opened Sorting
  import opened Graphs
  import opened Types
  import opened Edges
  import opened CutCycles

  // ---------------------------------------------------------------------------
  // Reading the label back.

  /** `info?.labels && info?.labels['removed-cyclic-deps']`: the label is present
      and not empty. */
  predicate HasRemovedLabel(info: Option<NodeInfo>) {
    info.Some? && info.value.labels.Some? && RemovedLabel in info.value.labels.value &&
    info.value.labels.value[RemovedLabel] != ""
  }

  /** `labels['removed-cyclic-deps'].split(',').sort()`: the tokens, in code-point
      order. */
  function RemovedTokens(info: Option<NodeInfo>): (ts: seq<string>)
    requires HasRemovedLabel(info)
    ensures multiset(ts) == multiset(Split(info.value.labels.value[RemovedLabel], ","))
  {
    Sort(Split(info.value.labels.value[RemovedLabel], ","), LexLess)
  }

  /** The information a node with the label is re-added with: the label is
      deleted, then `labels` when it is left empty, then the information itself
      when no field is left. */
  function RestoredInfo(info: Option<NodeInfo>): (r: Option<NodeInfo>)
    requires HasRemovedLabel(info)
    ensures r.None? <==> info.value.versionProvenance.None? && info.value.labels.value.Keys == {RemovedLabel}
    ensures r.Some? ==> r.value.versionProvenance == info.value.versionProvenance
    ensures r.Some? ==> (r.value.labels.None? <==> info.value.labels.value.Keys == {RemovedLabel})
    ensures r.Some? && r.value.labels.Some? ==> r.value.labels.value == info.value.labels.value - {RemovedLabel}
  {
    var labels := info.value.labels.value - {RemovedLabel};
    DropOnlyLabel(info.value.labels.value);
    var kept := NodeInfo(info.value.versionProvenance, if labels == map[] then None else Some(labels));
    if kept == NoInfo then None else Some(kept)
  }

  lemma DropOnlyLabel(m: map<string, string>)
    requires RemovedLabel in m
    ensures m - {RemovedLabel} == map[] <==> m.Keys == {RemovedLabel}
  {
    if m - {RemovedLabel} == map[] {
      forall k | k in m ensures k == RemovedLabel {
        assert k !in m - {RemovedLabel};
      }
    }
    if m.Keys == {RemovedLabel} {
      assert (m - {RemovedLabel}).Keys == {};
    }
  }

  /** The information a node is re-added with. */
  function ReconnectInfo(info: Option<NodeInfo>): Option<NodeInfo> {
    if HasRemovedLabel(info) then RestoredInfo(info) else info
  }

  /** No character of `s` is a comma. */
  predicate NoComma(s: string) {
    forall k :: 0 <= k < |s| ==> s[k] != ','
  }

  lemma NoCommaNotContained(s: string)
    requires NoComma(s)
    ensures !Contains(s, ",")
  {
    forall j | 0 <= j && j + 1 <= |s| ensures !OccursAt(s, ",", j) {
      assert s[j..j + 1][0] == s[j];
    }
  }

  /** A token for a comma-free target holds no comma. */
  lemma TokenNoComma(index: int, to: NodeId)
    requires NoComma(to)
    ensures NoComma(BuildEdge(index, to)) && BuildEdge(index, to) != ""
  {
    var e := BuildEdge(index, to);
    var digits := IntToString(index);
    assert e == digits + Delimiter + to;
    forall k | 0 <= k < |e| ensures e[k] != ',' {
      if k < |digits| {
        assert e[k] == digits[k];
      } else if k >= |digits| + 2 {
        assert e[k] == to[k - |digits| - 2];
      }
    }
  }

  /** The tokens a node's label holds are the ones cutting joined into it, in
      code-point order, as long as every token is free of commas. */
  lemma {:induction false} LabelTokens(info: Option<NodeInfo>, ts: seq<string>)
    requires ts != [] && ts[0] != "" && forall i :: 0 <= i < |ts| ==> NoComma(ts[i])
    ensures HasRemovedLabel(CutNodeInfo(KeepInfo, info, Some(ts)))
    ensures multiset(RemovedTokens(CutNodeInfo(KeepInfo, info, Some(ts)))) == multiset(ts)
  {
    var joined := Join(ts, ",");
    if |ts| == 1 {
      assert joined == ts[0];
    } else {
      assert joined == ts[0] + "," + Join(ts[1..], ",");
    }
    assert |joined| > 0;
    forall i | 0 <= i < |ts| ensures !Contains(ts[i], [',']) {
      NoCommaNotContained(ts[i]);
    }
    SplitJoin(ts, ',');
  }

  /** Deleting the label restores the information cutting started from, when that
      information was normalised as `toJSON` hands it out (absent rather than
      empty), held no label of that name and no empty `labels` object. */
  lemma RestoreCutInfo(info: Option<NodeInfo>, ts: seq<string>)
    requires HasRemovedLabel(CutNodeInfo(KeepInfo, info, Some(ts)))
    requires info.Some? ==> info.value != NoInfo
    requires info.Some? && info.value.labels.Some? ==>
      RemovedLabel !in info.value.labels.value && info.value.labels.value != map[]
    ensures RestoredInfo(CutNodeInfo(KeepInfo, info, Some(ts))) == info
  {
    var c := CutNodeInfo(KeepInfo, info, Some(ts));
    if info.Some? && info.value.labels.Some? {
      assert c.value.labels.value - {RemovedLabel} == info.value.labels.value;
    }
  }

  /** An empty `labels` object does not survive the round trip: it is deleted
      along with the label. */
  lemma EmptyLabelsLost()
    ensures var info := Some(NodeInfo(Some(VersionProvenance("k", "l", None)), Some(map[])));
      RestoredInfo(CutNodeInfo(KeepInfo, info, Some(["0@@a"]))) == Some(NodeInfo(Some(VersionProvenance("k", "l", None)), None))
  {
    var info := Some(NodeInfo(Some(VersionProvenance("k", "l", None)), Some(map[])));
    var c := CutNodeInfo(KeepInfo, info, Some(["0@@a"]));
    assert c.value.labels.value == map[RemovedLabel := "0@@a"];
    assert c.value.labels.value - {RemovedLabel} == map[];
  }

  // ---------------------------------------------------------------------------
  // Splicing.

  /** `Array.prototype.splice`'s start for a list of length `len`: `NaN` is 0, a
      negative start counts back from the end (but not below 0), and a start past
      the end is the end. */
  function SpliceStart(len: nat, index: Option<int>): (p: nat)
    ensures p <= len
    ensures index.Some? && 0 <= index.value <= len ==> p == index.value
  {
    if index.None? then 0
    else if index.value < 0 then (if len + index.value < 0 then 0 else len + index.value)
    else if index.value > len then len
    else index.value
  }

  /** `list.splice(+index, 0, to)`: the target goes in at the start position,
      nothing is removed. */
  function SpliceIn(list: seq<Option<NodeId>>, t: EdgeToken): (r: seq<Option<NodeId>>)
    ensures |r| == |list| + 1
    ensures var p := SpliceStart(|list|, t.index);
      r[..p] == list[..p] && r[p] == t.to && r[p + 1..] == list[p..]
  {
    var p := SpliceStart(|list|, t.index);
    list[..p] + [t.to] + list[p..]
  }

  /** `tokens.forEach(({index, to}) => list.splice(+index, 0, to))`. */
  function SpliceAll(list: seq<Option<NodeId>>, ts: seq<EdgeToken>): (r: seq<Option<NodeId>>)
    ensures |r| == |list| + |ts|
    decreases |ts|
  {
    if ts == [] then list else SpliceAll(SpliceIn(list, ts[0]), ts[1..])
  }

  /** A list of node ids, as the edge list copy holds them. */
  function Somes(xs: seq<NodeId>): (r: seq<Option<NodeId>>)
    ensures |r| == |xs| && forall i :: 0 <= i < |xs| ==> r[i] == Some(xs[i])
  {
    seq(|xs|, i requires 0 <= i < |xs| => Some(xs[i]))
  }

  /** The node ids of a list whose entries are all present. */
  function Unwrap(xs: seq<Option<NodeId>>): (r: seq<NodeId>)
    ensures |r| == |xs| && forall i :: 0 <= i < |xs| && xs[i].Some? ==> r[i] == xs[i].value
  {
    seq(|xs|, i requires 0 <= i < |xs| => if xs[i].Some? then xs[i].value else "")
  }

  lemma UnwrapSomes(xs: seq<NodeId>)
    ensures Unwrap(Somes(xs)) == xs
  {
  }

  /** `toNode.map(splitEdge)`. */
  function ParseAll(ts: seq<string>): (r: seq<EdgeToken>)
    ensures |r| == |ts| && forall i :: 0 <= i < |ts| ==> r[i] == SplitEdge(ts[i])
  {
    seq(|ts|, i requires 0 <= i < |ts| => SplitEdge(ts[i]))
  }

  /** The key of the comparator `(a, b) => a.index - b.index`. A `NaN` index makes
      the comparator answer `NaN`, which the sort reads as "equal" to every other
      token; the model gives such a token the key 0 instead, so the two orders
      agree only when every index parses. */
  function IndexKey(t: EdgeToken): int {
    if t.index.Some? then t.index.value else 0
  }

  predicate IndexLess(a: EdgeToken, b: EdgeToken) {
    IndexKey(a) < IndexKey(b)
  }

  lemma IndexLessOrder()
    ensures StrictWeakOrder(IndexLess)
  {
  }

  /** The tokens of a node, parsed and sorted by index. */
  function SortedTokens(ts: seq<string>): (r: seq<EdgeToken>)
    ensures multiset(r) == multiset(ParseAll(ts)) && Sorted(r, IndexLess)
  {
    IndexLessOrder();
    SortSorted(ParseAll(ts), IndexLess);
    Sort(ParseAll(ts), IndexLess)
  }

  // ---------------------------------------------------------------------------
  // Splicing restores what cutting removed.

  /** The parsed token cutting records for the target at position `i`. */
  function TokenAt(xs: seq<NodeId>, i: nat): EdgeToken
    requires i < |xs|
  {
    EdgeToken(Some(i), Some(xs[i]))
  }

  /** The parsed tokens of the positions from `i` on whose target is in `cs`, in
      ascending position order. */
  function TokensFrom(xs: seq<NodeId>, cs: seq<NodeId>, i: nat): seq<EdgeToken>
    requires i <= |xs|
    decreases |xs| - i
  {
    if i == |xs| then []
    else (if xs[i] in cs then [TokenAt(xs, i)] else []) + TokensFrom(xs, cs, i + 1)
  }

  /** `t` is the token of a position from `i` on whose target is in `cs`. */
  ghost predicate TokenFacts(xs: seq<NodeId>, cs: seq<NodeId>, i: nat, t: EdgeToken) {
    t.index.Some? && i <= t.index.value < |xs| && t == TokenAt(xs, t.index.value) && xs[t.index.value] in cs
  }

  /** Every token from `i` on is the token of a position from `i` on whose target
      is in `cs`. */
  lemma {:induction false} TokensFromOnly(xs: seq<NodeId>, cs: seq<NodeId>, i: nat)
    requires i <= |xs|
    ensures forall t :: t in TokensFrom(xs, cs, i) ==> TokenFacts(xs, cs, i, t)
    decreases |xs| - i
  {
    if i < |xs| {
      TokensFromOnly(xs, cs, i + 1);
    }
  }

  /** Every position from `i` on whose target is in `cs` has its token. */
  lemma {:induction false} TokensFromAll(xs: seq<NodeId>, cs: seq<NodeId>, i: nat)
    requires i <= |xs|
    ensures forall j :: i <= j < |xs| && xs[j] in cs ==> TokenAt(xs, j) in TokensFrom(xs, cs, i)
    decreases |xs| - i
  {
    if i < |xs| {
      TokensFromAll(xs, cs, i + 1);
    }
  }

  /** Strictly ascending indices. */
  ghost predicate Ascending(r: seq<EdgeToken>) {
    forall a, b :: 0 <= a < b < |r| ==> IndexKey(r[a]) < IndexKey(r[b])
  }

  lemma AscendingCons(t: EdgeToken, rest: seq<EdgeToken>)
    requires Ascending(rest) && forall u :: u in rest ==> IndexKey(t) < IndexKey(u)
    ensures Ascending([t] + rest)
  {
    var r := [t] + rest;
    forall a, b | 0 <= a < b < |r| ensures IndexKey(r[a]) < IndexKey(r[b]) {
      assert r[b] == rest[b - 1];
      if a > 0 {
        assert r[a] == rest[a - 1];
      }
    }
  }

  /** The tokens from `i` on are in strictly ascending position order. */
  lemma {:induction false} TokensFromAscending(xs: seq<NodeId>, cs: seq<NodeId>, i: nat)
    requires i <= |xs|
    ensures Ascending(TokensFrom(xs, cs, i))
    decreases |xs| - i
  {
    if i < |xs| {
      TokensFromAscending(xs, cs, i + 1);
      if xs[i] in cs {
        TokensFromOnly(xs, cs, i + 1);
        AscendingCons(TokenAt(xs, i), TokensFrom(xs, cs, i + 1));
      }
    }
  }

  /** Filtering the head of a list is deciding on the head, then filtering the
      tail. */
  lemma {:induction false} WithoutCons(x: NodeId, ys: seq<NodeId>, cs: seq<NodeId>)
    ensures Without([x] + ys, cs) == (if x in cs then [] else [x]) + Without(ys, cs)
    decreases |ys|
  {
    if ys == [] {
      assert ([x] + ys)[..0] == [];
      assert [x] + ys == [x];
    } else {
      var init := ys[..|ys| - 1];
      WithoutCons(x, init, cs);
      assert ([x] + ys)[..|ys|] == [x] + init;
    }
  }

  /** Splicing a target in at the end of a prefix. */
  lemma SpliceAtPrefix(a: seq<NodeId>, x: NodeId, w: seq<NodeId>)
    ensures SpliceIn(Somes(a + w), EdgeToken(Some(|a|), Some(x))) == Somes(a + [x] + w)
  {
    var list := Somes(a + w);
    assert list[..|a|] == Somes(a) && list[|a|..] == Somes(w);
    assert Somes(a + [x] + w) == Somes(a) + [Some(x)] + Somes(w);
  }

  /** Splicing the tokens of the positions from `i` on into the list that keeps
      the first `i` entries, followed by the uncut rest, restores the list. */
  lemma {:induction false} SpliceRestoresFrom(xs: seq<NodeId>, cs: seq<NodeId>, i: nat)
    requires i <= |xs|
    ensures SpliceAll(Somes(xs[..i] + Without(xs[i..], cs)), TokensFrom(xs, cs, i)) == Somes(xs)
    decreases |xs| - i
  {
    if i == |xs| {
      assert xs[i..] == [] && xs[..i] == xs;
      assert xs[..i] + Without(xs[i..], cs) == xs;
    } else {
      SpliceRestoresFrom(xs, cs, i + 1);
      SpliceStep(xs, cs, i);
    }
  }

  /** One position: a cut target is spliced back in place, a kept one is there
      already. */
  lemma SpliceStep(xs: seq<NodeId>, cs: seq<NodeId>, i: nat)
    requires i < |xs|
    ensures SpliceAll(Somes(xs[..i] + Without(xs[i..], cs)), TokensFrom(xs, cs, i)) ==
            SpliceAll(Somes(xs[..i + 1] + Without(xs[i + 1..], cs)), TokensFrom(xs, cs, i + 1))
  {
    var w := Without(xs[i + 1..], cs);
    var tail := TokensFrom(xs, cs, i + 1);
    ListStep(xs, cs, i);
    if xs[i] in cs {
      assert TokensFrom(xs, cs, i) == [EdgeToken(Some(|xs[..i]|), Some(xs[i]))] + tail;
      SpliceCut(xs[..i], xs[i], w, tail);
      assert xs[..i] + [xs[i]] + w == xs[..i + 1] + w;
    } else {
      assert TokensFrom(xs, cs, i) == [] + tail == tail;
    }
  }

  /** The kept list from `i` on, split at position `i`. */
  lemma ListStep(xs: seq<NodeId>, cs: seq<NodeId>, i: nat)
    requires i < |xs|
    ensures xs[..i + 1] == xs[..i] + [xs[i]]
    ensures xs[..i] + Without(xs[i..], cs) ==
            (if xs[i] in cs then xs[..i] else xs[..i + 1]) + Without(xs[i + 1..], cs)
  {
    assert xs[i..] == [xs[i]] + xs[i + 1..];
    WithoutCons(xs[i], xs[i + 1..], cs);
  }

  /** Splicing the token of position `|a|` into the list without it. */
  lemma SpliceCut(a: seq<NodeId>, x: NodeId, w: seq<NodeId>, tail: seq<EdgeToken>)
    ensures SpliceAll(Somes(a + w), [EdgeToken(Some(|a|), Some(x))] + tail) ==
            SpliceAll(Somes(a + [x] + w), tail)
  {
    var t := EdgeToken(Some(|a|), Some(x));
    assert ([t] + tail)[0] == t && ([t] + tail)[1..] == tail;
    SpliceAtPrefix(a, x, w);
  }

  /** `s` with entry `j` taken out: its tokens and their parses lose that
      entry. */
  lemma Drop(s: seq<string>, j: nat) returns (s': seq<string>)
    requires j < |s|
    ensures multiset(s') == multiset(s) - multiset{s[j]}
    ensures multiset(ParseAll(s)) == multiset(ParseAll(s')) + multiset{SplitEdge(s[j])}
    ensures |s'| < |s|
  {
    s' := s[..j] + s[j + 1..];
    DropOne(s, j);
    ParseDrop(s, j);
    DropOne(ParseAll(s), j);
  }

  lemma ParseDrop(s: seq<string>, j: nat)
    requires j < |s|
    ensures ParseAll(s[..j] + s[j + 1..]) == ParseAll(s)[..j] + ParseAll(s)[j + 1..]
  {
    var t, p := s[..j] + s[j + 1..], ParseAll(s);
    var a, b := ParseAll(t), p[..j] + p[j + 1..];
    forall i | 0 <= i < |a| ensures a[i] == b[i] {
      if i < j {
        assert t[i] == s[i] && b[i] == p[i];
      } else {
        assert t[i] == s[i + 1] && b[i] == p[i + 1];
      }
    }
  }

  /** Taking entry `j` out of a list takes one copy of it out of its multiset. */
  lemma DropOne<T>(s: seq<T>, j: nat)
    requires j < |s|
    ensures multiset(s[..j] + s[j + 1..]) == multiset(s) - multiset{s[j]}
  {
    assert s == s[..j] + [s[j]] + s[j + 1..];
  }

  /** `toNode.map(splitEdge)` on two arrangements of the same tokens gives two
      arrangements of the same parsed tokens. */
  lemma {:induction false} ParseAllPermutes(a: seq<string>, b: seq<string>)
    requires multiset(a) == multiset(b)
    ensures multiset(ParseAll(a)) == multiset(ParseAll(b))
    decreases |a|
  {
    if a == [] {
      assert |b| == |multiset(b)| == 0;
    } else {
      var j := PositionOf(b, a[0]);
      var a' := Drop(a, 0);
      var b' := Drop(b, j);
      ParseAllPermutes(a', b');
    }
  }

  lemma PositionOf<T>(b: seq<T>, x: T) returns (j: nat)
    requires x in multiset(b)
    ensures j < |b| && b[j] == x
  {
    j :| 0 <= j < |b| && b[j] == x;
  }

  /** In a list without repeats every member occurs once. */
  lemma {:induction false} DistinctCount<T>(s: seq<T>, x: T)
    requires Distinct(s)
    ensures multiset(s)[x] == if x in s then 1 else 0
    decreases |s|
  {
    if s != [] {
      assert s == [s[0]] + s[1..];
      DistinctCount(s[1..], x);
    }
  }

  /** Two lists without repeats and with the same members are arrangements of
      each other. */
  lemma DistinctMultiset<T>(a: seq<T>, b: seq<T>)
    requires Distinct(a) && Distinct(b) && forall x :: x in a <==> x in b
    ensures multiset(a) == multiset(b)
  {
    forall x ensures multiset(a)[x] == multiset(b)[x] {
      DistinctCount(a, x);
      DistinctCount(b, x);
    }
  }

  /** Cutting records each target at its first position. */
  lemma ParsedTokens(xs: seq<NodeId>, cs: seq<NodeId>)
    requires Distinct(xs) && forall c :: c in cs ==> c in xs && !Contains(c, Delimiter)
    ensures forall k :: 0 <= k < |cs| ==>
      0 <= FindIndex(xs, cs[k]) && ParseAll(Tokens(xs, cs))[k] == TokenAt(xs, FindIndex(xs, cs[k]))
  {
    forall k | 0 <= k < |cs|
      ensures 0 <= FindIndex(xs, cs[k]) && ParseAll(Tokens(xs, cs))[k] == TokenAt(xs, FindIndex(xs, cs[k]))
    {
      SplitBuildEdge(FindIndex(xs, cs[k]), cs[k]);
    }
  }

  /** The parsed recorded tokens and the tokens of the positions have the same
      members. */
  lemma SameTokens(xs: seq<NodeId>, cs: seq<NodeId>)
    requires Distinct(xs) && forall c :: c in cs ==> c in xs && !Contains(c, Delimiter)
    ensures forall t :: t in ParseAll(Tokens(xs, cs)) <==> t in TokensFrom(xs, cs, 0)
  {
    RecordedAreFrom(xs, cs);
    FromAreRecorded(xs, cs);
  }

  lemma RecordedAreFrom(xs: seq<NodeId>, cs: seq<NodeId>)
    requires Distinct(xs) && forall c :: c in cs ==> c in xs && !Contains(c, Delimiter)
    ensures forall t :: t in ParseAll(Tokens(xs, cs)) ==> t in TokensFrom(xs, cs, 0)
  {
    var p := ParseAll(Tokens(xs, cs));
    ParsedTokens(xs, cs);
    TokensFromAll(xs, cs, 0);
    forall k | 0 <= k < |p| ensures p[k] in TokensFrom(xs, cs, 0) {
      assert xs[FindIndex(xs, cs[k])] == cs[k];
    }
  }

  lemma FromAreRecorded(xs: seq<NodeId>, cs: seq<NodeId>)
    requires Distinct(xs) && forall c :: c in cs ==> c in xs && !Contains(c, Delimiter)
    ensures forall t :: t in TokensFrom(xs, cs, 0) ==> t in ParseAll(Tokens(xs, cs))
  {
    var p := ParseAll(Tokens(xs, cs));
    ParsedTokens(xs, cs);
    TokensFromOnly(xs, cs, 0);
    forall t | t in TokensFrom(xs, cs, 0) ensures t in p {
      assert TokenFacts(xs, cs, 0, t);
      var j := t.index.value;
      var k :| 0 <= k < |cs| && cs[k] == xs[j];
      assert FindIndex(xs, cs[k]) == j;
      assert p[k] == t;
    }
  }

  /** Distinct targets give distinct parsed tokens. */
  lemma ParsedDistinct(xs: seq<NodeId>, cs: seq<NodeId>)
    requires Distinct(xs) && Distinct(cs) && forall c :: c in cs ==> c in xs && !Contains(c, Delimiter)
    ensures Distinct(ParseAll(Tokens(xs, cs)))
  {
    var p := ParseAll(Tokens(xs, cs));
    ParsedTokens(xs, cs);
    forall k, l | 0 <= k < l < |p| ensures p[k] != p[l] {
      assert p[k].to == Some(cs[k]) && p[l].to == Some(cs[l]);
    }
  }

  /** The tokens of the positions are sorted, without repeats, and ranked. */
  lemma TokensFromRanked(xs: seq<NodeId>, cs: seq<NodeId>)
    ensures var q := TokensFrom(xs, cs, 0);
      Distinct(q) && Sorted(q, IndexLess) && RanksAll(q, IndexLess)
  {
    var q := TokensFrom(xs, cs, 0);
    TokensFromAscending(xs, cs, 0);
    assert Ascending(q);
    forall a, b | 0 <= a < |q| && 0 <= b < |q| && q[a] != q[b]
      ensures IndexLess(q[a], q[b]) || IndexLess(q[b], q[a])
    {
      assert a != b;
    }
  }

  /** Parsed and sorted by index, the tokens cutting records for the distinct
      targets `cs` of a list without repeats are the tokens of their positions in
      ascending order, whatever order the tokens are read in. */
  lemma TokensInOrder(xs: seq<NodeId>, cs: seq<NodeId>, ts: seq<string>)
    requires Distinct(xs) && Distinct(cs) && forall c :: c in cs ==> c in xs && !Contains(c, Delimiter)
    requires multiset(ts) == multiset(Tokens(xs, cs))
    ensures SortedTokens(ts) == TokensFrom(xs, cs, 0)
  {
    var q := TokensFrom(xs, cs, 0);
    SameTokens(xs, cs);
    ParsedDistinct(xs, cs);
    TokensFromRanked(xs, cs);
    DistinctMultiset(ParseAll(Tokens(xs, cs)), q);
    ParseAllPermutes(ts, Tokens(xs, cs));
    SortedUnique(q, SortedTokens(ts), IndexLess);
  }

  /** Splicing back, in index order, the tokens cutting recorded for the targets
      `cs` into what is left of a list without repeats restores the list. */
  lemma SpliceRestores(xs: seq<NodeId>, cs: seq<NodeId>, ts: seq<string>)
    requires Distinct(xs) && Distinct(cs) && forall c :: c in cs ==> c in xs && !Contains(c, Delimiter)
    requires multiset(ts) == multiset(Tokens(xs, cs))
    ensures SpliceAll(Somes(Without(xs, cs)), SortedTokens(ts)) == Somes(xs)
  {
    TokensInOrder(xs, cs, ts);
    SpliceRestoresFrom(xs, cs, 0);
    assert xs[..0] + Without(xs[0..], cs) == Without(xs, cs);
  }
}

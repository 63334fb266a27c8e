/** Cycles met while a walk from the root re-enters a node that is already on its
    ancestor path, and their split into the cycles that start at a given node and
    the ones that merely pass through it. */
module LegacyCycles {
  import opened Wrappers
  import opened Graphs

  /** A cycle is the part of an ancestor path from the re-entered node onwards; its
      first entry is where it starts and ends. */
  type Cycle = seq<NodeId>

  datatype PartitionedCycles = PartitionedCycles(cyclesStartWithThisNode: seq<Cycle>, cyclesWithThisNode: seq<Cycle>)

  /** `getCycle`: no cycle when `nodeId` is not an ancestor; otherwise the ancestor
      path cut at the FIRST occurrence of `nodeId`. */
  function GetCycle(ancestors: seq<NodeId>, nodeId: NodeId): (r: Option<Cycle>)
    ensures r.None? <==> nodeId !in ancestors
    ensures r.Some? ==> 0 < |r.value| <= |ancestors| && r.value == ancestors[|ancestors| - |r.value|..]
    ensures r.Some? ==> r.value[0] == nodeId && nodeId !in ancestors[..|ancestors| - |r.value|]
  {
    if nodeId !in ancestors then None
    else Some(ancestors[FindIndex(ancestors, nodeId)..])
  }

  lemma SuffixWalk(adj: Adj, p: seq<NodeId>, k: nat)
    requires IsWalk(adj, p) && k <= |p|
    ensures IsWalk(adj, p[k..])
  {
    forall i | 0 <= i < |p[k..]| - 1
      ensures p[k..][i + 1] in Next(adj, p[k..][i])
    {
      assert p[k..][i] == p[k + i] && p[k..][i + 1] == p[k + i + 1];
    }
  }

  /** When the ancestors form a walk whose last node has `nodeId` as a successor,
      the cycle found for `nodeId` closes: following it and then that edge walks
      from `nodeId` back to `nodeId`. */
  lemma {:induction false} GetCycleCloses(adj: Adj, ancestors: seq<NodeId>, nodeId: NodeId)
    requires IsWalk(adj, ancestors) && |ancestors| > 0 && nodeId in Next(adj, ancestors[|ancestors| - 1])
    requires nodeId in ancestors
    ensures GetCycle(ancestors, nodeId).Some?
    ensures var c := GetCycle(ancestors, nodeId).value + [nodeId];
      IsWalk(adj, c) && c[0] == nodeId && c[|c| - 1] == nodeId
  {
    var cyc := GetCycle(ancestors, nodeId).value;
    var k := |ancestors| - |cyc|;
    SuffixWalk(adj, ancestors, k);
    var c := cyc + [nodeId];
    forall i | 0 <= i < |c| - 1
      ensures c[i + 1] in Next(adj, c[i])
    {
      if i < |cyc| - 1 {
        assert c[i] == cyc[i] && c[i + 1] == cyc[i + 1];
      } else {
        assert c[i] == ancestors[|ancestors| - 1];
      }
    }
  }

  /** On an ancestor path without repeats, the cycle visits each node once. */
  lemma GetCycleDistinct(ancestors: seq<NodeId>, nodeId: NodeId)
    requires Distinct(ancestors) && nodeId in ancestors
    ensures Distinct(GetCycle(ancestors, nodeId).value)
  {
    var cyc := GetCycle(ancestors, nodeId).value;
    var k := |ancestors| - |cyc|;
    forall i, j | 0 <= i < j < |cyc|
      ensures cyc[i] != cyc[j]
    {
      assert cyc[i] == ancestors[k + i] && cyc[j] == ancestors[k + j];
    }
  }

  /** `cycle[0] === nodeId`; an empty cycle has no first entry and never matches. */
  predicate StartsAt(cycle: Cycle, nodeId: NodeId) {
    |cycle| > 0 && cycle[0] == nodeId
  }

  /** The cycles of `cycles` that start at `nodeId`, in their original order. */
  function Starting(nodeId: NodeId, cycles: seq<Cycle>): (r: seq<Cycle>)
    ensures forall i :: 0 <= i < |r| ==> StartsAt(r[i], nodeId)
    ensures forall c :: c in cycles && StartsAt(c, nodeId) ==> c in r
  {
    if cycles == [] then []
    else
      var last := cycles[|cycles| - 1];
      assert cycles == cycles[..|cycles| - 1] + [last];
      Starting(nodeId, cycles[..|cycles| - 1]) + (if StartsAt(last, nodeId) then [last] else [])
  }

  /** The cycles of `cycles` that do not start at `nodeId`, in their original order. */
  function NotStarting(nodeId: NodeId, cycles: seq<Cycle>): (r: seq<Cycle>)
    ensures forall i :: 0 <= i < |r| ==> !StartsAt(r[i], nodeId)
    ensures forall c :: c in cycles && !StartsAt(c, nodeId) ==> c in r
  {
    if cycles == [] then []
    else
      var last := cycles[|cycles| - 1];
      assert cycles == cycles[..|cycles| - 1] + [last];
      NotStarting(nodeId, cycles[..|cycles| - 1]) + (if StartsAt(last, nodeId) then [] else [last])
  }

  lemma MultisetSnoc<T>(a: seq<T>, x: T)
    ensures multiset(a + [x]) == multiset(a) + multiset{x}
  {
  }

  /** Every cycle lands in exactly one of the two lists: together they are the
      input, counted with multiplicity, so their lengths add up to its length. */
  lemma {:induction false} PartitionComplete(nodeId: NodeId, cycles: seq<Cycle>)
    ensures multiset(Starting(nodeId, cycles)) + multiset(NotStarting(nodeId, cycles)) == multiset(cycles)
    ensures |Starting(nodeId, cycles)| + |NotStarting(nodeId, cycles)| == |cycles|
  {
    if cycles != [] {
      var init, last := cycles[..|cycles| - 1], cycles[|cycles| - 1];
      PartitionComplete(nodeId, init);
      assert cycles == init + [last];
      MultisetSnoc(init, last);
      var s, n := Starting(nodeId, init), NotStarting(nodeId, init);
      if StartsAt(last, nodeId) {
        assert Starting(nodeId, cycles) == s + [last];
        assert NotStarting(nodeId, cycles) == n;
        MultisetSnoc(s, last);
      } else {
        assert Starting(nodeId, cycles) == s;
        assert NotStarting(nodeId, cycles) == n + [last];
        MultisetSnoc(n, last);
      }
    }
  }

  /** `partitionCycles`: one pass over the cycles pushing each onto one of two lists. */
  method PartitionCycles(nodeId: NodeId, allCyclesTheNodeIsPartOf: seq<Cycle>) returns (p: PartitionedCycles)
    ensures p.cyclesStartWithThisNode == Starting(nodeId, allCyclesTheNodeIsPartOf)
    ensures p.cyclesWithThisNode == NotStarting(nodeId, allCyclesTheNodeIsPartOf)
  {
    var all := allCyclesTheNodeIsPartOf;
    var starting: seq<Cycle> := [];
    var others: seq<Cycle> := [];
    for i := 0 to |all|
      invariant starting == Starting(nodeId, all[..i])
      invariant others == NotStarting(nodeId, all[..i])
    {
      assert all[..i + 1][..i] == all[..i];
      var cycle := all[i];
      if |cycle| > 0 && cycle[0] == nodeId {
        starting := starting + [cycle];
      } else {
        others := others + [cycle];
      }
    }
    assert all[..|all|] == all;
    p := PartitionedCycles(starting, others);
  }
}

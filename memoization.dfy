/** Memoization of per-node results during a walk that may meet cycles. An entry
    stored for a node that starts a cycle remembers the cycle's nodes, and is
    refused later when any of them is among the current ancestors; a node that
    only lies inside other nodes' cycles is not memoized at all. */
module Memoization {
  import opened Wrappers
  import opened Graphs
  import opened LegacyCycles

  /** A stored item; `cycleNodeIds`, when present, lists the nodes whose presence
      among the ancestors makes the stored item unusable. */
  datatype Entry<T> = Entry(item: T, cycleNodeIds: Option<set<NodeId>>)

  /** The JavaScript `Map` that the caller owns and `memoize` writes into. */
  class MemoizationMap<T> {
    var entries: map<NodeId, Entry<T>>

    constructor ()
      ensures entries == map[]
    {
      entries := map[];
    }
  }

  /** `new Set<NodeId>(...cycles)`: the spread passes every cycle as a separate
      argument, and the `Set` constructor only iterates its first argument. */
  function SpreadIntoSet(cycles: seq<Cycle>): set<NodeId>
    requires |cycles| > 0
  {
    set v | v in cycles[0]
  }

  /** The map after `memoize(nodeId, m, item, partitionedCycles)`. Only the entry
      of `nodeId` can differ. */
  function Memoized<T>(m: map<NodeId, Entry<T>>, nodeId: NodeId, item: T, pc: PartitionedCycles): (r: map<NodeId, Entry<T>>)
    ensures forall k :: k != nodeId ==> (k in r <==> k in m) && (k in r ==> r[k] == m[k])
  {
    if |pc.cyclesStartWithThisNode| > 0 then m[nodeId := Entry(item, Some(SpreadIntoSet(pc.cyclesStartWithThisNode)))]
    else if |pc.cyclesWithThisNode| == 0 then m[nodeId := Entry(item, None)]
    else m
  }

  /** `memoize`: writes the caller's map in place. */
  method Memoize<T>(nodeId: NodeId, memoizationMap: MemoizationMap<T>, item: T, partitionedCycles: PartitionedCycles)
    modifies memoizationMap
    ensures memoizationMap.entries == Memoized(old(memoizationMap.entries), nodeId, item, partitionedCycles)
  {
    var starting := partitionedCycles.cyclesStartWithThisNode;
    if |starting| > 0 {
      var cycleNodeIds := SpreadIntoSet(starting);
      memoizationMap.entries := memoizationMap.entries[nodeId := Entry(item, Some(cycleNodeIds))];
    } else if |partitionedCycles.cyclesWithThisNode| == 0 {
      memoizationMap.entries := memoizationMap.entries[nodeId := Entry(item, None)];
    }
  }

  /** `ancestors.some(a => ids.has(a))`. */
  function SomeIn(ancestors: seq<NodeId>, ids: set<NodeId>): (b: bool)
    ensures b <==> exists a :: a in ancestors && a in ids
  {
    if ancestors == [] then false
    else
      assert ancestors == [ancestors[0]] + ancestors[1..];
      ancestors[0] in ids || SomeIn(ancestors[1..], ids)
  }

  /** `getMemoizedItem`: nothing for an unknown node; the stored item when it has
      no cycle nodes, or when none of its cycle nodes is an ancestor. */
  function GetMemoizedItem<T>(nodeId: NodeId, ancestors: seq<NodeId>, memoizationMap: map<NodeId, Entry<T>>): (r: Option<T>)
    ensures nodeId !in memoizationMap ==> r.None?
    ensures nodeId in memoizationMap && memoizationMap[nodeId].cycleNodeIds.None? ==> r == Some(memoizationMap[nodeId].item)
    ensures nodeId in memoizationMap && memoizationMap[nodeId].cycleNodeIds.Some? ==>
      (r.None? <==> exists a :: a in ancestors && a in memoizationMap[nodeId].cycleNodeIds.value)
    ensures r.Some? ==> nodeId in memoizationMap && r.value == memoizationMap[nodeId].item
  {
    if nodeId !in memoizationMap then None
    else
      var e := memoizationMap[nodeId];
      match e.cycleNodeIds
      case None => Some(e.item)
      case Some(ids) => if SomeIn(ancestors, ids) then None else Some(e.item)
  }

  /** A node in no cycle is memoized unconditionally: reading it back gives the item
      whatever the ancestors. */
  lemma GetAfterMemoizePlain<T>(m: map<NodeId, Entry<T>>, nodeId: NodeId, item: T, pc: PartitionedCycles, ancestors: seq<NodeId>)
    requires pc.cyclesStartWithThisNode == [] && pc.cyclesWithThisNode == []
    ensures GetMemoizedItem(nodeId, ancestors, Memoized(m, nodeId, item, pc)) == Some(item)
  {
  }

  /** A node that starts a cycle is memoized with a guard: reading it back gives
      nothing exactly when an ancestor lies on the FIRST cycle starting there, and
      the item otherwise. */
  lemma GetAfterMemoizeGuarded<T>(m: map<NodeId, Entry<T>>, nodeId: NodeId, item: T, pc: PartitionedCycles, ancestors: seq<NodeId>)
    requires |pc.cyclesStartWithThisNode| > 0
    ensures var r := GetMemoizedItem(nodeId, ancestors, Memoized(m, nodeId, item, pc));
      (r.None? <==> exists a :: a in ancestors && a in pc.cyclesStartWithThisNode[0]) &&
      (r.Some? ==> r.value == item)
  {
    var r := GetMemoizedItem(nodeId, ancestors, Memoized(m, nodeId, item, pc));
    var ids := SpreadIntoSet(pc.cyclesStartWithThisNode);
    if r.None? {
      var a :| a in ancestors && a in ids;
      assert a in pc.cyclesStartWithThisNode[0];
    }
  }

  /** A node that only lies inside cycles started elsewhere leaves the map as it was. */
  lemma MemoizeInsideCycle<T>(m: map<NodeId, Entry<T>>, nodeId: NodeId, item: T, pc: PartitionedCycles)
    requires pc.cyclesStartWithThisNode == [] && pc.cyclesWithThisNode != []
    ensures Memoized(m, nodeId, item, pc) == m
  {
  }

  /** Memoizing one node never changes what is read back for another. */
  lemma GetOtherAfterMemoize<T>(m: map<NodeId, Entry<T>>, nodeId: NodeId, item: T, pc: PartitionedCycles,
                                other: NodeId, ancestors: seq<NodeId>)
    requires other != nodeId
    ensures GetMemoizedItem(other, ancestors, Memoized(m, nodeId, item, pc)) == GetMemoizedItem(other, ancestors, m)
  {
  }

  /** The spread keeps only the first starting cycle: with the cycles n→a→n and
      n→b→n both starting at n, the item memoized for n is still handed out under
      the ancestor b, which lies on the second cycle. */
  lemma SpreadKeepsFirstCycleOnly<T>(m: map<NodeId, Entry<T>>, item: T)
    ensures var pc := PartitionedCycles([["n", "a"], ["n", "b"]], []);
      GetMemoizedItem("n", ["b"], Memoized(m, "n", item, pc)) == Some(item)
  {
    var pc := PartitionedCycles([["n", "a"], ["n", "b"]], []);
    var ids := SpreadIntoSet(pc.cyclesStartWithThisNode);
    assert "b" != "n" && "b" != "a";
    assert "b" !in ids;
  }

  /** The nodes of all the given cycles. */
  function CycleNodeIds(cycles: seq<Cycle>): set<NodeId> {
    set i, v | 0 <= i < |cycles| && v in cycles[i] :: v
  }

  /** `memoize` with the guard built from every cycle that starts at the node. */
  function MemoizedAllCycles<T>(m: map<NodeId, Entry<T>>, nodeId: NodeId, item: T, pc: PartitionedCycles): (r: map<NodeId, Entry<T>>)
    ensures forall k :: k != nodeId ==> (k in r <==> k in m) && (k in r ==> r[k] == m[k])
  {
    if |pc.cyclesStartWithThisNode| > 0 then m[nodeId := Entry(item, Some(CycleNodeIds(pc.cyclesStartWithThisNode)))]
    else if |pc.cyclesWithThisNode| == 0 then m[nodeId := Entry(item, None)]
    else m
  }

  /** With the corrected guard, an ancestor on ANY cycle starting at the node makes
      the memoized item unusable, and otherwise the item is handed out. */
  lemma AllStartingCyclesGuarded<T>(m: map<NodeId, Entry<T>>, nodeId: NodeId, item: T, pc: PartitionedCycles, ancestors: seq<NodeId>)
    requires |pc.cyclesStartWithThisNode| > 0
    ensures var r := GetMemoizedItem(nodeId, ancestors, MemoizedAllCycles(m, nodeId, item, pc));
      (r.None? <==> exists a, i :: a in ancestors && 0 <= i < |pc.cyclesStartWithThisNode| && a in pc.cyclesStartWithThisNode[i]) &&
      (r.Some? ==> r.value == item)
  {
    var cs := pc.cyclesStartWithThisNode;
    var r := GetMemoizedItem(nodeId, ancestors, MemoizedAllCycles(m, nodeId, item, pc));
    if r.None? {
      var a :| a in ancestors && a in CycleNodeIds(cs);
      var i, v :| 0 <= i < |cs| && v in cs[i] && v == a;
    } else {
      forall a, i | a in ancestors && 0 <= i < |cs|
        ensures a !in cs[i]
      {
        assert a !in CycleNodeIds(cs);
      }
    }
  }
}

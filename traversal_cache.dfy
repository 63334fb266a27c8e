/** A cache of per-node results kept by a graph traversal, with the memoization
    policy for nodes on cycles. */
module TraversalCaches {
  import opened Wrappers
  import opened Graphs
  import opened LegacyCycles
  import opened Memoization

  class TraversalCache<T> {
    /** The private `map` field. */
    var cache: map<NodeId, Entry<T>>

    constructor ()
      ensures cache == map[]
    {
      cache := map[];
    }

    /** `set`: with no cycle information the item is cached unguarded; otherwise
        the memoization policy decides (guarded by the first cycle starting at the
        node, unguarded outside cycles, skipped inside other nodes' cycles). */
    method Set(nodeId: NodeId, item: T, partitionedCycles: Option<PartitionedCycles>)
      modifies this
      ensures partitionedCycles.None? ==> cache == old(cache)[nodeId := Entry(item, None)]
      ensures partitionedCycles.Some? ==> cache == Memoized(old(cache), nodeId, item, partitionedCycles.value)
      ensures partitionedCycles.None? ==> forall ancestors :: Get(nodeId, ancestors) == Some(item)
      ensures forall k, ancestors :: k != nodeId ==> Get(k, ancestors) == old(Get(k, ancestors))
    {
      if partitionedCycles.None? {
        cache := cache[nodeId := Entry(item, None)];
        return;
      }
      var pc := partitionedCycles.value;
      if |pc.cyclesStartWithThisNode| > 0 {
        var cycleNodeIds := SpreadIntoSet(pc.cyclesStartWithThisNode);
        cache := cache[nodeId := Entry(item, Some(cycleNodeIds))];
      } else if |pc.cyclesWithThisNode| == 0 {
        cache := cache[nodeId := Entry(item, None)];
      }
    }

    /** `get`: nothing for an unknown node or when an ancestor lies on the stored
        cycle; the cached item otherwise. Reading never changes the cache. */
    function Get(nodeId: NodeId, ancestors: seq<NodeId>): (r: Option<T>)
      reads this
      ensures r.None? <==> (nodeId !in cache ||
        (cache[nodeId].cycleNodeIds.Some? && exists a :: a in ancestors && a in cache[nodeId].cycleNodeIds.value))
      ensures r.Some? ==> r.value == cache[nodeId].item
    {
      GetMemoizedItem(nodeId, ancestors, cache)
    }
  }
}

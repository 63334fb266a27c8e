/** The legacy dependency-tree walk's memoization: the same policy as the generic
    helpers, with the stored item being a dependency tree. */
module LegacyMemoization {
  import opened Wrappers
  import opened Graphs
  import opened LegacyCycles
  import opened Memoization

  datatype TargetOS = TargetOS(name: string, version: string)

  /** A legacy dependency tree; name and version may be missing. */
  datatype DepTree = DepTree(name: Option<string>, version: Option<string>,
                             dependencies: Option<map<string, DepTree>>, targetOS: Option<TargetOS>)

  /** `memoize`: stores `depTree` for `nodeId` in the caller's map, guarded by the
      first cycle starting at the node, unguarded when the node is in no cycle,
      and not at all when it only lies inside cycles started elsewhere. */
  method MemoizeDepTree(nodeId: NodeId, memoizationMap: MemoizationMap<DepTree>, depTree: DepTree,
                        partitionedCycles: PartitionedCycles)
    modifies memoizationMap
    ensures memoizationMap.entries == Memoized(old(memoizationMap.entries), nodeId, depTree, partitionedCycles)
    ensures partitionedCycles.cyclesStartWithThisNode == [] && partitionedCycles.cyclesWithThisNode != [] ==>
      memoizationMap.entries == old(memoizationMap.entries)
    ensures forall k :: k != nodeId ==> (k in memoizationMap.entries <==> k in old(memoizationMap.entries))
  {
    Memoize(nodeId, memoizationMap, depTree, partitionedCycles);
  }

  /** `getMemoizedDepTree`: nothing for an unknown node or when an ancestor lies
      on the stored cycle; the stored tree otherwise. */
  function GetMemoizedDepTree(nodeId: NodeId, ancestors: seq<NodeId>, memoizationMap: map<NodeId, Entry<DepTree>>): (r: Option<DepTree>)
    ensures r.None? <==> (nodeId !in memoizationMap ||
      (memoizationMap[nodeId].cycleNodeIds.Some? && exists a :: a in ancestors && a in memoizationMap[nodeId].cycleNodeIds.value))
    ensures r.Some? ==> r.value == memoizationMap[nodeId].item
  {
    GetMemoizedItem(nodeId, ancestors, memoizationMap)
  }
}

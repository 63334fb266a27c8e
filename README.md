# dep-graph, modelled in Dafny

This project models the core of `dep-graph`, the library that represents the
dependencies of a software project as a directed graph. Every node of the graph
is one occurrence of a package (a name and a version). It carries optional node
information (labels) and lists the nodes it depends on. A distinguished root
node stands for the project itself. The model covers both implementations in
the repository:

- The TypeScript library:
  - `DepGraphBuilder` (adding package nodes and connecting them);
  - `DepGraphImpl` (lookups, paths up to the root and their count, `equals`, the JSON form);
  - `createFromJSON`'s validation of a document, `validateGraph`, and `compactJSON`;
  - the rewrites `pruneGraph`, `mapToNonCyclicGraph`, `filterNodesFromGraph`, `filterPackagesFromGraph` and `createChangedPackagesGraph`;
  - the cycle tools `cutCycles` and `reconnectCycles` with their edge-token codec;
  - the graph algorithms the library relies on: graphlib's `dfs`, `postorder`, `topsort`, `isAcyclic` and the `findCycle` search;
  - the memoization and traversal-cache helpers (current and legacy), `InternalSet` and the index helpers.
- The Go port (`go/pkg/depgraph`):
  - `DepGraph` with `BuildGraph`, `GetRootPkg`, `GetPkg`, `GetPathsToPkg` and its `findPath` search;
  - the `Builder` over insertion-ordered maps.

A graph is a value here (`Graphs.Graph`, `DepGraphs.DepGraph`): nodes in insertion
order, one label per node, and successor and predecessor lists in edge order.
Objects that the source updates in place become classes whose methods state their
new state:
- the builder, `InternalSet`, the traversal cache and the index record;
- the graph's path-count cache;
- the Go `DepGraph` and `Builder`.

Loops become methods with invariants. Each is proved against a function on values
(`PruneWalk.Walk`, `NonCyclicWalk.Walk`, `FilterWalk.Expand`, `GoPaths.Find`, ...),
and the properties the library promises are proved about those functions:
- a rewrite keeps exactly the reachable nodes;
- cycles are removed;
- cutting then reconnecting cycles gives the graph back;
- a path search finds a path exactly when one exists.

A thrown `Error`, a Go `error` and a Go `panic` all become values (`Wrappers.Result`,
`Option<string>`), carrying the source's messages.

## Model

| member | source | states |
|---|---|---|
| Types.PkgIdSplitsAtLastAt | src/core/dep-graph.ts:16-18 | when the version holds no `@`, the id's last `@` sits right after the name |
| Types.PkgIdInjective | src/core/dep-graph.ts:16-18 | when no version holds `@`, two packages share an id exactly when they share name and version text |
| Types.MissingAndEmptyVersionCollide | src/core/dep-graph.ts:17 | a missing version and an empty one give the same id, `name@` |
| Strings.IntToString | src/cycles/edges.ts:4 | the template rendering of an index is non-empty, made of digits and a minus sign |
| Strings.ParseIntSkipsBlanks | src/cycles/edges.ts:9 | `parseInt(" 3", 0)` is 3: leading blanks are skipped |
| Strings.ParseIntHex | src/cycles/edges.ts:9 | `parseInt("-0x1A", 0)` is -26: radix 0 reads hexadecimal after `0x`, after the sign |
| Strings.ParseIntBareHex | src/cycles/edges.ts:9 | `parseInt("0x", 0)` is NaN |
| Strings.ParseIntStops | src/cycles/edges.ts:9 | `parseInt("3x", 0)` is 3: reading stops at the first non-digit |
| Strings.ParseIntOfIntToString | src/cycles/edges.ts:3-10 | parsing inverts the decimal rendering of every integer |
| Strings.IndexOf | src/cycles/edges.ts:8 | the first position where the separator occurs, or none when it never does |
| Strings.Split | src/cycles/edges.ts:8 | splitting gives at least one piece |
| Strings.SplitJoin | src/cycles/cut-cycles.ts:48-50 | splitting on a character a list joined by that character gives the list back when no element holds it (`join()` then `split(',')` in src/cycles/reconnect-cycles.ts:18) |
| Strings.LexLessIrreflexive | src/cycles/reconnect-cycles.ts:18 | the code-point order on text is irreflexive |
| Strings.LexLessTransitive | src/cycles/reconnect-cycles.ts:18 | the code-point order on text is transitive |
| Strings.LexLessTotal | src/cycles/reconnect-cycles.ts:18 | any two different texts are ordered one way or the other |
| Sorting.Sort | src/core/dep-graph.ts:274-275 | the sort returns a permutation of its input |
| Sorting.SortSorted | src/core/dep-graph.ts:274-275 | under a strict weak order the result is sorted |
| Sorting.SortedUnique | src/cycles/reconnect-cycles.ts:18 | two sorted arrangements of the same elements agree when the order ranks every two different elements |
| OrderedMaps.OMap.Get | src/core/dep-graph.ts:101 | a value exactly when the key is stored, and then the stored value |
| OrderedMaps.OMap.Set | src/core/builder.ts:68 | stores the value; a new key goes last in the listing, an existing one keeps its place |
| OrderedMaps.OMap.Values | src/core/dep-graph.ts:51 | the values in key-insertion order |
| OrderedMaps.OMap.ValuesIn | src/core/dep-graph.ts:51 | the values listed are exactly the values stored |
| Graphs.FindIndex | src/cycles/cut-cycles.ts:25-27 | the first position of the target, or -1 exactly when it is absent |
| Graphs.Graph.Successors | src/core/dep-graph.ts:109 | `successors(v)`: exactly the targets of v's edges, undefined for an unknown node |
| Graphs.Graph.Predecessors | src/core/dep-graph.ts:117 | `predecessors(v)`: exactly the sources of edges into v, undefined for an unknown node |
| Graphs.Graph.SetNode | src/core/builder.ts:72 | `setNode` relabels a known node or appends a new one, and changes no edge |
| Graphs.Graph.SetEdge | src/core/builder.ts:86 | `setEdge` between known nodes adds exactly that edge, once |
| Graphs.Graph.Sinks | src/graphlib/alg/topsort.ts:24 | `sinks()`: exactly the nodes without successors |
| Graphs.NewNodeValid | src/core/builder.ts:72 | appending a new node without edges keeps the graph well formed |
| Graphs.NewEdgeValid | src/core/builder.ts:86 | adding a missing edge on both ends' lists keeps the graph well formed |
| Graphs.MirrorAcyclic | src/graphlib/alg/topsort.ts:14-24 | reversing every edge neither creates nor removes cycles |
| Builders.NewGraph | src/core/builder.ts:26-48 | a new builder holds one node, `root-node`, owned by the given root package (or `_root@0.0.0` when none is given); the graph is valid |
| Builders.RootGraph | src/core/builder.ts:43 | setting the root node on an empty graph gives a valid graph with that node alone and no edges |
| Builders.RootOnly | src/core/builder.ts:39-44 | a graph of the root node alone, with its package stored under its id, is a valid dependency graph whose root package is that package |
| Builders.AddPkgNodeTo | src/core/builder.ts:55-74 | fails exactly when the node id is the root node id, with the source's message; otherwise stores the package under its id, (re)labels the node with that package and info, appends a new node id at the end, adds the node to its package's node set and leaves the edges alone |
| Builders.JoinPkgKnown | src/core/builder.ts:69-72 | after adding a node, every node listed under a package still exists in the graph |
| Builders.JoinPkgListed | src/core/builder.ts:69-72 | after adding a node, every node is still listed under its own package |
| Builders.AddPkgNodeValid | src/core/builder.ts:66-72 | adding a non-root node keeps the dependency graph valid |
| Builders.KeyedSet | src/core/builder.ts:68 | storing a package under its id keeps every package stored under its own id |
| Builders.ConnectDepIn | src/core/builder.ts:77-88 | fails exactly when parent or child is missing, with the source's message for each; otherwise adds exactly the edge parent → child and keeps validity |
| Builders.ConnectTwice | src/core/builder.ts:86 | connecting the same pair twice equals connecting it once (the graph is not a multigraph) |
| Builders.DepGraphBuilder.constructor | src/core/builder.ts:26-48 | the builder's state is `NewGraph` of its arguments |
| Builders.DepGraphBuilder.RootNode | src/core/builder.ts:9-11 | the root node id is `root-node` and is a node of the graph |
| Builders.DepGraphBuilder.GetPkgs | src/core/builder.ts:50-52 | every stored package, in the order its id was first stored |
| Builders.DepGraphBuilder.AddPkgNode | src/core/builder.ts:55-74 | updates the state as `AddPkgNodeTo`, leaving it unchanged on failure, and keeps the builder valid |
| Builders.DepGraphBuilder.ConnectDep | src/core/builder.ts:77-88 | updates the state as `ConnectDepIn`, leaving it unchanged on failure, and keeps the builder valid |
| Builders.DepGraphBuilder.Build | src/core/builder.ts:90-98 | a fresh graph object over the builder's state, valid, with an empty count cache |
| CompactJson.ReplaceAll | src/utils/index.ts:32-36 | each dependency equal to the old id becomes the new id; every other stays as it was, in place |
| CompactJson.Renamed | src/utils/index.ts:27-37 | every node is renamed in place: the node called `fromId` takes the new id (its own dependencies left alone), every other node has its dependencies on `fromId` rewritten |
| CompactJson.RenameDeps | src/utils/index.ts:32-36 | the loop over one node's dependencies computes `ReplaceAll` |
| CompactJson.RenameNode | src/utils/index.ts:26-38 | `renameNode` mutates the node array into `Renamed` of its old contents |
| CompactJson.CompactJSON | src/utils/index.ts:8-24 | `compactJSON` mutates the node array into `Compacted` of its old contents: the root keeps its id, the first node of a package is renamed to the package id, the n-th further one to `pkgId|n` |
| CompactJson.CountsAtCount | src/utils/index.ts:9-22 | after k nodes, a package has a counter exactly when one of its non-root nodes was seen, and the counter is that number minus one |
| CompactJson.CompactKeepsShape | src/utils/index.ts:8-24 | whatever the ids, compacting keeps the node count and order, each node's package, info and number of dependencies, and the root's id |
| CompactJson.CompactNames | src/utils/index.ts:16-22 | when no generated name clashes with an existing id, the root keeps its id and every other node gets its generated name |
| CompactJson.SigmaInjective | src/utils/index.ts:16-22 | with distinct generated names, the finished renaming is one-to-one on node ids |
| CompactJson.CompactEdges | src/utils/index.ts:26-38 | with fresh, distinct names and known dependencies, node i depends on node j after compacting exactly when it did before (except a node's dependency on itself when own dependencies are skipped) |
| CompactJson.SelfLoopLeftDangling | src/utils/index.ts:28-31 | a node depending on itself keeps its old id among its dependencies, which no node carries any more; rewriting its own dependencies too keeps the self-loop |
| ChangedPackages.PkgIds | src/core/create-changed-packages-graph.ts:21-23 | the set of ids of A's dependency packages: every package's id is in it and every id in it is some package's id |
| ChangedPackages.KeepNew | src/core/create-changed-packages-graph.ts:25-27 | keeps exactly the packages whose id is not in the given set |
| ChangedPackages.ChangedPkgs | src/core/create-changed-packages-graph.ts:21-27 | a package is changed exactly when it is a dependency package of B and no dependency package of A has its id |
| ChangedPackages.GetNodeInfo | src/core/create-changed-packages-graph.ts:88-97 | the node's info, or nothing exactly when the info is missing or empty |
| ChangedPackages.AddChangedNode | src/core/create-changed-packages-graph.ts:39-52 | copies one changed node into the builder and queues an entry per parent; fails exactly when the node is `root-node` |
| ChangedPackages.AddPkgNodes | src/core/create-changed-packages-graph.ts:36-53 | copies every node of one package, queuing their parents; fails exactly when one of them is `root-node` |
| ChangedPackages.AddPackage | src/core/create-changed-packages-graph.ts:36 | fails with `getPkgNodeIds`'s error when the package is not in B; otherwise as `AddPkgNodes` on its nodes |
| ChangedPackages.AddChangedNodes | src/core/create-changed-packages-graph.ts:35-54 | the first loop succeeds exactly when every changed package is in B and none of their nodes is `root-node`; then every changed node is copied and every (parent, node) pair queued |
| ChangedPackages.LinkVisitedParent | src/core/create-changed-packages-graph.ts:61-65 | a parent already visited is linked to its child; the queue invariant is kept |
| ChangedPackages.AddNewParent | src/core/create-changed-packages-graph.ts:67-82 | a new parent is marked visited, copied, linked to its child and its own parents queued; the queue invariant is kept |
| ChangedPackages.PopParent | src/core/create-changed-packages-graph.ts:60-83 | one iteration of the second loop keeps the queue invariant |
| ChangedPackages.DrainQueue | src/core/create-changed-packages-graph.ts:57-83 | when the queue is empty every copied node and edge is B's, every parent of a copied non-root node is copied and linked, and every changed node is copied; it cannot fail when B's root is `root-node` |
| ChangedPackages.CreateChangedPackagesGraph | src/core/create-changed-packages-graph.ts:15-86 | fails when a changed package's nodes cannot be listed or one is `root-node`; otherwise a fresh valid graph rooted at `root-node` whose nodes, edges and labels are B's, holding every changed node and, for each non-root node, all its parents and the edges to them |
| ChangedPackages.ChangedExactly | src/core/create-changed-packages-graph.ts:9-10 | the result's node set is the least set holding the root and the changed nodes that is closed under taking parents of non-root nodes (the induced subgraph the doc comment promises) |
| ChangedPackages.OnlyRootInA | src/core/create-changed-packages-graph.ts:21-39 | when A has no dependency packages, every package of B is changed and every non-root-package node of B is in the result |
| ChangedPackages.KeepNewNone | src/core/create-changed-packages-graph.ts:25-27 | filtering against an empty id set keeps every package |
| CreateFromJson.PkgCheck | src/core/create-from-json.ts:36-42 | one package entry passes exactly when it is present, named, and keyed `root` or `name@version`; otherwise the message of the first assertion that fails |
| CreateFromJson.PkgsCheck | src/core/create-from-json.ts:35-43 | the package loop passes exactly when every listed entry passes; a failure is the failure of some entry |
| CreateFromJson.PkgsCheckIff | src/core/create-from-json.ts:35-43 | over the full key listing, the package loop passes exactly when every package entry is well formed |
| CreateFromJson.DepCheck | src/core/create-from-json.ts:54-56 | one dependency passes exactly when its checks hold (as written: no node is keyed `[object Object]`; by node id: it is not `root` and names a node) |
| CreateFromJson.DepsCheck | src/core/create-from-json.ts:52-57 | a node's dependency loop passes exactly when every dependency passes |
| CreateFromJson.NodeCheck | src/core/create-from-json.ts:48-57 | one node passes exactly when only the node `root` has package `root`, its package exists and its dependencies pass |
| CreateFromJson.NodesCheck | src/core/create-from-json.ts:47-58 | the node loop passes exactly when every listed node passes |
| CreateFromJson.NodesCheckIff | src/core/create-from-json.ts:47-58 | over the full key listing, the node loop passes exactly when every node is well formed |
| CreateFromJson.CheckNodes | src/core/create-from-json.ts:46-58 | the imperative node loop computes `NodesCheck` and, when it passes, the set of package ids seen is exactly the set the nodes use |
| CreateFromJson.SeenSizeIff | src/core/create-from-json.ts:59-60 | the count of package ids seen equals the number of packages exactly when every package has a node |
| CreateFromJson.NodesReachableFrom | src/core/create-from-json.ts:62-74 | the recursive walk returns a superset of what it was given plus the start, holding only nodes reachable from the start, and closed under dependencies; it throws (reading `.deps` of undefined) exactly on reaching a missing node |
| CreateFromJson.VisitDeps | src/core/create-from-json.ts:68-72 | the loop over one node's dependencies keeps the same guarantees |
| CreateFromJson.ReachableFromRoot | src/core/create-from-json.ts:76 | the walk from `root` fails exactly when it can reach a missing node, and otherwise returns exactly the nodes reachable from `root` |
| CreateFromJson.ReachSizeIff | src/core/create-from-json.ts:76-77 | the reached count equals the number of nodes exactly when every node is reachable from `root` |
| CreateFromJson.HeaderCheck | src/core/create-from-json.ts:21-32 | the assertions before the loops pass exactly when the header is well formed, and fail with the first failing assertion's message, in the source's order |
| CreateFromJson.SchemaVersionExamples | src/core/create-from-json.ts:7-22 | `2.0.0` and `2.9.9` satisfy `^2.0.0`; `1.0.1` and `3.0.0` do not |
| CreateFromJson.CheckContents | src/core/create-from-json.ts:34-77 | the checks after the header compute the ordered outcome `ContentsExpected` |
| CreateFromJson.ExpectedPassIff | src/core/create-from-json.ts:20-78 | the ordered checks pass exactly when every condition they test holds |
| CreateFromJson.ValidateDepGraphData | src/core/create-from-json.ts:20-78 | passes exactly when the document is well formed, and otherwise fails with the message of the first check that does not hold |
| CreateFromJson.NodesUsePkgs | src/core/create-from-json.ts:51 | when the node loop passes, every node's package exists |
| CreateFromJson.BackToRootAccepted | src/core/create-from-json.ts:52-57 | as written, a document whose node `a` depends back on `root` passes every check; the checks by node id reject it with `"root" is not really the root` |
| CreateFromJson.ByNodeIdDepsKnown | src/core/create-from-json.ts:52-57 | with the checks by node id, a passing document names only existing, non-root nodes as dependencies, so the walk from the root never meets a missing node |
| GraphMaps.NodesMapOf | src/cycles/get-graph-maps.ts:20-23 | the node map has exactly the ids of the list as keys |
| GraphMaps.NodesMapEntries | src/cycles/get-graph-maps.ts:20-23 | every entry is keyed by its own id, and the last node with an id is its entry (`Map.set` replaces) |
| GraphMaps.EdgesMapOf | src/cycles/get-graph-maps.ts:25-32 | the edge map is an insertion-ordered map over the same ids |
| GraphMaps.DistinctNodesMap | src/cycles/get-graph-maps.ts:20-32 | with distinct ids, both maps list the ids in list order and node i is the entry of its id in both, its edges being its dependency ids |
| GraphMaps.PkgsInfoOf | src/cycles/get-graph-maps.ts:34-37 | the package map has exactly the listed ids as keys |
| GraphMaps.PkgsInfoOfLast | src/cycles/get-graph-maps.ts:34-37 | the last entry with an id decides its package |
| GraphMaps.GraphMapsKeys | src/cycles/get-graph-maps.ts:16-32 | both maps of a graph list its nodes, in graph order |
| GraphMaps.GraphMapsAt | src/cycles/get-graph-maps.ts:16-32 | each node's entries are its JSON form and its successor list |
| GraphMaps.GraphMapsPkgs | src/cycles/get-graph-maps.ts:34-37 | the package map holds every package of the graph under its id |
| GraphMaps.GraphMapsCoherent | src/cycles/get-graph-maps.ts:16-40 | the maps of a graph agree with each other: every node keyed by its id, edges equal to its dependencies, without repeats and to known nodes, and its package known |
| Edges.BuildEdge | src/cycles/edges.ts:3-5 | the token is the decimal index, then the first `@@`, then the target |
| Edges.SplitBuildEdge | src/cycles/edges.ts:3-10 | splitting undoes building for every integer index, negative ones included, when the target holds no `@@` |
| Edges.SecondDelimiterLost | src/cycles/edges.ts:8 | a target holding `@@` comes back cut at its first `@@` |
| Splice.RestoredInfo | src/cycles/reconnect-cycles.ts:21-27 | deletes the label, then `labels` when left empty, then the info itself when no field is left |
| Splice.DropOnlyLabel | src/cycles/reconnect-cycles.ts:22 | the labels are empty after the deletion exactly when the removed-edge label was the only one |
| Splice.RestoreCutInfo | src/cycles/reconnect-cycles.ts:17-28 | deleting the label gives back the info cutting started from, when it held no such label and no empty `labels` |
| Splice.EmptyLabelsLost | src/cycles/reconnect-cycles.ts:22-24 | an empty `labels` object does not survive the round trip |
| Splice.SpliceAll | src/cycles/reconnect-cycles.ts:52 | splicing each token in turn grows the list by one per token |
| Splice.SortedTokens | src/cycles/reconnect-cycles.ts:50-51 | the parsed tokens, sorted by index, as a permutation of the parsed list |
| Splice.SpliceRestores | src/cycles/reconnect-cycles.ts:47-52 | splicing back, in index order, the tokens cutting recorded into the list without those targets restores the list |
| Replay.AddAllValid | src/core/builder.ts:55-74 | replaying `addPkgNode` for non-root entries keeps a graph valid |
| Replay.AddAllKeys | src/core/builder.ts:72 | the nodes after adding are the nodes before and the entries' nodes |
| Replay.AddAllLabels | src/core/builder.ts:66-72 | each node's label is the one from its last entry |
| Replay.AddAllPkgs | src/core/builder.ts:68 | `addPkgNode` stores each package under its id, so replaying entries whose packages come from a map stores only that map's packages |
| Replay.ConnectAllValid | src/core/builder.ts:77-88 | replaying `connectDep` between existing nodes keeps a graph valid |
| Replay.ConnectAllSucc | src/core/builder.ts:86 | after replaying pairs, each node's successors are the old ones followed by its new targets, each once, in pair order |
| Replay.TargetsOfEdgePairs | src/cycles/cut-cycles.ts:59-65 | replaying an edge map connects each listed node to exactly its list |
| CutCycles.HasCycles | src/cycles/cut-cycles.ts:9 | `hasCycles()` holds exactly when some cycle is reachable from the root |
| CutCycles.GetCycle | src/cycles/cut-cycles.ts:70-72 | no cycle is found exactly when none is reachable from `root-node`; a found one is a cycle of the edge lists |
| CutCycles.Without | src/cycles/cut-cycles.ts:22 | filtering keeps, in order, exactly the targets that are not removed |
| CutCycles.CutOne | src/cycles/cut-cycles.ts:18-31 | one turn removes the cycle's closing edge from its first node's list and records its `index@@to` token; the loop invariant is kept and the number of edges drops |
| CutCycles.CutEdges | src/cycles/cut-cycles.ts:14-36 | the `while (cycle)` loop ends with no cycle reachable from `root-node`, having removed only recorded edges |
| CutCycles.CutNodeInfo | src/cycles/cut-cycles.ts:44-51 | a node with removed edges gets a copy of its info whose labels gain `removed-cyclic-deps`, the comma-joined tokens, keeping every other label; a node without loses its info (as written) or keeps it (corrected) |
| CutCycles.AddCutNodes | src/cycles/cut-cycles.ts:41-57 | the node loop re-adds every node but `root-node` with its package and re-added info |
| CutCycles.ConnectEdges | src/cycles/cut-cycles.ts:59-65 | the edge loop connects every remaining edge, in order |
| CutCycles.CutMaps | src/cycles/cut-cycles.ts:12-36 | the graph's maps, and the edge lists with the cycles cut and no cycle left reachable from `root-node` |
| CutCycles.BuildCut | src/cycles/cut-cycles.ts:38-67 | the rebuilt graph: rooted at `root-node` with the root package, the same nodes, each with its package and re-added info, each keeping its successors except the ones cut, and no cycle reachable |
| CutCycles.CutCycles | src/cycles/cut-cycles.ts:8-68 | returns the graph itself when no cycle is reachable from the root, and otherwise the rebuilt graph `BuildCut` describes, with nodes without removed edges losing their info |
| CutCycles.CutCyclesKeepingInfo | src/cycles/cut-cycles.ts:8-68 | the same, with the info of nodes without removed edges kept |
| ReconnectCycles.RestoreEntries | src/cycles/reconnect-cycles.ts:14-34 | the `addPkgNode` calls of the node loop: every node but `root-node`, with the label deleted |
| ReconnectCycles.Gathered | src/cycles/reconnect-cycles.ts:17-20 | `edgesToReconnect`: each node with the label gets its sorted tokens pushed onto its list |
| ReconnectCycles.RestoreNodes | src/cycles/reconnect-cycles.ts:14-34 | the node loop re-adds every node as `RestoreEntries` says and gathers the tokens as `Gathered` says |
| ReconnectCycles.CopyEdges | src/cycles/reconnect-cycles.ts:36-45 | a new map holding a copy of every edge list, under the same keys in the same order |
| ReconnectCycles.SpliceTokens | src/cycles/reconnect-cycles.ts:49-52 | splitting, sorting by index and splicing every token's target in at its index; the list grows by one per token |
| ReconnectCycles.SpliceKey | src/cycles/reconnect-cycles.ts:48-52 | one key's list, created empty when missing, gets its tokens spliced in |
| ReconnectCycles.SpliceEdges | src/cycles/reconnect-cycles.ts:47-57 | the loop over `edgesToReconnect` computes `SpliceKeys` |
| ReconnectCycles.ConnectOrFail | src/cycles/reconnect-cycles.ts:59-65 | connects every target of every list in order; fails with `depNodeId does not exist` exactly when some target is not a node |
| ReconnectCycles.FinalList | src/cycles/reconnect-cycles.ts:36-57 | a node without the label ends with its own successors |
| ReconnectCycles.RestoreAndSplice | src/cycles/reconnect-cycles.ts:7-57 | a fresh builder holding the restored nodes and every node's final list |
| ReconnectCycles.FinalLists | src/cycles/reconnect-cycles.ts:36-57 | every node's final list |
| ReconnectCycles.ReconnectCycles | src/cycles/reconnect-cycles.ts:6-68 | fails exactly when some spliced target is not a node; otherwise a fresh graph in which every label is deleted and every removed target is back at its recorded index |
| RoundTrip.KeptNodeBack | src/cycles/cut-cycles.ts:44-52 | with the info kept, a node without removed edges is re-added with its info unchanged and no label |
| RoundTrip.DroppedInfoNotReadBack | src/cycles/cut-cycles.ts:44-52 | as written, a node with info and no dependencies is re-added without it, so it is not read back |
| RoundTrip.CutNodeReadsBack | src/cycles/reconnect-cycles.ts:14-57 | a node other than `root-node` is read back from the cut graph: its package, its info once the label is deleted, and its dependencies once the tokens are spliced in |
| RoundTrip.CutReadsBack | src/cycles/cut-cycles.ts:8-68 | everything the cut graph holds is read back, except removed dependencies of `root-node`, which carries no label |
| RoundTrip.CutFromRoot | src/cycles/cut-cycles.ts:42 | only dependencies of the root are cut from it and none of its cycles remain |
| RoundTrip.SelfLoopCut | src/cycles/cut-cycles.ts:17-31 | a self-loop on the root cannot survive when no cycle is reachable from it |
| RoundTrip.AcyclicReadsBack | src/cycles/cut-cycles.ts:9-11 | a graph without a cycle, returned unchanged, is read back whole |
| RoundTrip.CutCyclesReadBack | src/cycles/cut-cycles.ts:8-68 | whatever `cutCycles` returns is read back, losing only a self-loop on the root |
| RoundTrip.CutThenReconnect | src/cycles/reconnect-cycles.ts:6-68 | `reconnectCycles(cutCycles(g))` does not fail and has the nodes of `g` with the same packages, info and dependencies in order, except that `root-node` loses its self-loop if it has one; node order is `g`'s with `root-node` first; the package manager is `g`'s; every stored package is `g`'s package under that id, and the package map equals `g`'s when every package of `g` is some node's |
| RoundTrip.CutKeepsPkgs | src/cycles/cut-cycles.ts:38-39 | `cutCycles` passes the package manager on, and stores only packages of its input under their own ids |
| RoundTrip.ReconnectKeepsPkgs | src/cycles/reconnect-cycles.ts:11-12 | `reconnectCycles` passes the package manager on, and stores only packages of its input under their own ids |
| RoundTrip.RoundTripPkgs | src/core/dep-graph.ts:206-220 | the `pkgManager` field of the round trip's `toJSON()` is `g`'s, its packages are `g`'s, and the package map is `g`'s whole when every package is used by a node |
| RoundTrip.SamePkgs | src/core/builder.ts:66-72 | a rebuilt graph that holds the nodes of `g` with their package ids and only packages of `g` holds all of them when every package of `g` is some node's |
| Dfs.ValidAdjClosed | src/graphlib/alg/dfs.ts:17 | in a well-formed graph every successor has a successor list of its own, so the walk never asks about an unknown node |
| Dfs.DoDfs | src/graphlib/alg/dfs.ts:31-45 | `doDfs` visits only nodes reachable from `v`, only extends the accumulated list, and puts `v` first (pre-order) or last (post-order) of what it adds when `v` was new |
| Dfs.VisitChildren | src/graphlib/alg/dfs.ts:38-40 | after the loop over the successors every successor is visited, and everything newly visited is reachable from `v` |
| Dfs.Enter | src/graphlib/alg/dfs.ts:32-37 | entering a node marks it visited and, in pre-order only, records it |
| Dfs.Dfs | src/graphlib/alg/dfs.ts:12-29 | fails with `Graph does not have node: v` exactly when a start node is unknown; otherwise lists each node reachable from a start node exactly once, and in post-order every successor before its node unless it is on the path being explored |
| Dfs.DfsOver | src/graphlib/alg/dfs.ts:12-29 | the same result over successor lists: an error exactly for an unknown start node, otherwise the reachable nodes without repeats |
| Dfs.Postorder | src/graphlib/alg/postorder.ts:4-6 | `postorder` lists exactly the reachable nodes once each, in post-order, and fails exactly on an unknown start node |
| Dfs.ClosedWalkNotAcyclic | src/graphlib/alg/dfs.ts:31-45 | a closed walk of at least one edge is a cycle |
| Dfs.PostOrderedAcyclic | src/graphlib/alg/postorder.ts:4-6 | in a graph without cycles post-order lists every successor of a node before the node |
| Topsort.Visit | src/graphlib/alg/topsort.ts:10-22 | `visit` throws only when the graph has a cycle; otherwise it marks the node visited, leaves the stack as it found it, only appends to the results, and keeps every result after its predecessors |
| Topsort.TopSort | src/graphlib/alg/topsort.ts:5-31 | `topsort` throws `CycleException` only on a graph with a cycle; otherwise it lists every node exactly once, each after all its predecessors |
| Topsort.TopSortFrom | src/graphlib/alg/topsort.ts:5-31 | the same over predecessor lists and the list of sinks |
| Topsort.SameSizeSubset | src/graphlib/alg/topsort.ts:26 | a visited set as large as the node set is the node set, which is what the size comparison relies on |
| Topsort.UnvisitedCyclic | src/graphlib/alg/topsort.ts:26-28 | when the walks from the sinks leave a node unvisited, the graph has a cycle |
| Topsort.UnvisitedWalk | src/graphlib/alg/topsort.ts:26-28 | from an unvisited node there is a successor walk of any length |
| Topsort.TopologicalAcyclic | src/graphlib/alg/topsort.ts:5-31 | a graph whose nodes can all be listed each after its predecessors has no cycle |
| Topsort.Position | src/graphlib/alg/topsort.ts:20 | the first position of a node in the results |
| Topsort.IsAcyclic | src/graphlib/alg/is-acyclic.ts:4-14 | `isAcyclic` is true exactly when the graph has no directed cycle |
| FindCycles.FindCycle | src/cycles/find-cycles.ts:4-42 | `findCycle` returns null exactly when no cycle is reachable from the start node; otherwise a cycle reachable from it, without repeats, listed against the edge direction; a cycle through the start node itself is a self-loop |
| FindCycles.CycleOnStack | src/cycles/find-cycles.ts:29-32 | when a child is already on the stack, the stack from it to the top, reversed, is a cycle reachable from the start node |
| FindCycles.ReversedSuffixCycle | src/cycles/find-cycles.ts:32 | the reversed stack suffix from the re-entered node is a cycle |
| FindCycles.NoCycleWhenFinished | src/cycles/find-cycles.ts:41 | when the stack empties every node reached from the start is finished in an order that decreases along edges, so no cycle is reachable |
| FindCycles.StackIsWalk | src/cycles/find-cycles.ts:34-38 | each stacked node is a child of the node below it |
| FindCycles.Pop | src/cycles/find-cycles.ts:22-27 | an exhausted iterator pops both stacks and deletes the node's index, keeping the search's invariant and shrinking the work left |
| FindCycles.Skip | src/cycles/find-cycles.ts:34 | a child already visited and not on the stack is passed over, keeping the invariant |
| FindCycles.Push | src/cycles/find-cycles.ts:35-38 | an unvisited child is marked visited, indexed at the stack height and pushed with a fresh iterator, keeping the invariant |
| FindCycles.CycleStep | src/cycles/find-cycles.ts:29-32 | the returned reversed slice is a cycle reachable from the start, and a single node when it re-enters the start |
| FindCycles.EndStep | src/cycles/find-cycles.ts:41 | a search that empties its stack has seen every cycle-free walk from the start |
| ValidateGraph.LexLessOrder | src/core/validate-graph.ts:21 | the default `sort()` order on node ids is a strict weak order |
| ValidateGraph.DistinctCount | src/core/validate-graph.ts:21 | a list without repeats holds each id at most once |
| ValidateGraph.SortedEqualIffSameIds | src/core/validate-graph.ts:21 | two lists of distinct ids sort to the same text exactly when they hold the same ids |
| ValidateGraph.ReachListCoversIff | src/core/validate-graph.ts:18-22 | the post-order list from the root covers every node exactly when every node is reachable from the root |
| ValidateGraph.ExpectedPassIff | src/core/validate-graph.ts:11-33 | the checks in order pass exactly when each check holds |
| ValidateGraph.ReachCheck | src/core/validate-graph.ts:18-22 | comparing the sorted walk with the sorted node ids answers whether every node is reachable from the root; an unknown root throws from the walk |
| ValidateGraph.ReachCheckOver | src/core/validate-graph.ts:18-22 | the same comparison over successor lists |
| ValidateGraph.Validate | src/core/validate-graph.ts:11-33 | `validateGraph` passes exactly when the root has no predecessor, is known, reaches every node, every package has a node and the root package has exactly one; otherwise it fails with the message of the first failing check, and a root package missing from the node index throws reading `size` |
| Types.GetPkgId | src/core/dep-graph.ts:16-18 | the id is the name, `@`, then the version or empty text |
| DepGraphs.DepGraph.RootPkg | src/core/dep-graph.ts:59-61 | the package stored under the root node's package id |
| DepGraphs.DepGraph.GetPkgs | src/core/dep-graph.ts:67-69 | every stored package, one per package id, and nothing else |
| DepGraphs.DepGraph.GetDepPkgs | src/core/dep-graph.ts:71-73 | every stored package except the one under the root's package id |
| DepGraphs.PkgsOtherThan | src/core/dep-graph.ts:52 | the packages under the listed ids, leaving out exactly the one under the root id |
| DepGraphs.DepGraph.GetGraphNode | src/core/dep-graph.ts:305-311 | the node's label exactly when the node exists, otherwise `no such node: <id>` |
| DepGraphs.DepGraph.GetNode | src/core/dep-graph.ts:90-92 | the node's info, the empty info exactly when it has none, and the error for a missing node |
| DepGraphs.DepGraph.GetNodePkg | src/core/dep-graph.ts:94-96 | the package stored under the node's package id, and the error for a missing node |
| DepGraphs.DepGraph.GetPkgNodeIds | src/core/dep-graph.ts:98-106 | fails with `no such pkg: <id>` exactly when the package is not stored; otherwise distinct existing nodes, including every node of the package |
| DepGraphs.DepGraph.GetPkgNodes | src/core/dep-graph.ts:75-88 | one info per node of the package (empty when it has none); reading an unknown package throws |
| DepGraphs.DepGraph.GetNodeDepsNodeIds | src/core/dep-graph.ts:108-114 | exactly the successors of an existing node, otherwise `no such node: <id>` |
| DepGraphs.DepGraph.GetNodeParentsNodeIds | src/core/dep-graph.ts:116-122 | exactly the predecessors of an existing node, otherwise `no such node: <id>` |
| DepGraphs.ValidPredClosed | src/core/dep-graph.ts:116-122 | in a valid graph every predecessor is itself a node |
| DepGraphs.PathsSound | src/core/dep-graph.ts:313-337 | every path `pathsFromNodeToRoot` produces starts at the node, climbs parents never taken from the seen set or earlier on the path, and ends at a node without parents |
| DepGraphs.PathsComplete | src/core/dep-graph.ts:313-337 | every such path is produced |
| DepGraphs.PathsExactly | src/core/dep-graph.ts:313-337 | the produced paths are exactly the paths of that shape |
| DepGraphs.PathRepeatsOnlyAdjacent | src/core/dep-graph.ts:324-328 | a node repeats on a path only right after itself, through a self-loop (the node is added to the seen set only for its parents) |
| DepGraphs.SelfLoopPath | src/core/dep-graph.ts:324-328 | with `a` depending on itself, the path `[a, a, root]` is produced |
| DepGraphs.PathsSeenIrrelevant | src/core/dep-graph.ts:324 | in a graph without cycles the seen-set filter never removes a parent |
| DepGraphs.AllPathsExactly | src/core/dep-graph.ts:126-132 | the paths gathered over a package's nodes are exactly the paths of that shape from one of them |
| DepGraphs.PkgPathsToRoot | src/core/dep-graph.ts:124-136 | fails for an unknown package; otherwise the package paths of all its nodes, sorted shortest first, as a permutation of the gathered list |
| DepGraphs.ShorterThanOrder | src/core/dep-graph.ts:135 | the length comparator is a strict weak order |
| DepGraphs.CountSound | src/core/dep-graph.ts:339-368 | in a graph without cycles and with a sound cache, `countNodePathsToRoot` returns the number of paths to the root and leaves the cache sound |
| DepGraphs.CountAllSound | src/core/dep-graph.ts:138-145 | the same for the sum over a list of nodes sharing the cache |
| DepGraphs.CountMatchesPaths | src/core/dep-graph.ts:124-145 | in a graph without cycles, `countPathsToRoot(pkg)` equals the number of paths `pkgPathsToRoot(pkg)` returns |
| DepGraphs.CacheStaleOnCycles | src/core/dep-graph.ts:343-366 | with the cycle a ⇄ b, counting from `a` caches 1 for `b`, while `b` has two paths to the root |
| DepGraphs.CountFreshExact | src/core/dep-graph.ts:339-368 | counted without the cache, a node has exactly as many paths to the root as `pathsFromNodeToRoot` lists, in every graph, cyclic ones included |
| DepGraphs.SimplePathsSound | src/core/dep-graph.ts:313-337 | with the current node also filtered from its parents, every path listed starts at the node, climbs parent by parent to a node without parents, and never repeats a node |
| DepGraphs.SelfLoopSimple | src/core/dep-graph.ts:324-328 | with that filter, a node that is its own parent gets the single path `[a, root]` |
| DepGraphs.SortedDeps | src/core/dep-graph.ts:262-275 | the dependencies sorted by package id are as many as before, all nodes |
| DepGraphs.NodeEq | src/core/dep-graph.ts:224-303 | when true, the pair agrees on package and info (unless it is a skipped root pair); the recorded keys only grow |
| DepGraphs.NodeEquals | src/core/dep-graph.ts:224-303 | the recursive comparison with its set of traversed pair keys computes `NodeEq` |
| DepGraphs.JsonNodeOf | src/core/dep-graph.ts:188-203 | a node's JSON form: its id, package id and successors, and its info exactly when not empty |
| DepGraphs.ToJSON | src/core/dep-graph.ts:185-222 | schema version `1.2.0`, the package manager, the root id, the nodes in graph order in their JSON form, and the packages in id order |
| DepGraphs.HitReaches | src/core/dep-graph.ts:179-180 | a dependency's postorder walk meets a package node exactly when the dependency reaches one |
| DepGraphs.DepGraphImpl.constructor | src/core/dep-graph.ts:36-53 | the graph object over the given data, with an empty count cache |
| DepGraphs.DepGraphImpl.CountNodePathsToRoot | src/core/dep-graph.ts:339-368 | returns the count and updates the cache as `CountNode` does |
| DepGraphs.DepGraphImpl.CountNodesPathsToRoot | src/core/dep-graph.ts:139-143 | the loop adds up the counts of the listed nodes in order, as `CountAll` does |
| DepGraphs.DepGraphImpl.CountPathsToRoot | src/core/dep-graph.ts:138-145 | fails for an unknown package, leaving the cache alone; otherwise the sum over the package's nodes |
| DepGraphs.DepGraphImpl.Equals | src/core/dep-graph.ts:147-173 | `nodeEquals` from both roots with no pair traversed |
| DepGraphs.DepGraphImpl.DirectDepsLeadingTo | src/core/dep-graph.ts:175-183 | fails for an unknown package; otherwise the packages of the root's direct dependencies, in order, from which a node of the package can be reached |
| NodeEquality.AllAgreeEquals | src/core/dep-graph.ts:224-303 | when every pair reached by pairing sorted dependencies agrees, `nodeEquals` answers true |
| NodeEquality.SelfEquals | src/core/dep-graph.ts:147-173 | a graph equals itself, with or without the root compared |
| NodeEquality.EqualsAllAgree | src/core/dep-graph.ts:279-299 | when the pair keys name pairs one-to-one, a true answer means every pair reached agrees |
| NodeEquality.PlainKeysInjective | src/core/dep-graph.ts:279 | when the first graph's ids hold no `_`, a `_`-joined key names one pair |
| NodeEquality.NodeEqualsPlain | src/core/dep-graph.ts:224-303 | for such ids, `nodeEquals` is true exactly when every pair reached agrees |
| NodeEquality.NodeEqualsByPairs | src/core/dep-graph.ts:224-303 | with the pair itself as the key, `nodeEquals` is true exactly when every pair reached agrees, for any ids |
| NodeEquality.KeysCollide | src/core/dep-graph.ts:279 | `a` with `b_c` and `a_b` with `c` get the same key |
| NodeEquality.CollideAsWritten | src/core/dep-graph.ts:279-286 | on the two collision graphs, `nodeEquals` answers true |
| NodeEquality.CollideDiffers | src/core/dep-graph.ts:245-251 | yet a pair reached there differs in its info |
| NodeEquality.KeyCollisionEquals | src/core/dep-graph.ts:279-286 | as written the two different graphs are equal; keyed by pairs they are not |
| PruneWalk.PrunedId | src/core/prune-graph.ts:39 | `${nodeId}_pruned` is recognised as a pruned id, names the node it came from, and is never the root id |
| PruneWalk.NonEmptyInfo | src/core/prune-graph.ts:29-31 | node information with no keys becomes undefined; any other information is kept as it is |
| PruneWalk.MarkPruned | src/core/prune-graph.ts:40-46 | the pruned copy's information carries `pruned: 'true'`, keeps every other label and the version provenance |
| PruneWalk.AddUnder | src/core/prune-graph.ts:51-54 | without a parent nothing is added; under a parent the node is added and joined, and the two builder calls succeed exactly when the id is not the root's and the parent is known |
| PruneWalk.AddUnderGrows | src/core/prune-graph.ts:51-54 | the two builder calls only add, and on success the one new edge is from the parent to the node |
| PruneWalk.Walk | src/core/prune-graph.ts:20-65 | `dfsBuildGraph` on the builder's state: the state only grows, keeps its root, and the shared deduplication set only gains ids |
| PruneWalk.WalkDeps | src/core/prune-graph.ts:56-64 | the loop over the dependencies: the root hands each direct dependency a fresh set, below it the set is shared |
| PruneWalk.AddUnderSound | src/core/prune-graph.ts:51-54 | adding an input node or a pruned copy of one under an input parent keeps every node and edge of the copy traceable to the input |
| PruneWalk.WalkSound | src/core/prune-graph.ts:20-65 | the walk leaves a well-formed graph that grows, with every node and edge coming from the input or its pruned copies |
| PruneWalk.WalkDepsSound | src/core/prune-graph.ts:56-64 | the same for the loop over the dependencies |
| PruneWalk.AddUnderKeepsRoot | src/core/prune-graph.ts:52 | the builder never overrides the root node's label |
| PruneWalk.WalkKeepsRoot | src/core/prune-graph.ts:20-65 | the walk keeps the root node's label |
| PruneWalk.WalkDepsKeepsRoot | src/core/prune-graph.ts:56-64 | the loop over the dependencies keeps the root node's label |
| PruneWalk.AncestorPlain | src/core/prune-graph.ts:33-36 | an edge back to an ancestor is kept as it is |
| PruneWalk.PrunedPlain | src/core/prune-graph.ts:38-48 | a node met again below the same direct dependency of the root is replaced by its pruned copy, joined to the parent |
| PruneWalk.EnterPlain | src/core/prune-graph.ts:49-54 | a node met for the first time is added and joined to its parent |
| PruneWalk.WalkPlain | src/core/prune-graph.ts:20-65 | on an input whose root is `root-node` and whose ids are non-empty and not pruned, the walk never fails and joins every entered node to its parent directly or through a pruned copy |
| PruneWalk.WalkDepsPlain | src/core/prune-graph.ts:56-64 | the same for the loop over the dependencies: every dependency ends up joined |
| PruneWalk.DoneComplete | src/core/prune-graph.ts:15 | when every node in the copy has its dependencies joined, every node reachable from the root is in the copy with all its edges |
| PruneWalk.PruneSound | src/core/prune-graph.ts:6-18 | the walk from the root of a new builder leaves a copy whose nodes and edges come from the input, with the input's root package at `root-node` |
| PruneWalk.PrunePlain | src/core/prune-graph.ts:6-18 | on a plain input the walk succeeds, keeps every reachable node and edge, and pruned copies have no dependencies |
| PruneGraph.DfsBuildGraph | src/core/prune-graph.ts:20-65 | the builder ends in the state the walk computes and hands back the shared deduplication set |
| PruneGraph.AddAndConnect | src/core/prune-graph.ts:51-54 | the two builder calls leave the state `AddUnder` computes |
| PruneGraph.VisitDeps | src/core/prune-graph.ts:56-64 | the `for` loop over the dependencies leaves the state the walk computes |
| PruneGraph.VisitDep | src/core/prune-graph.ts:57-63 | one turn of the loop is the walk of that dependency |
| PruneGraph.PruneGraph | src/core/prune-graph.ts:6-18 | `pruneGraph` returns a new graph rooted at `root-node` with the input's root package, whose nodes and edges come from the input; on a plain input it succeeds, keeps every reachable node and edge, and pruned copies are leaves |
| NonCyclicWalk.NodeInfoOf | src/legacy/map-to-non-cylic-graph.ts:43 | `getNode` hands out the node's information, or `{}` when it has none |
| NonCyclicWalk.IdFor | src/legacy/map-to-non-cylic-graph.ts:46-47 | an ancestor met again gets the pruned id of itself; any other node keeps its id |
| NonCyclicWalk.Walk | src/legacy/map-to-non-cylic-graph.ts:33-80 | `dfsBuildGraph` on the builder's state: the state keeps its root and the memoization set only gains ids |
| NonCyclicWalk.WalkDeps | src/legacy/map-to-non-cylic-graph.ts:65-74 | the loop over the dependencies, with one memoization set shared by every call |
| NonCyclicWalk.WalkEnters | src/legacy/map-to-non-cylic-graph.ts:60-76 | a node neither an ancestor nor memoized is added, its dependencies walked, and then it is memoized |
| NonCyclicWalk.WalkStops | src/legacy/map-to-non-cylic-graph.ts:46-58 | an ancestor or a memoized node is added (a cyclic leaf for an ancestor) and nothing below it is walked |
| NonCyclicWalk.AddUnderEdges | src/legacy/map-to-non-cylic-graph.ts:60-63 | joining a node to an input parent along an input edge, or to the cyclic leaf of its target, keeps every edge traceable |
| NonCyclicWalk.AddUnderNodes | src/legacy/map-to-non-cylic-graph.ts:61 | adding an input node, or the cyclic leaf of one, keeps every node traceable |
| NonCyclicWalk.WalkValid | src/legacy/map-to-non-cylic-graph.ts:33-80 | the walk keeps the builder's graph well formed and only adds |
| NonCyclicWalk.WalkDepsValid | src/legacy/map-to-non-cylic-graph.ts:65-74 | the same for the loop over the dependencies |
| NonCyclicWalk.WalkEdges | src/legacy/map-to-non-cylic-graph.ts:33-80 | the walk adds only edges of the input or edges to cyclic leaves |
| NonCyclicWalk.WalkDepsEdges | src/legacy/map-to-non-cylic-graph.ts:65-74 | the same for the loop over the dependencies |
| NonCyclicWalk.WalkNodes | src/legacy/map-to-non-cylic-graph.ts:33-80 | the walk adds only input nodes with their package and information, or cyclic leaves labelled `pruned: 'cyclic'` |
| NonCyclicWalk.WalkDepsNodes | src/legacy/map-to-non-cylic-graph.ts:65-74 | the same for the loop over the dependencies |
| NonCyclicWalk.CyclicLeafPlain | src/legacy/map-to-non-cylic-graph.ts:46-55 | re-entering an ancestor adds its cyclic leaf, joined to the parent |
| NonCyclicWalk.MemoizedPlain | src/legacy/map-to-non-cylic-graph.ts:56-58 | a memoized node is only joined to its new parent |
| NonCyclicWalk.EnterPlain | src/legacy/map-to-non-cylic-graph.ts:60-63 | a node met for the first time is added and joined to its parent |
| NonCyclicWalk.WalkPlain | src/legacy/map-to-non-cylic-graph.ts:33-80 | on an input whose root is `root-node` and whose ids are non-empty and not pruned, the walk never fails and joins every entered node to its parent directly or through its cyclic leaf |
| NonCyclicWalk.WalkDepsPlain | src/legacy/map-to-non-cylic-graph.ts:65-74 | the same for the loop over the dependencies |
| NonCyclicWalk.WalkFlow | src/legacy/map-to-non-cylic-graph.ts:65-76 | on a plain input every node is memoized or still being walked, and every edge added leaves a node not yet memoized |
| NonCyclicWalk.WalkDepsFlow | src/legacy/map-to-non-cylic-graph.ts:65-74 | the same for the loop over the dependencies |
| NonCyclicWalk.WalkRanked | src/legacy/map-to-non-cylic-graph.ts:76 | on a plain input each node is memoized after everything it leads to, so ranks fall along every edge |
| NonCyclicWalk.WalkDepsRanked | src/legacy/map-to-non-cylic-graph.ts:65-76 | the same for the loop over the dependencies |
| NonCyclicWalk.StartDerived | src/legacy/map-to-non-cylic-graph.ts:15-19 | a new builder's state holds only the root node and no edge |
| NonCyclicWalk.MapDerived | src/legacy/map-to-non-cylic-graph.ts:15-30 | the walk from the root leaves a well-formed graph rooted at `root-node` whose nodes and edges come from the input or are cyclic leaves |
| NonCyclicWalk.MapPlain | src/legacy/map-to-non-cylic-graph.ts:15-30 | on a plain input the walk succeeds and keeps every reachable node and edge, directly or through a cyclic leaf |
| NonCyclicWalk.MapAcyclic | src/legacy/map-to-non-cylic-graph.ts:15-30 | on a plain input the graph built has no cycle |
| NonCyclicWalk.RankedAcyclic | src/legacy/map-to-non-cylic-graph.ts:76 | a graph whose ranks fall along every edge has no cycle |
| MapToNonCyclic.DfsBuildGraph | src/legacy/map-to-non-cylic-graph.ts:33-80 | the builder ends in the state the walk computes and hands back the memoization set |
| MapToNonCyclic.VisitDeps | src/legacy/map-to-non-cylic-graph.ts:65-74 | the `for` loop over the dependencies leaves the state the walk computes |
| MapToNonCyclic.VisitDep | src/legacy/map-to-non-cylic-graph.ts:66-73 | one turn of the loop is the walk of that dependency |
| MapToNonCyclic.MapToNonCyclicGraph | src/legacy/map-to-non-cylic-graph.ts:7-31 | a graph without cycles is returned as it is; otherwise a new graph rooted at `root-node` holding only input nodes, input edges and cyclic leaves, which on a plain input is built without error, keeps every reachable node and edge, and has no cycle |
| FilterWalk.Cut | src/core/filter-from-graph.ts:62-73 | the edges the walk follows: a listed node leads nowhere, every other node keeps its dependencies |
| FilterWalk.NoWayBack | src/core/filter-from-graph.ts:59-78 | when no cycle is reachable from the root, no edge out of a reached node leads back to it |
| FilterWalk.Descend | src/core/filter-from-graph.ts:73-77 | a dependency of a visited, unlisted node is visited too, with fewer nodes below it, so the stack empties |
| FilterWalk.Expand | src/core/filter-from-graph.ts:60-77 | popping `[v, parent]`: a listed node is skipped; any other is added under a truthy parent and its dependencies are walked in their own order; the builder's state keeps its root |
| FilterWalk.ExpandDeps | src/core/filter-from-graph.ts:73-77 | the dependencies of a node from one position on, each walked below it |
| FilterWalk.Count | src/core/filter-from-graph.ts:59-78 | the number of pops the walk of a node takes is at least one |
| FilterWalk.Pushed | src/core/filter-from-graph.ts:75-77 | pushing the dependencies pairs each, in order, with the node as parent |
| FilterWalk.PushedStep | src/core/filter-from-graph.ts:73-77 | pushing the reversed dependencies puts the next dependency on top |
| FilterWalk.StackDeps | src/core/filter-from-graph.ts:73-77 | pushing the reversed dependencies and running the stack walks them in their own order, then what was below |
| FilterWalk.CountPushed | src/core/filter-from-graph.ts:73-77 | the pairs pushed for the dependencies account for exactly the pops of their walks |
| FilterWalk.StackStart | src/core/filter-from-graph.ts:50-57 | the loop starts with the root alone on the stack without a parent, and running it is the whole walk |
| FilterWalk.ExpandValid | src/core/filter-from-graph.ts:60-77 | the walk keeps the builder's graph well formed and only adds |
| FilterWalk.ExpandDepsValid | src/core/filter-from-graph.ts:73-77 | the same for the dependencies |
| FilterWalk.AddUnderEdges | src/core/filter-from-graph.ts:69-70 | adding an unlisted node under its visited, unlisted parent adds only an input edge |
| FilterWalk.AddUnderNodes | src/core/filter-from-graph.ts:64-69 | adding a visited, unlisted node keeps every node an input node with its package and information |
| FilterWalk.ExpandEdges | src/core/filter-from-graph.ts:60-77 | the walk adds only input edges between visited, unlisted nodes |
| FilterWalk.ExpandDepsEdges | src/core/filter-from-graph.ts:73-77 | the same for the dependencies |
| FilterWalk.ExpandNodes | src/core/filter-from-graph.ts:60-77 | the walk adds only visited, unlisted input nodes with their package and information |
| FilterWalk.ExpandDepsNodes | src/core/filter-from-graph.ts:73-77 | the same for the dependencies |
| FilterWalk.CoveredGrows | src/core/filter-from-graph.ts:73-77 | what is covered stays covered as the graph grows |
| FilterWalk.CoveredNext | src/core/filter-from-graph.ts:75-77 | covering the next dependency extends the covered prefix |
| FilterWalk.CoverUp | src/core/filter-from-graph.ts:60-77 | a node whose dependencies are all covered and joined covers everything reachable from it |
| FilterWalk.ExpandCovers | src/core/filter-from-graph.ts:60-77 | on an input whose root is `root-node` and whose ids are non-empty, the walk never fails, joins each unlisted node to its parent and covers everything reachable below it |
| FilterWalk.ExpandDepsCovers | src/core/filter-from-graph.ts:73-77 | the same for the dependencies: all of them end up covered and joined |
| FilterWalk.FilterKeepsOnly | src/core/filter-from-graph.ts:50-80 | the rebuilt graph is well formed, rooted at `root-node`, and holds only input nodes and edges between visited, unlisted nodes |
| FilterWalk.FilterKeepsAll | src/core/filter-from-graph.ts:50-80 | on a plain input the walk never fails and, unless the root is listed, keeps every unlisted node reachable without passing a listed one, with its edges to unlisted nodes |
| FilterFromGraph.KeepExisting | src/core/filter-from-graph.ts:44-47 | keeps exactly the listed ids the graph holds |
| FilterFromGraph.Existing | src/core/filter-from-graph.ts:44-48 | the listed nodes of the graph; empty exactly when the filtered list is |
| FilterFromGraph.AcyclicWalkable | src/core/filter-from-graph.ts:59-78 | on a graph with no cycle reachable from the root the loop ends whatever is listed |
| FilterFromGraph.FilterNodesFromGraph | src/core/filter-from-graph.ts:37-81 | `filterNodesFromGraph` returns the input itself when none of the listed ids is in the graph; otherwise a new graph that is the walk's result, and an error exactly when the builder throws |
| FilterFromGraph.Pop | src/core/filter-from-graph.ts:59-78 | one turn of the loop: the rest of the walk is unchanged by it, the stack still names visited nodes, and the pops left fall |
| FilterFromGraph.PushAll | src/core/filter-from-graph.ts:75-77 | the loop pushes one pair per dependency, in order |
| FilterFromGraph.FilterNodesMeaning | src/core/filter-from-graph.ts:37-81 | the rebuilt graph holds only visited, unlisted input nodes and edges, and on a plain input the build succeeds and keeps all of them |
| FilterFromGraph.Matching | src/core/filter-from-graph.ts:15-24 | the non-root packages that match a filter by name, or by name and version |
| FilterFromGraph.PkgNodeIdsMeaning | src/core/filter-from-graph.ts:26-32 | the gathering fails exactly on a package the graph does not hold; otherwise it lists only graph nodes, and every node of each package |
| FilterFromGraph.GatherStep | src/core/filter-from-graph.ts:27-31 | gathering from one package on is that package's ids followed by the rest |
| FilterFromGraph.PushIds | src/core/filter-from-graph.ts:29-31 | the inner loop appends the package's ids in order |
| FilterFromGraph.GatherNodeIds | src/core/filter-from-graph.ts:26-32 | the nested loops gather what `PkgNodeIdsOf` describes |
| FilterFromGraph.FilterPackagesFromGraph | src/core/filter-from-graph.ts:7-35 | with no filter the input is returned; an unknown package's error is passed on; otherwise the result is `filterNodesFromGraph` on the nodes of the matching packages |
| FilterFromGraph.PkgFilterMeaning | src/core/filter-from-graph.ts:7-35 | every node left out belongs to a matching non-root package, and every node of such a package is left out |
| Helpers.SetAdd | src/core/helpers.ts:7 | `Set.add` holds the old members and the new one; a member already there changes nothing, a new one goes last |
| Helpers.IndexAdd | src/core/helpers.ts:3-8 | after `addToIndex` the key's set holds the value and the values it held before, and no other key changes; a missing key gets a set of the value alone |
| Helpers.IndexAddIdempotent | src/core/helpers.ts:3-8 | adding a value already present leaves the index as it was, so adding twice is adding once |
| Helpers.IndexRecord.constructor | src/core/helpers.ts:1 | a new index is empty |
| Helpers.IndexRecord.AddToIndex | src/core/helpers.ts:3-8 | updates the index in place to `IndexAdd` of the old one |
| InternalSets.InternalSet.constructor | src/core/InternalSet.ts:4-7 | a new set holds exactly the keys of the old set, or none, in state of its own |
| InternalSets.InternalSet.Add | src/core/InternalSet.ts:9-12 | `add(k)` sets `k` to `true`, leaves every other key's answer unchanged and returns the set itself |
| InternalSets.InternalSet.Has | src/core/InternalSet.ts:14-16 | `has(k)` is truthy exactly for an added key, and `undefined` for any other |
| InternalSets.CopyIsIndependent | src/core/InternalSet.ts:4-12 | a copy is a different object: adding to it leaves the original's keys as they were |
| TraversalCaches.TraversalCache.constructor | src/core/traversal-cache.ts:20 | a new cache is empty |
| TraversalCaches.TraversalCache.Set | src/core/traversal-cache.ts:22-37 | without cycle information the item is cached unguarded and read back under any ancestors; with it, the memoization policy decides; no other node's answer changes |
| TraversalCaches.TraversalCache.Get | src/core/traversal-cache.ts:39-50 | nothing exactly for an unknown node or when an ancestor lies in the stored cycle ids; otherwise the stored item |
| Memoization.MemoizationMap.constructor | src/utils/memoization.ts:5-15 | a new map is empty |
| Memoization.Memoized | src/utils/memoization.ts:17-31 | memoizing changes no entry but the node's own |
| Memoization.Memoize | src/utils/memoization.ts:17-31 | `memoize` writes the caller's map in place to the map `Memoized` describes |
| Memoization.SomeIn | src/utils/memoization.ts:43-45 | `ancestors.some(a => ids.has(a))` holds exactly when an ancestor is in the ids |
| Memoization.GetMemoizedItem | src/utils/memoization.ts:33-48 | nothing for an unknown node; the item when it has no cycle ids; otherwise nothing exactly when an ancestor is among them |
| Memoization.GetAfterMemoizePlain | src/utils/memoization.ts:27-41 | a node in no cycle is memoized unguarded and read back under any ancestors |
| Memoization.GetAfterMemoizeGuarded | src/utils/memoization.ts:24-47 | a node that starts a cycle is read back unless an ancestor lies on the first cycle starting there |
| Memoization.MemoizeInsideCycle | src/utils/memoization.ts:27-30 | a node inside cycles started elsewhere is not memoized |
| Memoization.GetOtherAfterMemoize | src/utils/memoization.ts:17-31 | memoizing one node never changes what is read back for another |
| Memoization.SpreadKeepsFirstCycleOnly | src/utils/memoization.ts:25 | with the cycles n→a→n and n→b→n both starting at n, the item is still handed out under the ancestor b |
| Memoization.MemoizedAllCycles | src/utils/memoization.ts:23-30 | the guard built from every cycle that starts at the node changes no entry but the node's own |
| Memoization.AllStartingCyclesGuarded | src/utils/memoization.ts:10-47 | with that guard the item is refused exactly when an ancestor lies on any cycle starting at the node |
| LegacyMemoization.MemoizeDepTree | src/legacy/memiozation.ts:18-32 | stores the dependency tree by the same policy, leaving other nodes' entries alone and skipping nodes inside other nodes' cycles |
| LegacyMemoization.GetMemoizedDepTree | src/legacy/memiozation.ts:34-49 | nothing exactly for an unknown node or when an ancestor lies in its stored cycle ids; otherwise the stored tree |
| LegacyCycles.GetCycle | src/legacy/cycles.ts:11-18 | no cycle exactly when the node is not an ancestor; otherwise the ancestors from the node's first occurrence to the end |
| LegacyCycles.SuffixWalk | src/legacy/cycles.ts:17 | a suffix of an ancestor walk is a walk |
| LegacyCycles.GetCycleCloses | src/legacy/cycles.ts:11-18 | when the ancestors are a walk whose last node leads to the node, the cycle followed by the node is a closed walk |
| LegacyCycles.GetCycleDistinct | src/legacy/cycles.ts:17 | on ancestors without repeats the cycle has no repeats |
| LegacyCycles.Starting | src/legacy/cycles.ts:28-30 | exactly the cycles whose first entry is the node |
| LegacyCycles.NotStarting | src/legacy/cycles.ts:31-33 | exactly the cycles whose first entry is not the node |
| LegacyCycles.PartitionComplete | src/legacy/cycles.ts:20-36 | every cycle lands in exactly one of the two lists: together they are a rearrangement of the input |
| LegacyCycles.PartitionCycles | src/legacy/cycles.ts:20-36 | the loop pushes each cycle onto the list for cycles starting at the node, or onto the other one, in order |
| GoPaths.Find | go/pkg/depgraph/depgraph.go:181-206 | `findPath`: the one-node path when start is the end, nothing for a node already visited, otherwise the first path found through the dependencies in order; the visited set only grows and a path stays inside the graph |
| GoPaths.FindIn | go/pkg/depgraph/depgraph.go:193-203 | the loop over a node's dependencies: the first dependency from which a path is found decides, and the visited set carries over from one to the next |
| GoPaths.FindWalks | go/pkg/depgraph/depgraph.go:181-206 | a path `findPath` returns starts at the start node, ends at the end node and follows dependency edges |
| GoPaths.FindClosed | go/pkg/depgraph/depgraph.go:181-206 | when `findPath` finds nothing, every node it visited has all its dependencies visited too, so the end is not reachable from it |
| GoPaths.FindIffReachable | go/pkg/depgraph/depgraph.go:181-206 | from an empty visited set, `findPath` finds a path exactly when the end node is reachable from the start node, and the path is a walk between them |
| GoPaths.PathsTo | go/pkg/depgraph/depgraph.go:167-176 | the loop of `GetPathsToPkg`: one search per node of the package, each with a fresh visited set, keeping the paths that were found, in order |
| GoPaths.PathsToReachable | go/pkg/depgraph/depgraph.go:167-176 | the result holds one path for each node of the package that is reachable from the root, in the package's node order, each a walk from the root to that node |
| GoDepGraph.IdIndex | go/pkg/depgraph/depgraph.go:208-217 | the table built by the loop maps ids only to positions inside the list |
| GoDepGraph.IdIndexSpec | go/pkg/depgraph/depgraph.go:208-217 | a repeated id ends up at its last position, as the map assignment in the loop overwrites earlier entries |
| GoDepGraph.FirstPkg | go/pkg/depgraph/depgraph.go:136-146 | a package is found exactly when one with that id is listed, and it is the first such |
| GoDepGraph.FirstPkgIsFirst | go/pkg/depgraph/depgraph.go:136-146 | no earlier listed package carries the id of the package found |
| GoDepGraph.RootPkgFound | go/pkg/depgraph/depgraph.go:113-134 | the root package is found exactly when some node carrying the root node id names a listed package |
| GoDepGraph.RootPkgLast | go/pkg/depgraph/depgraph.go:113-134 | the search keeps going after a match, so the package found is the first package of the last node carrying the root node id |
| GoDepGraph.PkgIdPaths | go/pkg/depgraph/depgraph.go:170-175 | each path of node positions becomes the list of the package ids of those nodes, same length, same order |
| GoDepGraph.AddOwners | go/pkg/depgraph/depgraph.go:236-239 | each package's list of nodes gains, in order, the positions of the nodes that name it |
| GoDepGraph.KeptIff | go/pkg/depgraph/depgraph.go:219-240 | the node table keeps a node exactly when no later node has its id |
| GoDepGraph.OwnersOfPkg | go/pkg/depgraph/depgraph.go:219-240 | the nodes recorded for a package are exactly those naming it, in increasing position |
| GoDepGraph.PkgNodesMeaning | go/pkg/depgraph/depgraph.go:219-240 | after indexing, `pkg.nodes` of a package lists exactly the nodes of that package, in order |
| GoDepGraph.NodeDepsMeaning | go/pkg/depgraph/depgraph.go:242-250 | after indexing a graph whose dependencies resolve, `node.deps` of a kept node lists in order the nodes its dependencies name; a shadowed node has none |
| GoDepGraph.ResolveDeps | go/pkg/depgraph/depgraph.go:243-249 | the inner loop: every dependency resolved in order, or the first dependency the node table does not know |
| GoDepGraph.LinkDepsLoop | go/pkg/depgraph/depgraph.go:242-250 | the loop succeeds exactly when every dependency of every kept node names a node, and then yields the resolved lists; otherwise it reports the first dangling dependency |
| GoDepGraph.IndexNodesLoop | go/pkg/depgraph/depgraph.go:221-240 | the first loop of `indexNodes`: it fails on the first node whose package is unknown, otherwise yields the node table and each package's node list |
| GoDepGraph.New | go/pkg/depgraph/depgraph.go:80-87 | a new graph is empty: no packages, no nodes, no root node id and none of the tables built |
| GoDepGraph.UnmarshalJSON | go/pkg/depgraph/depgraph.go:89-103 | after decoding, the graph is accepted exactly when every node names a known package and every dependency a node; the error is prefixed with "invalid graph: "; an accepted graph has all its tables built |
| GoDepGraph.DepGraph.constructor | go/pkg/depgraph/depgraph.go:9-78 | a graph holding the given fields, cached root package and package table, with no node table, no root node and empty per-package and per-node lists |
| GoDepGraph.DepGraph.GetRootPkg | go/pkg/depgraph/depgraph.go:113-134 | the cached root package when there is one; otherwise the package of the last node with the root node id, which is then cached |
| GoDepGraph.DepGraph.GetPkg | go/pkg/depgraph/depgraph.go:136-146 | an error before the package table exists; otherwise the package exactly when the table holds its id |
| GoDepGraph.DepGraph.IndexPkgs | go/pkg/depgraph/depgraph.go:208-217 | an existing package table is kept; otherwise the table maps every package id to its last position |
| GoDepGraph.DepGraph.IndexNodes | go/pkg/depgraph/depgraph.go:219-253 | success exactly when every node names a known package and every dependency a node; then the node table, each package's node list and each node's dependency list are built; otherwise the first failure's message |
| GoDepGraph.DepGraph.BuildGraph | go/pkg/depgraph/depgraph.go:148-154 | the tables are built as `indexPkgs` and `indexNodes` build them; a failure is reported with the prefix "failed to build graph: " |
| GoDepGraph.DepGraph.FindPath | go/pkg/depgraph/depgraph.go:181-206 | the method's search agrees with the path function, so it inherits its soundness and completeness |
| GoDepGraph.DepGraph.GetPathsToPkg | go/pkg/depgraph/depgraph.go:156-179 | an error before the tables exist, an error naming an unknown package, a nil dereference when the package has nodes but no root node is set; otherwise the package ids along one path per reachable node of the package |
| GoBuilder.PkgIdOf | go/pkg/depgraph/builder.go:159-161 | the id is the name, an `@` and the version, in that order |
| GoBuilder.AddNodeKeeps | go/pkg/depgraph/builder.go:121-139 | adding a new node and its package keeps every node naming a stored package and depending only on stored nodes |
| GoBuilder.SetInfoKeeps | go/pkg/depgraph/builder.go:105-119 | setting a node's info keeps the builder's maps consistent |
| GoBuilder.ConnectKeeps | go/pkg/depgraph/builder.go:141-157 | appending a stored child to a stored parent keeps the builder's maps consistent |
| GoBuilder.ConsistentAccepted | go/pkg/depgraph/builder.go:50-83 | the graph a consistent builder produces is one `indexNodes` accepts: every node's package is known and every dependency names a node |
| GoBuilder.ConsistentAllKept | go/pkg/depgraph/builder.go:50-83 | node ids are distinct in a builder, so no node of the built graph is shadowed |
| GoBuilder.ApplyOpts | go/pkg/depgraph/builder.go:111-118 | the options run in order and the last `WithNodeInfo` decides the node's info |
| GoBuilder.Builder.constructor | go/pkg/depgraph/builder.go:36-45 | the fixed schema version and root node id, and exactly the root package and the root node, which has no dependencies |
| GoBuilder.Builder.AddNodeCore | go/pkg/depgraph/builder.go:121-139 | a node already present is returned and nothing changes; otherwise its package is stored (replacing one with the same id) and a new node without dependencies is appended |
| GoBuilder.Builder.AddNode | go/pkg/depgraph/builder.go:111-119 | `addNode`, after which the options set the info of the returned node, new or existing |
| GoBuilder.Builder.ConnectNodes | go/pkg/depgraph/builder.go:141-157 | an error exactly when the parent or the child is missing, with the parent checked first and the source's messages; otherwise only the parent's dependency list changes, gaining the child at its end |
| GoBuilder.Builder.GetPkgs | go/pkg/depgraph/builder.go:89-97 | the stored packages in insertion order, their ids being the map's keys |
| GoBuilder.Builder.GetRootNode | go/pkg/depgraph/builder.go:99-101 | the root node is always present and names the root package |
| GoBuilder.Builder.Build | go/pkg/depgraph/builder.go:50-83 | a graph with the packages and nodes in insertion order, the root package, and a package table equal to the one `indexPkgs` would build; the graph is one `indexNodes` accepts |
| GoBuilder.NodePkgsStored | go/pkg/depgraph/builder.go:64-71 | every node of a builder names a stored package, so the lookup in `Build`'s loop never yields nil |
| GoBuilder.PkgsAllUsed | go/pkg/depgraph/builder.go:121-139 | every stored package is the package of some node |
| GoBuilder.BuiltTable | go/pkg/depgraph/builder.go:63-80 | the table `Build` fills from the nodes' packages is the table `indexPkgs` would build from the package list |
| GoBuilder.NodeTables | go/pkg/depgraph/builder.go:63-80 | `Build`'s loop: the nodes copied in order, and the package table holding exactly the nodes' packages |
| GoBuilder.NewBuilder | go/pkg/depgraph/builder.go:24-48 | an error exactly when no package manager is given; otherwise a builder whose root package defaults to `_root@unknown` and that holds only the root node |

## Left out

- The event-loop yield (`eventLoopSpinner`) is a no-op for the graph; it is not modelled.
- Aliasing of node information: `toJSON` hands out the stored `info` objects (src/core/dep-graph.ts:199-201). So the label write in `cutCycles` (src/cycles/cut-cycles.ts:46-48) and the label delete in `reconnectCycles` (src/cycles/reconnect-cycles.ts:21) also change the input graph's objects. The model works on values and does not capture this.
- `validatePackageURL` (src/core/builder.ts:64) is not modelled: a package URL is taken as valid.
- `equals` between a `DepGraphImpl` and a foreign graph object rebuilds the other side with `createFromJSON(other.toJSON())` (src/core/dep-graph.ts:153-160). Only the comparison of two graphs of this model is modelled.
- `createFromJSON` itself: only the checks of `validateDepGraphData` are modelled, not the construction that follows them.
- `semver.satisfies(v, '^2.0.0')` (CreateFromJson.SchemaSupported) is reduced to "the text starts with `2.`". Pre-release tags and other semver syntax are not modelled.
- DepGraphs.ByPkgId: `nodeEquals` sorts dependencies with `localeCompare`, which is locale collation (for example "a@1" sorts before "B@1"). The model uses code-point order instead. The results agree whenever the two orders agree on the package ids being compared.
- Strings.LexLess: the default `sort()` (src/cycles/reconnect-cycles.ts:18, src/core/validate-graph.ts:21) and `<` compare strings by UTF-16 code units, while the model compares Unicode code points. The two orders differ only when a text holds a character above U+FFFF, which code units place before the characters U+E000 to U+FFFF. The order of the tokens `Splice.RemovedTokens` reads from a label inherits this difference. The outcome of the sorted comparison in `validateGraph` does not: under either order two lists of distinct ids sort to the same text exactly when they hold the same ids.
- Splice.SortedTokens: a token whose index does not parse (`parseInt` gives `NaN`) is given the key 0. In the source the comparator `a.index - b.index` (src/cycles/reconnect-cycles.ts:50-51) then answers `NaN`, which the sort reads as "equal", so the token is not moved ahead of the others. With three or more tokens such a comparator is not consistent, and ECMAScript leaves the resulting order to the engine. The model's order matches the source whenever every index parses, as it does in every label cutting writes (`Splice.SpliceRestores`). Example: dependencies [x0, x1] with the label "1@@b,x@@a" become [a, x0, b, x1] in the source and [a, b, x0, x1] in the model.
- ReconnectCycles.SpliceTokens inherits the `Splice.SortedTokens` difference for labels holding a token whose index does not parse.
- ReconnectCycles.SpliceKey inherits the `Splice.SortedTokens` difference for labels holding a token whose index does not parse.
- ReconnectCycles.SpliceEdges inherits the `Splice.SortedTokens` difference for labels holding a token whose index does not parse.
- ReconnectCycles.RestoreAndSplice inherits the `Splice.SortedTokens` difference for labels holding a token whose index does not parse.
- ReconnectCycles.FinalLists inherits the `Splice.SortedTokens` difference for labels holding a token whose index does not parse.
- ReconnectCycles.ReconnectCycles inherits the `Splice.SortedTokens` difference for labels holding a token whose index does not parse. For labels written by `cutCycles` every index parses and the round trip is proved (`RoundTrip.CutThenReconnect`).
- graphlib lists integer-like node ids before the others, in numeric order, because it stores nodes as object keys. The model keeps plain insertion order for every id.
- The graphlib `Graph` class itself (graph.ts) is not part of this model. Its behaviour, as the library uses it, is modelled by `Graphs.Graph`.
- PruneGraph.PruneGraph: completeness and the shape of the copy are proved only for `Plain` inputs. `Plain` means the root is `root-node` and no node id is empty or ends in `_pruned`. An input id such as `b_pruned` can collide with a pruned copy of `b`.
- MapToNonCyclic.MapToNonCyclicGraph: acyclicity is proved only for `Plain` inputs, for the same reason. With root→b, b→b_pruned and b_pruned→b, the cyclic leaf of `b` is the existing node `b_pruned`, which keeps its edge to `b`. No corrected naming scheme is modelled, because the source gives no evidence of one.
- FilterFromGraph.FilterNodesFromGraph requires that no cycle is reachable from the root once the filtered nodes are cut. The source's worklist (src/core/filter-from-graph.ts:57-78) keeps no visited set, so on such an input it pushes forever and never returns. A non-terminating run has no result to model.
- FilterFromGraph.FilterPackagesFromGraph carries the same requirement, for the same reason.
- RoundTrip.CutThenReconnect: the promised `reconnectCycles(cutCycles(g)).toJSON()` equal to `g.toJSON()` is proved for the nodes and the package manager, with two exceptions and under some input restrictions. The schema version is a constant of `toJSON`, so it agrees without proof.
  - The first exception: a self-loop on `root-node` is not restored. The root never receives the label that records its cut edges.
  - The second exception concerns the `pkgs` list. Its contents are stated as a map: only packages of `g`, and all of them when every package of `g` is some node's. A package no node uses any more (left behind when its only node was re-added under another package) is not rebuilt. The order of the list is not stated: the rebuilt graph lists the root package first, then each package when its first node is re-added, which matches `g`'s order only when `g` was built that way.
  - The restrictions: the root is `root-node` without node information; packages are stored under their own ids; no node id holds `,` or `@@`; no node already carries a `removed-cyclic-deps` label or an empty label map. Outside these, the token codec or the label write visibly breaks the round trip.
  - The proof uses the corrected `cutCycles` that keeps node information (see Findings).
- DepGraphs.CountMatchesPaths: proved only for graphs without cycles. On cycles the cache is stale (see Findings). The corrected count is DepGraphs.CountFreshExact.
- DepGraphs.DepGraphImpl.CountPathsToRoot keeps the source's cache keyed by node id alone, so its result matches the number of paths only on graphs without cycles.
- Memoization.Memoize keeps the source's `new Set(...cycles)` behaviour, and so do TraversalCaches.TraversalCache.Set and LegacyMemoization.MemoizeDepTree. Only the first cycle starting at the node guards the stored entry. The guard over all cycles is stated separately (see Findings).
- Go JSON decoding and encoding (`json.Decoder`, `MarshalJSON`) are not modelled. GoDepGraph.UnmarshalJSON starts from the decoded fields, so the "could not decode DepGraph" error is not modelled.
- GoDepGraph.DepGraph.IndexNodes: the second loop ranges over the Go map `nodeIdx`, whose iteration order is unspecified. The model visits the kept nodes in slice order.
  - On success the result does not depend on that order.
  - On failure, the order decides which dangling dependency the message names. The model names the first one in slice order.
- GoDepGraph.Quote renders `%q` as the text between double quotes, without Go's escaping of special characters.
- Go pointers into `Pkgs` and `Graph.Nodes` become positions in those slices. Writes through aliased pointers are not modelled. The `pkg` field of a Go `Node` is written by `indexNodes` (go/pkg/depgraph/depgraph.go:238) but never read, so it is left out.
- GoDepGraph.DepGraph.BuildGraph: after a failure, the tables already written are stated only as far as `Valid()` goes. The model does not describe the partially built `nodeIdx` and the deps lists.
- The Go model does not distinguish a nil slice from an empty one.
- The Go `Node.IsPruned` is defined outside depgraph.go and builder.go; it is not part of this model. The Go `Builder.GetPkgManager` (go/pkg/depgraph/builder.go:85-87) returns a field unchanged and is not modelled.
- GoBuilder.Builder.AddNode: node options are modelled as `WithNodeInfo` options only, the only kind the source defines. An arbitrary `func(*Node)` is not modelled.
- Go panics are modelled as error results carrying the panic's message. These are the explicit "prior call to DepGraph.BuildGraph required" panic, and the nil-pointer dereference when `findPath` starts from a missing root node.
- GoBuilder.PkgIdOfInjective holds only when no version contains `@`. `name@version` is ambiguous otherwise.
- GoDepGraph.DepGraph.GetRootPkg: the source caches the address of its loop variable (`&pkg`), a copy of the slice element. The model caches that package's value.

## Findings

| source | as written | input that shows it | evidently intended | confidence | as-written member | corrected member |
|---|---|---|---|---|---|---|
| src/core/dep-graph.ts:279 | `nodeEquals` records a traversed pair as the key `${a}_${b}`, so two different pairs can share one key and the second is skipped | graph A: root → a_b, a; graph B: root → c, b_c, with only b_c carrying a label; every node has the same package. The pairs (a_b, c) and (a, b_c) share the key `a_b_c`, so (a, b_c), whose information differs, is skipped and the graphs compare equal | a key that names one pair | not executed | NodeEquality.KeyCollisionEquals | NodeEquality.NodeEqualsByPairs |
| src/utils/index.ts:28-31 | `renameNode` renames the node called `fromId` and skips its own dependencies | root → x, x (package p) → x: after `compactJSON`, node p lists the dependency x, which no node is called any more | a node's own reference to itself renamed too | not executed | CompactJson.SelfLoopLeftDangling | CompactJson.CompactEdges |
| src/core/create-from-json.ts:52-57 | the dependency checks compare the dependency object with `'root'` and look the object up in `data.graph`, so the first check cannot fail and the second fails only when a node is keyed `[object Object]` | a document whose node a depends on `{nodeId: 'root'}` passes every check | the checks made on the dependency's `nodeId` | not executed | CreateFromJson.BackToRootAccepted | CreateFromJson.ByNodeIdDepsKnown |
| src/cycles/cut-cycles.ts:44-52 | a node without removed edges is re-added with no node information | root-node → a, a → b, b → a, root-node → c, with c carrying the label x: y: the cut graph has c without its label, and reconnecting does not bring it back | keep the information of nodes without removed edges | not executed | RoundTrip.DroppedInfoNotReadBack | CutCycles.CutCyclesKeepingInfo |
| src/core/dep-graph.ts:343-366 | the path count is cached per node id, but a node's count depends on the nodes already on the path | edges root → a, root → b, a → b and b → a: counting from a caches 1 for b, while b has 2 paths to the root | the number of paths `pathsFromNodeToRoot` lists | not executed | DepGraphs.CacheStaleOnCycles | DepGraphs.CountFreshExact |
| src/core/dep-graph.ts:324-328 | parents are filtered by the nodes seen before the current one, not the current one itself | a node a whose parents are root and a itself: the path [a, a, root] is listed | paths that visit each node once | not executed | DepGraphs.SelfLoopPath | DepGraphs.SimplePathsSound |
| src/utils/memoization.ts:25 | `new Set(...cyclesStartWithThisNode)` spreads the cycles into the constructor's arguments, so only the first cycle becomes the guard | cycles [n, a] and [n, b] both start at n: the item stored for n is handed out under the ancestor b | a guard holding the nodes of every cycle that starts at the node | not executed | Memoization.SpreadKeepsFirstCycleOnly | Memoization.AllStartingCyclesGuarded |

Several operations keep the behaviour as written, so that they model the source:
- CompactJson.CompactJSON;
- CutCycles.CutCycles;
- DepGraphs.DepGraphImpl.CountPathsToRoot;
- Memoization.Memoize;
- the cache and path functions in DepGraphs.

The corrected definitions sit beside them, each with its property proved. The round-trip proof RoundTrip.CutThenReconnect is built on CutCycles.CutCyclesKeepingInfo.

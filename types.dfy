/** The values the dependency graph is made of: packages, node information,
    package managers and the JSON document a graph is written to. */
module Types {
  import opened Wrappers
  import opened Strings
  import opened Graphs

  type PkgId = string

  /** A package: a name and an optional version (`PkgInfo`). */
  datatype Pkg = Pkg(name: string, version: Option<string>)

  datatype VersionProvenance = VersionProvenance(kind: string, location: string, property: Option<string>)

  /** Extra facts about one node; both parts are optional. */
  datatype NodeInfo = NodeInfo(versionProvenance: Option<VersionProvenance>, labels: Option<map<string, string>>)

  const NoInfo := NodeInfo(None, None)

  /** `_.isEmpty(info)`: no field is present. */
  predicate IsEmptyInfo(info: Option<NodeInfo>) {
    info.None? || info.value == NoInfo
  }

  /** The value graphlib stores for a node. */
  datatype GraphNode = GraphNode(pkgId: PkgId, info: Option<NodeInfo>)

  datatype PkgManager = PkgManager(name: string, version: Option<string>, repositories: seq<string>)

  /** `pkg.version || ''`. */
  function VersionText(version: Option<string>): string {
    if version.Some? then version.value else ""
  }

  /** `getPkgId`: name, then "@", then the version text. */
  function GetPkgId(pkg: Pkg): (id: PkgId)
    ensures |id| == |pkg.name| + 1 + |VersionText(pkg.version)|
    ensures id[..|pkg.name|] == pkg.name && id[|pkg.name|] == '@'
    ensures id[|pkg.name| + 1..] == VersionText(pkg.version)
  {
    pkg.name + "@" + VersionText(pkg.version)
  }

  /** Position of the last "@" of a text, if any. */
  function LastAt(s: string): (r: Option<nat>)
    ensures r.Some? ==> r.value < |s| && s[r.value] == '@' && forall k :: r.value < k < |s| ==> s[k] != '@'
    ensures r.None? ==> forall k :: 0 <= k < |s| ==> s[k] != '@'
  {
    if s == [] then None
    else if s[|s| - 1] == '@' then Some(|s| - 1)
    else LastAt(s[..|s| - 1])
  }

  /** A package id splits back into the name and the version text at its last
      "@", whenever the version text holds no "@" (names may: "@scope/name"). */
  lemma PkgIdSplitsAtLastAt(pkg: Pkg)
    requires forall k :: 0 <= k < |VersionText(pkg.version)| ==> VersionText(pkg.version)[k] != '@'
    ensures LastAt(GetPkgId(pkg)) == Some(|pkg.name|)
  {
    var id := GetPkgId(pkg);
    assert id[|pkg.name|] == '@';
    assert forall k :: |pkg.name| < k < |id| ==> id[k] == VersionText(pkg.version)[k - |pkg.name| - 1];
  }

  /** Two packages share an id exactly when they agree on name and version text,
      for versions without "@". */
  lemma PkgIdInjective(p: Pkg, q: Pkg)
    requires forall k :: 0 <= k < |VersionText(p.version)| ==> VersionText(p.version)[k] != '@'
    requires forall k :: 0 <= k < |VersionText(q.version)| ==> VersionText(q.version)[k] != '@'
    ensures GetPkgId(p) == GetPkgId(q) <==> p.name == q.name && VersionText(p.version) == VersionText(q.version)
  {
    if GetPkgId(p) == GetPkgId(q) {
      PkgIdSplitsAtLastAt(p);
      PkgIdSplitsAtLastAt(q);
      assert p.name == GetPkgId(p)[..|p.name|];
      assert GetPkgId(p)[|p.name| + 1..] == VersionText(p.version);
    }
  }

  /** A missing version and an empty one give the same id. */
  lemma MissingAndEmptyVersionCollide(name: string)
    ensures GetPkgId(Pkg(name, None)) == GetPkgId(Pkg(name, Some(""))) == name + "@"
  {
  }

  /** One node of the JSON document (`GraphNode` in the document schema). */
  datatype JsonNode = JsonNode(nodeId: NodeId, pkgId: PkgId, info: Option<NodeInfo>, deps: seq<NodeId>)

  datatype PkgEntry = PkgEntry(id: PkgId, info: Pkg)

  datatype JsonGraph = JsonGraph(rootNodeId: NodeId, nodes: seq<JsonNode>)

  /** The JSON document of a dependency graph (`DepGraphData`). */
  datatype DepGraphData = DepGraphData(schemaVersion: string, pkgManager: PkgManager, pkgs: seq<PkgEntry>, graph: JsonGraph)
}

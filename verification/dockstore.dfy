/** The Dockstore side of workflow lookup (`alto/utils/dockstore_utils.py`):
    the `organization:collection:workflow[:version]` string, the
    case-insensitive matching of the workflow and its version in the
    registry's answers, and the URL, method path and URI built from them.
    The registry's answers are parameters.
 */
module Dockstore {
  import opened Base
  import opened Strs
  import opened Paths

  /** `parse_dockstore_workflow`: three or four `:`-separated fields. */
  function ParseDockstoreWorkflow(s: string): (r: Result<(string, string, string, Option<string>)>)
    ensures r.Ok? <==> 3 <= |Split(s, ":")| <= 4
    ensures r.Err? ==> r.error.kind == ValueError
    ensures r.Ok? ==> ':' !in r.value.0 && ':' !in r.value.1 && ':' !in r.value.2
    ensures r.Ok? ==> (r.value.3.Some? <==> |Split(s, ":")| == 4)
    ensures r.Ok? && r.value.3.Some? ==> ':' !in r.value.3.value
  {
    var fields := Split(s, ":");
    if |fields| < 3 || |fields| > 4 then Raise(ValueError, s)
    else
      NotContainsChar(fields[0], ':');
      NotContainsChar(fields[1], ':');
      NotContainsChar(fields[2], ':');
      if |fields| == 4 then
        NotContainsChar(fields[3], ':');
        Ok((fields[0], fields[1], fields[2], Some(fields[3])))
      else Ok((fields[0], fields[1], fields[2], None))
  }

  function DockstoreString(org: string, coll: string, wf: string, version: Option<string>): string
  {
    match version
    case None => org + ":" + coll + ":" + wf
    case Some(v) => org + ":" + coll + ":" + wf + ":" + v
  }

  /** Parsing inverts formatting for fields without a `:`. */
  lemma ParseDockstoreString(org: string, coll: string, wf: string, version: Option<string>)
    requires ':' !in org && ':' !in coll && ':' !in wf
    requires version.Some? ==> ':' !in version.value
    ensures ParseDockstoreWorkflow(DockstoreString(org, coll, wf, version)) == Ok((org, coll, wf, version))
  {
    match version
    case None =>
      assert Join([org, coll, wf], ":") == org + ":" + coll + ":" + wf by {
        assert Join([org, coll, wf][1..], ":") == coll + ":" + wf;
      }
      SplitJoin([org, coll, wf], ':');
    case Some(v) =>
      assert Join([org, coll, wf, v], ":") == org + ":" + coll + ":" + wf + ":" + v by {
        assert Join([org, coll, wf, v][2..], ":") == wf + ":" + v;
        assert Join([org, coll, wf, v][1..], ":") == coll + ":" + wf + ":" + v;
      }
      SplitJoin([org, coll, wf, v], ':');
  }

  /** An entry of a collection. */
  datatype Entry = Entry(entryPath: string, id: int)

  /** One version of a published workflow. */
  datatype WorkflowVersion = WorkflowVersion(name: string, hidden: bool, workflowPath: string)

  /** A published workflow as the registry describes it. */
  datatype WorkflowContent = WorkflowContent(
    workflowName: string, path: string, fullWorkflowPath: string,
    defaultVersion: string, versions: seq<WorkflowVersion>)

  /** The entry's path ends in the workflow name, ignoring case. */
  predicate EntryNamed(e: Entry, wf: string)
  {
    Lower(Basename(e.entryPath)) == Lower(wf)
  }

  /** The lower-cased last path component of each entry. */
  function EntryNames(entries: seq<Entry>): (r: seq<string>)
    ensures |r| == |entries|
    ensures forall i :: 0 <= i < |entries| ==> r[i] == Lower(Basename(entries[i].entryPath))
  {
    if |entries| == 0 then [] else [Lower(Basename(entries[0].entryPath))] + EntryNames(entries[1..])
  }

  /** The first entry whose path's last component equals the workflow
      name, ignoring case. */
  function FindEntry(entries: seq<Entry>, wf: string): (r: Option<nat>)
    ensures r.None? <==> forall i :: 0 <= i < |entries| ==> !EntryNamed(entries[i], wf)
    ensures r.Some? ==> (r.value < |entries| && EntryNamed(entries[r.value], wf)
      && forall i :: 0 <= i < r.value ==> !EntryNamed(entries[i], wf))
  {
    var names := EntryNames(entries);
    assert forall i :: 0 <= i < |entries| ==> (EntryNamed(entries[i], wf) <==> names[i] == Lower(wf));
    FirstIndex(names, Lower(wf))
  }

  /** The version's name is the requested one, ignoring case. */
  predicate VersionNamed(v: WorkflowVersion, name: string)
  {
    Lower(v.name) == Lower(name)
  }

  /** The lower-cased name of each version. */
  function VersionNames(versions: seq<WorkflowVersion>): (r: seq<string>)
    ensures |r| == |versions|
    ensures forall i :: 0 <= i < |versions| ==> r[i] == Lower(versions[i].name)
  {
    if |versions| == 0 then [] else [Lower(versions[0].name)] + VersionNames(versions[1..])
  }

  /** The first version whose name equals the requested one, ignoring
      case. */
  function FindVersion(versions: seq<WorkflowVersion>, v: string): (r: Option<nat>)
    ensures r.None? <==> forall i :: 0 <= i < |versions| ==> !VersionNamed(versions[i], v)
    ensures r.Some? ==> (r.value < |versions| && VersionNamed(versions[r.value], v)
      && forall i :: 0 <= i < r.value ==> !VersionNamed(versions[i], v))
  {
    var names := VersionNames(versions);
    assert forall i :: 0 <= i < |versions| ==> (VersionNamed(versions[i], v) <==> names[i] == Lower(v));
    FirstIndex(names, Lower(v))
  }

  /** The dictionary `get_dockstore_workflow` returns. */
  datatype DockstoreDef = DockstoreDef(
    name: string, path: string, version: string, workflowPath: string,
    url: string, methodPath: string, methodUri: string)

  /** The repository path without its first segment (`github.com`). */
  function RepoPath(path: string): (r: string)
    ensures '/' in path ==> exists host :: '/' !in host && path == host + "/" + r
  {
    var parts := Split(path, "/");
    JoinSplit(path, "/");
    if |parts| >= 2 then
      NotContainsChar(parts[0], '/');
      assert Join(parts, "/") == parts[0] + "/" + Join(parts[1..], "/");
      Join(parts[1..], "/")
    else
      assert parts == [path];
      assert !Contains(path, "/");
      NotContainsChar(path, '/');
      Join(parts[1..], "/")
  }

  const RawPrefix := "https://raw.githubusercontent.com/"

  /** `get_dockstore_workflow`, given what the registry answered: whether
      the organization and the collection were found (`collection` is
      `None` otherwise), and the published workflow for an entry id
      (`None` for a non-200 answer). Every failure is a `ValueError`. */
  function GetDockstoreWorkflow(wf: string, version: Option<string>, orgFound: bool,
                                collection: Option<seq<Entry>>, fetch: int -> Option<WorkflowContent>)
    : (r: Result<DockstoreDef>)
    ensures r.Err? ==> r.error.kind == ValueError
    ensures r.Ok? ==> orgFound && collection.Some?
    ensures r.Ok? ==>
      var e := FindEntry(collection.value, wf);
      && e.Some?
      && fetch(collection.value[e.value].id).Some?
      && Published(fetch(collection.value[e.value].id).value, version, r.value)
    ensures (orgFound && collection.Some? && FindEntry(collection.value, wf).None?) ==> r.Err?
    ensures (orgFound && collection.Some? && FindEntry(collection.value, wf).Some?) ==>
      var content := fetch(collection.value[FindEntry(collection.value, wf).value].id);
      && (content.None? ==> r.Err?)
      && (content.Some? ==> r == PickVersion(content.value, version))
  {
    if !orgFound || collection.None? then Raise(ValueError, "collection")
    else
      match FindEntry(collection.value, wf)
      case None => Raise(ValueError, wf)
      case Some(e) =>
        match fetch(collection.value[e].id)
        case None => Raise(ValueError, wf)
        case Some(content) => PickVersion(content, version)
  }

  /** The version asked for: the requested one, or else the default. */
  function Wanted(content: WorkflowContent, version: Option<string>): string
  {
    if version.Some? then version.value else content.defaultVersion
  }

  /** The definition describes the first version of the published workflow
      whose name is the wanted one, ignoring case, and that version is
      visible; the method path is the full workflow path with every `/`
      escaped as `%2F`. */
  ghost predicate Published(content: WorkflowContent, version: Option<string>, d: DockstoreDef)
  {
    var i := FindVersion(content.versions, Wanted(content, version));
    && i.Some?
    && !content.versions[i.value].hidden
    && d.version == content.versions[i.value].name
    && d.workflowPath == content.versions[i.value].workflowPath
    && d.name == content.workflowName && d.path == content.path
    && d.methodPath == ReplaceChar(content.fullWorkflowPath, '/', "%2F") && '/' !in d.methodPath
    && d.methodUri == "dockstore://" + d.methodPath + "/" + d.version
    && d.url == RawPrefix + RepoPath(content.path) + "/" + d.version + d.workflowPath
  }

  /** The version chosen from a fetched workflow: the first one named as
      requested (the default version when none is requested); a missing or
      hidden version is a `ValueError`. */
  function PickVersion(content: WorkflowContent, version: Option<string>): (r: Result<DockstoreDef>)
    ensures r.Err? ==> r.error.kind == ValueError
    ensures r.Ok? ==> Published(content, version, r.value)
    ensures r.Ok? <==> (FindVersion(content.versions, Wanted(content, version)).Some?
      && !content.versions[FindVersion(content.versions, Wanted(content, version)).value].hidden)
  {
    var wanted := Wanted(content, version);
    match FindVersion(content.versions, wanted)
    case None => Raise(ValueError, wanted)
    case Some(i) =>
      var item := content.versions[i];
      if item.hidden then Raise(ValueError, wanted)
      else
        var methodPath := ReplaceChar(content.fullWorkflowPath, '/', "%2F");
        ReplaceCharRemoves(content.fullWorkflowPath, '/', "%2F");
        Ok(DockstoreDef(content.workflowName, content.path, item.name, item.workflowPath,
          RawPrefix + RepoPath(content.path) + "/" + item.name + item.workflowPath,
          methodPath, "dockstore://" + methodPath + "/" + item.name))
  }

  /** Only the first version matching the request is considered: a hidden
      match is refused even when a later version of another casing would
      match and is visible. */
  lemma FirstMatchDecides(content: WorkflowContent, v: string, i: nat)
    requires i < |content.versions| && VersionNamed(content.versions[i], v) && content.versions[i].hidden
    requires forall j :: 0 <= j < i ==> !VersionNamed(content.versions[j], v)
    ensures PickVersion(content, Some(v)).Err?
  {
    assert FindVersion(content.versions, v) == Some(i);
  }
}

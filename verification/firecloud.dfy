/** The Broad Methods Repository side of workflow lookup
    (`alto/utils/firecloud_utils.py`): the `namespace/name[/version]`
    workflow string, the `namespace/name` workspace string, the choice of
    the latest snapshot and the URL and URI built from a method record.
    The repository's answers are parameters.
 */
module Firecloud {
  import opened Base
  import opened Strs

  /** One method record as the repository lists it. */
  datatype MethodRecord = MethodRecord(namespace: string, name: string, snapshotId: int)

  /** `parse_firecloud_workflow`: two or three `/`-separated fields; the
      third, when present, must be an integer. */
  function ParseFirecloudWorkflow(s: string): (r: Result<(string, string, Option<int>)>)
    ensures r.Ok? <==>
      (2 <= |Split(s, "/")| <= 3 && (|Split(s, "/")| == 3 ==> ParseInt(Split(s, "/")[2]).Some?))
    ensures r.Err? ==> r.error.kind == ValueError
    ensures r.Ok? ==> '/' !in r.value.0 && '/' !in r.value.1
    ensures r.Ok? ==> (r.value.2.Some? <==> |Split(s, "/")| == 3)
  {
    var fields := Split(s, "/");
    if |fields| < 2 || |fields| > 3 then Raise(ValueError, s)
    else
      NotContainsChar(fields[0], '/');
      NotContainsChar(fields[1], '/');
      if |fields| == 3 then
        match ParseInt(fields[2])
        case None => Raise(ValueError, fields[2])
        case Some(v) => Ok((fields[0], fields[1], Some(v)))
      else Ok((fields[0], fields[1], None))
  }

  /** The workflow string for a namespace, a name and an optional
      snapshot. */
  function WorkflowString(ns: string, name: string, version: Option<int>): string
  {
    match version
    case None => ns + "/" + name
    case Some(v) => ns + "/" + name + "/" + IntToString(v)
  }

  /** Parsing inverts formatting for names without a `/`. */
  lemma ParseWorkflowString(ns: string, name: string, version: Option<int>)
    requires '/' !in ns && '/' !in name
    ensures ParseFirecloudWorkflow(WorkflowString(ns, name, version)) == Ok((ns, name, version))
  {
    match version
    case None =>
      assert Join([ns, name], "/") == ns + "/" + name;
      SplitJoin([ns, name], '/');
    case Some(v) =>
      ParseVersionedString(ns, name, v);
  }

  lemma ParseVersionedString(ns: string, name: string, v: int)
    requires '/' !in ns && '/' !in name
    ensures ParseFirecloudWorkflow(ns + "/" + name + "/" + IntToString(v)) == Ok((ns, name, Some(v)))
  {
    var d := IntToString(v);
    IntToStringChars(v);
    assert '/' !in d by {
      forall k | 0 <= k < |d| ensures d[k] != '/' { }
    }
    assert Join([ns, name, d], "/") == ns + "/" + name + "/" + d by {
      assert Join([ns, name, d][1..], "/") == name + "/" + d;
    }
    SplitJoin([ns, name, d], '/');
    ParseIntToString(v);
  }

  /** `parse_workspace`: exactly two `/`-separated fields. */
  function ParseWorkspace(s: string): (r: Result<(string, string)>)
    ensures r.Ok? <==> |Split(s, "/")| == 2
    ensures r.Err? ==> r.error.kind == ValueError
    ensures r.Ok? ==> '/' !in r.value.0 && '/' !in r.value.1
  {
    var fields := Split(s, "/");
    if |fields| != 2 then Raise(ValueError, s)
    else
      NotContainsChar(fields[0], '/');
      NotContainsChar(fields[1], '/');
      Ok((fields[0], fields[1]))
  }

  lemma ParseWorkspaceString(ns: string, name: string)
    requires '/' !in ns && '/' !in name
    ensures ParseWorkspace(ns + "/" + name) == Ok((ns, name))
  {
    assert Join([ns, name], "/") == ns + "/" + name;
    SplitJoin([ns, name], '/');
  }

  /** A string with a third field, or a field count other than two,
      is not a workspace. */
  lemma WorkspaceRejectsVersion(ns: string, name: string, v: int)
    requires '/' !in ns && '/' !in name
    ensures ParseWorkspace(WorkflowString(ns, name, Some(v))).Err?
  {
    ParseWorkflowString(ns, name, Some(v));
  }

  /** The record `get_firecloud_workflow` keeps: start from the first and
      move to a later one only on a strictly larger snapshot, so the
      largest snapshot wins and a tie keeps the earliest. */
  function LatestIndex(ms: seq<MethodRecord>): (i: nat)
    requires |ms| > 0
    ensures i < |ms|
    ensures forall j :: 0 <= j < |ms| ==> ms[j].snapshotId <= ms[i].snapshotId
    ensures forall j :: 0 <= j < i ==> ms[j].snapshotId < ms[i].snapshotId
    decreases |ms|
  {
    if |ms| == 1 then 0
    else
      var n := |ms| - 1;
      var k := LatestIndex(ms[..n]);
      assert forall j :: 0 <= j < n ==> ms[..n][j] == ms[j];
      if ms[k].snapshotId < ms[n].snapshotId then n else k
  }

  /** The dictionary `get_firecloud_workflow` returns. */
  datatype WorkflowDef = WorkflowDef(namespace: string, name: string, snapshotId: int, url: string, methodUri: string)

  const DescriptorPrefix := "https://api.firecloud.org/ga4gh/v1/tools/"
  const AgoraScheme := "agora://"

  function Describe(m: MethodRecord): (d: WorkflowDef)
    ensures d.namespace == m.namespace && d.name == m.name && d.snapshotId == m.snapshotId
  {
    WorkflowDef(m.namespace, m.name, m.snapshotId,
      DescriptorPrefix + m.namespace + ":" + m.name + "/versions/" + IntToString(m.snapshotId) + "/plain-WDL/descriptor",
      AgoraScheme + WorkflowString(m.namespace, m.name, Some(m.snapshotId)))
  }

  /** The method URI, without its scheme, is a workflow string naming the
      same snapshot. */
  lemma MethodUriParses(m: MethodRecord)
    requires '/' !in m.namespace && '/' !in m.name
    ensures StartsWith(Describe(m).methodUri, AgoraScheme)
    ensures ParseFirecloudWorkflow(Describe(m).methodUri[|AgoraScheme|..])
      == Ok((m.namespace, m.name, Some(m.snapshotId)))
  {
    var w := WorkflowString(m.namespace, m.name, Some(m.snapshotId));
    assert (AgoraScheme + w)[|AgoraScheme|..] == w;
    ParseWorkflowString(m.namespace, m.name, Some(m.snapshotId));
  }

  /** `get_firecloud_workflow(namespace, name, version)`. With a version,
      `fetch` is the repository's record for it (`None` for a non-200
      answer); without, `listing` is the method list (`None` for a
      non-200 answer), and the latest snapshot is taken. */
  function GetFirecloudWorkflow(version: Option<int>, fetch: int -> Option<MethodRecord>,
                                listing: Option<seq<MethodRecord>>): (r: Result<WorkflowDef>)
    ensures version.Some? ==> (r.Ok? <==> fetch(version.value).Some?)
    ensures version.Some? && r.Ok? ==> r.value == Describe(fetch(version.value).value)
    ensures version.None? ==> (r.Ok? <==> listing.Some? && |listing.value| > 0)
    ensures (version.None? && r.Ok?) ==>
      && (exists i :: 0 <= i < |listing.value| && Describe(listing.value[i]) == r.value)
      && (forall j :: 0 <= j < |listing.value| ==> listing.value[j].snapshotId <= r.value.snapshotId)
    ensures r.Err? ==> r.error.kind == ValueError
  {
    match version
    case Some(v) =>
      (match fetch(v)
       case None => Raise(ValueError, "fetch")
       case Some(m) => Ok(Describe(m)))
    case None =>
      match listing
      case None => Raise(ValueError, "list")
      case Some(ms) =>
        if |ms| == 0 then Raise(ValueError, "empty")
        else Ok(Describe(ms[LatestIndex(ms)]))
  }
}

/** The method-string helpers of `alto/util.py` and the version choice of
    `cumulus_util/commands/fc_run.py`: `fs_split`, and the largest
    snapshot of a method listing, folded from -1.
 */
module AltoUtil {
  import opened Base
  import opened Strs
  import opened Firecloud

  /** `fs_split(s)`: the namespace before the first `/`, the name after it
      up to a second `/`, and the integer after that. Without any `/` all
      three are `None`; a version that is not an integer raises. */
  function FsSplit(s: string): (r: Result<(Option<string>, Option<string>, Option<int>)>)
    ensures '/' !in s ==> r == Ok((None, None, None))
    ensures r.Err? ==> '/' in s && r.error.kind == ValueError
    ensures ('/' in s && r.Ok?) ==>
      && r.value.0.Some? && r.value.1.Some?
      && '/' !in r.value.0.value && '/' !in r.value.1.value
    ensures ('/' in s && r.Ok? && r.value.2.None?) ==> s == r.value.0.value + "/" + r.value.1.value
    ensures ('/' in s && r.Ok? && r.value.2.Some?) ==>
      var head := r.value.0.value + "/" + r.value.1.value + "/";
      StartsWith(s, head) && ParseInt(s[|head|..]) == r.value.2
  {
    var sep := Find(s, ['/']);
    if sep == -1 then
      FindChar(s, '/');
      Ok((None, None, None))
    else
      CutAtChar(s, '/');
      var r := SplitName(s[..sep], s[sep + 1..]);
      assert s == s[..sep] + "/" + s[sep + 1..];
      if r.Ok? then
        PrefixCat(s, s[..sep], s[sep + 1..], r.value.1.value);
        r
      else r
  }

  /** The part of `fs_split` after the namespace. */
  function SplitName(ns: string, name: string): (r: Result<(Option<string>, Option<string>, Option<int>)>)
    requires '/' !in ns
    ensures r.Err? ==> r.error.kind == ValueError
    ensures r.Ok? ==> r.value.0 == Some(ns) && r.value.1.Some? && '/' !in r.value.1.value
    ensures r.Ok? && r.value.2.None? ==> r.value.1.value == name
    ensures r.Ok? && r.value.2.Some? ==>
      StartsWith(name, r.value.1.value + "/") && ParseInt(name[|r.value.1.value| + 1..]) == r.value.2
  {
    var sep := Find(name, ['/']);
    if sep == -1 then
      FindChar(name, '/');
      Ok((Some(ns), Some(name), None))
    else
      CutAtChar(name, '/');
      var rest := name[sep + 1..];
      match ParseInt(rest)
      case None => Raise(ValueError, rest)
      case Some(v) => Ok((Some(ns), Some(name[..sep]), Some(v)))
  }

  lemma PrefixCat(s: string, ns: string, name: string, n1: string)
    requires s == ns + "/" + name
    ensures StartsWith(name, n1 + "/") ==>
      StartsWith(s, ns + "/" + n1 + "/") && s[|ns + "/" + n1 + "/"|..] == name[|n1| + 1..]
  {
    if StartsWith(name, n1 + "/") {
      assert name == n1 + "/" + name[|n1| + 1..];
      assert s == (ns + "/" + n1 + "/") + name[|n1| + 1..];
    }
  }

  /** A string cut at the first occurrence of a character. */
  lemma CutAtChar(s: string, c: char)
    requires Find(s, [c]) != -1
    ensures 0 <= Find(s, [c]) < |s| && c in s
    ensures c !in s[..Find(s, [c])]
    ensures s == s[..Find(s, [c])] + [c] + s[Find(s, [c]) + 1..]
  {
    FindChar(s, c);
    var i := Find(s, [c]);
    assert s == s[..i] + [s[i]] + s[i + 1..];
  }

  /** On the strings both accept, `fs_split` and `parse_firecloud_workflow`
      agree. */
  lemma FsSplitWorkflowString(ns: string, name: string, version: Option<int>)
    requires '/' !in ns && '/' !in name
    ensures FsSplit(WorkflowString(ns, name, version)) == Ok((Some(ns), Some(name), version))
  {
    var tail := if version.Some? then name + "/" + IntToString(version.value) else name;
    var s := WorkflowString(ns, name, version);
    assert s == ns + "/" + tail;
    assert s[..|ns|] == ns && s[|ns| + 1..] == tail;
    FirstOccurrenceOfChar(s, '/', |ns|);
    SplitNameOf(ns, name, version);
  }

  lemma SplitNameOf(ns: string, name: string, version: Option<int>)
    requires '/' !in ns && '/' !in name
    ensures SplitName(ns, if version.Some? then name + "/" + IntToString(version.value) else name)
      == Ok((Some(ns), Some(name), version))
  {
    match version
    case None =>
      FindChar(name, '/');
    case Some(v) =>
      var d := IntToString(v);
      var tail := name + "/" + d;
      assert tail[..|name|] == name && tail[|name| + 1..] == d;
      FirstOccurrenceOfChar(tail, '/', |name|);
      ParseIntToString(v);
  }

  /** `"ns/"` names namespace `ns` with an empty name. */
  lemma FsSplitTrailingSlash(ns: string)
    requires '/' !in ns
    ensures FsSplit(ns + "/") == Ok((Some(ns), Some(""), None))
  {
    FsSplitWorkflowString(ns, "", None);
    assert WorkflowString(ns, "", None) == ns + "/";
  }

  /** `max(-1, snapshot ids)`, folded left to right. */
  function MaxSnapshot(ms: seq<MethodRecord>): (v: int)
    ensures v >= -1
    ensures forall j :: 0 <= j < |ms| ==> ms[j].snapshotId <= v
    ensures v == -1 || exists j :: 0 <= j < |ms| && ms[j].snapshotId == v
    decreases |ms|
  {
    if |ms| == 0 then -1
    else
      var n := |ms| - 1;
      var m := MaxSnapshot(ms[..n]);
      assert forall j :: 0 <= j < n ==> ms[..n][j] == ms[j];
      if m < ms[n].snapshotId then ms[n].snapshotId else m
  }

  /** The version `get_latest_method` looks up: the listing (`None` for a
      non-200 answer) must hold a snapshot above -1. The final fetch of
      that snapshot is left to the caller. */
  function GetLatestMethod(listing: Option<seq<MethodRecord>>): (r: Result<int>)
    ensures r.Ok? <==> listing.Some? && exists j :: 0 <= j < |listing.value| && listing.value[j].snapshotId >= 0
    ensures r.Ok? ==>
      && (exists j :: 0 <= j < |listing.value| && listing.value[j].snapshotId == r.value)
      && (forall j :: 0 <= j < |listing.value| ==> listing.value[j].snapshotId <= r.value)
    ensures r.Err? ==> r.error.kind == ValueError
  {
    match listing
    case None => Raise(ValueError, "list")
    case Some(ms) =>
      var v := MaxSnapshot(ms);
      if v == -1 then Raise(ValueError, "not found") else Ok(v)
  }

  /** Where snapshot ids are not negative, the `-1` fold and the strict
      `<` scan of `get_firecloud_workflow` pick the same snapshot. */
  lemma LatestAgree(ms: seq<MethodRecord>)
    requires |ms| > 0
    requires forall j :: 0 <= j < |ms| ==> ms[j].snapshotId >= 0
    ensures GetLatestMethod(Some(ms)) == Ok(ms[LatestIndex(ms)].snapshotId)
  {
    assert ms[0].snapshotId >= 0;
  }

  /** The version `do_fc_run` uses: the one given, or else the largest
      listed snapshot, where every listed method must be in the requested
      namespace (an assertion, checked before anything else). */
  function FcRunVersion(ns: string, version: Option<int>, listing: Option<seq<MethodRecord>>): (r: Result<int>)
    ensures version.Some? ==> r == Ok(version.value)
    ensures (version.None? && listing.Some? && exists j :: 0 <= j < |listing.value| && listing.value[j].namespace != ns) ==>
      r.Err? && r.error.kind == AssertionError
    ensures (version.None? && (listing.None? || forall j :: 0 <= j < |listing.value| ==> listing.value[j].namespace == ns)) ==>
      r == GetLatestMethod(listing)
  {
    match version
    case Some(v) => Ok(v)
    case None =>
      match listing
      case None => Raise(ValueError, "list")
      case Some(ms) =>
        if exists j :: 0 <= j < |ms| && ms[j].namespace != ns then Raise(AssertionError, ns)
        else GetLatestMethod(listing)
  }

  /** The method URI `do_fc_run` builds is the one `get_firecloud_workflow`
      reports for the same snapshot. */
  function FcRunMethodUri(ns: string, name: string, version: int): (uri: string)
    ensures uri == Describe(MethodRecord(ns, name, version)).methodUri
  {
    "agora://" + ns + "/" + name + "/" + IntToString(version)
  }
}

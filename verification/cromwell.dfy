/** The pure parts of the Cromwell commands: splitting a bucket-folder URL
    (`alto/commands/cromwell/run.py`), choosing the workflow URL, and
    localising a log file (`alto/commands/cromwell/get_logs.py`).
 */
module Cromwell {
  import opened Base
  import opened Strs
  import opened Paths
  import opened Host
  import opened Urls
  import opened Staging
  import opened Dockstore

  const SchemeSep := "://"

  /** The first `://`-field of `s` is `scheme` exactly when `s` starts with
      `scheme://`, for a scheme without `:`. */
  lemma FirstFieldIs(s: string, scheme: string)
    requires ':' !in scheme
    ensures (Contains(s, SchemeSep) && Split(s, SchemeSep)[0] == scheme) <==> StartsWith(s, scheme + SchemeSep)
  {
    var i := Find(s, SchemeSep);
    if i != -1 {
      SplitAtFirst(s, SchemeSep);
      assert Split(s, SchemeSep)[0] == s[..i];
      if s[..i] == scheme {
        assert s[..|scheme| + 3] == s[..i] + s[i..i + 3];
      }
    }
    if StartsWith(s, scheme + SchemeSep) {
      assert OccursAt(s, SchemeSep, |scheme|) by {
        assert s[|scheme|..|scheme| + 3] == (scheme + SchemeSep)[|scheme|..];
      }
      forall j | 0 <= j < |scheme| ensures !OccursAt(s, SchemeSep, j) {
        assert s[j] == scheme[j];
        SepStartsWithColon(s, j);
      }
      assert i == |scheme|;
      SplitAtFirst(s, SchemeSep);
      assert s[..i] == (scheme + SchemeSep)[..i];
    }
  }

  lemma SepStartsWithColon(s: string, j: int)
    ensures OccursAt(s, SchemeSep, j) ==> s[j] == ':'
  {
    if OccursAt(s, SchemeSep, j) {
      assert s[j..j + 3][0] == s[j];
    }
  }

  /** A string with `://` splits into at least two fields. */
  lemma SplitWithSep(s: string, sep: string)
    requires |sep| > 0 && Contains(s, sep)
    ensures |Split(s, sep)| >= 2
  {
    SplitAtFirst(s, sep);
  }

  /** `parse_bucket_folder_url(bucket)`: backend, bucket id and folder. The
      backend is `gcp` for the `gs` scheme and `aws` for any other. */
  function ParseBucketFolderUrl(bucket: string): (r: Result<(string, string, string)>)
    ensures r.Err? <==> !Contains(bucket, SchemeSep)
    ensures r.Err? ==> r.error.kind == AssertionError
    ensures r.Ok? ==> r.value.0 in {"gcp", "aws"}
    ensures r.Ok? ==> (r.value.0 == "gcp" <==> StartsWith(bucket, "gs://"))
    ensures r.Ok? ==> '/' !in r.value.1
  {
    if !Contains(bucket, SchemeSep) then Raise(AssertionError, bucket)
    else
      SplitWithSep(bucket, SchemeSep);
      FirstFieldIs(bucket, "gs");
      var res := Split(bucket, SchemeSep);
      var res2 := Split(res[1], "/");
      NotContainsChar(res2[0], '/');
      Ok((if res[0] == "gs" then "gcp" else "aws", res2[0], Join(res2[1..], "/")))
  }

  /** The bucket id is the first `/`-field after the scheme and the folder
      is the rest, so a trailing slash stays in the folder. */
  lemma ParseBucketFolderUrlString(scheme: string, id: string, folder: string)
    requires ':' !in scheme && ':' !in id && ':' !in folder && '/' !in id
    ensures ParseBucketFolderUrl(scheme + SchemeSep + id + "/" + folder)
      == Ok((if scheme == "gs" then "gcp" else "aws", id, folder))
  {
    var rest := id + "/" + folder;
    assert scheme + SchemeSep + id + "/" + folder == scheme + SchemeSep + rest;
    ParsesWithRest(scheme, rest);
    FirstOccurrenceOfChar(rest, '/', |id|);
    SplitAtFirst(rest, "/");
    assert rest[..|id|] == id && rest[|id| + 1..] == folder;
    JoinSplit(folder, "/");
  }

  /** `gs://b` has no folder, but the folder is the empty string, not
      `None`. */
  lemma ParseBucketUrlNoFolder(scheme: string, id: string)
    requires ':' !in scheme && ':' !in id && '/' !in id
    ensures ParseBucketFolderUrl(scheme + SchemeSep + id) == Ok((if scheme == "gs" then "gcp" else "aws", id, ""))
  {
    ParsesWithRest(scheme, id);
    SplitNoSep(id, '/');
  }

  /** The fields after the scheme: everything after the first `://`, when
      there is no second one. */
  lemma ParsesWithRest(scheme: string, rest: string)
    requires ':' !in scheme && ':' !in rest
    ensures var s := scheme + SchemeSep + rest;
      && Contains(s, SchemeSep)
      && Split(s, SchemeSep)[0] == scheme
      && |Split(s, SchemeSep)| == 2 && Split(s, SchemeSep)[1] == rest
  {
    var s := scheme + SchemeSep + rest;
    FirstFieldIs(s, scheme);
    assert StartsWith(s, scheme + SchemeSep) by { assert s[..|scheme| + 3] == scheme + SchemeSep; }
    FirstFieldAt(s, scheme);
    SplitAtFirst(s, SchemeSep);
    assert s[|scheme| + 3..] == rest;
    NoColonNoSep(rest);
  }

  lemma FirstFieldAt(s: string, scheme: string)
    requires ':' !in scheme && StartsWith(s, scheme + SchemeSep)
    ensures Find(s, SchemeSep) == |scheme|
  {
    assert OccursAt(s, SchemeSep, |scheme|) by {
      assert s[|scheme|..|scheme| + 3] == (scheme + SchemeSep)[|scheme|..];
    }
    forall j | 0 <= j < |scheme| ensures !OccursAt(s, SchemeSep, j) {
      assert s[j] == scheme[j];
      SepStartsWithColon(s, j);
    }
  }

  lemma NoColonNoSep(rest: string)
    requires ':' !in rest
    ensures Split(rest, SchemeSep) == [rest]
  {
    forall j | 0 <= j <= |rest| - 3 ensures !OccursAt(rest, SchemeSep, j) {
      SepStartsWithColon(rest, j);
    }
  }

  /** Handing the parsed URL to the current upload: the empty folder of
      `gs://b` (and of `gs://b/`) still gets a slash appended, so every URL allocated under it
      carries a double slash, `gs://b//<name>`. */
  lemma FolderlessBucketDoubleSlash(id: string, profile: Option<string>, path: string)
    requires ':' !in id && '/' !in id
    ensures ParseBucketFolderUrl("gs://" + id) == Ok(("gcp", id, ""))
    ensures BucketPath(Current("gcp", profile), id, Some("")) == id + "/"
    ensures NewFactory("gcp", id + "/").Ok?
    ensures BaseUrl(NewFactory("gcp", id + "/").value, path) == "gs://" + id + "//" + Basename(path)
  {
    ParseBucketUrlNoFolder("gs", id);
    assert "gs" + SchemeSep + id == "gs://" + id;
    EmptyFolderPath(id, profile);
    var f := NewFactory("gcp", id + "/").value;
    assert f == Factory("gs", id + "/", {});
    assert BaseUrl(f, path) == "gs" + "://" + (id + "/") + "/" + Basename(path);
  }

  lemma EmptyFolderPath(id: string, profile: Option<string>)
    ensures BucketPath(Current("gcp", profile), id, Some("")) == id + "/"
  {
    assert LStripSlash("") == "";
    assert RStripSlash("") == "";
  }

  /** The method string names a workflow by URL. */
  predicate IsWorkflowUrl(spec: string)
  {
    StartsWith(spec, "https://") || StartsWith(spec, "http://")
  }

  /** The `workflowUrl` sent to Cromwell: a URL as given, otherwise the
      Dockstore workflow's URL; the organisation lookup, the collection
      listing and the workflow records are the Dockstore responses. */
  function WorkflowUrl(spec: string, orgFound: bool, collection: Option<seq<Entry>>,
                       fetch: int -> Option<WorkflowContent>): (r: Result<string>)
    ensures IsWorkflowUrl(spec) ==> r == Ok(spec)
    ensures !IsWorkflowUrl(spec) && ParseDockstoreWorkflow(spec).Err? ==> r.Err? && r.error.kind == ValueError
    ensures !IsWorkflowUrl(spec) && ParseDockstoreWorkflow(spec).Ok? ==>
      var p := ParseDockstoreWorkflow(spec).value;
      var d := GetDockstoreWorkflow(p.2, p.3, orgFound, collection, fetch);
      (r.Ok? <==> d.Ok?) && (d.Ok? ==> r.value == d.value.url)
    ensures r.Err? ==> r.error.kind == ValueError
  {
    if IsWorkflowUrl(spec) then Ok(spec)
    else
      match ParseDockstoreWorkflow(spec)
      case Err(e) => Err(e)
      case Ok((_, _, workflow, version)) =>
        match GetDockstoreWorkflow(workflow, version, orgFound, collection, fetch)
        case Err(e) => Err(e)
        case Ok(def) => Ok(def.url)
  }

  /** A Dockstore name written from its fields resolves to the URL the
      Dockstore lookup of its workflow and version gives, and fails
      exactly when that lookup fails. */
  lemma DockstoreNameResolves(org: string, coll: string, wf: string, version: Option<string>, orgFound: bool,
                              collection: Option<seq<Entry>>, fetch: int -> Option<WorkflowContent>)
    requires ':' !in org && ':' !in coll && ':' !in wf
    requires version.Some? ==> ':' !in version.value
    requires !IsWorkflowUrl(DockstoreString(org, coll, wf, version))
    ensures var r := WorkflowUrl(DockstoreString(org, coll, wf, version), orgFound, collection, fetch);
      var d := GetDockstoreWorkflow(wf, version, orgFound, collection, fetch);
      (r.Ok? <==> d.Ok?) && (d.Ok? ==> r.value == d.value.url)
  {
    ParseDockstoreString(org, coll, wf, version);
  }

  // ---------------------------------------------------------------------
  // Logs

  /** `get_localize_path(cloud_uri, job_id)`: the backend of the URI and
      the local path to copy the log to. */
  function GetLocalizePath(uri: string, jobId: string): (r: (string, string))
    ensures r.0 == "local" <==> !Contains(uri, SchemeSep)
    ensures r.0 == "aws" <==> StartsWith(uri, "s3://")
    ensures r.0 in {"local", "aws", "gcp"}
    ensures EndsWith(uri, r.1)
    ensures Contains(uri, jobId) ==>
      (StartsWith(r.1, jobId) && forall j :: 0 <= j < |uri| - |r.1| ==> !OccursAt(uri, jobId, j))
    ensures !Contains(uri, jobId) ==> |r.1| == (if |uri| == 0 then 0 else 1)
  {
    FirstFieldIs(uri, "s3");
    SchemeFields(uri);
    assert StartsWith(uri, "s3://") ==> Contains(uri, SchemeSep);
    var parts := Split(uri, SchemeSep);
    var backend := if |parts| > 1 then (if parts[0] == "s3" then "aws" else "gcp") else "local";
    var i := Find(uri, jobId);
    // Python's `s[-1:]`: the last character
    var local := if i == -1 then (if |uri| == 0 then "" else uri[|uri| - 1..]) else uri[i..];
    assert i != -1 ==> local[..|jobId|] == uri[i..i + |jobId|];
    (backend, local)
  }

  lemma SchemeFields(s: string)
    ensures Contains(s, SchemeSep) ==> |Split(s, SchemeSep)| >= 2
    ensures !Contains(s, SchemeSep) ==> Split(s, SchemeSep) == [s]
  {
    if Contains(s, SchemeSep) {
      SplitWithSep(s, SchemeSep);
    }
  }

  /** `get_remote_log_file`: one copy into the local path, never in dry
      run, and a failed copy is reported, not raised. */
  function GetRemoteLogFile(w: World, uri: string, jobId: string): (o: Outcome)
    ensures o.error.None?
    ensures |o.effects| == 1 && o.effects[0].Run? && !o.effects[0].dryRun
    ensures var (backend, local) := GetLocalizePath(uri, jobId);
      o.effects[0].argv == ["strato", "cp", "--backend", backend, uri, local]
  {
    var (backend, local) := GetLocalizePath(uri, jobId);
    var o := RunCommand(w, ["strato", "cp", "--backend", backend, uri, local], false);
    Outcome(o.effects, None)
  }
}

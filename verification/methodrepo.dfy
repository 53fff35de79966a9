/** The local rules of the Methods Repository commands: the method name a
    WDL file is added under, the public-reader entry merged into a
    method's access list (`alto/commands/terra/add_method.py`,
    `alto/commands/add_method.py`), and which snapshots a removal deletes
    (`alto/commands/remove_method.py`). The repository's answers are
    parameters.
 */
module MethodRepo {
  import opened Base
  import opened Strs
  import opened Paths
  import opened Firecloud
  import opened AltoUtil

  const WdlSuffix := ".wdl"

  /** The method name: the file's basename, cut where the last `.wdl`
      (in any letter case) begins, or the whole basename when there is
      none. */
  function MethodName(wdl: string): (r: string)
    ensures '/' !in r
    ensures StartsWith(Basename(wdl), r)
    ensures !Contains(Lower(Basename(wdl)), WdlSuffix) ==> r == Basename(wdl)
    ensures Contains(Lower(Basename(wdl)), WdlSuffix) ==>
      && OccursAt(Lower(Basename(wdl)), WdlSuffix, |r|)
      && forall j :: |r| < j <= |Basename(wdl)| ==> !OccursAt(Lower(Basename(wdl)), WdlSuffix, j)
  {
    var base := Basename(wdl);
    var i := RFind(Lower(base), WdlSuffix);
    if i == -1 then base
    else
      assert '/' !in base[..i] by {
        forall k | 0 <= k < i ensures base[..i][k] != '/' { assert base[..i][k] == base[k]; }
      }
      base[..i]
  }

  /** The basename of `dir/b` is `b` for a `b` without `/`. */
  lemma BasenameAfterSlash(dir: string, b: string)
    requires '/' !in b
    ensures Basename(dir + "/" + b) == b
  {
    var p := dir + "/" + b;
    assert OccursAt(p, "/", |dir|) by { assert p[|dir|..|dir| + 1] == "/"; }
    forall j | |dir| < j <= |p| ensures !OccursAt(p, "/", j) {
      if j < |p| {
        assert p[j] == b[j - |dir| - 1];
        assert p[j..j + 1] == [p[j]];
      }
    }
    assert RFind(p, "/") == |dir|;
    assert p[|dir| + 1..] == b;
  }

  /** The method name when the last `.wdl` of the basename starts at `i`. */
  lemma MethodNameCut(wdl: string, i: nat)
    requires i <= |Basename(wdl)| && RFind(Lower(Basename(wdl)), WdlSuffix) == i
    ensures MethodName(wdl) == Basename(wdl)[..i]
  {
  }

  /** `rfind` answers `i` when `t` occurs at `i` and at no later index. */
  lemma RFindAt(s: string, t: string, i: nat)
    requires OccursAt(s, t, i)
    requires forall j :: i < j <= |s| ==> !OccursAt(s, t, j)
    ensures RFind(s, t) == i
  {
  }

  lemma LowerAppend(a: string, b: string)
    ensures Lower(a + b) == Lower(a) + Lower(b)
  {
    var l := Lower(a + b);
    forall k | 0 <= k < |l| ensures l[k] == (Lower(a) + Lower(b))[k] {
      if k < |a| {
        assert (a + b)[k] == a[k];
      } else {
        assert (a + b)[k] == b[k - |a|];
      }
    }
  }

  /** A file `dir/name.wdl<rest>`, with the suffix in any case and no
      further `.wdl` in `rest`, is added as `name`, even when `name`
      itself contains `.wdl`: `x/a.wdl.bak` becomes `a`, `x/a.wdl.WDL`
      becomes `a.wdl`. */
  lemma MethodNameOfWdlFile(dir: string, name: string, ext: string, rest: string)
    requires '/' !in name && '/' !in rest && |ext| == 4 && Lower(ext) == WdlSuffix
    requires !Contains(Lower(rest), WdlSuffix)
    ensures MethodName(dir + "/" + name + ext + rest) == name
  {
    var base := name + ext + rest;
    assert dir + "/" + name + ext + rest == dir + "/" + base;
    SuffixHasNoSlash(ext);
    BasenameAfterSlash(dir, base);
    LastWdlAfterName(name, ext, rest);
    MethodNameCut(dir + "/" + base, |name|);
    assert base[..|name|] == name;
  }

  lemma SuffixHasNoSlash(ext: string)
    requires |ext| == 4 && Lower(ext) == WdlSuffix
    ensures '/' !in ext
  {
    forall k | 0 <= k < 4 ensures ext[k] != '/' {
      assert LowerChar(ext[k]) == WdlSuffix[k];
    }
  }

  lemma LastWdlAfterName(name: string, ext: string, rest: string)
    requires |ext| == 4 && Lower(ext) == WdlSuffix
    requires !Contains(Lower(rest), WdlSuffix)
    ensures RFind(Lower(name + ext + rest), WdlSuffix) == |name|
  {
    LowerAppend(name + ext, rest);
    LowerAppend(name, ext);
    var low := Lower(name + ext + rest);
    assert low == Lower(name) + WdlSuffix + Lower(rest);
    assert OccursAt(low, WdlSuffix, |name|) by { assert low[|name|..|name| + 4] == WdlSuffix; }
    forall j | |name| < j <= |low| ensures !OccursAt(low, WdlSuffix, j) {
      NoWdlAfter(Lower(name), Lower(rest), j);
    }
    RFindAt(low, WdlSuffix, |name|);
  }

  /** After a `.wdl` at the end of `a`, the next occurrence can only lie
      inside `c`. */
  lemma NoWdlAfter(a: string, c: string, j: nat)
    requires !Contains(c, WdlSuffix)
    requires |a| < j
    ensures !OccursAt(a + WdlSuffix + c, WdlSuffix, j)
  {
    var s := a + WdlSuffix + c;
    if j + 4 <= |s| {
      if j < |a| + 4 {
        assert s[j] == WdlSuffix[j - |a|];
        assert s[j..j + 4][0] == s[j];
      } else {
        assert s[j..j + 4] == c[j - |a| - 4..j - |a|];
        assert !OccursAt(c, WdlSuffix, j - |a| - 4);
      }
    }
  }

  // ---------------------------------------------------------------------
  // Access lists

  datatype AclEntry = AclEntry(user: string, role: string)

  const PublicReader := AclEntry("public", "READER")

  /** The index of the first entry for the user `public`. */
  function FirstPublic(acl: seq<AclEntry>): (r: Option<nat>)
    ensures r.None? <==> forall i :: 0 <= i < |acl| ==> acl[i].user != "public"
    ensures r.Some? ==>
      (r.value < |acl| && acl[r.value].user == "public" && forall i :: 0 <= i < r.value ==> acl[i].user != "public")
  {
    if |acl| == 0 then None
    else if acl[0].user == "public" then Some(0)
    else
      match FirstPublic(acl[1..])
      case None => None
      case Some(i) => Some(i + 1)
  }

  /** The access list pushed for a method: when making it public, the first
      `public` entry becomes a reader entry, or one is appended; otherwise
      the list is left as fetched. */
  function MergePublic(acl: seq<AclEntry>, public: bool): (r: seq<AclEntry>)
    ensures !public ==> r == acl
    ensures public ==> PublicReader in r
    ensures public && FirstPublic(acl).None? ==> r == acl + [PublicReader]
    ensures public && FirstPublic(acl).Some? ==>
      && |r| == |acl|
      && r[FirstPublic(acl).value] == PublicReader
      && forall i :: 0 <= i < |acl| && i != FirstPublic(acl).value ==> r[i] == acl[i]
    ensures forall i :: 0 <= i < |acl| && acl[i].user != "public" ==> r[i] == acl[i]
  {
    if !public then acl
    else
      match FirstPublic(acl)
      case None => acl + [PublicReader]
      case Some(i) =>
        var r := acl[i := PublicReader];
        assert r[i] == PublicReader;
        r
  }

  /** Making a method public twice pushes the same list as once. */
  lemma MergePublicIdempotent(acl: seq<AclEntry>)
    ensures MergePublic(MergePublic(acl, true), true) == MergePublic(acl, true)
  {
    var once := MergePublic(acl, true);
    match FirstPublic(acl)
    case None =>
      assert once[|acl|] == PublicReader;
      SamePublicPrefix(acl, once, |acl|);
      assert FirstPublic(once) == Some(|acl|);
    case Some(i) =>
      SamePublicPrefix(acl, once, i);
      assert FirstPublic(once) == Some(i);
      assert once[i := PublicReader] == once;
  }

  /** Two lists agreeing on their non-public users up to `n`, where the
      second has a public entry at `n`, have their first public entry at
      `n`. */
  lemma SamePublicPrefix(a: seq<AclEntry>, b: seq<AclEntry>, n: nat)
    requires n < |b| && n <= |a| && b[n].user == "public"
    requires forall i :: 0 <= i < n ==> a[i].user != "public" && b[i] == a[i]
    ensures FirstPublic(b) == Some(n)
  {
    var f := FirstPublic(b);
    assert f.Some?;
    assert f.value == n;
  }

  /** The fetched list, or `[]` when the lookup of the existing method
      raised `ValueError`. */
  function FetchedAcl(existing: Option<seq<AclEntry>>): seq<AclEntry>
  {
    match existing
    case None => []
    case Some(acl) => acl
  }

  /** One access-list update sent to the repository. */
  datatype AclPush = AclPush(name: string, acl: seq<AclEntry>)

  /** The files whose upload the repository answered with 201. */
  function Created(wdls: seq<string>, created: string -> bool): (r: seq<string>)
    ensures |r| <= |wdls|
  {
    if |wdls| == 0 then []
    else (if created(wdls[0]) then [wdls[0]] else []) + Created(wdls[1..], created)
  }

  /** The created files are exactly the files the upload created. */
  lemma {:induction false} CreatedMembers(wdls: seq<string>, created: string -> bool)
    ensures forall w :: w in Created(wdls, created) <==> w in wdls && created(w)
  {
    if |wdls| > 0 {
      CreatedMembers(wdls[1..], created);
      assert wdls == [wdls[0]] + wdls[1..];
    }
  }

  /** The update a created method receives, if its list is not empty. */
  function PushFor(wdl: string, public: bool, existing: string -> Option<seq<AclEntry>>): (r: seq<AclPush>)
    ensures |r| <= 1 && (|r| == 1 ==> |r[0].acl| > 0)
  {
    var acl := MergePublic(FetchedAcl(existing(MethodName(wdl))), public);
    if |acl| > 0 then [AclPush(MethodName(wdl), acl)] else []
  }

  function PushesFor(wdls: seq<string>, public: bool, existing: string -> Option<seq<AclEntry>>): seq<AclPush>
  {
    if |wdls| == 0 then [] else PushFor(wdls[0], public, existing) + PushesFor(wdls[1..], public, existing)
  }

  lemma {:induction false} PushesForSnoc(wdls: seq<string>, w: string, public: bool, existing: string -> Option<seq<AclEntry>>)
    ensures PushesFor(wdls + [w], public, existing) == PushesFor(wdls, public, existing) + PushFor(w, public, existing)
  {
    if |wdls| > 0 {
      assert (wdls + [w])[1..] == wdls[1..] + [w];
      assert (wdls + [w])[0] == wdls[0];
      PushesForSnoc(wdls[1..], w, public, existing);
      var head := PushFor(wdls[0], public, existing);
      assert PushesFor(wdls + [w], public, existing) == head + PushesFor(wdls[1..] + [w], public, existing);
      assert PushesFor(wdls, public, existing) == head + PushesFor(wdls[1..], public, existing);
    } else {
      assert PushesFor([w], public, existing) == PushFor(w, public, existing) + PushesFor([], public, existing);
    }
  }

  /** Only non-empty lists are pushed. */
  lemma {:induction false} PushesNonEmpty(wdls: seq<string>, public: bool, existing: string -> Option<seq<AclEntry>>)
    ensures forall p :: p in PushesFor(wdls, public, existing) ==> |p.acl| > 0
  {
    if |wdls| > 0 {
      PushesNonEmpty(wdls[1..], public, existing);
      var head := PushFor(wdls[0], public, existing);
      assert forall p :: p in head ==> p == head[0];
    }
  }

  /** At most one update per created method. */
  lemma {:induction false} PushesAtMostOne(wdls: seq<string>, public: bool, existing: string -> Option<seq<AclEntry>>)
    ensures |PushesFor(wdls, public, existing)| <= |wdls|
  {
    if |wdls| > 0 {
      PushesAtMostOne(wdls[1..], public, existing);
    }
  }

  lemma {:induction false} CreatedSnoc(wdls: seq<string>, w: string, created: string -> bool)
    ensures Created(wdls + [w], created) == Created(wdls, created) + (if created(w) then [w] else [])
  {
    if |wdls| > 0 {
      assert (wdls + [w])[1..] == wdls[1..] + [w];
      CreatedSnoc(wdls[1..], w, created);
    } else {
      assert Created([w], created) == (if created(w) then [w] else []) + Created([], created);
    }
  }

  lemma AddStep(wdls: seq<string>, k: nat, public: bool, existing: string -> Option<seq<AclEntry>>,
                 created: string -> bool)
    requires k < |wdls|
    ensures created(wdls[k]) ==> |Created(wdls[..k + 1], created)| == |Created(wdls[..k], created)| + 1
    ensures created(wdls[k]) ==> (PushesFor(Created(wdls[..k + 1], created), public, existing)
      == PushesFor(Created(wdls[..k], created), public, existing) + PushFor(wdls[k], public, existing))
    ensures !created(wdls[k]) ==> Created(wdls[..k + 1], created) == Created(wdls[..k], created)
  {
    var done := wdls[..k];
    assert wdls[..k + 1] == done + [wdls[k]];
    CreatedSnoc(done, wdls[k], created);
    if created(wdls[k]) {
      PushesForSnoc(Created(done, created), wdls[k], public, existing);
    } else {
      assert Created(done, created) + [] == Created(done, created);
    }
  }

  /** `main` of the add command: each file is uploaded under its method
      name; `existing` answers the lookup of an earlier snapshot's list and
      `created` the upload. The count is the number of uploads answered
      with 201, and only those receive an access-list update, when their
      merged list is not empty. */
  method AddMethods(wdls: seq<string>, public: bool, existing: string -> Option<seq<AclEntry>>,
                    created: string -> bool) returns (successes: nat, pushes: seq<AclPush>)
    ensures successes == |Created(wdls, created)|
    ensures pushes == PushesFor(Created(wdls, created), public, existing)
    ensures forall p :: p in pushes ==> |p.acl| > 0
    ensures |pushes| <= successes
  {
    successes, pushes := UploadEach(wdls, public, existing, created);
    PushesNonEmpty(Created(wdls, created), public, existing);
    PushesAtMostOne(Created(wdls, created), public, existing);
  }

  /** The upload loop itself. */
  method UploadEach(wdls: seq<string>, public: bool, existing: string -> Option<seq<AclEntry>>,
                    created: string -> bool) returns (successes: nat, pushes: seq<AclPush>)
    ensures successes == |Created(wdls, created)|
    ensures pushes == PushesFor(Created(wdls, created), public, existing)
  {
    successes := 0;
    pushes := [];
    var k := 0;
    while k < |wdls|
      invariant 0 <= k <= |wdls|
      invariant successes == |Created(wdls[..k], created)|
      invariant pushes == PushesFor(Created(wdls[..k], created), public, existing)
    {
      var wdl := wdls[k];
      AddStep(wdls, k, public, existing, created);
      if created(wdl) {
        pushes := pushes + PushFor(wdl, public, existing);
        successes := successes + 1;
      }
      k := k + 1;
    }
    assert wdls[..k] == wdls;
  }

  // ---------------------------------------------------------------------
  // Removal

  function SameNamespace(ms: seq<MethodRecord>, ns: string): (r: seq<MethodRecord>)
    ensures forall m :: m in r <==> m in ms && m.namespace == ns
    ensures |r| <= |ms|
  {
    if |ms| == 0 then []
    else (if ms[0].namespace == ns then [ms[0]] else []) + SameNamespace(ms[1..], ns)
  }

  function SameMethod(ms: seq<MethodRecord>, ns: string, name: string): (r: seq<MethodRecord>)
    ensures forall m :: m in r <==> m in ms && m.namespace == ns && m.name == name
    ensures |r| <= |ms|
  {
    if |ms| == 0 then []
    else (if ms[0].namespace == ns && ms[0].name == name then [ms[0]] else []) + SameMethod(ms[1..], ns, name)
  }

  /** `main` of the remove command: the snapshots deleted for a method
      string, given the repository's listing for its namespace and name. */
  function RemoveSelection(spec: string, listing: seq<MethodRecord>): (r: Result<seq<MethodRecord>>)
    ensures '/' !in spec ==> r.Err? && r.error.kind == ValueError
    ensures |listing| == 0 ==> r.Err? && r.error.kind == ValueError
    ensures r.Err? ==> r.error.kind == ValueError
    ensures r.Ok? ==> forall m :: m in r.value ==> m in listing
    ensures r.Ok? ==> FsSplit(spec).Ok? && FsSplit(spec).value.0.Some? && FsSplit(spec).value.1.Some?
    ensures r.Ok? && FsSplit(spec).value.1.value == "" ==>
      forall m :: m in r.value <==> (m in listing && m.namespace == FsSplit(spec).value.0.value)
    ensures r.Ok? && FsSplit(spec).value.1.value != "" && FsSplit(spec).value.2.None? ==>
      forall m :: m in r.value <==>
        (m in listing && m.namespace == FsSplit(spec).value.0.value && m.name == FsSplit(spec).value.1.value)
    ensures r.Ok? && FsSplit(spec).value.1.value != "" && FsSplit(spec).value.2.Some? ==> r.value == [listing[0]]
  {
    match FsSplit(spec)
    case Err(e) => Err(e)
    case Ok((ns, name, version)) =>
      if ns.None? then Raise(ValueError, "No namespace specified")
      else
        var name' := if name == Some("") then None else name;
        if |listing| == 0 then Raise(ValueError, "No methods found")
        else if name'.None? then Ok(SameNamespace(listing, ns.value))
        else if version.None? then Ok(SameMethod(listing, ns.value, name'.value))
        else Ok([listing[0]])
  }

  /** A versioned removal deletes the first listed snapshot, whichever
      snapshot id it has. */
  lemma RemoveVersionDeletesFirst(ns: string, name: string, version: int, listing: seq<MethodRecord>)
    requires '/' !in ns && '/' !in name && name != "" && |listing| > 0
    ensures RemoveSelection(WorkflowString(ns, name, Some(version)), listing) == Ok([listing[0]])
  {
    FsSplitWorkflowString(ns, name, Some(version));
    RemoveNamed(WorkflowString(ns, name, Some(version)), ns, name, Some(version), listing);
  }

  /** The removal once the string is split into a namespace and a
      non-empty name. */
  lemma RemoveNamed(spec: string, ns: string, name: string, version: Option<int>, listing: seq<MethodRecord>)
    requires FsSplit(spec) == Ok((Some(ns), Some(name), version))
    requires name != "" && |listing| > 0
    ensures version.Some? ==> RemoveSelection(spec, listing) == Ok([listing[0]])
    ensures version.None? ==> RemoveSelection(spec, listing) == Ok(SameMethod(listing, ns, name))
  {
  }

  /** `ns/` removes every listed method of the namespace. */
  lemma RemoveNamespace(ns: string, listing: seq<MethodRecord>)
    requires '/' !in ns && |listing| > 0
    ensures RemoveSelection(ns + "/", listing) == Ok(SameNamespace(listing, ns))
  {
    FsSplitTrailingSlash(ns);
  }

  /** `ns/name` removes every listed snapshot of that method. */
  lemma RemoveAllVersions(ns: string, name: string, listing: seq<MethodRecord>)
    requires '/' !in ns && '/' !in name && name != "" && |listing| > 0
    ensures RemoveSelection(ns + "/" + name, listing) == Ok(SameMethod(listing, ns, name))
  {
    FsSplitWorkflowString(ns, name, None);
    assert WorkflowString(ns, name, None) == ns + "/" + name;
    RemoveNamed(ns + "/" + name, ns, name, None, listing);
  }
}

/** FASTQ folders: detection, the per-flowcell sample map and the copy
    commands issued for each sample.
 */
module Fastq {
  import opened Base
  import opened Strs
  import opened Paths
  import opened Host

  /** `sample_manager.sample_map`: sample names and the files to copy, in
      insertion order (the order a Python dict iterates in). `["*"]` stands
      for every FASTQ file of the sample. */
  type SampleMap = seq<(string, seq<string>)>

  /** The files recorded for a sample, if any. */
  function Lookup(m: SampleMap, name: string): (r: Option<seq<string>>)
    ensures r.None? <==> name !in Keys(m)
    ensures r.Some? ==> exists i :: 0 <= i < |m| && m[i] == (name, r.value)
  {
    if |m| == 0 then None
    else if m[0].0 == name then Some(m[0].1)
    else
      var r := Lookup(m[1..], name);
      assert Keys(m) == [m[0].0] + Keys(m[1..]);
      assert r.Some? ==> exists i :: 0 <= i < |m| && m[i] == (name, r.value) by {
        if r.Some? {
          var i :| 0 <= i < |m[1..]| && m[1..][i] == (name, r.value);
          assert m[i + 1] == (name, r.value);
        }
      }
      r
  }

  /** `update_sample_map(sample_name, file_list)`: a sample may be added
      once; without a file list it stands for all its files. */
  function UpdateSampleMap(m: SampleMap, name: string, files: Option<seq<string>>): (r: Result<SampleMap>)
    ensures r.Err? <==> name in Keys(m)
    ensures r.Err? ==> r.error.kind == ValueError
    ensures r.Ok? ==> Keys(r.value) == Keys(m) + [name]
    ensures r.Ok? ==> Lookup(r.value, name) == Some(if files.Some? then files.value else ["*"])
    ensures r.Ok? ==> forall n :: n != name ==> Lookup(r.value, n) == Lookup(m, n)
  {
    if name in Keys(m) then Raise(ValueError, name)
    else
      var entry := (name, if files.Some? then files.value else ["*"]);
      var r := m + [entry];
      assert Keys(r) == Keys(m) + [name];
      LookupSnoc(m, entry);
      Ok(r)
  }

  lemma {:induction false} LookupSnoc(m: SampleMap, entry: (string, seq<string>))
    requires entry.0 !in Keys(m)
    ensures Lookup(m + [entry], entry.0) == Some(entry.1)
    ensures forall n :: n != entry.0 ==> Lookup(m + [entry], n) == Lookup(m, n)
  {
    if |m| > 0 {
      assert (m + [entry])[1..] == m[1..] + [entry];
      assert Keys(m) == [m[0].0] + Keys(m[1..]);
      LookupSnoc(m[1..], entry);
    } else {
      assert (m + [entry])[1..] == [];
    }
  }

  /** Every map the manager builds has distinct sample names. */
  lemma UpdateKeepsKeysDistinct(m: SampleMap, name: string, files: Option<seq<string>>)
    requires Distinct(Keys(m))
    requires UpdateSampleMap(m, name, files).Ok?
    ensures Distinct(Keys(UpdateSampleMap(m, name, files).value))
  {
    DistinctSnoc(Keys(m), name);
  }

  // ---------------------------------------------------------------------
  // Detection

  const FastqSuffix := ".fastq.gz"

  /** `path_is_fastq(path)`: FASTQ files directly inside, or one level
      down. */
  predicate PathIsFastq(w: World, path: string)
  {
    |Glob(w, path + "/*" + FastqSuffix)| > 0 || |Glob(w, path + "/*/*" + FastqSuffix)| > 0
  }

  /** A FASTQ file name: a visible name ending in `.fastq.gz`. */
  predicate IsFastqName(n: string)
  {
    EndsWith(n, FastqSuffix) && |n| > |FastqSuffix| && n[0] != '.'
  }

  lemma StarFastqMatch(n: string)
    ensures ComponentMatch("*" + FastqSuffix, n) <==> IsFastqName(n)
  {
    assert !HasMagic(FastqSuffix) by {
      forall k | 0 <= k < |FastqSuffix| ensures !IsMagicChar(FastqSuffix[k]) { }
    }
    assert IsMagicChar(("*" + FastqSuffix)[0]);
    MatchStarLiteral(FastqSuffix, n);
  }

  /** For a literal folder, detection means: some listed entry directly
      inside, or one folder down, has a FASTQ file name. */
  lemma PathIsFastqListing(w: World, path: string)
    requires !HasMagic(path)
    ensures PathIsFastq(w, path) <==>
      || (exists q :: q in w.listing && '/' in q && Parent(q) == path && IsFastqName(Basename(q)))
      || (exists q :: q in w.listing && '/' in q && '/' in Parent(q) && Parent(Parent(q)) == path
            && Basename(Parent(q)) != "" && Basename(Parent(q))[0] != '.'
            && IsFastqName(Basename(q)))
  {
    var c := "*" + FastqSuffix;
    assert HasMagic(c) by { assert IsMagicChar(c[0]); }
    assert HasMagic("*") by { assert IsMagicChar("*"[0]); }
    assert '/' !in c;
    assert path + "/*" + FastqSuffix == path + "/" + c;
    assert path + "/*/*" + FastqSuffix == path + "/" + "*" + "/" + c;
    forall q | true
      ensures q in Glob(w, path + "/" + c) <==>
        q in w.listing && '/' in q && Parent(q) == path && IsFastqName(Basename(q))
    {
      GlobChildren(w, path, c, q);
      StarFastqMatch(Basename(q));
    }
    forall q | true
      ensures q in Glob(w, path + "/" + "*" + "/" + c) <==>
        q in w.listing && '/' in q && '/' in Parent(q) && Parent(Parent(q)) == path
        && Basename(Parent(q)) != "" && Basename(Parent(q))[0] != '.'
        && IsFastqName(Basename(q))
    {
      GlobGrandchildren(w, path, "*", c, q);
      StarFastqMatch(Basename(q));
      if '/' in q && '/' in Parent(q) {
        assert Match("*", Basename(Parent(q))) by {
          assert "*" + "" == "*";
          MatchStarLiteral("", Basename(Parent(q)));
        }
      }
    }
    var g1, g2 := Glob(w, path + "/" + c), Glob(w, path + "/" + "*" + "/" + c);
    assert |g1| > 0 <==> exists q :: q in g1 by { if |g1| > 0 { assert g1[0] in g1; } }
    assert |g2| > 0 <==> exists q :: q in g2 by { if |g2| > 0 { assert g2[0] in g2; } }
  }

  // ---------------------------------------------------------------------
  // Transfer

  const CpPrefix := ["strato", "cp", "--ionice", "-m", "--quiet"]
  const SyncPrefix := ["strato", "sync", "--ionice", "-m", "--quiet"]

  /** The glob component naming a sample's FASTQ files. */
  function SampleFiles(sample: string): string
  {
    sample + "_*" + FastqSuffix
  }

  /** The command that copies one sample, or the `ValueError` raised when
      `*` finds no FASTQ file of the sample in either layout. */
  function SampleCommand(w: World, source: string, dest: string, sample: string, files: seq<string>, profile: Option<string>): (r: Result<seq<string>>)
    ensures files != ["*"] ==> r == Ok(WithProfile(CpPrefix + files + [dest + "/"], profile))
    ensures files == ["*"] ==> (r.Err? <==>
      |Glob(w, source + "/" + SampleFiles(sample))| == 0
      && |Glob(w, source + "/" + sample + "/" + SampleFiles(sample))| == 0)
    ensures files == ["*"] && |Glob(w, source + "/" + SampleFiles(sample))| > 0 ==>
      r == Ok(WithProfile(CpPrefix + [source + "/" + SampleFiles(sample), dest + "/"], profile))
    ensures files == ["*"] && |Glob(w, source + "/" + SampleFiles(sample))| == 0 && r.Ok? ==>
      r == Ok(WithProfile(SyncPrefix + [source + "/" + sample, dest + "/" + sample], profile))
    ensures r.Err? ==> r.error.kind == ValueError
  {
    if files == ["*"] then
      if |Glob(w, source + "/" + SampleFiles(sample))| > 0 then
        Ok(WithProfile(CpPrefix + [source + "/" + SampleFiles(sample), dest + "/"], profile))
      else if |Glob(w, source + "/" + sample + "/" + SampleFiles(sample))| > 0 then
        Ok(WithProfile(SyncPrefix + [source + "/" + sample, dest + "/" + sample], profile))
      else Raise(ValueError, sample)
    else Ok(WithProfile(CpPrefix + files + [dest + "/"], profile))
  }

  function SampleSteps(w: World, source: string, dest: string, m: SampleMap, profile: Option<string>): (r: seq<Result<seq<string>>>)
    ensures |r| == |m|
    ensures forall i :: 0 <= i < |m| ==> r[i] == SampleCommand(w, source, dest, m[i].0, m[i].1, profile)
  {
    if |m| == 0 then []
    else [SampleCommand(w, source, dest, m[0].0, m[0].1, profile)] + SampleSteps(w, source, dest, m[1..], profile)
  }

  /** `transfer_fastq(source, dest, sample_map, dry_run, profile)`: one
      command per sample, in map order, stopping at the first failure. */
  function TransferFastq(w: World, source: string, dest: string, m: SampleMap, dryRun: bool, profile: Option<string>): (o: Outcome)
    ensures |o.effects| <= |m|
    ensures forall i :: 0 <= i < |o.effects| ==>
      SampleCommand(w, source, dest, m[i].0, m[i].1, profile).Ok?
      && o.effects[i] == Run(SampleCommand(w, source, dest, m[i].0, m[i].1, profile).value, dryRun)
    ensures o.error.None? <==> forall i :: 0 <= i < |m| ==>
      SampleCommand(w, source, dest, m[i].0, m[i].1, profile).Ok?
      && (dryRun || w.accepts(SampleCommand(w, source, dest, m[i].0, m[i].1, profile).value))
    ensures o.error.None? ==> |o.effects| == |m|
    ensures o.error.Some? ==> o.error.value.kind in {ValueError, CalledProcessError}
  {
    var steps := SampleSteps(w, source, dest, m, profile);
    RunEachErrorKinds(w, steps, dryRun, {ValueError});
    RunEach(w, steps, dryRun)
  }

  /** A FASTQ file of the sample: `<sample>_<anything>.fastq.gz`. */
  predicate IsSampleFastqName(sample: string, n: string)
  {
    StartsWith(n, sample + "_") && EndsWith(n, FastqSuffix) && |sample| + 1 + |FastqSuffix| <= |n|
  }

  /** The component `<sample>_*.fastq.gz` matches the names that start with
      `<sample>_` and end in `.fastq.gz`, with room for both. */
  lemma SampleFilesMatch(sample: string, n: string)
    requires !HasMagic(sample)
    ensures ComponentMatch(SampleFiles(sample), n) <==> IsSampleFastqName(sample, n)
  {
    var a := sample + "_";
    assert !HasMagic(a) by {
      forall k | 0 <= k < |a| ensures !IsMagicChar(a[k]) {
        if k < |sample| { assert a[k] == sample[k]; }
      }
    }
    assert !HasMagic(FastqSuffix) by {
      forall k | 0 <= k < |FastqSuffix| ensures !IsMagicChar(FastqSuffix[k]) { }
    }
    var pat := SampleFiles(sample);
    assert pat == a + "*" + FastqSuffix;
    assert HasMagic(pat) by { assert IsMagicChar(pat[|a|]); }
    MatchPrefixStarSuffix(a, FastqSuffix, n);
    if StartsWith(n, a) {
      assert n[0] == a[0] == pat[0];
    }
  }

  /** With `*`, a sample is found when the folder holds one of its FASTQ
      files directly, or holds them in a sub-folder named after the sample;
      otherwise `ValueError`. */
  lemma AllFilesFound(w: World, source: string, dest: string, sample: string, profile: Option<string>)
    requires !HasMagic(source) && !HasMagic(sample) && '/' !in sample
    ensures SampleCommand(w, source, dest, sample, ["*"], profile).Ok? <==>
      || (exists q :: q in w.listing && '/' in q && Parent(q) == source
            && IsSampleFastqName(sample, Basename(q)))
      || (exists q :: q in w.listing && '/' in q && '/' in Parent(q) && Parent(Parent(q)) == source
            && Basename(Parent(q)) == sample && IsSampleFastqName(sample, Basename(q)))
  {
    var c := SampleFiles(sample);
    assert HasMagic(c) by { assert IsMagicChar(c[|sample| + 1]); }
    assert '/' !in c by {
      assert forall k :: 0 <= k < |sample| ==> c[k] == sample[k];
      assert forall k :: |sample| <= k < |c| ==> c[k] in "_*" + FastqSuffix;
    }
    forall q | true
      ensures q in Glob(w, source + "/" + c) <==>
        q in w.listing && '/' in q && Parent(q) == source && IsSampleFastqName(sample, Basename(q))
    {
      GlobChildren(w, source, c, q);
      SampleFilesMatch(sample, Basename(q));
    }
    forall q | true
      ensures q in Glob(w, source + "/" + sample + "/" + c) <==>
        q in w.listing && '/' in q && '/' in Parent(q) && Parent(Parent(q)) == source
        && Basename(Parent(q)) == sample && IsSampleFastqName(sample, Basename(q))
    {
      GlobGrandchildren(w, source, sample, c, q);
      SampleFilesMatch(sample, Basename(q));
    }
    var g1, g2 := Glob(w, source + "/" + c), Glob(w, source + "/" + sample + "/" + c);
    assert |g1| > 0 <==> exists q :: q in g1 by { if |g1| > 0 { assert g1[0] in g1; } }
    assert |g2| > 0 <==> exists q :: q in g2 by { if |g2| > 0 { assert g2[0] in g2; } }
  }
}

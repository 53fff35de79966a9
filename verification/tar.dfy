/** Tar folders: detection, the per-folder sample set and the copy command
    issued for each sample's `<sample>.tar`.
 */
module Tar {
  import opened Base
  import opened Strs
  import opened Paths
  import opened Host

  /** `sample_manager.sample_set`. The source keeps a Python set; the model
      keeps insertion order, one of the orders a set may iterate in. */
  type SampleSet = seq<string>

  /** `update_sample_set(sample_name)`: each sample may be added once. */
  function UpdateSampleSet(s: SampleSet, name: string): (r: Result<SampleSet>)
    ensures r.Err? <==> name in s
    ensures r.Err? ==> r.error.kind == ValueError
    ensures r.Ok? ==> forall n :: n in r.value <==> n in s || n == name
    ensures r.Ok? && Distinct(s) ==> Distinct(r.value)
  {
    if name in s then Raise(ValueError, name)
    else
      DistinctSnocIf(s, name);
      Ok(s + [name])
  }

  lemma DistinctSnocIf(s: SampleSet, name: string)
    requires name !in s
    ensures Distinct(s) ==> Distinct(s + [name])
  {
    if Distinct(s) {
      DistinctSnoc(s, name);
    }
  }

  const TarSuffix := ".tar"

  /** `path_is_tar(path)`: some `*.tar` directly inside. */
  predicate PathIsTar(w: World, path: string)
  {
    |Glob(w, path + "/*" + TarSuffix)| > 0
  }

  /** For a literal folder: some listed entry directly inside is a visible
      name ending in `.tar`. */
  lemma PathIsTarListing(w: World, path: string)
    requires !HasMagic(path)
    ensures PathIsTar(w, path) <==>
      exists q :: q in w.listing && '/' in q && Parent(q) == path
        && EndsWith(Basename(q), TarSuffix) && |Basename(q)| > |TarSuffix| && Basename(q)[0] != '.'
  {
    var c := "*" + TarSuffix;
    assert HasMagic(c) by { assert IsMagicChar(c[0]); }
    assert !HasMagic(TarSuffix) by {
      forall k | 0 <= k < |TarSuffix| ensures !IsMagicChar(TarSuffix[k]) { }
    }
    assert path + "/*" + TarSuffix == path + "/" + c;
    forall q | true
      ensures q in Glob(w, path + "/" + c) <==>
        q in w.listing && '/' in q && Parent(q) == path
        && EndsWith(Basename(q), TarSuffix) && |Basename(q)| > |TarSuffix| && Basename(q)[0] != '.'
    {
      GlobChildren(w, path, c, q);
      MatchStarLiteral(TarSuffix, Basename(q));
    }
    var g := Glob(w, path + "/" + c);
    assert |g| > 0 <==> exists q :: q in g by { if |g| > 0 { assert g[0] in g; } }
  }

  /** The copy of one sample's tar file, or the `ValueError` raised when the
      glob finds none or several. */
  function TarCommand(w: World, source: string, dest: string, sample: string, profile: Option<string>): (r: Result<seq<string>>)
    ensures r.Err? <==> |Glob(w, source + "/" + sample + TarSuffix)| != 1
    ensures r.Err? ==> r.error.kind == ValueError
    ensures r.Ok? ==> r.value == WithProfile(
      ["strato", "cp", "--ionice", "-m", "--quiet", Glob(w, source + "/" + sample + TarSuffix)[0], dest + "/"],
      profile)
  {
    var found := Glob(w, source + "/" + sample + TarSuffix);
    if |found| == 0 then Raise(ValueError, sample)
    else if |found| > 1 then Raise(ValueError, sample)
    else Ok(WithProfile(["strato", "cp", "--ionice", "-m", "--quiet", found[0], dest + "/"], profile))
  }

  /** A pattern without wildcards is only an existence test, so a literal
      sample name never meets the "multiple TAR files" error: the copy is
      issued exactly when `<source>/<sample>.tar` exists, and copies that
      very path. */
  lemma LiteralTarLookup(w: World, source: string, dest: string, sample: string, profile: Option<string>)
    requires !HasMagic(source + "/" + sample + TarSuffix)
    ensures TarCommand(w, source, dest, sample, profile).Ok? <==> Exists(w, source + "/" + sample + TarSuffix)
    ensures TarCommand(w, source, dest, sample, profile).Ok? ==>
      TarCommand(w, source, dest, sample, profile).value
        == WithProfile(["strato", "cp", "--ionice", "-m", "--quiet", source + "/" + sample + TarSuffix, dest + "/"], profile)
  {
  }

  function TarSteps(w: World, source: string, dest: string, s: SampleSet, profile: Option<string>): (r: seq<Result<seq<string>>>)
    ensures |r| == |s|
    ensures forall i :: 0 <= i < |s| ==> r[i] == TarCommand(w, source, dest, s[i], profile)
  {
    if |s| == 0 then []
    else [TarCommand(w, source, dest, s[0], profile)] + TarSteps(w, source, dest, s[1..], profile)
  }

  /** `transfer_tar(source, dest, sample_set, dry_run, profile)`: one copy
      per sample, stopping at the first failure. */
  function TransferTar(w: World, source: string, dest: string, s: SampleSet, dryRun: bool, profile: Option<string>): (o: Outcome)
    ensures |o.effects| <= |s|
    ensures forall i :: 0 <= i < |o.effects| ==>
      TarCommand(w, source, dest, s[i], profile).Ok?
      && o.effects[i] == Run(TarCommand(w, source, dest, s[i], profile).value, dryRun)
    ensures o.error.None? <==> forall i :: 0 <= i < |s| ==>
      |Glob(w, source + "/" + s[i] + TarSuffix)| == 1
      && (dryRun || w.accepts(TarCommand(w, source, dest, s[i], profile).value))
    ensures o.error.None? ==> |o.effects| == |s|
    ensures o.error.Some? ==> o.error.value.kind in {ValueError, CalledProcessError}
  {
    var steps := TarSteps(w, source, dest, s, profile);
    RunEachErrorKinds(w, steps, dryRun, {ValueError});
    RunEach(w, steps, dryRun)
  }
}

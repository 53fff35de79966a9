/** Unique bucket URLs.

    Every staging revision gives each uploaded path a URL under the bucket
    named after the path's basename, and probes numbered variants until it
    finds one not handed out before. A probe terminates because each failed
    try removes one more issued URL from the finite set of issued URLs not
    yet tried.
 */
module Urls {
  import opened Base
  import opened Strs
  import opened Paths

  /** Numbered variants differ from each other and from the plain name. */
  lemma NumberedDistinct(pre: string, sep: string, post: string, a: nat, b: nat)
    requires |sep| > 0
    ensures pre + post != pre + sep + NatToString(a) + post
    ensures pre + sep + NatToString(a) + post == pre + sep + NatToString(b) + post ==> a == b
  {
    var x, y := pre + sep + NatToString(a) + post, pre + sep + NatToString(b) + post;
    if x == y {
      assert |NatToString(a)| == |NatToString(b)|;
      assert NatToString(a) == x[|pre| + |sep|..|pre| + |sep| + |NatToString(a)|];
      assert NatToString(b) == y[|pre| + |sep|..|pre| + |sep| + |NatToString(b)|];
      NatToStringInjective(a, b);
    }
  }

  // ---------------------------------------------------------------------
  // cloud_url_factory (and gsurl_factory, its gs-only predecessor)

  /** The counter-th try: the plain URL, then `root_2ext`, `root_3ext`, ... */
  function Candidate(root: string, ext: string, counter: nat): string
  {
    if counter <= 1 then root + ext else root + "_" + NatToString(counter) + ext
  }

  /** The candidates tried before `counter`. */
  function TriedBefore(root: string, ext: string, counter: nat): set<string>
  {
    set d: nat | 1 <= d < counter :: Candidate(root, ext, d)
  }

  lemma CandidateNotTried(root: string, ext: string, counter: nat)
    requires 1 <= counter
    ensures Candidate(root, ext, counter) !in TriedBefore(root, ext, counter)
  {
    forall d: nat | 1 <= d < counter
      ensures Candidate(root, ext, d) != Candidate(root, ext, counter)
    {
      NumberedDistinct(root, "_", ext, d, counter);
    }
  }

  /** The probing loop from `counter` on: the first candidate not issued. */
  function ProbeFrom(issued: set<string>, root: string, ext: string, counter: nat): (c: nat)
    requires 1 <= counter
    ensures counter <= c && Candidate(root, ext, c) !in issued
    ensures forall d: nat :: counter <= d < c ==> Candidate(root, ext, d) in issued
    decreases issued - TriedBefore(root, ext, counter)
  {
    var u := Candidate(root, ext, counter);
    if u !in issued then counter
    else
      CandidateNotTried(root, ext, counter);
      assert TriedBefore(root, ext, counter + 1) == TriedBefore(root, ext, counter) + {u};
      assert u in issued - TriedBefore(root, ext, counter);
      ProbeFrom(issued, root, ext, counter + 1)
  }

  /** A URL factory: scheme, bucket (with any folder) and every URL issued. */
  datatype Factory = Factory(scheme: string, bucket: string, issued: set<string>)

  /** `cloud_url_factory(backend, bucket)`: only `gcp` and `aws` pass the
      assertion. */
  function NewFactory(backend: string, bucket: string): (r: Result<Factory>)
    ensures r.Ok? <==> backend in {"gcp", "aws"}
    ensures r.Ok? ==> r.value.issued == {} && r.value.bucket == bucket
    ensures r.Ok? ==> (r.value.scheme == "gs" <==> backend == "gcp")
    ensures r.Ok? ==> (r.value.scheme == "s3" <==> backend == "aws")
    ensures r.Err? ==> r.error.kind == AssertionError
  {
    if backend !in {"gcp", "aws"} then Raise(AssertionError, backend)
    else Ok(Factory(if backend == "gcp" then "gs" else "s3", bucket, {}))
  }

  /** `gsurl_factory(bucket)`. */
  function NewGsFactory(bucket: string): (r: Factory)
    ensures NewFactory("gcp", bucket) == Ok(r)
  {
    Factory("gs", bucket, {})
  }

  /** The URL tried first for a path. */
  function BaseUrl(f: Factory, path: string): string
  {
    f.scheme + "://" + f.bucket + "/" + Basename(path)
  }

  /** `get_unique_url(path)`: the first candidate not issued yet, which is
      then recorded. */
  function GetUniqueUrl(f: Factory, path: string): (r: (Factory, string))
    ensures r.1 !in f.issued
    ensures r.0 == f.(issued := f.issued + {r.1})
  {
    var (root, ext) := Splitext(BaseUrl(f, path));
    var url := Candidate(root, ext, ProbeFrom(f.issued, root, ext, 1));
    (f.(issued := f.issued + {url}), url)
  }

  /** The URL returned is the first of the plain URL, `root_2ext`,
      `root_3ext`, ... that was not issued before. */
  lemma GetUniqueUrlIsFirstFree(f: Factory, path: string)
    ensures var (root, ext) := Splitext(BaseUrl(f, path));
      exists c: nat ::
        (1 <= c && GetUniqueUrl(f, path).1 == Candidate(root, ext, c)
        && forall d: nat :: 1 <= d < c ==> Candidate(root, ext, d) in f.issued)
  {
    var (root, ext) := Splitext(BaseUrl(f, path));
    var c := ProbeFrom(f.issued, root, ext, 1);
    assert GetUniqueUrl(f, path).1 == Candidate(root, ext, c);
  }

  /** A name not issued before comes back as `<scheme>://<bucket>/<basename>`. */
  lemma FreshBaseUrl(f: Factory, path: string)
    requires BaseUrl(f, path) !in f.issued
    ensures GetUniqueUrl(f, path).1 == BaseUrl(f, path)
  {
    GetUniqueUrlIsFirstFree(f, path);
    var (root, ext) := Splitext(BaseUrl(f, path));
    var r := GetUniqueUrl(f, path).1;
    var c: nat :| 1 <= c && r == Candidate(root, ext, c)
      && forall d: nat :: 1 <= d < c ==> Candidate(root, ext, d) in f.issued;
    assert Candidate(root, ext, 1) == BaseUrl(f, path);
  }

  /** A collision yields `root_n` + extension for some n >= 2, where
      root + extension is the plain URL. */
  lemma CollisionNumbered(f: Factory, path: string)
    requires BaseUrl(f, path) in f.issued
    ensures var (root, ext) := Splitext(BaseUrl(f, path));
      exists n: nat :: 2 <= n && GetUniqueUrl(f, path).1 == root + "_" + NatToString(n) + ext
  {
    GetUniqueUrlIsFirstFree(f, path);
    var (root, ext) := Splitext(BaseUrl(f, path));
    var r := GetUniqueUrl(f, path).1;
    var c: nat :| 1 <= c && r == Candidate(root, ext, c)
      && forall d: nat :: 1 <= d < c ==> Candidate(root, ext, d) in f.issued;
    assert r != root + ext;
    assert r == root + "_" + NatToString(c) + ext;
  }

  /** Allocating for several paths in turn: the URLs are pairwise distinct,
      none was issued before, and all of them are recorded. */
  function AllocateAll(f: Factory, paths: seq<string>): (r: (Factory, seq<string>))
    ensures |r.1| == |paths|
    ensures Distinct(r.1)
    ensures forall i :: 0 <= i < |r.1| ==> r.1[i] !in f.issued
    ensures forall u :: u in r.0.issued <==> u in f.issued || u in r.1
    ensures r.0.scheme == f.scheme && r.0.bucket == f.bucket
    decreases |paths|
  {
    if |paths| == 0 then (f, [])
    else
      var g := GetUniqueUrl(f, paths[0]);
      var h := AllocateAll(g.0, paths[1..]);
      assert g.1 !in h.1;
      DistinctCons(g.1, h.1);
      var all := [g.1] + h.1;
      assert forall i :: 1 <= i < |all| ==> all[i] == h.1[i - 1];
      (h.0, all)
  }

  // ---------------------------------------------------------------------
  // The legacy get_unique_url(unique_urls, base_url, name)

  /** The k-th legacy try: `base + name`, then `base + name + "-" + k`. */
  function LegacyCandidate(base: string, name: string, k: nat): string
  {
    if k == 0 then base + name else base + name + "-" + NatToString(k)
  }

  function LegacyTriedBefore(base: string, name: string, k: nat): set<string>
  {
    set j: nat | j < k :: LegacyCandidate(base, name, j)
  }

  lemma LegacyCandidateNotTried(base: string, name: string, k: nat)
    ensures LegacyCandidate(base, name, k) !in LegacyTriedBefore(base, name, k)
  {
    forall j: nat | j < k
      ensures LegacyCandidate(base, name, j) != LegacyCandidate(base, name, k)
    {
      NumberedDistinct(base + name, "-", "", j, k);
      assert base + name + "" == base + name;
      assert base + name + "-" + NatToString(j) + "" == base + name + "-" + NatToString(j);
      assert base + name + "-" + NatToString(k) + "" == base + name + "-" + NatToString(k);
    }
  }

  function LegacyProbeFrom(issued: set<string>, base: string, name: string, k: nat): (r: nat)
    ensures k <= r && LegacyCandidate(base, name, r) !in issued
    ensures forall j: nat :: k <= j < r ==> LegacyCandidate(base, name, j) in issued
    decreases issued - LegacyTriedBefore(base, name, k)
  {
    var u := LegacyCandidate(base, name, k);
    if u !in issued then k
    else
      LegacyCandidateNotTried(base, name, k);
      assert LegacyTriedBefore(base, name, k + 1) == LegacyTriedBefore(base, name, k) + {u};
      assert u in issued - LegacyTriedBefore(base, name, k);
      LegacyProbeFrom(issued, base, name, k + 1)
  }

  /** The legacy probe appends `-1`, `-2`, ... after the whole name (no
      extension split) and does not record its result. */
  function LegacyUniqueUrl(issued: set<string>, base: string, name: string): (r: string)
    ensures r !in issued
    ensures exists k: nat ::
      (r == LegacyCandidate(base, name, k)
      && forall j: nat :: j < k ==> LegacyCandidate(base, name, j) in issued)
  {
    LegacyCandidate(base, name, LegacyProbeFrom(issued, base, name, 0))
  }
}

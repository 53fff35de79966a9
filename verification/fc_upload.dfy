/** The legacy staging command (`cumulus_util/commands/fc_upload.py`).

    It follows the same plan as the later revisions with its own rules:
    URLs are `<base><name>` then `<base><name>-1`, `-2`, ... (no
    extension split); the caller records each URL it is given; the
    extension is whatever follows the last `.` of the whole path; every
    cell of a sheet, the first line included, is scanned column by column;
    and the transfer is one `rsync` or `cp -r`, never a flowcell plan.
 */
module FcUpload {
  import opened Base
  import opened Strs
  import opened Paths
  import opened Host
  import opened Urls
  import opened Wdl
  import opened Staging

  /** The bucket prefix of every URL: `gs://<bucket>/`, the folder (if
      any) appended verbatim. */
  function LegacyBase(bucket: string, folder: Option<string>): string
  {
    "gs://" + (if folder.Some? then bucket + "/" + folder.value else bucket) + "/"
  }

  /** `get_unique_url` followed by `unique_urls.add`. */
  function LegacyAllocate(st: Stage, base: string, path: string): (r: (Stage, string))
    requires Coherent(st)
    ensures r.1 !in st.factory.issued
    ensures r.0 == st.(factory := st.factory.(issued := st.factory.issued + {r.1}))
    ensures r.1 == LegacyUniqueUrl(st.factory.issued, base, Basename(path))
    ensures Coherent(r.0) && Extends(st, r.0)
    ensures forall p :: p in r.0.registry ==> r.0.registry[p] != r.1
    ensures StartsWith(r.1, base + Basename(path))
    ensures UnderBase(st, base) ==> UnderBase(r.0, base)
  {
    var url := LegacyUniqueUrl(st.factory.issued, base, Basename(path));
    CandidatePrefix(base, Basename(path), LegacyProbeFrom(st.factory.issued, base, Basename(path), 0));
    assert StartsWith(url, base) by { PrefixOfPrefix(url, base, Basename(path)); }
    (st.(factory := st.factory.(issued := st.factory.issued + {url})), url)
  }

  /** Every URL issued so far lies under the bucket prefix. */
  ghost predicate UnderBase(st: Stage, base: string)
  {
    forall u :: u in st.factory.issued ==> StartsWith(u, base)
  }

  lemma CandidatePrefix(base: string, name: string, k: nat)
    ensures StartsWith(LegacyCandidate(base, name, k), base + name)
  {
    if k > 0 {
      assert LegacyCandidate(base, name, k) == (base + name) + ("-" + NatToString(k));
    }
  }

  lemma PrefixOfPrefix(s: string, a: string, b: string)
    requires StartsWith(s, a + b)
    ensures StartsWith(s, a)
  {
    assert s[..|a|] == (a + b)[..|a|];
  }

  /** `upload_to_google_bucket(source, dest, dry_run)`: a directory is
      synchronised, anything else copied recursively. */
  function LegacyCommand(w: World, source: string, dest: string): (r: seq<string>)
    ensures |r| == 6 && r[0] == "gsutil" && r[4] == source && r[5] == dest
    ensures r[2] == "rsync" <==> IsDir(w, source)
  {
    if IsDir(w, source) then ["gsutil", "-m", "rsync", "-r", source, dest]
    else ["gsutil", "-m", "cp", "-r", source, dest]
  }

  /** In a dry run nothing is executed, so nothing can fail. */
  function LegacySend(w: World, st: Stage, source: string, dest: string, dryRun: bool): (r: Staged<()>)
    ensures r.stage == st.(effects := st.effects + [Run(LegacyCommand(w, source, dest), dryRun)])
    ensures r.result.Err? <==> !dryRun && !w.accepts(LegacyCommand(w, source, dest))
    ensures r.result.Err? ==> r.result.error.kind == CalledProcessError
  {
    Absorb(st, RunCommand(w, LegacyCommand(w, source, dest), dryRun))
  }

  /** The extension the legacy command tests: the lower-cased text after
      the last `.` anywhere in the path, so it may span a `/`. */
  function LegacyExtension(path: string): (r: string)
    ensures '.' !in path ==> r == ""
    ensures '.' in path ==>
      var i := RFind(path, ".");
      0 <= i < |path| && path[i] == '.' && r == Lower(path[i + 1..]) && '.' !in path[i + 1..]
  {
    var i := RFind(path, ".");
    if i == -1 then
      assert '.' !in path by {
        forall k | 0 <= k < |path| ensures path[k] != '.' {
          assert path[k..k + 1] == [path[k]];
          assert !OccursAt(path, ".", k);
        }
      }
      ""
    else
      assert path[i..i + 1] == ".";
      assert path[i] == '.';
      assert forall k :: i < k < |path| ==> path[k] != '.' by {
        forall k | i < k < |path| ensures path[k] != '.' {
          assert path[k..k + 1] == [path[k]];
          assert !OccursAt(path, ".", k);
        }
      }
      var tail := path[i + 1..];
      assert '.' !in tail by {
        forall k | 0 <= k < |tail| ensures tail[k] != '.' {
          assert tail[k] == path[i + 1 + k];
        }
      }
      Lower(path[i + 1..])
  }

  /** A dot in a directory name makes the legacy extension span the
      separator: a sheet in such a directory whose own name has no dot is
      not recognised, although `os.path.splitext` finds no extension. */
  lemma ExtensionSpansDirectories()
    ensures LegacyExtension("/d.csv/sheet") == "csv/sheet"
    ensures Splitext("/d.csv/sheet").1 == ""
  {
    var p := "/d.csv/sheet";
    LastDotAt(p, 2);
    assert p[3..] == "csv/sheet";
    LowerNoUpper("csv/sheet");
    NoExtension(p, 6);
  }

  /** `rfind('.')` finds the dot at `i` when none follows it. */
  lemma LastDotAt(p: string, i: nat)
    requires i < |p| && p[i] == '.'
    requires forall k :: i < k < |p| ==> p[k] != '.'
    ensures RFind(p, ".") == i
  {
    assert OccursAt(p, ".", i) by { assert p[i..i + 1] == "."; }
    forall j | i < j <= |p| ensures !OccursAt(p, ".", j) {
      if j < |p| {
        assert p[j..j + 1] == [p[j]];
      }
    }
  }

  /** A string without upper-case letters is its own lower-case form. */
  lemma LowerNoUpper(s: string)
    requires forall k :: 0 <= k < |s| ==> !('A' <= s[k] <= 'Z')
    ensures Lower(s) == s
  {
  }

  /** A path whose last `/` (at `slash`) is followed by a dot-free name has
      no extension. */
  lemma NoExtension(p: string, slash: nat)
    requires slash < |p| && p[slash] == '/'
    requires forall k :: slash < k < |p| ==> p[k] != '.'
    ensures Splitext(p).1 == ""
  {
    var e := Splitext(p).1;
    SuffixShape(p, slash, |p| - |e|);
  }

  /** A non-empty suffix of such a path holds the `/` or does not start
      with a dot. */
  lemma SuffixShape(p: string, slash: nat, s: nat)
    requires slash < |p| && p[slash] == '/'
    requires forall k :: slash < k < |p| ==> p[k] != '.'
    requires s <= |p|
    ensures s == |p| || '/' in p[s..] || p[s..][0] != '.'
  {
    if s < |p| {
      if s <= slash {
        assert p[s..][slash - s] == '/';
      }
    }
  }

  const LegacySheetExtensions: set<string> := {"txt", "xlsx", "tsv", "csv"}

  /** The legacy test for a path to scan as a sheet. */
  predicate LegacyIsSheet(path: string)
  {
    LegacyExtension(path) in LegacySheetExtensions
  }

  // ---------------------------------------------------------------------
  // The scan, column by column

  /** A cell after the legacy scan, given the final registry: a local path
      becomes the URL of its absolute path, anything else stays. */
  predicate LegacyRewritten(w: World, reg: map<string, string>, c: Cell, c2: Cell)
  {
    if IsLocalCell(w, c) then w.abspath(c.s) in reg && c2 == Text(reg[w.abspath(c.s)]) else c2 == c
  }

  /** One cell: a registered path reuses its URL, a new one is allocated a
      URL, registered and transferred. */
  function LegacyScanCell(w: World, dryRun: bool, base: string, st: Stage, c: Cell): (r: Staged<Cell>)
    requires Coherent(st) && UnderBase(st, base)
    ensures Coherent(r.stage) && Extends(st, r.stage) && UnderBase(r.stage, base)
    ensures dryRun ==> r.result.Ok?
    ensures r.result.Ok? ==> LegacyRewritten(w, r.stage.registry, c, r.result.value)
    ensures !IsLocalCell(w, c) || w.abspath(c.s) in st.registry ==> r.stage == st && r.result.Ok?
    ensures (IsLocalCell(w, c) && w.abspath(c.s) !in st.registry) ==>
      var url := LegacyUniqueUrl(st.factory.issued, base, Basename(w.abspath(c.s)));
      && r.stage.registry == st.registry[w.abspath(c.s) := url]
      && r.stage.effects == st.effects + [Run(LegacyCommand(w, w.abspath(c.s), url), dryRun)]
  {
    if !IsLocalCell(w, c) then Staged(st, Ok(c))
    else
      var path := w.abspath(c.s);
      if path in st.registry then Staged(st, Ok(Text(st.registry[path])))
      else
        var (st1, url) := LegacyAllocate(st, base, path);
        var st2 := Register(st1, path, url);
        ExtendsTrans(st, st1, st2);
        var sent := LegacySend(w, st2, path, url, dryRun);
        ExtendsTrans(st, st2, sent.stage);
        if sent.result.Err? then Staged(sent.stage, Err(sent.result.error))
        else Staged(sent.stage, Ok(Text(url)))
  }

  function Max(a: nat, b: nat): nat { if a < b then b else a }

  /** The number of columns. */
  function Width(t: Table): (r: nat)
    ensures forall i :: 0 <= i < |t| ==> |t[i]| <= r
  {
    if |t| == 0 then 0
    else
      var rest := Width(t[1..]);
      assert forall i :: 1 <= i < |t| ==> t[i] == t[1..][i - 1];
      Max(|t[0]|, rest)
  }

  predicate SameShape(a: Table, b: Table)
  {
    |a| == |b| && forall i :: 0 <= i < |a| ==> |a[i]| == |b[i]|
  }

  /** Cell `(i, j)` comes before row `a` of column `b` in column-major
      order. */
  predicate Before(i: nat, j: nat, a: nat, b: nat)
  {
    j < b || (j == b && i < a)
  }

  /** The cells already visited are rewritten, the others untouched. */
  ghost predicate ScannedUpTo(w: World, reg: map<string, string>, orig: Table, cur: Table, a: nat, b: nat)
  {
    && SameShape(orig, cur)
    && (forall i, j :: 0 <= i < |orig| && 0 <= j < |orig[i]| && Before(i, j, a, b) ==>
          LegacyRewritten(w, reg, orig[i][j], cur[i][j]))
    && (forall i, j :: 0 <= i < |orig| && 0 <= j < |orig[i]| && !Before(i, j, a, b) ==> cur[i][j] == orig[i][j])
  }

  /** The scan from row `a` of column `b` on: `df[c].values` for each
      column `c` in turn, top to bottom, the first line included. */
  function LegacyScanFrom(w: World, dryRun: bool, base: string, st: Stage, orig: Table, cur: Table, a: nat, b: nat)
    : (r: Staged<Table>)
    requires Coherent(st) && UnderBase(st, base)
    requires ScannedUpTo(w, st.registry, orig, cur, a, b)
    ensures Coherent(r.stage) && Extends(st, r.stage) && UnderBase(r.stage, base)
    ensures dryRun ==> r.result.Ok?
    ensures r.result.Ok? ==> ScannedUpTo(w, r.stage.registry, orig, r.result.value, 0, Width(orig))
    decreases Width(orig) - b, |orig| - a
  {
    if b >= Width(orig) then
      ScannedAll(w, st.registry, orig, cur, a, b);
      Staged(st, Ok(cur))
    else if a >= |orig| then
      ScannedNextColumn(w, st.registry, orig, cur, a, b);
      LegacyScanFrom(w, dryRun, base, st, orig, cur, 0, b + 1)
    else if b >= |orig[a]| then
      ScannedShortRow(w, st.registry, orig, cur, a, b);
      LegacyScanFrom(w, dryRun, base, st, orig, cur, a + 1, b)
    else
      var c := LegacyScanCell(w, dryRun, base, st, orig[a][b]);
      if c.result.Err? then Staged(c.stage, Err(c.result.error))
      else
        var next := cur[a := cur[a][b := c.result.value]];
        ScannedStep(w, st, c.stage, orig, cur, a, b, c.result.value);
        var rest := LegacyScanFrom(w, dryRun, base, c.stage, orig, next, a + 1, b);
        ExtendsTrans(st, c.stage, rest.stage);
        rest
  }

  lemma ScannedAll(w: World, reg: map<string, string>, orig: Table, cur: Table, a: nat, b: nat)
    requires b >= Width(orig)
    requires ScannedUpTo(w, reg, orig, cur, a, b)
    ensures ScannedUpTo(w, reg, orig, cur, 0, Width(orig))
  {
  }

  lemma ScannedNextColumn(w: World, reg: map<string, string>, orig: Table, cur: Table, a: nat, b: nat)
    requires a >= |orig|
    requires ScannedUpTo(w, reg, orig, cur, a, b)
    ensures ScannedUpTo(w, reg, orig, cur, 0, b + 1)
  {
  }

  lemma ScannedShortRow(w: World, reg: map<string, string>, orig: Table, cur: Table, a: nat, b: nat)
    requires a < |orig| && b >= |orig[a]|
    requires ScannedUpTo(w, reg, orig, cur, a, b)
    ensures ScannedUpTo(w, reg, orig, cur, a + 1, b)
  {
  }

  lemma ScannedStep(w: World, st: Stage, st1: Stage, orig: Table, cur: Table, a: nat, b: nat, c: Cell)
    requires a < |orig| && b < |orig[a]|
    requires Extends(st, st1)
    requires ScannedUpTo(w, st.registry, orig, cur, a, b)
    requires LegacyRewritten(w, st1.registry, orig[a][b], c)
    ensures ScannedUpTo(w, st1.registry, orig, cur[a := cur[a][b := c]], a + 1, b)
  {
    var next := cur[a := cur[a][b := c]];
    forall i, j | 0 <= i < |orig| && 0 <= j < |orig[i]| && Before(i, j, a + 1, b)
      ensures LegacyRewritten(w, st1.registry, orig[i][j], next[i][j])
    {
      if i != a || j != b {
        assert next[i][j] == cur[i][j];
        assert LegacyRewritten(w, st.registry, orig[i][j], cur[i][j]);
      }
    }
  }

  /** Some cell of the sheet, the first line included, names a path. */
  predicate AnyLocalCell(w: World, t: Table)
  {
    exists i, j :: 0 <= i < |t| && 0 <= j < |t[i]| && IsLocalCell(w, t[i][j])
  }

  /** A scan that meets no local cell changes nothing. */
  lemma NoLocalNoChange(w: World, reg: map<string, string>, orig: Table, out: Table)
    requires !AnyLocalCell(w, orig)
    requires ScannedUpTo(w, reg, orig, out, 0, Width(orig))
    ensures out == orig
  {
    forall i | 0 <= i < |orig| ensures out[i] == orig[i] {
      forall j | 0 <= j < |orig[i]| ensures out[i][j] == orig[i][j] {
        assert Before(i, j, 0, Width(orig));
      }
    }
  }

  /** The table the legacy scan reads: the file's own, or, when it does
      not parse, the `df` an earlier sheet left behind (the exception is
      swallowed and the name stays bound). */
  function SheetTable(env: Env, path: string, df: Option<Table>): Option<Table>
  {
    if env.readSheet(path).Some? then env.readSheet(path) else df
  }

  /** The outcome of the sheet step: the file to send, whether it is a
      rewrite, and the `df` now bound. */
  datatype SheetScan = SheetScan(file: string, changed: bool, df: Option<Table>)

  /** The separator of the rewritten sheet: a comma exactly for `csv`. */
  function LegacySep(path: string): string
  {
    if LegacyExtension(path) == "csv" then "," else "\t"
  }

  /** The sheet step of the legacy command: a recognised extension makes
      the file a sheet. Without any table to scan (`df` never bound), the
      scan raises `NameError`. A table with a local cell is rewritten
      whole to a fresh temporary file. */
  function LegacySheet(env: Env, w: World, dryRun: bool, base: string, st: Stage, path: string, df: Option<Table>)
    : (r: Staged<SheetScan>)
    requires Coherent(st) && UnderBase(st, base)
    ensures Coherent(r.stage) && Extends(st, r.stage) && UnderBase(r.stage, base)
    ensures LegacyExtension(path) !in LegacySheetExtensions ==> r == Staged(st, Ok(SheetScan(path, false, df)))
    ensures LegacyExtension(path) in LegacySheetExtensions && SheetTable(env, path, df).None? ==>
      r.stage == st && r.result.Err? && r.result.error.kind == NameError
    ensures r.result.Err? && dryRun ==> r.result.error.kind == NameError
    ensures r.result.Ok? && !r.result.value.changed ==> r.result.value.file == path && r.stage == st
    ensures (r.result.Ok? && LegacyExtension(path) in LegacySheetExtensions) ==>
      && SheetTable(env, path, df).Some? && r.result.value.df.Some?
      && ScannedUpTo(w, r.stage.registry, SheetTable(env, path, df).value, r.result.value.df.value,
                     0, Width(SheetTable(env, path, df).value))
      && (r.result.value.changed <==> AnyLocalCell(w, SheetTable(env, path, df).value))
    ensures (r.result.Ok? && r.result.value.changed) ==>
      && r.result.value.file == env.tempFile(path) && r.result.value.df.Some?
      && |r.stage.effects| > 0
      && r.stage.effects[|r.stage.effects| - 1] == WriteTable(env.tempFile(path), r.result.value.df.value, LegacySep(path))
  {
    if LegacyExtension(path) !in LegacySheetExtensions then Staged(st, Ok(SheetScan(path, false, df)))
    else match SheetTable(env, path, df)
      case None => Staged(st, Raise(NameError, "df"))
      case Some(t) =>
        var scanned := LegacyScanFrom(w, dryRun, base, st, t, t, 0, 0);
        if scanned.result.Err? then Staged(scanned.stage, Err(scanned.result.error))
        else if !AnyLocalCell(w, t) then
          NoLocalNoEffect(w, dryRun, base, st, t);
          Staged(scanned.stage, Ok(SheetScan(path, false, Some(scanned.result.value))))
        else
          var temp := env.tempFile(path);
          var written := scanned.stage.(effects := scanned.stage.effects
            + [WriteTable(temp, scanned.result.value, LegacySep(path))]);
          ExtendsTrans(st, scanned.stage, written);
          Staged(written, Ok(SheetScan(temp, true, Some(scanned.result.value))))
  }

  /** Without local cells the scan touches neither the registry nor the
      trace. */
  lemma NoLocalNoEffect(w: World, dryRun: bool, base: string, st: Stage, t: Table)
    requires Coherent(st) && UnderBase(st, base)
    requires !AnyLocalCell(w, t)
    ensures LegacyScanFrom(w, dryRun, base, st, t, t, 0, 0).stage == st
  {
    NoLocalFrom(w, dryRun, base, st, t, t, 0, 0);
  }

  lemma {:induction false} NoLocalFrom(w: World, dryRun: bool, base: string, st: Stage, orig: Table, cur: Table,
                                       a: nat, b: nat)
    requires Coherent(st) && UnderBase(st, base)
    requires ScannedUpTo(w, st.registry, orig, cur, a, b)
    requires !AnyLocalCell(w, orig)
    ensures LegacyScanFrom(w, dryRun, base, st, orig, cur, a, b).stage == st
    decreases Width(orig) - b, |orig| - a
  {
    if b >= Width(orig) {
    } else if a >= |orig| {
      ScannedNextColumn(w, st.registry, orig, cur, a, b);
      NoLocalFrom(w, dryRun, base, st, orig, cur, 0, b + 1);
    } else if b >= |orig[a]| {
      ScannedShortRow(w, st.registry, orig, cur, a, b);
      NoLocalFrom(w, dryRun, base, st, orig, cur, a + 1, b);
    } else {
      assert !IsLocalCell(w, orig[a][b]);
      var c := LegacyScanCell(w, dryRun, base, st, orig[a][b]);
      ScannedStep(w, st, c.stage, orig, cur, a, b, c.result.value);
      NoLocalFrom(w, dryRun, base, st, orig, cur[a := cur[a][b := c.result.value]], a + 1, b);
    }
  }

  // ---------------------------------------------------------------------
  // do_fc_upload

  /** The transfer of the file the sheet step chose. A rewrite is a plain
      file, so it is copied, and it is removed once it has gone up. */
  function LegacySendFile(w: World, dryRun: bool, st: Stage, scan: SheetScan, url: string): (r: Staged<()>)
    requires Coherent(st)
    ensures Coherent(r.stage) && Extends(st, r.stage) && r.stage.factory == st.factory
    ensures r.stage.registry == st.registry
    ensures !scan.changed ==> (r.result.Err? <==> !dryRun && !w.accepts(LegacyCommand(w, scan.file, url)))
    ensures scan.changed ==>
      (r.result.Err? <==> !dryRun && !w.accepts(["gsutil", "-m", "cp", "-r", scan.file, url]))
    ensures !scan.changed ==> r.stage.effects == st.effects + [Run(LegacyCommand(w, scan.file, url), dryRun)]
    ensures scan.changed && r.result.Ok? ==>
      r.stage.effects == st.effects + [Run(["gsutil", "-m", "cp", "-r", scan.file, url], dryRun), Remove(scan.file)]
  {
    if !scan.changed then
      LegacySend(w, st, scan.file, url, dryRun)
    else
      var sent := LegacySend(WithTemp(w, scan.file), st, scan.file, url, dryRun);
      if sent.result.Err? then sent
      else
        var done := sent.stage.(effects := sent.stage.effects + [Remove(scan.file)]);
        ExtendsTrans(st, sent.stage, done);
        Staged(done, Ok(()))
  }

  /** What sending a legacy sheet to `url` appends to the effects `before`
      when it succeeds: the sheet went up as it was, by the same command as
      any other path, or its rewrite was copied and then removed. */
  predicate LegacySheetSent(env: Env, w: World, dryRun: bool, before: seq<Effect>, after: seq<Effect>,
                            path: string, url: string)
  {
    || after == before + [Run(LegacyCommand(w, path, url), dryRun)]
    || (&& |after| >= |before| + 2 && after[..|before|] == before
        && after[|after| - 2] == Run(["gsutil", "-m", "cp", "-r", env.tempFile(path), url], dryRun)
        && after[|after| - 1] == Remove(env.tempFile(path)))
  }

  lemma LegacySheetSentFrom(env: Env, w: World, dryRun: bool, path: string, url: string,
                            before: seq<Effect>, mid: seq<Effect>, after: seq<Effect>, changed: bool)
    requires |before| <= |mid| && mid[..|before|] == before
    requires !changed ==> mid == before && after == mid + [Run(LegacyCommand(w, path, url), dryRun)]
    requires changed ==>
      after == mid + [Run(["gsutil", "-m", "cp", "-r", env.tempFile(path), url], dryRun), Remove(env.tempFile(path))]
    ensures LegacySheetSent(env, w, dryRun, before, after, path, url)
  {
    if changed {
      var tail := [Run(["gsutil", "-m", "cp", "-r", env.tempFile(path), url], dryRun), Remove(env.tempFile(path))];
      assert (mid + tail)[..|before|] == mid[..|before|];
    }
  }

  /** One manifest value. A local path not registered yet is given its
      URL and registered, its sheet (if any) is scanned, and the path or
      its rewrite is sent. A value that is not a local path, or whose
      path is registered, is skipped and stays as it is. */
  function LegacyEntry(env: Env, w: World, dryRun: bool, base: string, st: Stage, v: Value, df: Option<Table>)
    : (r: Staged<(Option<string>, Option<Table>)>)
    requires Coherent(st) && UnderBase(st, base)
    ensures Coherent(r.stage) && Extends(st, r.stage) && UnderBase(r.stage, base)
    ensures !IsLocalValue(w, v) ==> r == Staged(st, Ok((None, df)))
    ensures IsLocalValue(w, v) && w.abspath(v.s) in st.registry ==> r == Staged(st, Ok((None, df)))
    ensures (IsLocalValue(w, v) && w.abspath(v.s) !in st.registry) ==>
      var url := LegacyUniqueUrl(st.factory.issued, base, Basename(w.abspath(v.s)));
      && w.abspath(v.s) in r.stage.registry && r.stage.registry[w.abspath(v.s)] == url
      && (r.result.Ok? ==> r.result.value.0 == Some(url))
    ensures (r.result.Ok? && IsLocalValue(w, v) && w.abspath(v.s) !in st.registry
      && !LegacyIsSheet(w.abspath(v.s))) ==>
      var url := LegacyUniqueUrl(st.factory.issued, base, Basename(w.abspath(v.s)));
      r.stage.effects == st.effects + [Run(LegacyCommand(w, w.abspath(v.s), url), dryRun)]
    ensures (IsLocalValue(w, v) && w.abspath(v.s) !in st.registry && !LegacyIsSheet(w.abspath(v.s))) ==>
      var url := LegacyUniqueUrl(st.factory.issued, base, Basename(w.abspath(v.s)));
      (r.result.Ok? <==> dryRun || w.accepts(LegacyCommand(w, w.abspath(v.s), url)))
    ensures (r.result.Ok? && IsLocalValue(w, v) && w.abspath(v.s) !in st.registry && LegacyIsSheet(w.abspath(v.s))) ==>
      LegacySheetSent(env, w, dryRun, st.effects, r.stage.effects, w.abspath(v.s),
        LegacyUniqueUrl(st.factory.issued, base, Basename(w.abspath(v.s))))
    ensures forall p :: p in r.stage.registry && p !in st.registry ==> MayRegister(w, LegacyIsSheet, v, p)
    ensures r.result.Err? && dryRun ==> r.result.error.kind == NameError
  {
    if !IsLocalValue(w, v) then Staged(st, Ok((None, df)))
    else
      var path := w.abspath(v.s);
      if path in st.registry then Staged(st, Ok((None, df)))
      else
        var (st1, url) := LegacyAllocate(st, base, path);
        var st2 := Register(st1, path, url);
        ExtendsTrans(st, st1, st2);
        var sheet := LegacySheet(env, w, dryRun, base, st2, path, df);
        ExtendsTrans(st, st2, sheet.stage);
        if sheet.result.Err? then Staged(sheet.stage, Err(sheet.result.error))
        else
          var sent := LegacySendFile(w, dryRun, sheet.stage, sheet.result.value, url);
          ExtendsTrans(st, sheet.stage, sent.stage);
          if sent.result.Err? then Staged(sent.stage, Err(sent.result.error))
          else
            LegacySheetSentFrom(env, w, dryRun, path, url, st.effects, sheet.stage.effects, sent.stage.effects,
              sheet.result.value.changed);
            Staged(sent.stage, Ok((Some(url), sheet.result.value.df)))
  }

  /** The values of the inputs in order, `df` carried from one to the
      next; the result says, value by value, which URL replaces it. */
  function LegacyAll(env: Env, w: World, dryRun: bool, base: string, st: Stage, vals: seq<Value>, df: Option<Table>)
    : (r: Staged<seq<Option<string>>>)
    requires Coherent(st) && UnderBase(st, base)
    ensures Coherent(r.stage) && Extends(st, r.stage) && UnderBase(r.stage, base)
    ensures r.result.Ok? ==> StagedValues(w, LegacyIsSheet, st, r.stage.registry, vals, r.result.value)
    ensures r.result.Err? && dryRun ==> r.result.error.kind == NameError
    decreases |vals|
  {
    if |vals| == 0 then Staged(st, Ok([]))
    else
      var head := LegacyEntry(env, w, dryRun, base, st, vals[0], df);
      if head.result.Err? then Staged(head.stage, Err(head.result.error))
      else
        var rest := LegacyAll(env, w, dryRun, base, head.stage, vals[1..], head.result.value.1);
        ExtendsTrans(st, head.stage, rest.stage);
        if rest.result.Err? then rest
        else
          StagedCons(w, LegacyIsSheet, st, head.stage, rest.stage, vals, head.result.value.0, rest.result.value);
          Staged(rest.stage, Ok([head.result.value.0] + rest.result.value))
  }

  /** `do_fc_upload(inputs, workspace, dry_run, bucket_folder)`, given the
      workspace's bucket: every value that names a local path is sent
      under `gs://<bucket>[/<folder>]/` and replaced by its URL. In a dry
      run nothing is executed, so the only error left is the unbound
      `df` of a sheet that does not parse. */
  function FcUpload(env: Env, w: World, inputs: Manifest, bucket: string, folder: Option<string>, dryRun: bool)
    : (r: Staged<Manifest>)
    ensures r.result.Ok? ==> Coherent(r.stage) && UploadedManifest(w, LegacyIsSheet, r.stage.registry, inputs, r.result.value)
    ensures r.result.Ok? ==> forall p :: p in r.stage.registry ==>
      StartsWith(r.stage.registry[p], LegacyBase(bucket, folder))
    ensures r.result.Err? && dryRun ==> r.result.error.kind == NameError
  {
    var base := LegacyBase(bucket, folder);
    var st := Stage(Factory("gs", if folder.Some? then bucket + "/" + folder.value else bucket, {}), map[], []);
    var staged := LegacyAll(env, w, dryRun, base, st, Values(inputs), None);
    if staged.result.Err? then Staged(staged.stage, Err(staged.result.error))
    else
      UploadedFromStaged(w, LegacyIsSheet, st, staged.stage, inputs, staged.result.value);
      Staged(staged.stage, Ok(ApplyUrls(inputs, staged.result.value)))
  }
}

/** Staging local inputs into a bucket: the current revision
    (`alto/utils/io_utils.py`) and the gs-only revision
    (`alto/commands/upload.py`), which share one plan.

    Every string value of the manifest that names an existing path gets the
    URL allocated for its absolute path, and the path is transferred there.
    Sheets (by extension) are scanned for further local paths, which get
    their own URLs and transfers; a sheet that changed is written to a
    temporary file, and that file is uploaded under the sheet's URL and
    then removed. A registry from absolute path (or FASTQ folder key) to
    URL makes each path go up once.
 */
module Staging {
  import opened Base
  import opened Strs
  import opened Paths
  import opened Host
  import opened Urls
  import opened Lanes
  import opened Bcl
  import opened Wdl

  /** The two revisions: the current one drives `strato` for a backend
      (with an optional profile); the gs-only one drives `gsutil`. */
  datatype Revision =
    | Current(backend: string, profile: Option<string>)
    | GsOnly

  /** A parsed sheet, `header=None`: row 0 is the header line. */
  type Table = seq<seq<Cell>>

  /** What the staging code calls but the model does not define. */
  datatype Env = Env(
    // `pd.read_csv(path, sep=None, header=None)`; `None` where it raises
    readSheet: string -> Option<Table>,
    // `folder_is_fastq(value, sample_name)`, which is not part of this model
    folderIsFastq: (string, Option<Cell>) -> Option<string>,
    // the FASTQ transfer `transfer_data` calls: source, dest, dry run, profile
    fastqTransfer: (string, string, bool, Option<string>) -> Outcome,
    // the name `tempfile.mkstemp()` returns when the sheet at a path is rewritten
    tempFile: string -> string,
    // `json.dumps` of a manifest
    dumps: Manifest -> string)

  function ToolOf(rev: Revision): Tool
  {
    match rev
    case Current(b, _) => Strato(b)
    case GsOnly => Gsutil
  }

  function ProfileOf(rev: Revision): Option<string>
  {
    if rev.Current? then rev.profile else None
  }

  // ---------------------------------------------------------------------
  // transfer_data

  /** Lane managers keyed by the flowcell cell of the sheet. */
  type Flowcells = map<Cell, LaneManager>

  ghost predicate ValidFlowcells(fc: Flowcells)
  {
    forall c :: c in fc ==> fc[c].Valid()
  }

  /** `flowcells[source].get_lanes()`, or `['*']` without a map. The map
      is a `defaultdict`, so a missing key reads as a fresh manager. */
  function LanesFor(fc: Option<Flowcells>, source: string): (r: seq<string>)
    requires fc.Some? ==> ValidFlowcells(fc.value)
    ensures fc.None? || Text(source) !in fc.value ==> r == ["*"]
    ensures fc.Some? && Text(source) in fc.value ==> r == GetLanes(fc.value[Text(source)])
  {
    match fc
    case None => ["*"]
    case Some(m) => GetLanes(if Text(source) in m then m[Text(source)] else NewManager)
  }

  /** The command for a path that is neither a flowcell nor FASTQ. */
  function PlainCommand(rev: Revision, source: string, dest: string, isDir: bool): (r: seq<string>)
    ensures |r| >= 4
    ensures rev.GsOnly? ==> r[0] == "gsutil" && r[|r| - 2..] == [source, dest] && (r[1] == "-m" <==> isDir)
    ensures rev.Current? ==>
      && r[..4] == ["strato", if isDir then "sync" else "cp", "--backend", rev.backend]
      && var n := if rev.profile.Some? then |r| - 2 else |r|;
        4 <= n - 2 && r[n - 2..n] == [source, dest]
        && (rev.profile.Some? ==> r[n..] == ["--profile", rev.profile.value])
  {
    match rev
    case Current(b, profile) =>
      WithProfile(
        if isDir then ["strato", "sync", "--backend", b, "--ionice", "-m", "--quiet", source, dest]
        else ["strato", "cp", "--backend", b, "--ionice", "--quiet", source, dest],
        profile)
    case GsOnly =>
      if isDir then ["gsutil", "-m", "rsync", "-r", source, dest] else ["gsutil", "cp", source, dest]
  }

  /** `transfer_data(source, dest, ...)`: a flowcell (unless the caller
      says FASTQ) goes by lanes, FASTQ goes to the FASTQ transfer, and
      anything else is one sync (directory) or copy (file). */
  function TransferData(env: Env, w: World, rev: Revision, source: string, dest: string, dryRun: bool,
                        fc: Option<Flowcells>, isFastqDir: bool): (o: Outcome)
    requires fc.Some? ==> ValidFlowcells(fc.value)
    ensures !isFastqDir && PathIsFlowcell(w, source) ==>
      o == TransferFlowcell(w, ToolOf(rev), source, dest, LanesFor(fc, source), dryRun)
    ensures isFastqDir && rev.Current? ==> o == env.fastqTransfer(source, dest, dryRun, rev.profile)
    ensures !isFastqDir && !PathIsFlowcell(w, source) ==>
      o == RunCommand(w, PlainCommand(rev, source, dest, IsDir(w, source)), dryRun)
  {
    if !isFastqDir && PathIsFlowcell(w, source) then
      TransferFlowcell(w, ToolOf(rev), source, dest, LanesFor(fc, source), dryRun)
    else if isFastqDir && rev.Current? then
      env.fastqTransfer(source, dest, dryRun, rev.profile)
    else
      RunCommand(w, PlainCommand(rev, source, dest, IsDir(w, source)), dryRun)
  }

  /** A directory without `RunInfo.xml` is no flowcell: outside the FASTQ
      case it is synchronised as a whole. */
  lemma NoRunInfoSynced(env: Env, w: World, rev: Revision, source: string, dest: string, dryRun: bool,
                        fc: Option<Flowcells>)
    requires fc.Some? ==> ValidFlowcells(fc.value)
    requires IsDir(w, source) && !Exists(w, source + "/RunInfo.xml")
    ensures TransferData(env, w, rev, source, dest, dryRun, fc, false)
      == RunCommand(w, PlainCommand(rev, source, dest, true), dryRun)
  {
  }

  /** Lanes are recorded under the flowcell cell as written in the sheet
      but looked up under the absolute path: a sheet that names its
      flowcell by any other spelling gets every lane. */
  lemma OtherSpellingGetsAllLanes(fc: Flowcells, cellText: string, source: string)
    requires ValidFlowcells(fc)
    requires cellText != source
    requires forall c :: c in fc ==> c == Text(cellText)
    ensures LanesFor(Some(fc), source) == ["*"]
  {
  }

  // ---------------------------------------------------------------------
  // The staging state

  /** The URL factory, the path-to-URL registry and the effects so far. */
  datatype Stage = Stage(factory: Factory, registry: map<string, string>, effects: seq<Effect>)

  /** Every registered URL was issued by the factory, and no two paths
      share a URL. */
  ghost predicate Coherent(st: Stage)
  {
    && (forall p :: p in st.registry ==> st.registry[p] in st.factory.issued)
    && (forall p, q :: p in st.registry && q in st.registry && p != q ==> st.registry[p] != st.registry[q])
  }

  /** `b` continues `a`: nothing registered or issued is forgotten, the
      factory keeps its bucket, and effects are only appended. */
  ghost predicate Extends(a: Stage, b: Stage)
  {
    && (forall p :: p in a.registry ==> p in b.registry && b.registry[p] == a.registry[p])
    && a.factory.issued <= b.factory.issued
    && b.factory.scheme == a.factory.scheme && b.factory.bucket == a.factory.bucket
    && |a.effects| <= |b.effects| && b.effects[..|a.effects|] == a.effects
  }

  lemma ExtendsTrans(a: Stage, b: Stage, c: Stage)
    requires Extends(a, b) && Extends(b, c)
    ensures Extends(a, c)
  {
    assert c.effects[..|a.effects|] == c.effects[..|b.effects|][..|a.effects|];
  }

  /** A staging step: the stage reached, and a value or the exception that
      stopped everything. */
  datatype Staged<T> = Staged(stage: Stage, result: Result<T>)

  /** Allocates a fresh URL for a path: it differs from every URL in the
      registry. */
  function Allocate(st: Stage, key: string): (r: (Stage, string))
    requires Coherent(st)
    ensures r.1 !in st.factory.issued
    ensures r.0 == st.(factory := st.factory.(issued := st.factory.issued + {r.1}))
    ensures r.1 == GetUniqueUrl(st.factory, key).1
    ensures Coherent(r.0) && Extends(st, r.0)
    ensures forall p :: p in r.0.registry ==> r.0.registry[p] != r.1
  {
    var (f, url) := GetUniqueUrl(st.factory, key);
    (st.(factory := f), url)
  }

  /** Records a URL that no registered path has yet. */
  function Register(st: Stage, key: string, url: string): (r: Stage)
    requires Coherent(st)
    requires url in st.factory.issued
    requires forall p :: p in st.registry ==> st.registry[p] != url
    requires key !in st.registry
    ensures Coherent(r) && Extends(st, r)
    ensures r.registry == st.registry[key := url]
    ensures r.factory == st.factory && r.effects == st.effects
  {
    st.(registry := st.registry[key := url])
  }

  /** Appends the effects of an outcome; its error, if any, stops staging. */
  function Absorb(st: Stage, o: Outcome): (r: Staged<()>)
    ensures r.stage == st.(effects := st.effects + o.effects)
    ensures r.result.Err? <==> o.error.Some?
    ensures o.error.Some? ==> r.result.error == o.error.value
  {
    var st1 := st.(effects := st.effects + o.effects);
    match o.error
    case Some(e) => Staged(st1, Err(e))
    case None => Staged(st1, Ok(()))
  }

  // ---------------------------------------------------------------------
  // The cells of a sheet

  /** `isinstance(value, str) and os.path.exists(value)`. */
  predicate IsLocalCell(w: World, c: Cell)
  {
    c.Text? && Exists(w, c.s)
  }

  /** Where a local cell goes: what is transferred, the registry key, and
      whether it is a FASTQ folder. */
  datatype Target = Target(source: string, key: string, isFastq: bool)

  /** The current revision asks `folder_is_fastq` first: a FASTQ folder is
      keyed by its absolute path and the row's sample name, which must then
      be a string (`+` on anything else raises `TypeError`). Anything else,
      and every path in the gs-only revision, is keyed by its absolute path. */
  function CellTarget(env: Env, w: World, rev: Revision, v: string, sample: Option<Cell>): (r: Result<Target>)
    ensures rev.GsOnly? ==> r == Ok(Target(w.abspath(v), w.abspath(v), false))
    ensures r.Err? <==> rev.Current? && env.folderIsFastq(v, sample).Some? && !(sample.Some? && sample.value.Text?)
    ensures r.Err? ==> r.error.kind == TypeError
    ensures r.Ok? ==> (r.value.isFastq <==> rev.Current? && env.folderIsFastq(v, sample).Some?)
    ensures r.Ok? && r.value.isFastq ==>
      r.value.source == env.folderIsFastq(v, sample).value && r.value.key == w.abspath(v) + "/" + sample.value.s
    ensures r.Ok? && !r.value.isFastq ==> r.value.source == w.abspath(v) && r.value.key == w.abspath(v)
  {
    var pattern := if rev.Current? then env.folderIsFastq(v, sample) else None;
    match pattern
    case None => Ok(Target(w.abspath(v), w.abspath(v), false))
    case Some(src) =>
      if sample.Some? && sample.value.Text? then Ok(Target(src, w.abspath(v) + "/" + sample.value.s, true))
      else Raise(TypeError, v)
  }

  /** What a rewritten cell holds: the URL, or for a FASTQ folder the URL's
      parent (the folder the sample's files went into). */
  function CellUrl(t: Target, url: string): Cell
  {
    Text(if t.isFastq then Dirname(url) else url)
  }

  /** `c2` is what the scan makes of `c` given the final registry: a local
      cell holds the URL registered for its key, any other cell is kept. */
  predicate Rewritten(env: Env, w: World, rev: Revision, sample: Option<Cell>, reg: map<string, string>,
                      c: Cell, c2: Cell)
  {
    if IsLocalCell(w, c) then
      var t := CellTarget(env, w, rev, c.s, sample);
      t.Ok? && t.value.key in reg && c2 == CellUrl(t.value, reg[t.value.key])
    else c2 == c
  }

  /** The registry only grows, so a rewrite stays justified. */
  lemma RewrittenLater(env: Env, w: World, rev: Revision, sample: Option<Cell>,
                       a: Stage, b: Stage, c: Cell, c2: Cell)
    requires Extends(a, b)
    requires Rewritten(env, w, rev, sample, a.registry, c, c2)
    ensures Rewritten(env, w, rev, sample, b.registry, c, c2)
  {
  }

  /** One cell of a data row: a local path is looked up in the registry,
      and only a path not yet there is allocated a URL, transferred and
      registered. */
  function ScanCell(env: Env, w: World, rev: Revision, dryRun: bool, fc: Flowcells, sample: Option<Cell>,
                    st: Stage, c: Cell): (r: Staged<Cell>)
    requires Coherent(st) && ValidFlowcells(fc)
    ensures Coherent(r.stage) && Extends(st, r.stage)
    ensures r.result.Ok? ==> Rewritten(env, w, rev, sample, r.stage.registry, c, r.result.value)
    ensures !IsLocalCell(w, c) ==> r == Staged(st, Ok(c))
    ensures (IsLocalCell(w, c) && CellTarget(env, w, rev, c.s, sample).Ok?
      && CellTarget(env, w, rev, c.s, sample).value.key in st.registry) ==> r.stage == st
    ensures (IsLocalCell(w, c) && CellTarget(env, w, rev, c.s, sample).Ok?
      && CellTarget(env, w, rev, c.s, sample).value.key !in st.registry) ==>
        var t := CellTarget(env, w, rev, c.s, sample).value;
        var url := GetUniqueUrl(st.factory, t.key).1;
        var o := TransferData(env, w, rev, t.source, url, dryRun, Some(fc), t.isFastq);
        && r.stage.effects == st.effects + o.effects
        && (r.result.Ok? <==> o.error.None?)
        && (r.result.Ok? ==> r.stage.registry == st.registry[t.key := url])
  {
    if !IsLocalCell(w, c) then Staged(st, Ok(c))
    else match CellTarget(env, w, rev, c.s, sample)
      case Err(e) => Staged(st, Err(e))
      case Ok(t) =>
        if t.key in st.registry then Staged(st, Ok(CellUrl(t, st.registry[t.key])))
        else
          var (st1, url) := Allocate(st, t.key);
          var moved := Absorb(st1, TransferData(env, w, rev, t.source, url, dryRun, Some(fc), t.isFastq));
          if moved.result.Err? then Staged(moved.stage, Err(moved.result.error))
          else Staged(Register(moved.stage, t.key, url), Ok(CellUrl(t, url)))
  }

  /** The cells of one data row, left to right. */
  function ScanRow(env: Env, w: World, rev: Revision, dryRun: bool, fc: Flowcells, sample: Option<Cell>,
                   st: Stage, row: seq<Cell>): (r: Staged<seq<Cell>>)
    requires Coherent(st) && ValidFlowcells(fc)
    ensures Coherent(r.stage) && Extends(st, r.stage)
    ensures r.result.Ok? ==> (|r.result.value| == |row|
      && forall j :: 0 <= j < |row| ==> Rewritten(env, w, rev, sample, r.stage.registry, row[j], r.result.value[j]))
    ensures (forall j :: 0 <= j < |row| ==> !IsLocalCell(w, row[j])) ==> r == Staged(st, Ok(row))
    decreases |row|
  {
    if |row| == 0 then Staged(st, Ok([]))
    else
      var head := ScanCell(env, w, rev, dryRun, fc, sample, st, row[0]);
      if head.result.Err? then Staged(head.stage, Err(head.result.error))
      else
        var rest := ScanRow(env, w, rev, dryRun, fc, sample, head.stage, row[1..]);
        ExtendsTrans(st, head.stage, rest.stage);
        if rest.result.Err? then rest
        else
          RewrittenLater(env, w, rev, sample, head.stage, rest.stage, row[0], head.result.value);
          RowCons(env, w, rev, sample, rest.stage.registry, row, head.result.value, rest.result.value);
          Staged(rest.stage, Ok([head.result.value] + rest.result.value))
  }

  lemma RowCons(env: Env, w: World, rev: Revision, sample: Option<Cell>, reg: map<string, string>,
                row: seq<Cell>, first: Cell, rest: seq<Cell>)
    requires |row| > 0
    requires Rewritten(env, w, rev, sample, reg, row[0], first)
    requires |rest| == |row| - 1
    requires forall j :: 0 <= j < |row| - 1 ==> Rewritten(env, w, rev, sample, reg, row[1..][j], rest[j])
    requires !IsLocalCell(w, row[0]) ==> first == row[0]
    ensures forall j :: 0 <= j < |row| ==> Rewritten(env, w, rev, sample, reg, row[j], ([first] + rest)[j])
    ensures (forall j :: 0 <= j < |row| ==> !IsLocalCell(w, row[j])) ==>
      (forall j :: 0 <= j < |row[1..]| ==> !IsLocalCell(w, row[1..][j]))
    ensures rest == row[1..] && first == row[0] ==> [first] + rest == row
  {
    forall j | 1 <= j < |row| ensures row[j] == row[1..][j - 1] && ([first] + rest)[j] == rest[j - 1] { }
  }

  /** A row's `row[idx]`; `read_csv` pads short rows, which reads as `nan`. */
  function CellAt(row: seq<Cell>, i: nat): Cell
  {
    if i < |row| then row[i] else Other("nan")
  }

  /** The sample name a row passes to `folder_is_fastq`. */
  function SampleOf(row: seq<Cell>, idx: Option<nat>): Option<Cell>
  {
    match idx
    case None => None
    case Some(i) => Some(CellAt(row, i))
  }

  /** The data rows, top to bottom; the sample name of each row comes from
      the sample column, if there is one. */
  function ScanRows(env: Env, w: World, rev: Revision, dryRun: bool, fc: Flowcells, idx: Option<nat>,
                    st: Stage, rows: Table): (r: Staged<Table>)
    requires Coherent(st) && ValidFlowcells(fc)
    ensures Coherent(r.stage) && Extends(st, r.stage)
    ensures r.result.Ok? ==> RowsRewritten(env, w, rev, idx, r.stage.registry, rows, r.result.value)
    ensures !HasLocalCell(w, rows) ==> r == Staged(st, Ok(rows))
    decreases |rows|
  {
    if |rows| == 0 then Staged(st, Ok([]))
    else
      var head := ScanRow(env, w, rev, dryRun, fc, SampleOf(rows[0], idx), st, rows[0]);
      if head.result.Err? then Staged(head.stage, Err(head.result.error))
      else
        NoLocalCellSplit(w, rows);
        var rest := ScanRows(env, w, rev, dryRun, fc, idx, head.stage, rows[1..]);
        ExtendsTrans(st, head.stage, rest.stage);
        if rest.result.Err? then rest
        else
          RowLater(env, w, rev, SampleOf(rows[0], idx), head.stage, rest.stage, rows[0], head.result.value);
          RowsCons(env, w, rev, idx, rest.stage.registry, rows, head.result.value, rest.result.value);
          assert !HasLocalCell(w, rows) ==> [head.result.value] + rest.result.value == [rows[0]] + rows[1..] == rows;
          Staged(rest.stage, Ok([head.result.value] + rest.result.value))
  }

  /** Some data cell names an existing path. */
  predicate HasLocalCell(w: World, rows: Table)
  {
    exists i, j :: 0 <= i < |rows| && 0 <= j < |rows[i]| && IsLocalCell(w, rows[i][j])
  }

  predicate RowRewritten(env: Env, w: World, rev: Revision, sample: Option<Cell>, reg: map<string, string>,
                         row: seq<Cell>, out: seq<Cell>)
  {
    |out| == |row| && forall j :: 0 <= j < |row| ==> Rewritten(env, w, rev, sample, reg, row[j], out[j])
  }

  predicate RowsRewritten(env: Env, w: World, rev: Revision, idx: Option<nat>, reg: map<string, string>,
                          rows: Table, out: Table)
  {
    |out| == |rows|
    && forall i :: 0 <= i < |rows| ==> RowRewritten(env, w, rev, SampleOf(rows[i], idx), reg, rows[i], out[i])
  }

  lemma RowLater(env: Env, w: World, rev: Revision, sample: Option<Cell>, a: Stage, b: Stage,
                 row: seq<Cell>, out: seq<Cell>)
    requires Extends(a, b)
    requires RowRewritten(env, w, rev, sample, a.registry, row, out)
    ensures RowRewritten(env, w, rev, sample, b.registry, row, out)
  {
    forall j | 0 <= j < |row| ensures Rewritten(env, w, rev, sample, b.registry, row[j], out[j]) {
      RewrittenLater(env, w, rev, sample, a, b, row[j], out[j]);
    }
  }

  lemma NoLocalCellSplit(w: World, rows: Table)
    requires |rows| > 0
    ensures !HasLocalCell(w, rows) ==>
      !HasLocalCell(w, rows[1..]) && forall j :: 0 <= j < |rows[0]| ==> !IsLocalCell(w, rows[0][j])
  {
    if !HasLocalCell(w, rows) {
      forall i, j | 0 <= i < |rows[1..]| && 0 <= j < |rows[1..][i]| ensures !IsLocalCell(w, rows[1..][i][j]) {
        assert rows[1..][i] == rows[i + 1];
      }
      forall j | 0 <= j < |rows[0]| ensures !IsLocalCell(w, rows[0][j]) {
        assert rows[0][j] == rows[0][j];
      }
    }
  }

  lemma RowsCons(env: Env, w: World, rev: Revision, idx: Option<nat>, reg: map<string, string>,
                 rows: Table, first: seq<Cell>, rest: Table)
    requires |rows| > 0
    requires RowRewritten(env, w, rev, SampleOf(rows[0], idx), reg, rows[0], first)
    requires RowsRewritten(env, w, rev, idx, reg, rows[1..], rest)
    ensures RowsRewritten(env, w, rev, idx, reg, rows, [first] + rest)
  {
    var out := [first] + rest;
    forall i | 0 <= i < |rows| ensures RowRewritten(env, w, rev, SampleOf(rows[i], idx), reg, rows[i], out[i]) {
      if i > 0 {
        assert rows[i] == rows[1..][i - 1] && out[i] == rest[i - 1];
      }
    }
  }

  // ---------------------------------------------------------------------
  // The header line and the flowcell lanes

  /** A cell as `str()` shows it. */
  function Shown(c: Cell): string
  {
    match c
    case Text(s) => s
    case Other(t) => t
  }

  /** `np.char.array(df.iloc[0, :]).lower()`: the header cells as lower-case
      strings. */
  function ColNames(header: seq<Cell>): (r: seq<string>)
    ensures |r| == |header|
    ensures forall j :: 0 <= j < |header| ==> r[j] == Lower(Shown(header[j]))
  {
    if |header| == 0 then [] else [Lower(Shown(header[0]))] + ColNames(header[1..])
  }

  /** Two columns share the name `x`. */
  predicate Repeated(names: seq<string>, x: string)
  {
    exists i, j :: 0 <= i < j < |names| && names[i] == x && names[j] == x
  }

  /** The `defaultdict(lane_manager)` fed by the data rows: each row hands
      its lane cell to the manager of its flowcell cell. */
  function FeedLanes(fc: Flowcells, rows: Table, fi: nat, li: nat): (r: Result<Flowcells>)
    requires ValidFlowcells(fc)
    ensures r.Ok? ==> ValidFlowcells(r.value)
    decreases |rows|
  {
    if |rows| == 0 then Ok(fc)
    else
      var key := CellAt(rows[0], fi);
      var next :- UpdateLanes(if key in fc then fc[key] else NewManager, CellAt(rows[0], li));
      FeedLanes(fc[key := next], rows[1..], fi, li)
  }

  /** The lane cells of the rows whose flowcell cell is `key`, in order. */
  function LaneCellsOf(rows: Table, fi: nat, li: nat, key: Cell): seq<Cell>
  {
    if |rows| == 0 then []
    else (if CellAt(rows[0], fi) == key then [CellAt(rows[0], li)] else []) + LaneCellsOf(rows[1..], fi, li, key)
  }

  /** One row's contribution to `LaneCellsOf`. */
  lemma LaneCellsStep(rows: Table, fi: nat, li: nat, key: Cell)
    requires |rows| > 0
    ensures CellAt(rows[0], fi) == key ==>
      LaneCellsOf(rows, fi, li, key) == [CellAt(rows[0], li)] + LaneCellsOf(rows[1..], fi, li, key)
    ensures CellAt(rows[0], fi) != key ==> LaneCellsOf(rows, fi, li, key) == LaneCellsOf(rows[1..], fi, li, key)
  {
    if CellAt(rows[0], fi) != key {
      assert [] + LaneCellsOf(rows[1..], fi, li, key) == LaneCellsOf(rows[1..], fi, li, key);
    }
  }

  /** A flowcell is a key of the fed map exactly when it was one before
      or some row names it. */
  lemma {:induction false} FeedLanesKeys(fc: Flowcells, rows: Table, fi: nat, li: nat, key: Cell)
    requires ValidFlowcells(fc)
    requires FeedLanes(fc, rows, fi, li).Ok?
    ensures key in FeedLanes(fc, rows, fi, li).value <==> key in fc || |LaneCellsOf(rows, fi, li, key)| > 0
    decreases |rows|
  {
    if |rows| > 0 {
      var k0 := CellAt(rows[0], fi);
      var m0 := if k0 in fc then fc[k0] else NewManager;
      var step := UpdateLanes(m0, CellAt(rows[0], li));
      var fc1 := fc[k0 := step.value];
      assert FeedLanes(fc, rows, fi, li) == FeedLanes(fc1, rows[1..], fi, li);
      FeedLanesKeys(fc1, rows[1..], fi, li, key);
    }
  }

  /** The map groups the rows by flowcell: each flowcell's manager is what
      `update_lanes` makes of that flowcell's lane cells alone, and a
      flowcell is a key exactly when some row names it. */
  lemma {:induction false} FeedLanesGroups(fc: Flowcells, rows: Table, fi: nat, li: nat, key: Cell)
    requires ValidFlowcells(fc)
    requires FeedLanes(fc, rows, fi, li).Ok?
    ensures var base := if key in fc then fc[key] else NewManager;
      && base.Valid()
      && UpdateAll(base, LaneCellsOf(rows, fi, li, key)).Ok?
      && (key in FeedLanes(fc, rows, fi, li).value ==>
            FeedLanes(fc, rows, fi, li).value[key] == UpdateAll(base, LaneCellsOf(rows, fi, li, key)).value)
    ensures key in FeedLanes(fc, rows, fi, li).value <==> key in fc || |LaneCellsOf(rows, fi, li, key)| > 0
    decreases |rows|
  {
    FeedLanesKeys(fc, rows, fi, li, key);
    var base := if key in fc then fc[key] else NewManager;
    var cells := LaneCellsOf(rows, fi, li, key);
    if |rows| > 0 {
      var k0 := CellAt(rows[0], fi);
      var m0 := if k0 in fc then fc[k0] else NewManager;
      var step := UpdateLanes(m0, CellAt(rows[0], li));
      assert step.Ok?;
      var fc1 := fc[k0 := step.value];
      assert FeedLanes(fc, rows, fi, li) == FeedLanes(fc1, rows[1..], fi, li);
      FeedLanesGroups(fc1, rows[1..], fi, li, key);
      var rest := LaneCellsOf(rows[1..], fi, li, key);
      var base1 := if key in fc1 then fc1[key] else NewManager;
      assert UpdateAll(base, cells) == UpdateAll(base1, rest) by {
        LaneCellsStep(rows, fi, li, key);
        if k0 == key {
          assert cells[1..] == rest;
        }
      }
    }
  }

  /** The lanes `transfer_data` uses for a flowcell are those its rows
      list: `get_lanes` of `update_lanes` applied to the lane cells of the
      rows whose flowcell cell is the text of the source path. */
  lemma SheetLanes(rows: Table, fi: nat, li: nat, source: string)
    requires FeedLanes(map[], rows, fi, li).Ok?
    ensures UpdateAll(NewManager, LaneCellsOf(rows, fi, li, Text(source))).Ok?
    ensures LanesFor(Some(FeedLanes(map[], rows, fi, li).value), source)
      == GetLanes(UpdateAll(NewManager, LaneCellsOf(rows, fi, li, Text(source))).value)
  {
    FeedLanesGroups(map[], rows, fi, li, Text(source));
  }

  /** The lane map of a sheet: empty unless the header has both a
      `flowcell` and a `lane` column. With data rows, a repeated `flowcell`
      column makes `row['flowcell']` a Series, which cannot be a key
      (`TypeError`); a repeated `lane` column hands `update_lanes` a Series,
      whose comparison with `'*'` has no truth value (`ValueError`). */
  function ReadLanes(names: seq<string>, rows: Table): (r: Result<Flowcells>)
    ensures r.Ok? ==> ValidFlowcells(r.value)
    ensures !("flowcell" in names && "lane" in names) || |rows| == 0 ==> r == Ok(map[])
    ensures r.Err? <==> ("flowcell" in names && "lane" in names && |rows| > 0
      && (Repeated(names, "flowcell") || Repeated(names, "lane")
          || FeedLanes(map[], rows, FirstIndex(names, "flowcell").value, FirstIndex(names, "lane").value).Err?))
    ensures r.Err? && Repeated(names, "flowcell") ==> r.error.kind == TypeError
    ensures r.Err? && !Repeated(names, "flowcell") && Repeated(names, "lane") ==> r.error.kind == ValueError
    ensures r.Ok? && "flowcell" in names && "lane" in names ==>
      r == FeedLanes(map[], rows, FirstIndex(names, "flowcell").value, FirstIndex(names, "lane").value)
  {
    if !("flowcell" in names && "lane" in names) || |rows| == 0 then Ok(map[])
    else if Repeated(names, "flowcell") then Raise(TypeError, "flowcell")
    else if Repeated(names, "lane") then Raise(ValueError, "lane")
    else FeedLanes(map[], rows, FirstIndex(names, "flowcell").value, FirstIndex(names, "lane").value)
  }

  // ---------------------------------------------------------------------
  // transfer_sample_sheet

  /** `',' if name.endswith('.csv') else '\t'`. */
  function SheetSep(name: string): (r: string)
    ensures r == "," <==> EndsWith(name, ".csv")
    ensures r == "," || r == "\t"
  {
    if EndsWith(name, ".csv") then "," else "\t"
  }

  /** The sample column: `library` when the header has one, else `sample`. */
  function SampleIndex(names: seq<string>): Option<nat>
  {
    FirstIndex(names, if "library" in names then "library" else "sample")
  }

  /** The rewritten sheet: the header line as it was, then every data row
      with its local cells replaced by their URLs. */
  predicate SheetRewritten(env: Env, w: World, rev: Revision, reg: map<string, string>, t: Table, out: Table)
  {
    && |t| > 0 && |out| == |t| && out[0] == t[0]
    && RowsRewritten(env, w, rev, SampleIndex(ColNames(t[0])), reg, t[1..], out[1..])
  }

  /** `transfer_sample_sheet(input_file, ...)`: the file to upload in place
      of the sheet and whether the sheet was rewritten. The current revision
      first demands read access. A sheet that does not parse is uploaded
      as it is; so is one whose data rows name no local path. Otherwise the
      rewritten sheet goes to a fresh temporary file, comma-separated when
      the sheet's name ends in `.csv` and tab-separated otherwise. */
  function TransferSampleSheet(env: Env, w: World, rev: Revision, dryRun: bool, st: Stage, input: string)
    : (r: Staged<(string, bool)>)
    requires Coherent(st)
    ensures Coherent(r.stage) && Extends(st, r.stage)
    ensures rev.Current? && !Readable(w, input) ==> r == Staged(st, Raise(PermissionError, input))
    ensures ((rev.GsOnly? || Readable(w, input))
      && (env.readSheet(input).None? || |env.readSheet(input).value| == 0)) ==> r == Staged(st, Ok((input, false)))
    ensures r.result.Ok? && !r.result.value.1 ==> r.stage == st && r.result.value.0 == input
    ensures r.result.Ok? && r.result.value.1 ==> SheetWritten(env, w, rev, input, r.stage, r.result.value.0)
    ensures (r.result.Ok? && env.readSheet(input).Some? && |env.readSheet(input).value| > 0) ==>
      (r.result.value.1 <==> HasLocalCell(w, env.readSheet(input).value[1..]))
  {
    if rev.Current? && !Readable(w, input) then Staged(st, Raise(PermissionError, input))
    else match env.readSheet(input)
      case None => Staged(st, Ok((input, false)))
      case Some(t) =>
        if |t| == 0 then Staged(st, Ok((input, false)))
        else RewriteSheet(env, w, rev, dryRun, st, input, t)
  }

  /** The parsed, non-empty sheet `t`: read the lanes, scan the data rows,
      and write the rewritten sheet when some cell was local. */
  function RewriteSheet(env: Env, w: World, rev: Revision, dryRun: bool, st: Stage, input: string, t: Table)
    : (r: Staged<(string, bool)>)
    requires Coherent(st)
    requires rev.GsOnly? || Readable(w, input)
    requires env.readSheet(input) == Some(t) && |t| > 0
    ensures Coherent(r.stage) && Extends(st, r.stage)
    ensures r.result.Ok? && !r.result.value.1 ==> r.stage == st && r.result.value.0 == input
    ensures r.result.Ok? && r.result.value.1 ==> SheetWritten(env, w, rev, input, r.stage, r.result.value.0)
    ensures r.result.Ok? ==> (r.result.value.1 <==> HasLocalCell(w, t[1..]))
  {
    var names := ColNames(t[0]);
    match ReadLanes(names, t[1..])
    case Err(e) => Staged(st, Err(e))
    case Ok(fc) =>
      var scanned := ScanRows(env, w, rev, dryRun, fc, SampleIndex(names), st, t[1..]);
      if scanned.result.Err? then Staged(scanned.stage, Err(scanned.result.error))
      else if !HasLocalCell(w, t[1..]) then Staged(scanned.stage, Ok((input, false)))
      else
        var written := WriteSheet(env, input, t[0], scanned.stage, scanned.result.value);
        WrittenSheet(env, w, rev, st, input, t, scanned.stage, scanned.result.value);
        Staged(written, Ok((env.tempFile(input), true)))
  }

  /** The effect of `df.to_csv(temp, sep=...)`: the header line and the
      rewritten data rows go to the temporary file. */
  function WriteSheet(env: Env, input: string, header: seq<Cell>, st: Stage, rows: Table): (r: Stage)
    ensures r.factory == st.factory && r.registry == st.registry
    ensures r.effects == st.effects + [WriteTable(env.tempFile(input), [header] + rows, SheetSep(input))]
  {
    st.(effects := st.effects + [WriteTable(env.tempFile(input), [header] + rows, SheetSep(input))])
  }

  lemma WrittenSheet(env: Env, w: World, rev: Revision, st: Stage, input: string, t: Table, scanned: Stage, rows: Table)
    requires rev.GsOnly? || Readable(w, input)
    requires env.readSheet(input) == Some(t) && |t| > 0 && HasLocalCell(w, t[1..])
    requires Coherent(st) && Coherent(scanned) && Extends(st, scanned)
    requires RowsRewritten(env, w, rev, SampleIndex(ColNames(t[0])), scanned.registry, t[1..], rows)
    ensures var r := WriteSheet(env, input, t[0], scanned, rows);
      Coherent(r) && Extends(st, r) && SheetWritten(env, w, rev, input, r, env.tempFile(input))
  {
    var r := WriteSheet(env, input, t[0], scanned, rows);
    assert ([t[0]] + rows)[1..] == rows;
    assert Extends(scanned, r);
    ExtendsTrans(st, scanned, r);
  }

  /** A sheet that was rewritten: it parsed, some data cell is local, the
      file to upload is the temporary one, and the last effect wrote the
      rewritten sheet there with the separator the name calls for. */
  ghost predicate SheetWritten(env: Env, w: World, rev: Revision, input: string, st: Stage, path: string)
  {
    && (rev.GsOnly? || Readable(w, input))
    && env.readSheet(input).Some?
    && |env.readSheet(input).value| > 0
    && HasLocalCell(w, env.readSheet(input).value[1..])
    && path == env.tempFile(input)
    && |st.effects| > 0
    && var e := st.effects[|st.effects| - 1];
      && e.WriteTable? && e.path == path && e.sep == SheetSep(input)
      && SheetRewritten(env, w, rev, st.registry, env.readSheet(input).value, e.rows)
  }

  // ---------------------------------------------------------------------
  // Manifest values

  /** Extensions (lower-cased) whose files are scanned as sheets. */
  const SheetExtensions: set<string> := {".txt", ".xlsx", ".tsv", ".csv"}

  predicate IsSheet(path: string)
  {
    Lower(Splitext(path).1) in SheetExtensions
  }

  /** The sheet test looks at the extension of the last path component
      only, ignoring case: `.CSV` counts, `.csv.gz` does not. */
  lemma SheetByExtension(dir: string, root: string, ext: string)
    requires |dir| == 0 || dir[|dir| - 1] == '/'
    requires '/' !in root && '/' !in ext
    requires |root| > 0 && root[0] != '.'
    requires |ext| > 0 && ext[0] == '.' && '.' !in ext[1..]
    ensures Lower(ext) in SheetExtensions ==> IsSheet(dir + root + ext)
    ensures IsSheet(dir + root + ext) ==> Lower(ext) in SheetExtensions
  {
    SplitextOf(dir, root, ext);
  }

  /** A last component without a dot is never scanned, even under a
      directory whose name carries a sheet extension. */
  lemma NoDotNoSheet(dir: string, name: string)
    requires |dir| == 0 || dir[|dir| - 1] == '/'
    requires '/' !in name && '.' !in name
    ensures !IsSheet(dir + name)
  {
    SplitextNoDot(dir, name);
    assert Lower("") == "";
  }

  /** `isinstance(v, str) and os.path.exists(v)`. */
  predicate IsLocalValue(w: World, v: Value)
  {
    v.Str? && Exists(w, v.s)
  }

  /** The world once the rewritten sheet has been written to `temp`. */
  function WithTemp(w: World, temp: string): (r: World)
    ensures Exists(r, temp) && !IsDir(r, temp)
  {
    w.(files := w.files + {temp}, dirs := w.dirs - {temp})
  }

  /** The sheet scan, for a path whose extension calls for it: the file to
      transfer and whether it is a rewrite. */
  function PrepareSheet(env: Env, w: World, rev: Revision, dryRun: bool, st: Stage, path: string)
    : (r: Staged<(string, bool)>)
    requires Coherent(st)
    ensures Coherent(r.stage) && Extends(st, r.stage)
    ensures !IsSheet(path) ==> r == Staged(st, Ok((path, false)))
    ensures r.result.Ok? && !r.result.value.1 ==> r.result.value.0 == path
    ensures r.result.Ok? && r.result.value.1 ==> IsSheet(path) && r.result.value.0 == env.tempFile(path)
  {
    if IsSheet(path) then TransferSampleSheet(env, w, rev, dryRun, st, path) else Staged(st, Ok((path, false)))
  }

  /** The rewritten sheet is a plain file: it is copied, never synced or
      taken for a flowcell. */
  lemma TempTransfer(env: Env, w: World, rev: Revision, temp: string, url: string, dryRun: bool)
    ensures TransferData(env, WithTemp(w, temp), rev, temp, url, dryRun, None, false)
      == RunCommand(WithTemp(w, temp), PlainCommand(rev, temp, url, false), dryRun)
  {
  }

  /** The transfer of the file the sheet scan chose; a rewrite is removed
      once it has gone up. */
  function SendFile(env: Env, w: World, rev: Revision, dryRun: bool, st: Stage, source: string, changed: bool,
                    url: string): (r: Staged<()>)
    requires Coherent(st)
    ensures Coherent(r.stage) && Extends(st, r.stage)
    ensures !changed ==> r == Absorb(st, TransferData(env, w, rev, source, url, dryRun, None, false))
    ensures changed ==> (r.result.Err? <==> !dryRun && !w.accepts(PlainCommand(rev, source, url, false)))
    ensures changed && r.result.Ok? ==>
      r.stage.effects == st.effects + [Run(PlainCommand(rev, source, url, false), dryRun), Remove(source)]
  {
    if !changed then Absorb(st, TransferData(env, w, rev, source, url, dryRun, None, false))
    else
      TempTransfer(env, w, rev, source, url, dryRun);
      var sent := Absorb(st, RunCommand(WithTemp(w, source), PlainCommand(rev, source, url, false), dryRun));
      if sent.result.Err? then sent
      else
        var done := sent.stage.(effects := sent.stage.effects + [Remove(source)]);
        ExtendsTrans(st, sent.stage, done);
        Staged(done, Ok(()))
  }

  /** A local path whose URL is already registered: the sheet scan when
      the extension calls for it, the transfer of the path (or of the
      rewritten sheet), and the removal of the rewrite. */
  function SendPath(env: Env, w: World, rev: Revision, dryRun: bool, st: Stage, path: string, url: string)
    : (r: Staged<()>)
    requires Coherent(st)
    ensures Coherent(r.stage) && Extends(st, r.stage)
    ensures !IsSheet(path) ==> r == Absorb(st, TransferData(env, w, rev, path, url, dryRun, None, false))
    ensures (r.result.Ok? && PrepareSheet(env, w, rev, dryRun, st, path).result.Ok?
      && PrepareSheet(env, w, rev, dryRun, st, path).result.value.1) ==>
        && |r.stage.effects| >= 2
        && r.stage.effects[|r.stage.effects| - 2] == Run(PlainCommand(rev, env.tempFile(path), url, false), dryRun)
        && r.stage.effects[|r.stage.effects| - 1] == Remove(env.tempFile(path))
  {
    var sheet := PrepareSheet(env, w, rev, dryRun, st, path);
    if sheet.result.Err? then Staged(sheet.stage, Err(sheet.result.error))
    else
      var sent := SendFile(env, w, rev, dryRun, sheet.stage, sheet.result.value.0, sheet.result.value.1, url);
      ExtendsTrans(st, sheet.stage, sent.stage);
      sent
  }

  /** A sheet that was sent went up as it was or as its rewrite. */
  lemma SendPathSent(env: Env, w: World, rev: Revision, dryRun: bool, st: Stage, path: string, url: string)
    requires Coherent(st)
    ensures var r := SendPath(env, w, rev, dryRun, st, path, url);
      IsSheet(path) && r.result.Ok? ==> SheetSent(env, w, rev, dryRun, st.effects, r.stage.effects, path, url)
  {
    var sheet := PrepareSheet(env, w, rev, dryRun, st, path);
    if IsSheet(path) && sheet.result.Ok? {
      var sent := SendFile(env, w, rev, dryRun, sheet.stage, sheet.result.value.0, sheet.result.value.1, url);
      if sent.result.Ok? {
        SheetSentFrom(env, w, rev, dryRun, path, url, st.effects, sheet.stage.effects, sent.stage.effects,
          sheet.result.value.1);
      }
    }
  }

  /** The two ways a sheet goes up, from what the sheet scan chose
      (`file`, `changed`) and the effects before (`st`), after the scan
      (`mid`) and after the transfer (`after`). */
  lemma SheetSentFrom(env: Env, w: World, rev: Revision, dryRun: bool, path: string, url: string,
                      before: seq<Effect>, mid: seq<Effect>, after: seq<Effect>, changed: bool)
    requires |before| <= |mid| && mid[..|before|] == before
    requires !changed ==> mid == before
    requires !changed ==> after == mid + TransferData(env, w, rev, path, url, dryRun, None, false).effects
    requires changed ==>
      after == mid + [Run(PlainCommand(rev, env.tempFile(path), url, false), dryRun), Remove(env.tempFile(path))]
    ensures SheetSent(env, w, rev, dryRun, before, after, path, url)
  {
    if changed {
      var tail := [Run(PlainCommand(rev, env.tempFile(path), url, false), dryRun), Remove(env.tempFile(path))];
      assert (mid + tail)[..|before|] == mid[..|before|];
    }
  }

  /** What sending a sheet path to `url` appends to the effects `before`
      when it succeeds: either the sheet went up as it was, by the same
      transfer as any other path, or its rewrite was copied to the URL and
      then removed. */
  predicate SheetSent(env: Env, w: World, rev: Revision, dryRun: bool, before: seq<Effect>, after: seq<Effect>,
                      path: string, url: string)
  {
    || after == before + TransferData(env, w, rev, path, url, dryRun, None, false).effects
    || (&& |after| >= |before| + 2 && after[..|before|] == before
        && after[|after| - 2] == Run(PlainCommand(rev, env.tempFile(path), url, false), dryRun)
        && after[|after| - 1] == Remove(env.tempFile(path)))
  }

  /** Staging the value `v` may register the path `p`: `v` is a local
      path and `p` is that path, or `v` is scanned as a sheet (by the rule
      `sheet`), whose cells register paths of their own. */
  ghost predicate MayRegister(w: World, sheet: string -> bool, v: Value, p: string)
  {
    IsLocalValue(w, v) && (w.abspath(v.s) == p || sheet(w.abspath(v.s)))
  }

  /** Value `i` is a local path that no earlier value may have registered. */
  ghost predicate Unclaimed(w: World, sheet: string -> bool, vals: seq<Value>, i: nat)
    requires i < |vals|
  {
    IsLocalValue(w, vals[i]) && forall j :: 0 <= j < i ==> !MayRegister(w, sheet, vals[j], w.abspath(vals[i].s))
  }

  /** One manifest value. A local path not registered yet is given its URL,
      and is registered before its sheet is scanned, so a sheet naming
      itself reuses that URL; then it is sent. The result is the URL to
      store, or `None` when the value stays (not a local path, or a path
      already registered by an earlier value or by a sheet). */
  function StageValue(env: Env, w: World, rev: Revision, dryRun: bool, st: Stage, v: Value)
    : (r: Staged<Option<string>>)
    requires Coherent(st)
    ensures Coherent(r.stage) && Extends(st, r.stage)
    ensures !IsLocalValue(w, v) ==> r == Staged(st, Ok(None))
    ensures IsLocalValue(w, v) && w.abspath(v.s) in st.registry ==> r == Staged(st, Ok(None))
    ensures (IsLocalValue(w, v) && w.abspath(v.s) !in st.registry) ==>
      var url := GetUniqueUrl(st.factory, w.abspath(v.s)).1;
      && w.abspath(v.s) in r.stage.registry && r.stage.registry[w.abspath(v.s)] == url
      && (r.result.Ok? ==> r.result.value == Some(url))
    ensures (IsLocalValue(w, v) && w.abspath(v.s) !in st.registry && !IsSheet(w.abspath(v.s))) ==>
      var path := w.abspath(v.s);
      var o := TransferData(env, w, rev, path, GetUniqueUrl(st.factory, path).1, dryRun, None, false);
      && r.stage.registry == st.registry[path := GetUniqueUrl(st.factory, path).1]
      && r.stage.effects == st.effects + o.effects
      && (r.result.Ok? <==> o.error.None?)
    ensures (IsLocalValue(w, v) && w.abspath(v.s) !in st.registry && IsSheet(w.abspath(v.s)) && r.result.Ok?) ==>
      SheetSent(env, w, rev, dryRun, st.effects, r.stage.effects, w.abspath(v.s), GetUniqueUrl(st.factory, w.abspath(v.s)).1)
    ensures forall p :: p in r.stage.registry && p !in st.registry ==> MayRegister(w, IsSheet, v, p)
  {
    if !IsLocalValue(w, v) then Staged(st, Ok(None))
    else
      var path := w.abspath(v.s);
      if path in st.registry then Staged(st, Ok(None))
      else
        var (st1, url) := Allocate(st, path);
        var st2 := Register(st1, path, url);
        ExtendsTrans(st, st1, st2);
        var sent := SendPath(env, w, rev, dryRun, st2, path, url);
        ExtendsTrans(st, st2, sent.stage);
        SendPathSent(env, w, rev, dryRun, st2, path, url);
        if sent.result.Err? then Staged(sent.stage, Err(sent.result.error))
        else Staged(sent.stage, Ok(Some(url)))
  }

  /** The values of a manifest in order; the result says, value by value,
      which URL replaces it. */
  function StageAll(env: Env, w: World, rev: Revision, dryRun: bool, st: Stage, vals: seq<Value>)
    : (r: Staged<seq<Option<string>>>)
    requires Coherent(st)
    ensures Coherent(r.stage) && Extends(st, r.stage)
    ensures r.result.Ok? ==> StagedValues(w, IsSheet, st, r.stage.registry, vals, r.result.value)
    decreases |vals|
  {
    if |vals| == 0 then Staged(st, Ok([]))
    else
      var head := StageValue(env, w, rev, dryRun, st, vals[0]);
      if head.result.Err? then Staged(head.stage, Err(head.result.error))
      else
        var rest := StageAll(env, w, rev, dryRun, head.stage, vals[1..]);
        ExtendsTrans(st, head.stage, rest.stage);
        if rest.result.Err? then rest
        else
          StagedCons(w, IsSheet, st, head.stage, rest.stage, vals, head.result.value, rest.result.value);
          Staged(rest.stage, Ok([head.result.value] + rest.result.value))
  }

  /** What staging a run of values promises, given the registry before
      (`st`) and after (`reg`), where `sheet` says which paths are scanned
      as sheets: only local values get a URL, and only if their path was
      not registered before; the URL is the one the path is registered
      under; every local value's path ends up registered; a local value
      that neither the registry before nor an earlier value can have
      claimed does get its URL; and no path is given a URL twice. */
  ghost predicate StagedValues(w: World, sheet: string -> bool, st: Stage, reg: map<string, string>,
                               vals: seq<Value>, urls: seq<Option<string>>)
  {
    && |urls| == |vals|
    && (forall i :: 0 <= i < |vals| && !IsLocalValue(w, vals[i]) ==> urls[i].None?)
    && (forall i :: 0 <= i < |vals| && IsLocalValue(w, vals[i]) ==> w.abspath(vals[i].s) in reg)
    && (forall i :: 0 <= i < |vals| && urls[i].Some? ==>
          && IsLocalValue(w, vals[i])
          && w.abspath(vals[i].s) !in st.registry
          && reg[w.abspath(vals[i].s)] == urls[i].value)
    && (forall i :: 0 <= i < |vals| && Unclaimed(w, sheet, vals, i) && w.abspath(vals[i].s) !in st.registry ==>
          urls[i].Some?)
    && (forall i, j :: 0 <= i < j < |vals| && urls[i].Some? && urls[j].Some? ==>
          w.abspath(vals[i].s) != w.abspath(vals[j].s))
  }

  lemma StagedCons(w: World, sheet: string -> bool, st: Stage, mid: Stage, last: Stage, vals: seq<Value>,
                   first: Option<string>, rest: seq<Option<string>>)
    requires |vals| > 0
    requires Extends(st, mid) && Extends(mid, last)
    requires !IsLocalValue(w, vals[0]) ==> first.None?
    requires IsLocalValue(w, vals[0]) ==> w.abspath(vals[0].s) in mid.registry
    requires first.Some? ==> (IsLocalValue(w, vals[0]) && w.abspath(vals[0].s) !in st.registry
      && mid.registry[w.abspath(vals[0].s)] == first.value)
    requires IsLocalValue(w, vals[0]) && w.abspath(vals[0].s) !in st.registry ==> first.Some?
    requires forall p :: p in mid.registry && p !in st.registry ==> MayRegister(w, sheet, vals[0], p)
    requires StagedValues(w, sheet, mid, last.registry, vals[1..], rest)
    ensures StagedValues(w, sheet, st, last.registry, vals, [first] + rest)
  {
    var urls := [first] + rest;
    forall i | 1 <= i < |vals| ensures vals[i] == vals[1..][i - 1] && urls[i] == rest[i - 1] { }
    forall i | 1 <= i < |vals| && Unclaimed(w, sheet, vals, i) && w.abspath(vals[i].s) !in st.registry
      ensures urls[i].Some?
    {
      var p := w.abspath(vals[i].s);
      assert !MayRegister(w, sheet, vals[0], p);
      assert p !in mid.registry;
      forall j | 0 <= j < i - 1 ensures !MayRegister(w, sheet, vals[1..][j], p) {
        assert vals[1..][j] == vals[j + 1];
      }
      assert Unclaimed(w, sheet, vals[1..], i - 1);
    }
    forall i, j | 0 <= i < j < |vals| && urls[i].Some? && urls[j].Some?
      ensures w.abspath(vals[i].s) != w.abspath(vals[j].s)
    {
      if i == 0 {
        assert w.abspath(vals[j].s) !in mid.registry;
      } else {
        assert vals[1..][i - 1] == vals[i] && vals[1..][j - 1] == vals[j];
      }
    }
  }

  /** Distinct values that were given URLs were given distinct URLs. */
  lemma StagedUrlsDistinct(w: World, sheet: string -> bool, st: Stage, final: Stage, vals: seq<Value>,
                           urls: seq<Option<string>>, i: nat, j: nat)
    requires Coherent(final)
    requires StagedValues(w, sheet, st, final.registry, vals, urls)
    requires i < j < |vals| && urls[i].Some? && urls[j].Some?
    ensures urls[i].value != urls[j].value
  {
  }

  // ---------------------------------------------------------------------
  // upload_to_cloud_bucket and upload_to_google_bucket

  /** Where URLs are made: the current revision appends the folder without
      its outer slashes (the middle of the folder, with nothing but
      slashes on either side), the gs-only revision appends it as given. */
  function BucketPath(rev: Revision, bucket: string, folder: Option<string>): (r: string)
    ensures folder.None? ==> r == bucket
    ensures folder.Some? && rev.GsOnly? ==> r == bucket + "/" + folder.value
    ensures folder.Some? && rev.Current? ==>
      && StartsWith(r, bucket + "/")
      && var f := r[|bucket| + 1..];
        var i := LeadingChars(folder.value, '/');
        && (|f| == 0 || (f[0] != '/' && f[|f| - 1] != '/'))
        && i + |f| <= |folder.value| && f == folder.value[i..i + |f|]
        && AllSlashes(folder.value[..i]) && AllSlashes(folder.value[i + |f|..])
  {
    match folder
    case None => bucket
    case Some(f) =>
      if rev.Current? then
        var tail := StripSlashes(f);
        assert (bucket + "/" + tail)[|bucket| + 1..] == tail;
        assert (bucket + "/" + tail)[..|bucket| + 1] == bucket + "/";
        bucket + "/" + tail
      else bucket + "/" + f
  }

  function Values(m: Manifest): (r: seq<Value>)
    ensures |r| == |m|
    ensures forall i :: 0 <= i < |m| ==> r[i] == m[i].1
  {
    if |m| == 0 then [] else [m[0].1] + Values(m[1..])
  }

  /** The manifest with each staged value replaced by its URL. */
  function ApplyUrls(m: Manifest, urls: seq<Option<string>>): (r: Manifest)
    requires |urls| == |m|
    ensures |r| == |m|
    ensures forall i :: 0 <= i < |m| ==> r[i].0 == m[i].0
    ensures forall i :: 0 <= i < |m| ==> r[i].1 == (if urls[i].Some? then Str(urls[i].value) else m[i].1)
  {
    if |m| == 0 then []
    else [(m[0].0, if urls[0].Some? then Str(urls[0].value) else m[0].1)] + ApplyUrls(m[1..], urls[1..])
  }

  /** The text written to the output file: the current revision strips the
      float tags from the JSON text. */
  function Render(env: Env, rev: Revision, m: Manifest): string
  {
    if rev.Current? then Untag(env.dumps(m)) else env.dumps(m)
  }

  /** The last effect writes `text` to the file `path`. */
  predicate WroteLast(effects: seq<Effect>, path: string, text: string)
  {
    |effects| > 0 && effects[|effects| - 1] == WriteText(path, text)
  }

  /** `upload_to_cloud_bucket` (current) and `upload_to_google_bucket`
      (gs-only; its workspace bucket is given): the URL factory, the value
      loop with an empty registry, then the output file when one is named. */
  function Upload(env: Env, w: World, rev: Revision, inputs: Manifest, bucket: string, folder: Option<string>,
                  out: Option<string>, dryRun: bool): (r: Staged<Manifest>)
    ensures rev.Current? && rev.backend !in {"gcp", "aws"} ==>
      r.result.Err? && r.result.error.kind == AssertionError && r.stage.effects == []
    ensures r.result.Ok? ==> (Coherent(r.stage)
      && r.stage.factory.bucket == BucketPath(rev, bucket, folder)
      && r.stage.factory.scheme == (if rev.GsOnly? || rev.backend == "gcp" then "gs" else "s3"))
    ensures r.result.Ok? ==> UploadedManifest(w, IsSheet, r.stage.registry, inputs, r.result.value)
    ensures r.result.Ok? && out.Some? ==>
      WroteLast(r.stage.effects, out.value, Render(env, rev, r.result.value))
  {
    var path := BucketPath(rev, bucket, folder);
    var made := if rev.Current? then NewFactory(rev.backend, path) else Ok(NewGsFactory(path));
    match made
    case Err(e) => Staged(Stage(Factory("", path, {}), map[], []), Err(e))
    case Ok(f) => UploadWith(env, w, rev, f, inputs, out, dryRun)
  }

  /** The value loop and the output file, once the factory `f` is made. */
  function UploadWith(env: Env, w: World, rev: Revision, f: Factory, inputs: Manifest, out: Option<string>, dryRun: bool)
    : (r: Staged<Manifest>)
    requires Coherent(Stage(f, map[], []))
    ensures r.result.Ok? ==> (Coherent(r.stage) && r.stage.factory.bucket == f.bucket && r.stage.factory.scheme == f.scheme)
    ensures r.result.Ok? ==> UploadedManifest(w, IsSheet, r.stage.registry, inputs, r.result.value)
    ensures r.result.Ok? && out.Some? ==>
      WroteLast(r.stage.effects, out.value, Render(env, rev, r.result.value))
  {
    var st := Stage(f, map[], []);
    var staged := StageAll(env, w, rev, dryRun, st, Values(inputs));
    if staged.result.Err? then Staged(staged.stage, Err(staged.result.error))
    else
      var m := ApplyUrls(inputs, staged.result.value);
      UploadedFromStaged(w, IsSheet, st, staged.stage, inputs, staged.result.value);
      var fin :=
        match out
        case None => staged.stage
        case Some(o) => staged.stage.(effects := staged.stage.effects + [WriteText(o, Render(env, rev, m))]);
      Staged(fin, Ok(m))
  }

  /** The manifest after staging, against the registry: keys and order are
      kept; a value that is not a local path is kept; a local path either
      stays (its path was registered first by an earlier value or by a
      sheet) or becomes the URL its path is registered under; a local path
      that no earlier value can have claimed (by naming the same path, or
      by being a sheet per `sheet`) always becomes its URL; and two values
      that changed hold different URLs. */
  ghost predicate UploadedManifest(w: World, sheet: string -> bool, reg: map<string, string>, inputs: Manifest, m: Manifest)
  {
    && |m| == |inputs|
    && Keys(m) == Keys(inputs)
    && (forall i :: 0 <= i < |inputs| && !IsLocalValue(w, inputs[i].1) ==> m[i] == inputs[i])
    && (forall i :: 0 <= i < |inputs| && IsLocalValue(w, inputs[i].1) ==>
          && w.abspath(inputs[i].1.s) in reg
          && (m[i] == inputs[i] || m[i].1 == Str(reg[w.abspath(inputs[i].1.s)])))
    && (forall i :: 0 <= i < |inputs| && Unclaimed(w, sheet, Values(inputs), i) ==>
          w.abspath(inputs[i].1.s) in reg && m[i] == (inputs[i].0, Str(reg[w.abspath(inputs[i].1.s)])))
    && (forall i, j :: 0 <= i < j < |inputs| && m[i] != inputs[i] && m[j] != inputs[j] ==> m[i].1 != m[j].1)
  }

  /** Staging starts from an empty registry, so every unclaimed local
      value was given its URL. */
  lemma UploadedFromStaged(w: World, sheet: string -> bool, st: Stage, final: Stage, inputs: Manifest,
                           urls: seq<Option<string>>)
    requires Coherent(final) && st.registry == map[]
    requires StagedValues(w, sheet, st, final.registry, Values(inputs), urls)
    ensures UploadedManifest(w, sheet, final.registry, inputs, ApplyUrls(inputs, urls))
  {
    var m := ApplyUrls(inputs, urls);
    assert Keys(m) == Keys(inputs);
    forall i, j | 0 <= i < j < |inputs| && m[i] != inputs[i] && m[j] != inputs[j] ensures m[i].1 != m[j].1 {
      assert urls[i].Some? && urls[j].Some?;
      StagedUrlsDistinct(w, sheet, st, final, Values(inputs), urls, i, j);
    }
  }

  /** Without sheets and without two values naming the same path, every
      local value of the manifest becomes the URL its path is registered
      under. */
  lemma EveryPlainPathReplaced(w: World, sheet: string -> bool, reg: map<string, string>, inputs: Manifest, m: Manifest)
    requires UploadedManifest(w, sheet, reg, inputs, m)
    requires forall i :: 0 <= i < |inputs| && IsLocalValue(w, inputs[i].1) ==> !sheet(w.abspath(inputs[i].1.s))
    requires forall i, j :: 0 <= i < j < |inputs| && IsLocalValue(w, inputs[i].1) && IsLocalValue(w, inputs[j].1) ==>
      w.abspath(inputs[i].1.s) != w.abspath(inputs[j].1.s)
    ensures forall i :: 0 <= i < |inputs| && IsLocalValue(w, inputs[i].1) ==>
      w.abspath(inputs[i].1.s) in reg && m[i] == (inputs[i].0, Str(reg[w.abspath(inputs[i].1.s)]))
  {
    var vals := Values(inputs);
    forall i | 0 <= i < |inputs| && IsLocalValue(w, inputs[i].1) ensures Unclaimed(w, sheet, vals, i) {
      forall j | 0 <= j < i ensures !MayRegister(w, sheet, vals[j], w.abspath(vals[i].s)) {
        assert vals[j] == inputs[j].1;
      }
    }
  }

  // ---------------------------------------------------------------------
  // The gs-only command line

  /** An argument `main` reads as a JSON manifest rather than a path. */
  predicate IsJsonArg(w: World, arg: string)
  {
    !Exists(w, arg) || EndsWith(arg, ".json")
  }

  /** The inputs `main` collects from its arguments, left to right: a JSON
      argument's manifest is merged in (`dict.update`), any other argument
      is added under the fresh key `freshKey(i)` (`uuid1()` at position
      `i`). A manifest that cannot be read stops everything. */
  function CollectInputs(w: World, args: seq<string>, load: string -> Result<Manifest>, freshKey: nat -> string)
    : (r: Result<Manifest>)
    ensures r.Ok? <==> forall i :: 0 <= i < |args| ==> Loadable(w, args[i], load)
    decreases |args|
  {
    if |args| == 0 then Ok([])
    else
      var n := |args| - 1;
      var prev := CollectInputs(w, args[..n], load, freshKey);
      LoadablePrefix(w, args, args[..n], load);
      if prev.Err? then prev
      else if !IsJsonArg(w, args[n]) then Ok(Put(prev.value, freshKey(n), Str(args[n])))
      else if load(args[n]).Err? then load(args[n])
      else Ok(Update(prev.value, load(args[n]).value))
  }

  lemma LoadablePrefix(w: World, args: seq<string>, prefix: seq<string>, load: string -> Result<Manifest>)
    requires |args| > 0 && prefix == args[..|args| - 1]
    ensures (forall i :: 0 <= i < |args| ==> Loadable(w, args[i], load)) <==>
      (forall i :: 0 <= i < |prefix| ==> Loadable(w, prefix[i], load)) && Loadable(w, args[|prefix|], load)
  {
    assert forall i :: 0 <= i < |prefix| ==> prefix[i] == args[i];
  }

  /** An argument that is a path, or a manifest that can be read. */
  predicate Loadable(w: World, arg: string, load: string -> Result<Manifest>)
  {
    IsJsonArg(w, arg) ==> load(arg).Ok?
  }

  /** The keys argument `i` contributes. */
  predicate ArgKeys(w: World, arg: string, load: string -> Result<Manifest>, freshKey: nat -> string, i: nat, k: string)
  {
    if IsJsonArg(w, arg) then load(arg).Ok? && k in Keys(load(arg).value) else k == freshKey(i)
  }

  /** A path argument ends up under its fresh key unless a later argument
      writes that key again. */
  lemma {:induction false} PathArgKept(w: World, args: seq<string>, load: string -> Result<Manifest>,
                                       freshKey: nat -> string, i: nat)
    requires i < |args| && !IsJsonArg(w, args[i])
    requires CollectInputs(w, args, load, freshKey).Ok?
    requires forall j :: i < j < |args| ==> !ArgKeys(w, args[j], load, freshKey, j, freshKey(i))
    ensures Get(CollectInputs(w, args, load, freshKey).value, freshKey(i)) == Some(Str(args[i]))
    decreases |args|
  {
    var n := |args| - 1;
    if i < n {
      var pre := args[..n];
      LastStepKeeps(w, args, load, freshKey, freshKey(i));
      assert pre[i] == args[i];
      assert forall j :: i < j < |pre| ==> !ArgKeys(w, pre[j], load, freshKey, j, freshKey(i)) by {
        forall j | i < j < |pre| ensures !ArgKeys(w, pre[j], load, freshKey, j, freshKey(i)) {
          assert pre[j] == args[j];
        }
      }
      PathArgKept(w, pre, load, freshKey, i);
    } else {
      LastStepAdds(w, args, load, freshKey);
    }
  }

  /** A last argument that is a path is stored under its fresh key. */
  lemma LastStepAdds(w: World, args: seq<string>, load: string -> Result<Manifest>, freshKey: nat -> string)
    requires |args| > 0 && CollectInputs(w, args, load, freshKey).Ok?
    requires !IsJsonArg(w, args[|args| - 1])
    ensures Get(CollectInputs(w, args, load, freshKey).value, freshKey(|args| - 1)) == Some(Str(args[|args| - 1]))
  {
    CollectStep(w, args, load, freshKey);
  }

  /** A key the last argument does not contribute keeps its value. */
  lemma LastStepKeeps(w: World, args: seq<string>, load: string -> Result<Manifest>, freshKey: nat -> string, key: string)
    requires |args| > 0 && CollectInputs(w, args, load, freshKey).Ok?
    requires !ArgKeys(w, args[|args| - 1], load, freshKey, |args| - 1, key)
    ensures CollectInputs(w, args[..|args| - 1], load, freshKey).Ok?
    ensures Get(CollectInputs(w, args, load, freshKey).value, key)
      == Get(CollectInputs(w, args[..|args| - 1], load, freshKey).value, key)
  {
    CollectStep(w, args, load, freshKey);
  }

  /** Every key an argument contributes is a key of the collected inputs. */
  lemma {:induction false} ArgKeysCollected(w: World, args: seq<string>, load: string -> Result<Manifest>,
                                            freshKey: nat -> string, i: nat, k: string)
    requires i < |args| && ArgKeys(w, args[i], load, freshKey, i, k)
    requires CollectInputs(w, args, load, freshKey).Ok?
    ensures k in Keys(CollectInputs(w, args, load, freshKey).value)
    decreases |args|, 1
  {
    if i < |args| - 1 {
      EarlierArgKeys(w, args, load, freshKey, i, k);
    } else {
      LastArgKeys(w, args, load, freshKey, k);
    }
  }

  /** A key from an earlier argument is collected from the prefix and
      survives the last step. */
  lemma {:induction false} EarlierArgKeys(w: World, args: seq<string>, load: string -> Result<Manifest>,
                                          freshKey: nat -> string, i: nat, k: string)
    requires i < |args| - 1 && ArgKeys(w, args[i], load, freshKey, i, k)
    requires CollectInputs(w, args, load, freshKey).Ok?
    ensures k in Keys(CollectInputs(w, args, load, freshKey).value)
    decreases |args|, 0
  {
    var n := |args| - 1;
    CollectStep(w, args, load, freshKey);
    assert args[..n][i] == args[i];
    ArgKeysCollected(w, args[..n], load, freshKey, i, k);
  }

  lemma LastArgKeys(w: World, args: seq<string>, load: string -> Result<Manifest>, freshKey: nat -> string, k: string)
    requires |args| > 0 && CollectInputs(w, args, load, freshKey).Ok?
    requires ArgKeys(w, args[|args| - 1], load, freshKey, |args| - 1, k)
    ensures k in Keys(CollectInputs(w, args, load, freshKey).value)
  {
    CollectStep(w, args, load, freshKey);
  }

  /** The last argument's step of the collection. */
  lemma CollectStep(w: World, args: seq<string>, load: string -> Result<Manifest>, freshKey: nat -> string)
    requires |args| > 0 && CollectInputs(w, args, load, freshKey).Ok?
    ensures CollectInputs(w, args[..|args| - 1], load, freshKey).Ok?
    ensures var n := |args| - 1;
      var m := CollectInputs(w, args[..n], load, freshKey).value;
      var r := CollectInputs(w, args, load, freshKey).value;
      && (IsJsonArg(w, args[n]) ==> load(args[n]).Ok? && r == Update(m, load(args[n]).value))
      && (!IsJsonArg(w, args[n]) ==> r == Put(m, freshKey(n), Str(args[n])))
      && (forall j :: j in Keys(m) ==> j in Keys(r))
  {
  }
}

/** Flowcell (BCL run folder) detection and transfer.

    The current revision drives `strato` with an explicit backend; the
    gs-only revision drives `gsutil`. Both follow the same plan, so the plan
    is modelled once over a `Tool` that builds the copy and sync commands;
    they differ only in how a missing `RTAComplete.txt` is reported.
 */
module Bcl {
  import opened Base
  import opened Strs
  import opened Host

  datatype Tool = Strato(backend: string) | Gsutil

  /** A single-file copy. */
  function Cp(t: Tool, src: string, dst: string): seq<string>
  {
    match t
    case Strato(b) => ["strato", "cp", "--backend", b, "--ionice", src, dst]
    case Gsutil => ["gsutil", "cp", src, dst]
  }

  /** A directory synchronisation. */
  function Sync(t: Tool, src: string, dst: string): seq<string>
  {
    match t
    case Strato(b) => ["strato", "sync", "--backend", b, "--ionice", "-m", src, dst]
    case Gsutil => ["gsutil", "-m", "rsync", "-r", src, dst]
  }

  /** The exception a missing `RTAComplete.txt` raises. */
  function MissingRtaKind(t: Tool): Kind
  {
    if t.Strato? then FileNotFoundError else AssertionError
  }

  /** `path_is_flowcell`: a directory holding `RunInfo.xml`. */
  predicate PathIsFlowcell(w: World, path: string)
  {
    IsDir(w, path) && Exists(w, path + "/RunInfo.xml")
  }

  function BaseCalls(root: string): string { root + "/Data/Intensities/BaseCalls" }

  /** The lane folders found under `BaseCalls`: directories whose name
      starts with `L0`, in scan order. */
  function LaneDirs(w: World, dir: string, names: seq<string>): (r: seq<string>)
    ensures forall n :: n in r <==> n in names && IsDir(w, dir + "/" + n) && StartsWith(n, "L0")
  {
    if |names| == 0 then []
    else
      (if IsDir(w, dir + "/" + names[0]) && StartsWith(names[0], "L0") then [names[0]] else [])
      + LaneDirs(w, dir, names[1..])
  }

  /** `['*']` expands to the lane folders; an explicit list is kept. */
  function ExpandLanes(w: World, source: string, lanes: seq<string>): (r: Result<seq<string>>)
    ensures lanes != ["*"] ==> r == Ok(lanes)
    ensures lanes == ["*"] ==> (r.Err? <==> !IsDir(w, BaseCalls(source)))
    ensures lanes == ["*"] && r.Err? && !Exists(w, BaseCalls(source)) ==> r.error.kind == FileNotFoundError
    ensures lanes == ["*"] && r.Err? && Exists(w, BaseCalls(source)) ==> r.error.kind == NotADirectoryError
    ensures lanes == ["*"] && r.Ok? ==> forall n :: n in r.value <==>
      n in ScanDir(w, BaseCalls(source)).value && IsDir(w, BaseCalls(source) + "/" + n)
      && StartsWith(n, "L0")
  {
    if lanes != ["*"] then Ok(lanes)
    else
      var names :- ScanDir(w, BaseCalls(source));
      Ok(LaneDirs(w, BaseCalls(source), names))
  }

  /** One command per lane, in lane order. */
  function PerLane(t: Tool, source: string, dest: string, sub: string, lanes: seq<string>, dryRun: bool): (r: seq<Effect>)
    ensures |r| == |lanes|
    ensures forall i :: 0 <= i < |lanes| ==>
      r[i] == Run(Sync(t, source + sub + "/" + lanes[i], dest + sub + "/" + lanes[i]), dryRun)
  {
    if |lanes| == 0 then []
    else
      [Run(Sync(t, source + sub + "/" + lanes[0], dest + sub + "/" + lanes[0]), dryRun)]
      + PerLane(t, source, dest, sub, lanes[1..], dryRun)
  }

  /** Runs a list of commands in order, stopping at the first failure. */
  function RunAll(w: World, cmds: seq<Effect>): (o: Outcome)
    requires forall i :: 0 <= i < |cmds| ==> cmds[i].Run?
    ensures o.error.None? <==> forall i :: 0 <= i < |cmds| ==> cmds[i].dryRun || w.accepts(cmds[i].argv)
    ensures o.error.None? ==> o.effects == cmds
    ensures o.error.Some? ==> o.error.value.kind == CalledProcessError
    ensures |o.effects| <= |cmds| && o.effects == cmds[..|o.effects|]
  {
    if |cmds| == 0 then Done
    else if !cmds[0].dryRun && !w.accepts(cmds[0].argv) then
      RunCommand(w, cmds[0].argv, cmds[0].dryRun)
    else
      var rest := RunAll(w, cmds[1..]);
      ConsPrefix(cmds, rest.effects);
      Outcome([cmds[0]] + rest.effects, rest.error)
  }

  lemma ConsPrefix(cmds: seq<Effect>, tail: seq<Effect>)
    requires |cmds| > 0 && |tail| <= |cmds| - 1 && tail == cmds[1..][..|tail|]
    ensures [cmds[0]] + tail == cmds[..|tail| + 1]
    ensures tail == cmds[1..] ==> [cmds[0]] + tail == cmds
  {
    assert forall i :: 0 <= i < |tail| ==> tail[i] == cmds[i + 1];
  }

  /** The run-parameters file to copy, if any: the lower-case spelling wins. */
  function RunParameters(w: World, source: string): Option<string>
  {
    if Exists(w, source + "/runParameters.xml") then Some("runParameters.xml")
    else if Exists(w, source + "/RunParameters.xml") then Some("RunParameters.xml")
    else None
  }

  /** Everything after the checks: lanes, then `s.locs` or per-lane
      intensities. */
  function LaneCommands(w: World, t: Tool, source: string, dest: string, lanes: seq<string>, dryRun: bool): (r: seq<Effect>)
    ensures forall i :: 0 <= i < |r| ==> r[i].Run? && r[i].dryRun == dryRun
    ensures |r| == |lanes| + (if Exists(w, source + "/Data/Intensities/s.locs") then 1 else |lanes|)
    ensures r[..|lanes|] == PerLane(t, source, dest, "/Data/Intensities/BaseCalls", lanes, dryRun)
  {
    var bcl := PerLane(t, source, dest, "/Data/Intensities/BaseCalls", lanes, dryRun);
    var locs := source + "/Data/Intensities/s.locs";
    var tail :=
      if Exists(w, locs) then [Run(Cp(t, locs, dest + "/Data/Intensities/s.locs"), dryRun)]
      else PerLane(t, source, dest, "/Data/Intensities", lanes, dryRun);
    assert (bcl + tail)[..|lanes|] == bcl;
    bcl + tail
  }

  /** A command that cannot fail: a dry run, or one the host accepts. */
  predicate Accepted(w: World, argv: seq<string>, dryRun: bool)
  {
    dryRun || w.accepts(argv)
  }

  /** What the prologue needs to go through: `RTAComplete.txt` and a
      run-parameters file are present, and the three copies succeed. */
  predicate FlowcellReady(w: World, t: Tool, source: string, dest: string, dryRun: bool)
  {
    && Exists(w, source + "/RTAComplete.txt")
    && RunParameters(w, source).Some?
    && Accepted(w, Cp(t, source + "/RunInfo.xml", dest + "/RunInfo.xml"), dryRun)
    && Accepted(w, Cp(t, source + "/RTAComplete.txt", dest + "/RTAComplete.txt"), dryRun)
    && Accepted(w, Cp(t, source + "/" + RunParameters(w, source).value, dest + "/" + RunParameters(w, source).value), dryRun)
  }

  /** What the lane transfers need to go through: the lanes expand, and
      every lane command succeeds. */
  predicate LanesAccepted(w: World, t: Tool, source: string, dest: string, lanes: seq<string>, dryRun: bool)
  {
    && ExpandLanes(w, source, lanes).Ok?
    && var cmds := LaneCommands(w, t, source, dest, ExpandLanes(w, source, lanes).value, dryRun);
      forall i :: 0 <= i < |cmds| ==> Accepted(w, cmds[i].argv, dryRun)
  }

  /** The copies and checks before any lane: `RunInfo.xml`, then the
      `RTAComplete.txt` check and copy, then the run-parameters copy. */
  function Prologue(w: World, t: Tool, source: string, dest: string, dryRun: bool): (o: Outcome)
    ensures 1 <= |o.effects| <= 3
      && o.effects[0] == Run(Cp(t, source + "/RunInfo.xml", dest + "/RunInfo.xml"), dryRun)
    ensures forall i :: 0 <= i < |o.effects| ==> o.effects[i].Run? && o.effects[i].dryRun == dryRun
    ensures dryRun ==> o.error.None? || o.error.value.kind != CalledProcessError
    ensures ((dryRun || w.accepts(Cp(t, source + "/RunInfo.xml", dest + "/RunInfo.xml")))
      && !Exists(w, source + "/RTAComplete.txt")) ==>
        o == Outcome(o.effects[..1], Some(Error(MissingRtaKind(t), source + "/RTAComplete.txt")))
    ensures o.error.None? ==> (Exists(w, source + "/RTAComplete.txt")
      && RunParameters(w, source).Some?
      && |o.effects| == 3
      && o.effects[1] == Run(Cp(t, source + "/RTAComplete.txt", dest + "/RTAComplete.txt"), dryRun)
      && o.effects[2] == Run(Cp(t, source + "/" + RunParameters(w, source).value,
                                  dest + "/" + RunParameters(w, source).value), dryRun))
    ensures o.error.None? <==> FlowcellReady(w, t, source, dest, dryRun)
    ensures (&& Accepted(w, Cp(t, source + "/RunInfo.xml", dest + "/RunInfo.xml"), dryRun)
             && Accepted(w, Cp(t, source + "/RTAComplete.txt", dest + "/RTAComplete.txt"), dryRun)
             && Exists(w, source + "/RTAComplete.txt") && RunParameters(w, source).None?) ==>
      o.error == Some(Error(FileNotFoundError, source + "/RunParameters.xml"))
  {
    var runInfo := RunCommand(w, Cp(t, source + "/RunInfo.xml", dest + "/RunInfo.xml"), dryRun);
    if runInfo.error.Some? then runInfo
    else if !Exists(w, source + "/RTAComplete.txt") then
      Outcome(runInfo.effects, Some(Error(MissingRtaKind(t), source + "/RTAComplete.txt")))
    else
      var head := Then(runInfo, RunCommand(w, Cp(t, source + "/RTAComplete.txt", dest + "/RTAComplete.txt"), dryRun));
      if head.error.Some? then head
      else match RunParameters(w, source)
        case None => Outcome(head.effects, Some(Error(FileNotFoundError, source + "/RunParameters.xml")))
        case Some(name) => Then(head, RunCommand(w, Cp(t, source + "/" + name, dest + "/" + name), dryRun))
  }

  /** The lane transfers after the prologue. */
  function LaneTransfers(w: World, t: Tool, source: string, dest: string, lanes: seq<string>, dryRun: bool): (o: Outcome)
    ensures forall i :: 0 <= i < |o.effects| ==> o.effects[i].Run? && o.effects[i].dryRun == dryRun
    ensures dryRun ==> o.error.None? || o.error.value.kind != CalledProcessError
    ensures ExpandLanes(w, source, lanes).Err? ==> o == Outcome([], Some(ExpandLanes(w, source, lanes).error))
    ensures o.error.None? ==> (ExpandLanes(w, source, lanes).Ok?
      && o.effects == LaneCommands(w, t, source, dest, ExpandLanes(w, source, lanes).value, dryRun))
    ensures o.error.None? <==> LanesAccepted(w, t, source, dest, lanes, dryRun)
  {
    match ExpandLanes(w, source, lanes)
    case Err(e) => Outcome([], Some(e))
    case Ok(found) => RunAll(w, LaneCommands(w, t, source, dest, found, dryRun))
  }

  /** `transfer_flowcell(source, dest, lanes)`. */
  function TransferFlowcell(w: World, t: Tool, source: string, dest: string, lanes: seq<string>, dryRun: bool): (o: Outcome)
    ensures |o.effects| >= 1
      && o.effects[0] == Run(Cp(t, source + "/RunInfo.xml", dest + "/RunInfo.xml"), dryRun)
    ensures AllRunsDry(o.effects, dryRun)
    ensures dryRun ==> o.error.None? || o.error.value.kind != CalledProcessError
    ensures ((dryRun || w.accepts(Cp(t, source + "/RunInfo.xml", dest + "/RunInfo.xml")))
      && !Exists(w, source + "/RTAComplete.txt")) ==>
        o == Outcome(o.effects[..1], Some(Error(MissingRtaKind(t), source + "/RTAComplete.txt")))
    ensures o.error.None? ==> (Exists(w, source + "/RTAComplete.txt")
      && RunParameters(w, source).Some?
      && ExpandLanes(w, source, lanes).Ok?
      && |o.effects| >= 3
      && o.effects[3..] == LaneCommands(w, t, source, dest, ExpandLanes(w, source, lanes).value, dryRun))
    ensures o.error.None? <==> FlowcellReady(w, t, source, dest, dryRun) && LanesAccepted(w, t, source, dest, lanes, dryRun)
    ensures (&& Accepted(w, Cp(t, source + "/RunInfo.xml", dest + "/RunInfo.xml"), dryRun)
             && Accepted(w, Cp(t, source + "/RTAComplete.txt", dest + "/RTAComplete.txt"), dryRun)
             && Exists(w, source + "/RTAComplete.txt") && RunParameters(w, source).None?) ==>
      o.error == Some(Error(FileNotFoundError, source + "/RunParameters.xml"))
  {
    var head := Prologue(w, t, source, dest, dryRun);
    var rest := LaneTransfers(w, t, source, dest, lanes, dryRun);
    var o := Then(head, rest);
    assert head.error.None? ==> |head.effects| == 3 && o.effects[3..] == rest.effects;
    o
  }

  /** A dry run of a complete flowcell goes through: nothing is executed,
      so only the files checked before the copies can stop it. */
  lemma DryRunCompletes(w: World, t: Tool, source: string, dest: string, lanes: seq<string>)
    requires Exists(w, source + "/RTAComplete.txt") && RunParameters(w, source).Some?
    requires lanes == ["*"] ==> IsDir(w, BaseCalls(source))
    ensures TransferFlowcell(w, t, source, dest, lanes, true).error.None?
  {
  }
}

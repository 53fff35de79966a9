/** `lane_manager`: the lanes of one flowcell named in a sample sheet.

    A lane cell is `*` (all lanes), one integer, or a range `a-b`. The lane
    set is kept as a strictly ascending sequence; `get_lanes` lists it in
    that order (the source iterates a Python set, whose order is not
    specified).
 */
module Lanes {
  import opened Base
  import opened Strs
  import opened Host

  predicate Ascending(xs: seq<nat>)
  {
    forall i, j :: 0 <= i < j < |xs| ==> xs[i] < xs[j]
  }

  datatype LaneManager = LaneManager(lanes: seq<nat>, isAll: bool)
  {
    ghost predicate Valid() { Ascending(lanes) }

    ghost function LaneSet(): set<nat> { set x | x in lanes }
  }

  const NewManager := LaneManager([], false)

  /** Adds one lane to an ascending sequence. */
  function Insert(xs: seq<nat>, v: nat): (r: seq<nat>)
    requires Ascending(xs)
    ensures Ascending(r)
    ensures forall x :: x in r <==> x in xs || x == v
  {
    if |xs| == 0 then [v]
    else if v < xs[0] then [v] + xs
    else if v == xs[0] then xs
    else
      var rest := Insert(xs[1..], v);
      assert forall x :: x in xs <==> x == xs[0] || x in xs[1..];
      assert forall k :: 0 <= k < |rest| ==> xs[0] < rest[k] by {
        forall k | 0 <= k < |rest| ensures xs[0] < rest[k] {
          assert rest[k] in rest;
          if rest[k] != v {
            var j :| 0 <= j < |xs[1..]| && xs[1..][j] == rest[k];
            assert xs[j + 1] == rest[k];
          }
        }
      }
      [xs[0]] + rest
  }

  /** Adds the lanes `a` to `b` inclusive, nothing when `a > b`. */
  function InsertRange(xs: seq<nat>, a: nat, b: nat): (r: seq<nat>)
    requires Ascending(xs)
    ensures Ascending(r)
    ensures forall x :: x in r <==> x in xs || a <= x <= b
    decreases b - a + 1
  {
    if a > b then xs else InsertRange(Insert(xs, a), a + 1, b)
  }

  /** `int(field)` for a field of a lane cell, which never holds a minus
      sign; `None` where Python raises `ValueError`. */
  function ParseLane(field: string): (r: Option<nat>)
    requires '-' !in field
    ensures r.Some? <==> ParseInt(field).Some?
    ensures r.Some? ==> r.value == ParseInt(field).value
  {
    match ParseInt(field)
    case None => None
    case Some(v) =>
      ParseIntNoMinus(field);
      Some(v)
  }

  lemma SplitFieldsNoSeparator(s: string)
    ensures forall k :: 0 <= k < |Split(s, "-")| ==> '-' !in Split(s, "-")[k]
  {
    var parts := Split(s, "-");
    forall k | 0 <= k < |parts| ensures '-' !in parts[k] {
      if '-' in parts[k] {
        var j :| 0 <= j < |parts[k]| && parts[k][j] == '-';
        assert OccursAt(parts[k], "-", j) by {
          assert parts[k][j..j + 1] == "-";
        }
      }
    }
  }

  lemma NoSeparatorOneField(s: string)
    ensures '-' !in s ==> Split(s, "-") == [s]
  {
    if '-' !in s {
      forall j | 0 <= j <= |s| - 1 ensures !OccursAt(s, "-", j) {
        assert s[j..j + 1] == [s[j]];
      }
      assert !Contains(s, "-");
    }
  }

  lemma SingleFieldNoSeparator(s: string)
    requires |Split(s, "-")| == 1
    ensures '-' !in s
  {
    assert Find(s, "-") == -1;
    forall j | 0 <= j < |s| ensures s[j] != '-' {
      assert !OccursAt(s, "-", j);
      assert s[j..j + 1] == [s[j]];
    }
  }

  /** `update_lanes(lane_str)`. */
  function UpdateLanes(m: LaneManager, cell: Cell): (r: Result<LaneManager>)
    requires m.Valid()
    ensures r.Ok? ==> r.value.Valid()
    ensures cell == Text("*") ==> r == Ok(LaneManager([], true))
    ensures cell.Other? ==> r.Err? && r.error.kind == AttributeError
    ensures cell.Text? && cell.s != "*" && |Split(cell.s, "-")| > 2 ==>
      r.Err? && r.error.kind == AssertionError
    ensures cell.Text? && cell.s != "*" && |Split(cell.s, "-")| <= 2 && r.Err? ==> r.error.kind == ValueError
    ensures r.Ok? && cell != Text("*") ==> r.value.isAll == m.isAll
    ensures cell.Text? && '-' !in cell.s && cell.s != "*" ==>
      (r.Ok? <==> ParseInt(cell.s).Some?)
      && (r.Ok? ==> r.value.LaneSet() == m.LaneSet() + {ParseInt(cell.s).value})
    ensures cell.Text? && cell.s != "*" && |Split(cell.s, "-")| == 2 ==>
      var f := Split(cell.s, "-");
      (r.Ok? <==> ParseInt(f[0]).Some? && ParseInt(f[1]).Some?)
      && (r.Ok? ==> forall x :: x in r.value.lanes <==>
            x in m.lanes || ParseInt(f[0]).value <= x <= ParseInt(f[1]).value)
  {
    if cell == Text("*") then Ok(LaneManager([], true))
    else if cell.Other? then Raise(AttributeError, cell.shown)
    else
      var fields := Split(cell.s, "-");
      SplitFieldsNoSeparator(cell.s);
      NoSeparatorOneField(cell.s);
      if |fields| > 2 then Raise(AssertionError, cell.s)
      else if |fields| == 1 then
        SingleFieldNoSeparator(cell.s);
        AddLane(m, cell.s)
      else AddRange(m, fields[0], fields[1])
  }

  /** A cell holding one lane number. */
  function AddLane(m: LaneManager, field: string): (r: Result<LaneManager>)
    requires m.Valid() && '-' !in field
    ensures r.Ok? <==> ParseInt(field).Some?
    ensures r.Err? ==> r.error.kind == ValueError
    ensures r.Ok? ==>
      (r.value.Valid() && r.value.isAll == m.isAll && r.value.LaneSet() == m.LaneSet() + {ParseInt(field).value})
  {
    match ParseLane(field)
    case None => Raise(ValueError, field)
    case Some(v) =>
      var r := m.(lanes := Insert(m.lanes, v));
      assert r.LaneSet() == m.LaneSet() + {v};
      Ok(r)
  }

  /** A cell holding a range `a-b`. */
  function AddRange(m: LaneManager, first: string, last: string): (r: Result<LaneManager>)
    requires m.Valid() && '-' !in first && '-' !in last
    ensures r.Ok? <==> ParseInt(first).Some? && ParseInt(last).Some?
    ensures r.Err? ==> r.error.kind == ValueError
    ensures r.Ok? ==> r.value.Valid() && r.value.isAll == m.isAll
    ensures r.Ok? ==>
      forall x :: x in r.value.lanes <==> x in m.lanes || ParseInt(first).value <= x <= ParseInt(last).value
  {
    match ParseLane(first)
    case None => Raise(ValueError, first)
    case Some(a) =>
      match ParseLane(last)
      case None => Raise(ValueError, last)
      case Some(b) => Ok(m.(lanes := InsertRange(m.lanes, a, b)))
  }

  /** `f'L{lane:03}'`. */
  function LaneName(lane: nat): (r: string)
    ensures |r| >= 4 && r[0] == 'L'
  {
    "L" + PadLeft(NatToString(lane), 3, '0')
  }

  /** `get_lanes()`: `['*']` for all lanes or none recorded, otherwise one
      name per lane. */
  function GetLanes(m: LaneManager): (r: seq<string>)
    requires m.Valid()
    ensures r == ["*"] <==> m.isAll || |m.lanes| == 0
    ensures r != ["*"] ==>
      (|r| == |m.lanes| && forall i :: 0 <= i < |r| ==> r[i] == LaneName(m.lanes[i]))
  {
    if m.isAll || |m.lanes| == 0 then ["*"]
    else
      var r := LaneNames(m.lanes);
      assert r[0] != "*";
      r
  }

  function LaneNames(lanes: seq<nat>): (r: seq<string>)
    ensures |r| == |lanes|
    ensures forall i :: 0 <= i < |r| ==> r[i] == LaneName(lanes[i])
  {
    if |lanes| == 0 then [] else [LaneName(lanes[0])] + LaneNames(lanes[1..])
  }

  /** The lane number can be read back from its name. */
  lemma LaneNameRoundTrip(lane: nat)
    ensures ParseInt(LaneName(lane)[1..]) == Some(lane)
  {
    var d := NatToString(lane);
    var p := PadLeft(d, 3, '0');
    assert LaneName(lane)[1..] == p;
    var z := if |d| >= 3 then 0 else 3 - |d|;
    assert p == Repeat('0', z) + d by {
      if |d| >= 3 {
        assert Repeat('0', 0) + d == d;
      }
    }
    DigitsValueLeadingZeros(z, d);
    DigitsValueOfNatToString(lane);
    ParseDigits(p);
  }

  lemma ParseDigits(p: string)
    requires |p| > 0 && AllDigits(p)
    ensures ParseInt(p) == Some(DigitsValue(p) as int)
  {
    DropUnderscoresOfDigits(p);
    DigitsAreBody(p);
    StripDigits(p);
  }

  /** Distinct lanes get distinct names. */
  lemma LaneNameInjective(a: nat, b: nat)
    requires LaneName(a) == LaneName(b)
    ensures a == b
  {
    LaneNameRoundTrip(a);
    LaneNameRoundTrip(b);
  }

  /** Feeding the lane cells of a sheet in order; the first failure stops. */
  function UpdateAll(m: LaneManager, cells: seq<Cell>): (r: Result<LaneManager>)
    requires m.Valid()
    ensures r.Ok? ==> r.value.Valid()
    ensures r.Ok? && m.isAll ==> r.value.isAll
    decreases |cells|
  {
    if |cells| == 0 then Ok(m)
    else
      var next :- UpdateLanes(m, cells[0]);
      UpdateAll(next, cells[1..])
  }

  /** `isall` is never reset: once a `*` has been seen, later explicit lanes
      do not change `get_lanes()`. */
  lemma StarIsSticky(m: LaneManager, cells: seq<Cell>, i: nat)
    requires m.Valid()
    requires i < |cells| && cells[i] == Text("*")
    requires UpdateAll(m, cells).Ok?
    ensures GetLanes(UpdateAll(m, cells).value) == ["*"]
  {
    StarSetsAll(m, cells, i);
  }

  lemma {:induction false} StarSetsAll(m: LaneManager, cells: seq<Cell>, i: nat)
    requires m.Valid()
    requires i < |cells| && cells[i] == Text("*")
    requires UpdateAll(m, cells).Ok?
    ensures UpdateAll(m, cells).value.isAll
    decreases |cells|, 1
  {
    if i == 0 {
      StarHead(m, cells);
    } else {
      StarLater(m, cells, i);
    }
  }

  lemma {:induction false} StarLater(m: LaneManager, cells: seq<Cell>, i: nat)
    requires m.Valid()
    requires 0 < i < |cells| && cells[i] == Text("*")
    requires UpdateAll(m, cells).Ok?
    ensures UpdateAll(m, cells).value.isAll
    decreases |cells|, 0
  {
    UpdateAllStep(m, cells);
    var next := UpdateLanes(m, cells[0]).value;
    assert cells[1..][i - 1] == cells[i];
    StarSetsAll(next, cells[1..], i - 1);
  }

  lemma UpdateAllStep(m: LaneManager, cells: seq<Cell>)
    requires m.Valid() && 0 < |cells| && UpdateAll(m, cells).Ok?
    ensures UpdateLanes(m, cells[0]).Ok?
    ensures UpdateAll(m, cells) == UpdateAll(UpdateLanes(m, cells[0]).value, cells[1..])
  {
  }

  lemma StarHead(m: LaneManager, cells: seq<Cell>)
    requires m.Valid()
    requires 0 < |cells| && cells[0] == Text("*")
    ensures UpdateAll(m, cells) == UpdateAll(LaneManager([], true), cells[1..])
    ensures UpdateAll(m, cells).Ok? ==> UpdateAll(m, cells).value.isAll
  {
  }
}

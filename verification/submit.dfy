/** What the submission commands do before talking to the service: tell a
    Dockstore workflow string from a Methods Repository one
    (`alto/commands/terra/run.py`), and encode the inputs the way Terra
    expects them. `convert_inputs` exists in three copies
    (`alto/commands/terra/run.py`, `alto/commands/run.py`,
    `cumulus_util/commands/fc_run.py`); only the first knows the float tag.
 */
module Submit {
  import opened Base
  import opened Strs
  import opened Wdl
  import opened Firecloud
  import opened Dockstore

  datatype Source = Dockstore | MethodsRepository

  /** `detect_workflow_source`: any `:` means Dockstore. */
  function DetectWorkflowSource(s: string): (r: Source)
    ensures r == Dockstore <==> ':' in s
  {
    FindChar(s, ':');
    if Find(s, [':']) >= 0 then Dockstore else MethodsRepository
  }

  /** Every string the Dockstore parser accepts is sent to it. */
  lemma DockstoreStringsDetected(s: string)
    requires ParseDockstoreWorkflow(s).Ok?
    ensures DetectWorkflowSource(s) == Dockstore
  {
    FindChar(s, ':');
    SplitPiecesNeedSep(s, ':');
  }

  /** A workflow string of names without `:` goes to the Methods
      Repository parser. */
  lemma WorkflowStringsDetected(ns: string, name: string, version: Option<int>)
    requires ':' !in ns && ':' !in name
    ensures DetectWorkflowSource(WorkflowString(ns, name, version)) == MethodsRepository
  {
    var s := WorkflowString(ns, name, version);
    if version.Some? {
      IntToStringChars(version.value);
      assert forall k :: 0 <= k < |IntToString(version.value)| ==> IntToString(version.value)[k] != ':';
    }
    assert forall k :: 0 <= k < |s| ==> s[k] != ':';
  }

  /** The three copies of `convert_inputs`. */
  datatype Copy = TerraRun | AltoRun | FcRun

  /** `f'"{x}"'`: a string as it is, anything else through `str`. */
  function Quote(v: Value, show: Value -> string): (r: string)
    ensures |r| >= 2 && r[0] == '"' && r[|r| - 1] == '"'
    ensures v.Str? ==> r[1..|r| - 1] == v.s
  {
    var body := if v.Str? then v.s else show(v);
    assert ("\"" + body + "\"")[1..|body| + 1] == body;
    "\"" + body + "\""
  }

  function QuoteAll(items: seq<Value>, show: Value -> string): (r: seq<string>)
    ensures |r| == |items|
    ensures forall i :: 0 <= i < |items| ==> r[i] == Quote(items[i], show)
  {
    if |items| == 0 then [] else [Quote(items[0], show)] + QuoteAll(items[1..], show)
  }

  /** A non-empty list whose first element is a string. */
  predicate IsStringList(v: Value)
  {
    v.List? && |v.items| > 0 && v.items[0].Str?
  }

  /** One input value, as the copy `c` encodes it; `show` is Python's
      `str` of a value that is not a string. */
  function ConvertValue(c: Copy, v: Value, show: Value -> string): string
  {
    if v.Bool? then (if v.b then "true" else "false")
    else if c == TerraRun && v.Str? && StartsWith(v.s, FloatPrefix) then v.s[|FloatPrefix|..]
    else if v.Str? then "\"" + v.s + "\""
    else if IsStringList(v) then "[" + Join(QuoteAll(v.items, show), ",") + "]"
    else show(v)
  }

  /** `convert_inputs`: the same keys in the same order, each value
      encoded. */
  function ConvertInputs(c: Copy, m: Manifest, show: Value -> string): (r: seq<(string, string)>)
    ensures |r| == |m|
    ensures forall i :: 0 <= i < |m| ==> r[i].0 == m[i].0 && r[i].1 == ConvertValue(c, m[i].1, show)
  {
    if |m| == 0 then [] else [(m[0].0, ConvertValue(c, m[0].1, show))] + ConvertInputs(c, m[1..], show)
  }

  /** The caller's manifest after the call: each string list now holds
      its quoted elements, everything else is as it was. */
  function InputsAfter(m: Manifest, show: Value -> string): (r: Manifest)
    ensures |r| == |m| && Keys(r) == Keys(m)
    ensures forall i :: 0 <= i < |m| && !IsStringList(m[i].1) ==> r[i] == m[i]
    ensures forall i :: 0 <= i < |m| && IsStringList(m[i].1) ==>
      r[i].1.List? && |r[i].1.items| == |m[i].1.items|
      && forall j :: 0 <= j < |m[i].1.items| ==> r[i].1.items[j] == Str(Quote(m[i].1.items[j], show))
  {
    if |m| == 0 then []
    else
      var v := m[0].1;
      var v2 := if IsStringList(v) then List(StrAll(QuoteAll(v.items, show))) else v;
      var rest := InputsAfter(m[1..], show);
      assert Keys([(m[0].0, v2)] + rest) == [m[0].0] + Keys(rest);
      assert Keys(m) == [m[0].0] + Keys(m[1..]);
      [(m[0].0, v2)] + rest
  }

  function StrAll(ss: seq<string>): (r: seq<Value>)
    ensures |r| == |ss| && forall i :: 0 <= i < |ss| ==> r[i] == Str(ss[i])
  {
    if |ss| == 0 then [] else [Str(ss[0])] + StrAll(ss[1..])
  }

  // ---------------------------------------------------------------------
  // What the encodings promise

  /** The two copies without the float tag are the same function. */
  lemma UntaggedCopiesAgree(v: Value, show: Value -> string)
    ensures ConvertValue(AltoRun, v, show) == ConvertValue(FcRun, v, show)
  {
  }

  /** The tag-aware copy differs from the others only on tagged strings. */
  lemma TerraAgreesOffTag(v: Value, show: Value -> string)
    requires !(v.Str? && StartsWith(v.s, FloatPrefix))
    ensures ConvertValue(TerraRun, v, show) == ConvertValue(AltoRun, v, show)
  {
  }

  /** A float read with the tag reaches Terra as its literal, while the
      untagged copies would quote the tagged text. */
  lemma TaggedFloat(lit: string, show: Value -> string)
    ensures ConvertValue(TerraRun, ParseFloat(lit), show) == lit
    ensures ConvertValue(AltoRun, ParseFloat(lit), show) == "\"" + FloatPrefix + lit + "\""
  {
    var t := FloatPrefix + lit;
    assert StartsWith(t, FloatPrefix);
    assert t[|FloatPrefix|..] == lit;
  }

  /** A float read without the tag is sent as Python's `str` of it by
      every copy: no copy quotes it or looks for the marker in it. */
  lemma UntaggedFloatShown(c: Copy, lit: string, show: Value -> string)
    ensures ConvertValue(c, Float(lit), show) == show(Float(lit))
  {
  }

  /** A string is sent quoted: dropping the outer quotes gives it back. */
  lemma StringQuoted(c: Copy, s: string, show: Value -> string)
    requires c != TerraRun || !StartsWith(s, FloatPrefix)
    ensures var r := ConvertValue(c, Str(s), show);
      |r| >= 2 && r[0] == '"' && r[|r| - 1] == '"' && r[1..|r| - 1] == s
  {
    var r := "\"" + s + "\"";
    assert r[1..|r| - 1] == s;
  }

  /** Taking a string list apart: drop the brackets, split on `,`, drop
      each element's quotes. */
  function UnquoteAll(parts: seq<string>): (r: seq<string>)
    ensures |r| == |parts|
  {
    if |parts| == 0 then []
    else
      var p := parts[0];
      [if |p| >= 2 then p[1..|p| - 1] else p] + UnquoteAll(parts[1..])
  }

  function ParseStringList(t: string): seq<string>
  {
    if |t| >= 2 then UnquoteAll(Split(t[1..|t| - 1], ",")) else []
  }

  /** A list of strings without commas comes back from its encoding. */
  lemma StringListRoundTrip(c: Copy, items: seq<string>, show: Value -> string)
    requires |items| > 0
    requires forall i :: 0 <= i < |items| ==> ',' !in items[i]
    ensures ParseStringList(ConvertValue(c, List(StrAll(items)), show)) == items
  {
    var q := QuoteAll(StrAll(items), show);
    EncodedList(c, items, show);
    forall i | 0 <= i < |q| ensures q[i] == "\"" + items[i] + "\"" && ',' !in q[i] {
      QuotedItem(items, show, i);
      QuotedNoCommaOne(items[i]);
    }
    SplitJoin(q, ',');
    UnquoteQuoted(q, items, show);
  }

  lemma EncodedList(c: Copy, items: seq<string>, show: Value -> string)
    requires |items| > 0
    ensures var t := ConvertValue(c, List(StrAll(items)), show);
      |t| >= 2 && t[1..|t| - 1] == Join(QuoteAll(StrAll(items), show), ",")
  {
    var t := "[" + Join(QuoteAll(StrAll(items), show), ",") + "]";
    assert t[1..|t| - 1] == Join(QuoteAll(StrAll(items), show), ",");
  }

  /** Element `i` of an encoded string list is the element in quotes. */
  lemma QuotedItem(items: seq<string>, show: Value -> string, i: nat)
    requires i < |items|
    ensures QuoteAll(StrAll(items), show)[i] == "\"" + items[i] + "\""
  {
    assert StrAll(items)[i] == Str(items[i]);
    QuoteString(items[i], show);
  }

  lemma QuoteString(x: string, show: Value -> string)
    ensures Quote(Str(x), show) == "\"" + x + "\""
  {
  }

  lemma QuotedNoCommaOne(x: string)
    requires ',' !in x
    ensures ',' !in "\"" + x + "\""
  {
    var t := "\"" + x + "\"";
    forall k | 0 <= k < |t| ensures t[k] != ',' {
      if 0 < k < |t| - 1 {
        assert t[k] == x[k - 1];
      }
    }
  }

  lemma {:induction false} UnquoteQuoted(q: seq<string>, items: seq<string>, show: Value -> string)
    requires |q| == |items|
    requires forall i :: 0 <= i < |q| ==> q[i] == "\"" + items[i] + "\""
    ensures UnquoteAll(q) == items
    decreases |q|
  {
    if |q| > 0 {
      assert q[0][1..|q[0]| - 1] == items[0];
      UnquoteQuoted(q[1..], items[1..], show);
    }
  }
}

/** WDL input manifests: the JSON values `read_wdl_inputs` produces, the
    dictionary operations the staging code applies to them, and the float
    tag that carries a float literal through unchanged.

    `read_wdl_inputs` passes `parse_float`, so every JSON float arrives as
    the string `_&@&_` + its literal text. After staging, the manifest is
    serialised and a regular-expression substitution strips the quotes
    and the marker again, so the output shows the original literal.
    `get_wdl_inputs` reads with plain `json.loads`, so the floats it
    yields carry no tag: those are the `Float` case.
 */
module Wdl {
  import opened Base
  import opened Strs

  datatype Value =
    | Null
    | Bool(b: bool)
    | Int(i: int)
    | Str(s: string)
      /** A float as plain `json.loads` gives it, kept as its literal text. */
    | Float(lit: string)
    | List(items: seq<Value>)
    | Object(fields: seq<(string, Value)>)

  /** A top-level inputs dictionary, in insertion order. */
  type Manifest = seq<(string, Value)>

  /** `m.get(k)`. */
  function Get(m: Manifest, k: string): (r: Option<Value>)
    ensures r.None? <==> k !in Keys(m)
  {
    if |m| == 0 then None
    else if m[0].0 == k then Some(m[0].1)
    else
      assert Keys(m) == [m[0].0] + Keys(m[1..]);
      Get(m[1..], k)
  }

  /** `m[k] = v`: an existing key keeps its place, a new key goes last. */
  function Put(m: Manifest, k: string, v: Value): (r: Manifest)
    ensures Keys(r) == if k in Keys(m) then Keys(m) else Keys(m) + [k]
    ensures Get(r, k) == Some(v)
    ensures forall j :: j != k ==> Get(r, j) == Get(m, j)
  {
    if |m| == 0 then [(k, v)]
    else if m[0].0 == k then
      assert Keys(m) == [k] + Keys(m[1..]);
      assert Keys([(k, v)] + m[1..]) == [k] + Keys(m[1..]);
      [(k, v)] + m[1..]
    else
      var rest := Put(m[1..], k, v);
      assert Keys(m) == [m[0].0] + Keys(m[1..]);
      assert Keys([m[0]] + rest) == [m[0].0] + Keys(rest);
      [m[0]] + rest
  }

  /** `m.update(other)`: the entries of `other` in order. */
  function Update(m: Manifest, other: Manifest): (r: Manifest)
    ensures forall j :: j !in Keys(other) ==> Get(r, j) == Get(m, j)
    ensures forall j :: j in Keys(r) <==> j in Keys(m) || j in Keys(other)
    decreases |other|
  {
    if |other| == 0 then m
    else
      assert Keys(other) == [other[0].0] + Keys(other[1..]);
      Update(Put(m, other[0].0, other[0].1), other[1..])
  }

  /** After an update, each key of `other` holds the value `other` gives
      it, provided `other` is a dictionary (no key twice). */
  lemma {:induction false} UpdateTakesOther(m: Manifest, other: Manifest, j: string)
    requires Distinct(Keys(other))
    requires j in Keys(other)
    ensures Get(Update(m, other), j) == Get(other, j)
    decreases |other|
  {
    assert Keys(other) == [other[0].0] + Keys(other[1..]);
    var m1 := Put(m, other[0].0, other[0].1);
    if j == other[0].0 {
      forall i | 0 <= i < |Keys(other[1..])| ensures Keys(other[1..])[i] != j {
        assert Keys(other)[i + 1] == Keys(other[1..])[i];
      }
    } else {
      assert Distinct(Keys(other[1..])) by {
        forall a, b | 0 <= a < b < |Keys(other[1..])|
          ensures Keys(other[1..])[a] != Keys(other[1..])[b]
        {
          assert Keys(other)[a + 1] == Keys(other[1..])[a];
          assert Keys(other)[b + 1] == Keys(other[1..])[b];
        }
      }
      UpdateTakesOther(m1, other[1..], j);
    }
  }

  // ---------------------------------------------------------------------
  // The float tag

  const FloatPrefix := "_&@&_"

  /** A JSON number literal with a fraction or an exponent, the text
      `parse_float` receives. */
  predicate FloatLiteral(lit: string)
  {
    |lit| > 0 && forall i :: 0 <= i < |lit| ==> lit[i] in "0123456789.eE+-"
  }

  /** `parse_float`: the literal behind the marker. */
  function ParseFloat(lit: string): Value
  {
    Str(FloatPrefix + lit)
  }

  /** The opening quote and marker the substitution looks for. */
  const Marker := "\"" + FloatPrefix

  /** The substitution on one line: from the first quote-and-marker to the
      last quote of the line (`.+` is greedy and stops at line ends), the
      quotes and the marker go and the text between stays. Once matched,
      no quote is left after the match, so a line changes at most once. */
  function UntagLine(line: string): (r: string)
    ensures !Contains(line, Marker) ==> r == line
    ensures |r| <= |line|
  {
    var p := Find(line, Marker);
    var q := RFind(line, "\"");
    if 0 <= p && p + |Marker| < q then line[..p] + line[p + |Marker|..q] + line[q + 1..]
    else line
  }

  function UntagAll(lines: seq<string>): (r: seq<string>)
    ensures |r| == |lines|
    ensures forall i :: 0 <= i < |lines| ==> r[i] == UntagLine(lines[i])
  {
    if |lines| == 0 then [] else [UntagLine(lines[0])] + UntagAll(lines[1..])
  }

  /** `re.sub('"' + prefix + '(.+)"', r'\1', text)`: `.` never crosses a
      line end, so the substitution works line by line. */
  function Untag(text: string): string
    decreases |text|
  {
    var i := Find(text, "\n");
    if i < 0 then UntagLine(text)
    else UntagLine(text[..i]) + "\n" + Untag(text[i + 1..])
  }

  /** Untagging a document made of lines is untagging each line. */
  lemma {:induction false} UntagLines(lines: seq<string>)
    requires |lines| >= 1
    requires forall i :: 0 <= i < |lines| ==> '\n' !in lines[i]
    ensures Untag(Join(lines, "\n")) == Join(UntagAll(lines), "\n")
  {
    var text := Join(lines, "\n");
    JoinHead(lines);
    JoinHead(UntagAll(lines));
    if |lines| == 1 {
      NoOccurrenceOfChar(lines[0], '\n');
      assert Find(text, "\n") == -1;
    } else {
      assert text == lines[0] + "\n" + Join(lines[1..], "\n");
      FirstOccurrenceOfChar(text, '\n', |lines[0]|);
      assert text[..|lines[0]|] == lines[0];
      assert text[|lines[0]| + 1..] == Join(lines[1..], "\n");
      UntagLines(lines[1..]);
      assert UntagAll(lines)[1..] == UntagAll(lines[1..]);
    }
  }

  /** A piece of a text without the marker has none either. */
  lemma NoMarkerInSlice(text: string, a: nat, b: nat)
    requires a <= b <= |text|
    requires !Contains(text, Marker)
    ensures !Contains(text[a..b], Marker)
  {
    var piece := text[a..b];
    forall j | 0 <= j <= |piece| - |Marker| ensures !OccursAt(piece, Marker, j) {
      assert !OccursAt(text, Marker, a + j);
      SliceOfSlice(text, a, b, j, j + |Marker|);
    }
  }

  /** A document without any marker is written as it is. */
  lemma {:induction false} UntagNoMarker(text: string)
    requires !Contains(text, Marker)
    ensures Untag(text) == text
    decreases |text|
  {
    var i := Find(text, "\n");
    if i >= 0 {
      NoMarkerInSlice(text, 0, i);
      NoMarkerInSlice(text, i + 1, |text|);
      assert text[i + 1..|text|] == text[i + 1..];
      UntagNoMarker(text[i + 1..]);
      assert text[i..i + 1] == "\n";
      assert text == text[..i] + "\n" + text[i + 1..];
    }
  }

  /** `Join` peels off its first part. */
  lemma JoinHead(parts: seq<string>)
    requires |parts| >= 1
    ensures |parts| == 1 ==> Join(parts, "\n") == parts[0]
    ensures |parts| > 1 ==> Join(parts, "\n") == parts[0] + "\n" + Join(parts[1..], "\n")
  {
  }

  /** Indentation as `json.dumps(indent=4)` writes it: spaces only. */
  predicate Indent(ind: string)
  {
    forall i :: 0 <= i < |ind| ==> ind[i] == ' '
  }

  /** The line `json.dumps(indent=4)` writes for an object entry, at any
      depth, whose key needs no escaping. */
  function EntryLine(ind: string, k: string, rendered: string, comma: string): string
  {
    EntryHead(ind, k) + rendered + comma
  }

  function EntryHead(ind: string, k: string): string
  {
    ind + "\"" + k + "\": "
  }

  /** The substitution on a line where the first marker starts at `p` and
      the last quote is at `q`. */
  lemma UntagLineAt(line: string, p: nat, q: nat)
    requires OccursAt(line, Marker, p)
    requires forall j :: 0 <= j < p ==> !OccursAt(line, Marker, j)
    requires p + |Marker| < q < |line| && line[q] == '"'
    requires forall j :: q < j < |line| ==> line[j] != '"'
    ensures UntagLine(line) == line[..p] + line[p + |Marker|..q] + line[q + 1..]
  {
    assert Find(line, Marker) == p;
    assert OccursAt(line, "\"", q) by { assert line[q..q + 1] == "\""; }
    forall j | q < j <= |line| ensures !OccursAt(line, "\"", j) {
      if j < |line| {
        assert line[j..j + 1] == [line[j]];
      }
    }
    assert RFind(line, "\"") == q;
  }

  /** No marker starts inside the head of an entry line whose key neither
      holds a quote nor begins with the marker text. */
  lemma NoMarkerInHead(ind: string, k: string, rest: string)
    requires Indent(ind)
    requires '"' !in k && !StartsWith(k, FloatPrefix)
    ensures forall j :: 0 <= j < |EntryHead(ind, k)| ==> !OccursAt(EntryHead(ind, k) + rest, Marker, j)
  {
    var line := EntryHead(ind, k) + rest;
    var n := |ind|;
    assert line[..n] == ind;
    assert line[n] == '"';
    assert line[n + 1..n + 1 + |k|] == k;
    assert line[n + 1 + |k|..n + 4 + |k|] == "\": ";
    forall j | 0 <= j < |EntryHead(ind, k)| ensures !OccursAt(line, Marker, j) {
      if j + |Marker| > |line| {
        NotMarkerAt(line, j);
      } else if j < n {
        assert line[j] == ind[j];
        NotMarkerAt(line, j);
      } else if j == n {
        KeyNotMarker(line, n, k);
        NotMarkerAt(line, j);
      } else if j == n + 1 + |k| {
        assert line[j + 1..j + |Marker|][0] == ':';
        NotMarkerAt(line, j);
      } else if j > n + 1 + |k| {
        assert line[j] != '"';
        NotMarkerAt(line, j);
      } else {
        assert line[j] == k[j - n - 1];
        NotMarkerAt(line, j);
      }
    }
  }

  /** The text after the key's opening quote is not the marker text: the
      key does not start with it, and a shorter key is closed by a quote. */
  lemma KeyNotMarker(line: string, n: nat, k: string)
    requires n + 2 + |k| <= |line| && line[n + 1..n + 1 + |k|] == k && line[n + 1 + |k|] == '"'
    requires '"' !in k && !StartsWith(k, FloatPrefix)
    requires n + |Marker| <= |line|
    ensures line[n + 1..n + |Marker|] != FloatPrefix
  {
    if |k| >= |FloatPrefix| {
      assert line[n + 1..n + |Marker|] == k[..|FloatPrefix|];
    } else {
      assert line[n + 1..n + |Marker|][|k|] == '"';
    }
  }

  /** The writer restores the literal: the entry line of a tagged float,
      untagged, is the entry line with the bare literal. The key must not
      itself begin with the marker text. */
  lemma UntagEntryLine(ind: string, k: string, lit: string, comma: string)
    requires Indent(ind) && FloatLiteral(lit)
    requires comma == "," || comma == ""
    requires '"' !in k && !StartsWith(k, FloatPrefix)
    ensures UntagLine(EntryLine(ind, k, "\"" + FloatPrefix + lit + "\"", comma)) == EntryLine(ind, k, lit, comma)
  {
    var head := EntryHead(ind, k);
    var rest := Marker + lit + "\"" + comma;
    var line := head + rest;
    var p := |head|;
    var q := p + |Marker| + |lit|;
    assert UntagLine(line) == line[..p] + line[p + |Marker|..q] + line[q + 1..] by {
      NoMarkerInHead(ind, k, rest);
      TaggedLineParts(head, lit, comma);
      UntagLineAt(line, p, q);
    }
    assert line[..p] == head && line[p + |Marker|..q] == lit && line[q + 1..] == comma by {
      TaggedLineParts(head, lit, comma);
    }
    assert line == EntryLine(ind, k, "\"" + FloatPrefix + lit + "\"", comma);
  }

  /** The same for a tagged float written as an item of a list, at any
      depth: the line is the indentation, the quoted tagged text and the
      separator, and it is written back with the bare literal. */
  lemma UntagListItemLine(ind: string, lit: string, comma: string)
    requires Indent(ind) && FloatLiteral(lit)
    requires comma == "," || comma == ""
    ensures UntagLine(ind + Marker + lit + "\"" + comma) == ind + lit + comma
  {
    var rest := Marker + lit + "\"" + comma;
    var line := ind + rest;
    assert ind + Marker + lit + "\"" + comma == line;
    var p := |ind|;
    var q := p + |Marker| + |lit|;
    assert UntagLine(line) == line[..p] + line[p + |Marker|..q] + line[q + 1..] by {
      NoMarkerInIndent(ind, rest);
      TaggedLineParts(ind, lit, comma);
      UntagLineAt(line, p, q);
    }
    assert line[..p] == ind && line[p + |Marker|..q] == lit && line[q + 1..] == comma by {
      TaggedLineParts(ind, lit, comma);
    }
  }

  /** No marker starts inside an indentation. */
  lemma NoMarkerInIndent(ind: string, rest: string)
    requires Indent(ind)
    ensures forall j :: 0 <= j < |ind| ==> !OccursAt(ind + rest, Marker, j)
  {
    var line := ind + rest;
    forall j | 0 <= j < |ind| ensures !OccursAt(line, Marker, j) {
      assert line[j] == ind[j];
      NotMarkerAt(line, j);
    }
  }

  /** The pieces of a line `head"<marker>lit"comma`. */
  lemma TaggedLineParts(head: string, lit: string, comma: string)
    requires comma == "," || comma == ""
    ensures var line := head + (Marker + lit + "\"" + comma);
      var p := |head|; var q := p + |Marker| + |lit|;
      && OccursAt(line, Marker, p)
      && q < |line| && line[q] == '"'
      && (forall j :: q < j < |line| ==> line[j] != '"')
      && line[..p] == head && line[p + |Marker|..q] == lit && line[q + 1..] == comma
  {
    var line := head + (Marker + lit + "\"" + comma);
    var p := |head|;
    var q := p + |Marker| + |lit|;
    assert line[p..p + |Marker|] == Marker;
    assert forall j :: q < j < |line| ==> line[j] == comma[j - q - 1];
    assert line[..p] == head;
    assert line[p + |Marker|..q] == lit by {
      assert forall j :: 0 <= j < |lit| ==> line[p + |Marker| + j] == lit[j];
    }
    assert line[q + 1..] == comma;
  }

  lemma NotMarkerAt(line: string, j: nat)
    requires || j + |Marker| > |line|
             || line[j] != '"'
             || line[j + 1..j + |Marker|] != FloatPrefix
    ensures !OccursAt(line, Marker, j)
  {
    if j + |Marker| <= |line| {
      assert line[j..j + |Marker|] == [line[j]] + line[j + 1..j + |Marker|];
    }
  }
}

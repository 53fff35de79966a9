/** Python `str` operations the modelled code relies on, over `seq<char>`:
    `find`/`rfind`, `split`/`join`, `startswith`/`endswith`, ASCII `lower`,
    `str(int)` and `int(str)`.
 */
module Strs {
  import opened Base

  predicate StartsWith(s: string, prefix: string)
  {
    |prefix| <= |s| && s[..|prefix|] == prefix
  }

  predicate EndsWith(s: string, suffix: string)
  {
    |suffix| <= |s| && s[|s| - |suffix|..] == suffix
  }

  /** `t` occurs in `s` starting at index `i`. */
  predicate OccursAt(s: string, t: string, i: int)
  {
    0 <= i && i + |t| <= |s| && s[i..i + |t|] == t
  }

  /** A slice of a slice is a slice. */
  lemma SliceOfSlice(s: string, a: nat, b: nat, i: nat, j: nat)
    requires a <= b <= |s| && i <= j <= b - a
    ensures s[a..b][i..j] == s[a + i..a + j]
  {
    assert |s[a..b][i..j]| == j - i;
    forall t | 0 <= t < j - i ensures s[a..b][i..j][t] == s[a + i..a + j][t] {
    }
  }

  predicate Contains(s: string, t: string)
  {
    exists i :: 0 <= i <= |s| - |t| && OccursAt(s, t, i)
  }

  function FindFrom(s: string, t: string, i: nat): (r: int)
    requires i <= |s|
    ensures r == -1 || (i <= r && OccursAt(s, t, r))
    ensures forall j :: i <= j && (r == -1 || j < r) ==> !OccursAt(s, t, j)
    decreases |s| - i
  {
    if OccursAt(s, t, i) then i
    else if i == |s| then -1
    else FindFrom(s, t, i + 1)
  }

  /** Python `s.find(t)`: the first index where `t` occurs, or -1. */
  function Find(s: string, t: string): (r: int)
    ensures r == -1 <==> !Contains(s, t)
    ensures r != -1 ==> OccursAt(s, t, r) && forall j :: 0 <= j < r ==> !OccursAt(s, t, j)
  {
    FindFrom(s, t, 0)
  }

  function RFindUpTo(s: string, t: string, i: nat): (r: int)
    requires i <= |s|
    ensures r == -1 || (r <= i && OccursAt(s, t, r))
    ensures forall j :: r < j <= i ==> !OccursAt(s, t, j)
    decreases i
  {
    if OccursAt(s, t, i) then i
    else if i == 0 then -1
    else RFindUpTo(s, t, i - 1)
  }

  /** Python `s.rfind(t)`: the last index where `t` occurs, or -1. */
  function RFind(s: string, t: string): (r: int)
    ensures r == -1 <==> !Contains(s, t)
    ensures r != -1 ==> OccursAt(s, t, r) && forall j :: r < j <= |s| ==> !OccursAt(s, t, j)
  {
    RFindUpTo(s, t, |s|)
  }

  /** Python `s.split(sep)` for a non-empty separator. */
  function Split(s: string, sep: string): (r: seq<string>)
    requires |sep| > 0
    ensures |r| >= 1
    ensures forall k :: 0 <= k < |r| ==> !Contains(r[k], sep)
    decreases |s|
  {
    var i := Find(s, sep);
    if i == -1 then [s]
    else
      assert !Contains(s[..i], sep) by {
        forall j | 0 <= j && j + |sep| <= i ensures !OccursAt(s[..i], sep, j) {
          assert s[..i][j..j + |sep|] == s[j..j + |sep|];
          assert !OccursAt(s, sep, j);
        }
      }
      [s[..i]] + Split(s[i + |sep|..], sep)
  }

  /** Python `sep.join(parts)`. */
  function Join(parts: seq<string>, sep: string): string
  {
    if |parts| == 0 then ""
    else if |parts| == 1 then parts[0]
    else parts[0] + sep + Join(parts[1..], sep)
  }

  lemma {:induction false} JoinSplit(s: string, sep: string)
    requires |sep| > 0
    ensures Join(Split(s, sep), sep) == s
    decreases |s|
  {
    var i := Find(s, sep);
    if i != -1 {
      var rest := s[i + |sep|..];
      JoinSplit(rest, sep);
      SplitAtFirst(s, sep);
      JoinCons(s[..i], Split(rest, sep), sep);
    }
  }

  /** `split` peels off the text before the first separator. */
  lemma SplitAtFirst(s: string, sep: string)
    requires |sep| > 0 && Find(s, sep) != -1
    ensures Split(s, sep) == [s[..Find(s, sep)]] + Split(s[Find(s, sep) + |sep|..], sep)
    ensures s == s[..Find(s, sep)] + sep + s[Find(s, sep) + |sep|..]
  {
    var i := Find(s, sep);
    assert s[i..i + |sep|] == sep;
    assert s == s[..i] + s[i..i + |sep|] + s[i + |sep|..];
  }

  /** `join` on a part followed by at least one more. */
  lemma JoinCons(head: string, tail: seq<string>, sep: string)
    requires |tail| >= 1
    ensures Join([head] + tail, sep) == head + sep + Join(tail, sep)
  {
    assert ([head] + tail)[1..] == tail;
  }

  lemma NoOccurrenceOfChar(s: string, c: char)
    requires c !in s
    ensures !Contains(s, [c])
  {
    forall j | 0 <= j < |s| ensures !OccursAt(s, [c], j) {
      assert s[j..j + 1] == [s[j]];
    }
  }

  lemma FirstOccurrenceOfChar(s: string, c: char, i: nat)
    requires i < |s| && s[i] == c && c !in s[..i]
    ensures Find(s, [c]) == i
  {
    assert OccursAt(s, [c], i);
  }

  /** Splitting on a character the parts do not contain recovers the parts. */
  lemma {:induction false} SplitJoin(parts: seq<string>, c: char)
    requires |parts| >= 1
    requires forall k :: 0 <= k < |parts| ==> c !in parts[k]
    ensures Split(Join(parts, [c]), [c]) == parts
    decreases |parts|
  {
    if |parts| == 1 {
      NoOccurrenceOfChar(parts[0], c);
    } else {
      var rest := Join(parts[1..], [c]);
      assert Join(parts, [c]) == parts[0] + [c] + rest;
      SplitCons(parts[0], rest, c);
      SplitJoin(parts[1..], c);
      assert parts == [parts[0]] + parts[1..];
    }
  }

  /** Splitting at a first separator after a part without one. */
  lemma SplitCons(head: string, rest: string, c: char)
    requires c !in head
    ensures Split(head + [c] + rest, [c]) == [head] + Split(rest, [c])
  {
    var s := head + [c] + rest;
    assert s[..|head|] == head;
    FirstOccurrenceOfChar(s, c, |head|);
    assert s[|head| + 1..] == rest;
  }

  /** A string in which `[c]` does not occur has no `c`. */
  lemma NotContainsChar(s: string, c: char)
    requires !Contains(s, [c])
    ensures c !in s
  {
    forall k | 0 <= k < |s| ensures s[k] != c {
      assert s[k..k + 1] == [s[k]];
      assert !OccursAt(s, [c], k);
    }
  }

  /** `find` of one character: -1 when absent, else its first position. */
  lemma FindChar(s: string, c: char)
    ensures Find(s, [c]) == -1 <==> c !in s
    ensures Find(s, [c]) != -1 ==>
      (0 <= Find(s, [c]) < |s| && s[Find(s, [c])] == c && c !in s[..Find(s, [c])])
  {
    var i := Find(s, [c]);
    if i == -1 {
      NotContainsChar(s, c);
    } else {
      assert s[i..i + 1] == [c];
      assert s[i] == s[i..i + 1][0] == c;
      forall k | 0 <= k < i ensures s[..i][k] != c {
        assert !OccursAt(s, [c], k);
        assert s[k..k + 1] == [s[k]];
      }
    }
  }

  /** Splitting into more than one piece needs the separator. */
  lemma SplitPiecesNeedSep(s: string, c: char)
    ensures |Split(s, [c])| != 1 ==> c in s
  {
    if c !in s {
      SplitNoSep(s, c);
    }
  }

  /** Splitting a string without the separator character gives the string. */
  lemma SplitNoSep(s: string, c: char)
    requires c !in s
    ensures Split(s, [c]) == [s]
  {
    NoOccurrenceOfChar(s, c);
  }

  /** `names.index(x)`, or `None` where it raises. */
  function FirstIndex(names: seq<string>, x: string): (r: Option<nat>)
    ensures r.None? <==> x !in names
    ensures r.Some? ==> (r.value < |names| && names[r.value] == x
      && forall j :: 0 <= j < r.value ==> names[j] != x)
  {
    if |names| == 0 then None
    else if names[0] == x then Some(0)
    else match FirstIndex(names[1..], x)
      case None => None
      case Some(i) =>
        assert forall j :: 1 <= j <= i + 1 ==> names[j] == names[1..][j - 1];
        Some(i + 1)
  }

  /** Python `str.lower()` restricted to ASCII letters. */
  function LowerChar(c: char): char
  {
    if 'A' <= c <= 'Z' then (c as int - 'A' as int + 'a' as int) as char else c
  }

  function Lower(s: string): (r: string)
    ensures |r| == |s|
    ensures forall i :: 0 <= i < |s| ==> r[i] == LowerChar(s[i])
  {
    if |s| == 0 then "" else [LowerChar(s[0])] + Lower(s[1..])
  }

  /** Python `s.translate({c: r})`: every `c` replaced by the string `r`. */
  function ReplaceChar(s: string, c: char, r: string): string
  {
    if |s| == 0 then ""
    else (if s[0] == c then r else [s[0]]) + ReplaceChar(s[1..], c, r)
  }

  lemma {:induction false} ReplaceCharRemoves(s: string, c: char, r: string)
    requires c !in r
    ensures c !in ReplaceChar(s, c, r)
    decreases |s|
  {
    if |s| > 0 {
      ReplaceCharRemoves(s[1..], c, r);
    }
  }

  function Repeat(c: char, n: nat): (r: string)
    ensures |r| == n
    ensures forall i :: 0 <= i < n ==> r[i] == c
  {
    if n == 0 then "" else [c] + Repeat(c, n - 1)
  }

  /** Left padding with `c` to at least `width` characters (`format(x, '0w')`). */
  function PadLeft(s: string, width: nat, c: char): (r: string)
    ensures |r| == if |s| >= width then |s| else width
    ensures EndsWith(r, s)
  {
    if |s| >= width then s else Repeat(c, width - |s|) + s
  }

  // ---------------------------------------------------------------------
  // Decimal numbers

  predicate IsDigit(c: char) { '0' <= c <= '9' }

  predicate AllDigits(s: string)
  {
    forall i :: 0 <= i < |s| ==> IsDigit(s[i])
  }

  function DigitChar(d: nat): (c: char)
    requires d < 10
    ensures IsDigit(c) && c as int - '0' as int == d
  {
    ('0' as int + d) as char
  }

  function DigitValue(c: char): nat
    requires IsDigit(c)
  {
    c as int - '0' as int
  }

  /** `str(n)` for a non-negative integer. */
  function NatToString(n: nat): (r: string)
    ensures |r| >= 1 && AllDigits(r)
    decreases n
  {
    if n < 10 then [DigitChar(n)] else NatToString(n / 10) + [DigitChar(n % 10)]
  }

  /** `str(i)` for any integer. */
  function IntToString(i: int): string
  {
    if i < 0 then "-" + NatToString(-i) else NatToString(i)
  }

  /** `str(i)` is made of digits and at most a leading minus sign. */
  lemma IntToStringChars(i: int)
    ensures forall k :: 0 <= k < |IntToString(i)| ==> IsDigit(IntToString(i)[k]) || IntToString(i)[k] == '-'
  {
    if i < 0 {
      var d := NatToString(-i);
      assert forall k :: 1 <= k < |IntToString(i)| ==> IntToString(i)[k] == d[k - 1];
    }
  }

  /** The value of a string of decimal digits, most significant first. */
  function DigitsValue(s: string): nat
    requires AllDigits(s)
  {
    if |s| == 0 then 0 else DigitsValue(s[..|s| - 1]) * 10 + DigitValue(s[|s| - 1])
  }

  lemma {:induction false} DigitsValueOfNatToString(n: nat)
    ensures DigitsValue(NatToString(n)) == n
    decreases n
  {
    var s := NatToString(n);
    if n >= 10 {
      DigitsValueOfNatToString(n / 10);
      assert s[..|s| - 1] == NatToString(n / 10);
    }
  }

  lemma NatToStringInjective(a: nat, b: nat)
    requires NatToString(a) == NatToString(b)
    ensures a == b
  {
    DigitsValueOfNatToString(a);
    DigitsValueOfNatToString(b);
  }

  lemma {:induction false} DigitsValueLeadingZeros(n: nat, s: string)
    requires AllDigits(s)
    ensures AllDigits(Repeat('0', n) + s)
    ensures DigitsValue(Repeat('0', n) + s) == DigitsValue(s)
    decreases |s|
  {
    var z := Repeat('0', n);
    if |s| == 0 {
      assert z + s == z;
      ZerosValue(n);
    } else {
      var t := z + s;
      assert t[..|t| - 1] == z + s[..|s| - 1];
      DigitsValueLeadingZeros(n, s[..|s| - 1]);
    }
  }

  lemma {:induction false} ZerosValue(n: nat)
    ensures AllDigits(Repeat('0', n))
    ensures DigitsValue(Repeat('0', n)) == 0
    decreases n
  {
    if n > 0 {
      var z := Repeat('0', n);
      assert z[..|z| - 1] == Repeat('0', n - 1);
      ZerosValue(n - 1);
    }
  }

  /** Characters Python's `str.strip()` removes, restricted to ASCII. */
  predicate IsSpace(c: char)
  {
    c == ' ' || c == '\t' || c == '\n' || c == '\r' || c == '\U{B}' || c == '\U{C}'
    || ('\U{1C}' <= c <= '\U{1F}')
  }

  function StripLeft(s: string): (r: string)
    ensures |r| <= |s|
    ensures |r| == 0 || !IsSpace(r[0])
  {
    if |s| > 0 && IsSpace(s[0]) then StripLeft(s[1..]) else s
  }

  function StripRight(s: string): (r: string)
    ensures |r| <= |s|
    ensures |r| == 0 || !IsSpace(r[|r| - 1])
  {
    if |s| > 0 && IsSpace(s[|s| - 1]) then StripRight(s[..|s| - 1]) else s
  }

  function Strip(s: string): string
  {
    StripRight(StripLeft(s))
  }

  /** The digit body `int()` accepts: digits, with single underscores between digits. */
  predicate DigitBody(s: string)
  {
    && |s| > 0
    && (forall i :: 0 <= i < |s| ==> IsDigit(s[i]) || s[i] == '_')
    && (forall i :: 0 <= i < |s| && s[i] == '_' ==> 0 < i < |s| - 1 && IsDigit(s[i - 1]) && IsDigit(s[i + 1]))
  }

  function DropUnderscores(s: string): (r: string)
    requires forall i :: 0 <= i < |s| ==> IsDigit(s[i]) || s[i] == '_'
    ensures AllDigits(r)
  {
    if |s| == 0 then ""
    else if s[0] == '_' then DropUnderscores(s[1..])
    else [s[0]] + DropUnderscores(s[1..])
  }

  /** Python `int(s)` on a string, `None` where Python raises `ValueError`. */
  function ParseInt(s: string): Option<int>
  {
    var t := Strip(s);
    var neg := |t| > 0 && t[0] == '-';
    var body := if |t| > 0 && (t[0] == '-' || t[0] == '+') then t[1..] else t;
    if DigitBody(body) then
      var v: int := DigitsValue(DropUnderscores(body));
      Some(if neg then -v else v)
    else None
  }

  lemma StripDigits(s: string)
    requires |s| > 0 && (AllDigits(s) || (s[0] == '-' && AllDigits(s[1..])))
    ensures Strip(s) == s
  {
    assert !IsSpace(s[0]);
    assert StripLeft(s) == s;
    assert !IsSpace(s[|s| - 1]) by {
      if s[0] == '-' && |s| > 1 {
        assert s[|s| - 1] == s[1..][|s| - 2];
      }
    }
  }

  lemma {:induction false} DropUnderscoresOfDigits(s: string)
    requires AllDigits(s)
    ensures DropUnderscores(s) == s
    decreases |s|
  {
    if |s| > 0 {
      DropUnderscoresOfDigits(s[1..]);
    }
  }

  /** `int(str(i)) == i`. */
  lemma ParseIntToString(i: int)
    ensures ParseInt(IntToString(i)) == Some(i)
  {
    var s := IntToString(i);
    var n: nat := if i < 0 then -i else i;
    var d := NatToString(n);
    DigitsValueOfNatToString(n);
    DropUnderscoresOfDigits(d);
    DigitsAreBody(d);
    if i < 0 {
      assert s == "-" + d;
      assert s[1..] == d;
      StripDigits(s);
    } else {
      StripDigits(s);
    }
  }

  lemma DigitsAreBody(d: string)
    requires |d| > 0 && AllDigits(d)
    ensures DigitBody(d)
  {
  }

  /** A string without a minus sign never parses to a negative number. */
  lemma ParseIntNoMinus(s: string)
    requires '-' !in s
    requires ParseInt(s).Some?
    ensures ParseInt(s).value >= 0
  {
    StripSubsequence(s);
    assert '-' !in Strip(s);
  }

  lemma StripSubsequence(s: string)
    ensures forall c :: c in Strip(s) ==> c in s
  {
    StripLeftSub(s);
    StripRightSub(StripLeft(s));
  }

  lemma {:induction false} StripLeftSub(s: string)
    ensures forall c :: c in StripLeft(s) ==> c in s
    decreases |s|
  {
    if |s| > 0 && IsSpace(s[0]) {
      StripLeftSub(s[1..]);
    }
  }

  lemma {:induction false} StripRightSub(s: string)
    ensures forall c :: c in StripRight(s) ==> c in s
    decreases |s|
  {
    if |s| > 0 && IsSpace(s[|s| - 1]) {
      StripRightSub(s[..|s| - 1]);
    }
  }
}

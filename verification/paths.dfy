/** POSIX path helpers (`os.path.basename`, `dirname`, `splitext`) and the
    `fnmatch` wildcard matcher that `glob` uses, as pure string functions.
 */
module Paths {
  import opened Strs

  /** `os.path.basename`: the text after the last `/`. */
  function Basename(p: string): (r: string)
    ensures '/' !in r
    ensures |r| <= |p|
  {
    var i := RFind(p, "/") + 1;
    assert '/' !in p[i..] by {
      forall k | i <= k < |p| ensures p[k] != '/' {
        assert p[k..k + 1] == [p[k]];
        assert !OccursAt(p, "/", k);
      }
    }
    p[i..]
  }

  /** The number of copies of `c` that `s` starts with. */
  function LeadingChars(s: string, c: char): (n: nat)
    ensures n <= |s|
    ensures forall k :: 0 <= k < n ==> s[k] == c
    ensures n < |s| ==> s[n] != c
  {
    if |s| > 0 && s[0] == c then 1 + LeadingChars(s[1..], c) else 0
  }

  /** The number of `/` that `s` ends with. */
  function TrailingSlashes(s: string): (n: nat)
    ensures n <= |s|
    ensures forall k :: |s| - n <= k < |s| ==> s[k] == '/'
    ensures n < |s| ==> s[|s| - n - 1] != '/'
  {
    if |s| > 0 && s[|s| - 1] == '/' then 1 + TrailingSlashes(s[..|s| - 1]) else 0
  }

  /** `s.rstrip('/')`. */
  function RStripSlash(s: string): (r: string)
    ensures |r| <= |s| && r == s[..|r|]
    ensures |r| == 0 || r[|r| - 1] != '/'
    ensures AllSlashes(s[|r|..])
  {
    s[..|s| - TrailingSlashes(s)]
  }

  /** `s.lstrip('/')`. */
  function LStripSlash(s: string): (r: string)
    ensures |r| <= |s| && r == s[|s| - |r|..]
    ensures |r| == 0 || r[0] != '/'
    ensures AllSlashes(s[..|s| - |r|])
  {
    s[LeadingChars(s, '/')..]
  }

  /** `s.strip('/')`: the slashes at both ends go, and nothing else. */
  function StripSlashes(s: string): (r: string)
    ensures |r| == 0 || (r[0] != '/' && r[|r| - 1] != '/')
    ensures var i := LeadingChars(s, '/');
      i + |r| <= |s| && r == s[i..i + |r|] && AllSlashes(s[..i]) && AllSlashes(s[i + |r|..])
  {
    var i := LeadingChars(s, '/');
    var t := TrailingSlashes(s[i..]);
    TrailingOfSuffix(s, i, t);
    s[i..|s| - t]
  }

  /** The slashes ending a suffix of `s` are slashes of `s`. */
  lemma TrailingOfSuffix(s: string, i: nat, t: nat)
    requires i <= |s| && t == TrailingSlashes(s[i..])
    ensures i + t <= |s|
    ensures AllSlashes(s[|s| - t..])
    ensures i + t < |s| ==> s[|s| - t - 1] != '/'
  {
    var left := s[i..];
    forall k | |s| - t <= k < |s| ensures s[k] == '/' {
      assert s[k] == left[k - i];
    }
    if i + t < |s| {
      assert s[|s| - t - 1] == left[|left| - t - 1];
    }
  }

  predicate AllSlashes(s: string)
  {
    forall k :: 0 <= k < |s| ==> s[k] == '/'
  }

  /** `os.path.dirname`: everything up to the last `/`, trailing slashes
      removed unless the head is made of slashes only. */
  function Dirname(p: string): (r: string)
    ensures StartsWith(p, r)
  {
    var i := RFind(p, "/") + 1;
    var head := p[..i];
    if |head| > 0 && !AllSlashes(head) then RStripSlash(head) else head
  }

  /** The basename is a suffix of the path, preceded by a `/` unless it is
      the whole path. */
  lemma BasenameSuffix(p: string)
    ensures EndsWith(p, Basename(p))
    ensures p == p[..|p| - |Basename(p)|] + Basename(p)
    ensures var b := Basename(p); b == p || (|b| < |p| && p[|p| - |b| - 1] == '/')
  {
    var i := RFind(p, "/") + 1;
    assert i > 0 ==> p[i - 1..i] == "/";
  }

  /** `os.path.splitext`: the extension starts at the last `.` of the last
      component, provided that component has a character other than `.`
      before it (leading dots do not start an extension). */
  function Splitext(p: string): (r: (string, string))
    ensures r.0 + r.1 == p
    ensures r.1 == "" || (r.1[0] == '.' && '/' !in r.1 && '.' !in r.1[1..])
  {
    var name := Basename(p);
    var dir := p[..|p| - |name|];
    assert dir + name == p;
    var parts := SplitName(name);
    assert (dir + parts.0) + parts.1 == dir + (parts.0 + parts.1);
    (dir + parts.0, parts.1)
  }

  /** `splitext` of one path component. */
  function SplitName(name: string): (r: (string, string))
    requires '/' !in name
    ensures r.0 + r.1 == name
    ensures r.1 == "" || (r.1[0] == '.' && '.' !in r.1[1..])
    ensures '/' !in r.1
  {
    var dot := RFind(name, ".");
    if LeadingChars(name, '.') < dot then
      assert '.' !in name[dot + 1..] by {
        forall k | dot + 1 <= k < |name| ensures name[k] != '.' {
          assert name[k..k + 1] == [name[k]];
          assert !OccursAt(name, ".", k);
        }
      }
      assert name[dot..dot + 1] == ".";
      var ext := name[dot..];
      assert ext[1..] == name[dot + 1..];
      assert forall c :: c in ext ==> c in name;
      (name[..dot], ext)
    else (name, "")
  }

  /** The basename of a directory prefix (empty or ending in `/`)
      followed by a name without `/` is that name. */
  lemma BasenameOf(dir: string, name: string)
    requires |dir| == 0 || dir[|dir| - 1] == '/'
    requires '/' !in name
    ensures Basename(dir + name) == name
  {
    var p := dir + name;
    forall k | |dir| <= k <= |p| ensures !OccursAt(p, "/", k) {
      if k < |p| {
        assert name[k - |dir|] == p[k];
        assert p[k..k + 1] == [p[k]];
      }
    }
    if |dir| > 0 {
      assert p[|dir| - 1..|dir|] == "/";
      assert OccursAt(p, "/", |dir| - 1);
    } else {
      assert !Contains(p, "/");
    }
    assert p[|dir|..] == name;
  }

  /** `os.path.splitext` of a path whose last component is a root not
      starting with `.` followed by an extension: the split falls exactly
      between them. */
  lemma SplitextOf(dir: string, root: string, ext: string)
    requires |dir| == 0 || dir[|dir| - 1] == '/'
    requires '/' !in root && '/' !in ext
    requires |root| > 0 && root[0] != '.'
    requires |ext| > 0 && ext[0] == '.' && '.' !in ext[1..]
    ensures Splitext(dir + root + ext) == (dir + root, ext)
  {
    var name := root + ext;
    var p := dir + name;
    assert dir + root + ext == p;
    BasenameOf(dir, name);
    assert p[..|p| - |name|] == dir;
    SplitNameOf(root, ext);
  }

  /** A last component without `.` has no extension. */
  lemma SplitextNoDot(dir: string, name: string)
    requires |dir| == 0 || dir[|dir| - 1] == '/'
    requires '/' !in name && '.' !in name
    ensures Splitext(dir + name) == (dir + name, "")
  {
    var p := dir + name;
    BasenameOf(dir, name);
    assert p[..|p| - |name|] == dir;
    forall k | 0 <= k <= |name| - 1 ensures !OccursAt(name, ".", k) {
      assert name[k..k + 1] == [name[k]];
    }
    assert RFind(name, ".") == -1;
  }

  lemma SplitNameOf(root: string, ext: string)
    requires '/' !in root && '/' !in ext
    requires |root| > 0 && root[0] != '.'
    requires |ext| > 0 && ext[0] == '.' && '.' !in ext[1..]
    ensures '/' !in root + ext && SplitName(root + ext) == (root, ext)
  {
    var name := root + ext;
    forall k | |root| < k <= |name| ensures !OccursAt(name, ".", k) {
      if k < |name| {
        assert name[k] == ext[1..][k - |root| - 1];
        assert name[k..k + 1] == [name[k]];
      }
    }
    assert name[|root|..|root| + 1] == ".";
    assert OccursAt(name, ".", |root|);
    assert RFind(name, ".") == |root|;
    assert LeadingChars(name, '.') == 0;
    assert name[..|root|] == root && name[|root|..] == ext;
  }

  lemma SplitextKeepsDirectory(p: string)
    ensures StartsWith(Splitext(p).0, p[..|p| - |Basename(p)|])
  {
  }

  // ---------------------------------------------------------------------
  // fnmatch

  predicate IsMagicChar(c: char) { c == '*' || c == '?' || c == '[' }

  /** `glob.has_magic`. */
  predicate HasMagic(s: string)
  {
    exists k :: 0 <= k < |s| && IsMagicChar(s[k])
  }

  /** `fnmatch` with `*` (any run of characters) and `?` (one character);
      every other character, `[` included, matches itself. */
  function Match(pat: string, s: string): bool
    decreases |pat| + |s|
  {
    if |pat| == 0 then |s| == 0
    else if pat[0] == '*' then Match(pat[1..], s) || (|s| > 0 && Match(pat, s[1..]))
    else if pat[0] == '?' then |s| > 0 && Match(pat[1..], s[1..])
    else |s| > 0 && s[0] == pat[0] && Match(pat[1..], s[1..])
  }

  /** A pattern without wildcards matches exactly itself. */
  lemma {:induction false} MatchLiteral(lit: string, s: string)
    requires !HasMagic(lit)
    ensures Match(lit, s) <==> s == lit
    decreases |lit|
  {
    if |lit| > 0 {
      assert !IsMagicChar(lit[0]);
      assert !HasMagic(lit[1..]) by {
        forall k | 0 <= k < |lit| - 1 ensures !IsMagicChar(lit[1..][k]) {
          assert lit[1..][k] == lit[k + 1];
        }
      }
      if |s| > 0 {
        MatchLiteral(lit[1..], s[1..]);
        if s == lit {
          assert s[1..] == lit[1..];
        }
        if s[0] == lit[0] && s[1..] == lit[1..] {
          assert s == [s[0]] + s[1..];
          assert lit == [lit[0]] + lit[1..];
        }
      }
    }
  }

  /** A literal prefix of a pattern must be a prefix of the name. */
  lemma {:induction false} MatchLiteralPrefix(lit: string, rest: string, s: string)
    requires !HasMagic(lit)
    ensures Match(lit + rest, s) <==> StartsWith(s, lit) && Match(rest, s[|lit|..])
    decreases |lit|
  {
    if |lit| > 0 {
      var pat := lit + rest;
      assert pat[0] == lit[0];
      assert !IsMagicChar(lit[0]);
      assert pat[1..] == lit[1..] + rest;
      assert !HasMagic(lit[1..]) by {
        forall k | 0 <= k < |lit| - 1 ensures !IsMagicChar(lit[1..][k]) {
          assert lit[1..][k] == lit[k + 1];
        }
      }
      if |s| > 0 {
        MatchLiteralPrefix(lit[1..], rest, s[1..]);
        if |lit| <= |s| {
          assert s[1..][|lit| - 1..] == s[|lit|..];
        }
        if StartsWith(s, lit) {
          assert s[1..][..|lit| - 1] == s[..|lit|][1..];
        }
        if s[0] == lit[0] && StartsWith(s[1..], lit[1..]) {
          assert s[..|lit|] == [s[0]] + s[1..][..|lit| - 1];
          assert lit == [lit[0]] + lit[1..];
        }
      }
    } else {
      assert lit + rest == rest;
    }
  }

  /** `*` followed by a literal matches exactly the names ending in it. */
  lemma {:induction false} MatchStarLiteral(lit: string, s: string)
    requires !HasMagic(lit)
    ensures Match("*" + lit, s) <==> EndsWith(s, lit)
    decreases |s|
  {
    var pat := "*" + lit;
    assert pat[1..] == lit;
    MatchLiteral(lit, s);
    if |s| > 0 {
      MatchStarLiteral(lit, s[1..]);
      if EndsWith(s[1..], lit) {
        assert s[|s| - |lit|..] == s[1..][|s| - 1 - |lit|..];
      }
      if EndsWith(s, lit) && s != lit {
        assert |lit| < |s|;
        assert s[1..][|s| - 1 - |lit|..] == s[|s| - |lit|..];
      }
    }
  }

  /** `a*b` with literal `a` and `b` matches the names that start with `a`,
      end with `b` and are long enough for both. */
  lemma MatchPrefixStarSuffix(a: string, b: string, s: string)
    requires !HasMagic(a) && !HasMagic(b)
    ensures Match(a + "*" + b, s) <==>
      StartsWith(s, a) && |a| + |b| <= |s| && EndsWith(s, b)
  {
    assert a + "*" + b == a + ("*" + b);
    MatchLiteralPrefix(a, "*" + b, s);
    if StartsWith(s, a) {
      MatchStarLiteral(b, s[|a|..]);
      SuffixAfterPrefix(a, b, s);
    }
  }

  /** The rest after a prefix ends with `b` just when the whole name does
      and leaves room for both. */
  lemma SuffixAfterPrefix(a: string, b: string, s: string)
    requires |a| <= |s|
    ensures EndsWith(s[|a|..], b) <==> |a| + |b| <= |s| && EndsWith(s, b)
  {
    if |a| + |b| <= |s| {
      assert s[|a|..][|s| - |a| - |b|..] == s[|s| - |b|..];
    }
  }
}

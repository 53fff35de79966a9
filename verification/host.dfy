/** The outside world the staging code observes and acts on.

    The local filesystem is abstract: a set of files, a set of directories,
    the paths the process may read, and a finite listing of every entry in
    some fixed order (the order `os.scandir` and `glob` report). `abspath`
    is a given function. The world does not change while a staging call
    runs; the model records what the code does as a trace of effects
    instead (commands run, tables written, files removed).

    Commands are judged by an oracle: `accepts(argv)` says whether the
    blob transfer tool would exit with status 0. In dry-run mode nothing is
    executed, so nothing can fail.
 */
module Host {
  import opened Base
  import opened Strs
  import opened Paths

  /** A parsed sheet cell: a string, or anything else pandas produced
      (a number or a missing value), kept with its `str()` form. */
  datatype Cell = Text(s: string) | Other(shown: string)

  datatype World = World(
    files: set<string>,
    dirs: set<string>,
    readable: set<string>,
    listing: seq<string>,
    abspath: string -> string,
    accepts: seq<string> -> bool)

  /** `os.path.exists`. */
  predicate Exists(w: World, p: string) { p in w.files || p in w.dirs }

  /** `os.path.isdir`. */
  predicate IsDir(w: World, p: string) { p in w.dirs }

  /** `os.access(p, os.R_OK)`. */
  predicate Readable(w: World, p: string) { Exists(w, p) && p in w.readable }

  // ---------------------------------------------------------------------
  // glob

  /** One component of a glob pattern against one path component. A
      component with wildcards never matches an empty name, nor a hidden
      name unless the pattern itself starts with a dot. */
  predicate ComponentMatch(pat: string, name: string)
  {
    if HasMagic(pat) then
      && name != ""
      && Match(pat, name)
      && (name[0] != '.' || (pat != "" && pat[0] == '.'))
    else pat == name
  }

  predicate ComponentsMatch(pats: seq<string>, names: seq<string>)
  {
    |pats| == |names| && forall i :: 0 <= i < |pats| ==> ComponentMatch(pats[i], names[i])
  }

  predicate GlobMatches(pattern: string, path: string)
  {
    ComponentsMatch(Split(pattern, "/"), Split(path, "/"))
  }

  function FilterListing(listing: seq<string>, pattern: string): (r: seq<string>)
    ensures forall x :: x in r <==> x in listing && GlobMatches(pattern, x)
    ensures |r| <= |listing|
  {
    if |listing| == 0 then []
    else
      (if GlobMatches(pattern, listing[0]) then [listing[0]] else [])
      + FilterListing(listing[1..], pattern)
  }

  /** `glob.glob(pattern)`: a pattern without wildcards is an existence
      test; otherwise the listing entries whose components match. */
  function Glob(w: World, pattern: string): (r: seq<string>)
    ensures !HasMagic(pattern) ==> r == (if Exists(w, pattern) then [pattern] else [])
    ensures HasMagic(pattern) ==>
      forall x :: x in r <==> x in w.listing && GlobMatches(pattern, x)
  {
    if HasMagic(pattern) then FilterListing(w.listing, pattern)
    else if Exists(w, pattern) then [pattern]
    else []
  }

  /** The directory part of a path that contains a slash. */
  function Parent(p: string): string
    requires '/' in p
  {
    p[..|p| - |Basename(p)| - 1]
  }

  lemma ParentBasename(p: string)
    requires '/' in p
    ensures p == Parent(p) + "/" + Basename(p)
  {
    var b := Basename(p);
    BasenameSuffix(p);
    assert b != p;
    assert p[|p| - |b| - 1] == '/';
    assert p == p[..|p| - |b| - 1] + [p[|p| - |b| - 1]] + p[|p| - |b|..];
  }

  lemma {:induction false} SplitAppend(a: string, b: string)
    requires '/' !in b
    ensures Split(a + "/" + b, "/") == Split(a, "/") + [b]
    decreases |a|
  {
    var i := Find(a, "/");
    SlashBeforeFind(a);
    if i == -1 {
      SplitAppendNoSlash(a, b);
    } else {
      var s := a + "/" + b;
      assert s[..i] == a[..i];
      FirstOccurrenceOfChar(s, '/', i);
      assert s[i + 1..] == a[i + 1..] + "/" + b;
      SplitAppend(a[i + 1..], b);
    }
  }

  /** What `Find(a, "/")` says about the slashes of `a`. */
  lemma SlashBeforeFind(a: string)
    ensures var i := Find(a, "/");
      && (i == -1 ==> '/' !in a)
      && (i != -1 ==> 0 <= i < |a| && a[i] == '/' && '/' !in a[..i])
  {
    var i := Find(a, "/");
    if i == -1 {
      forall k | 0 <= k < |a| ensures a[k] != '/' {
        assert !OccursAt(a, "/", k);
        assert a[k..k + 1] == [a[k]];
      }
    } else {
      assert a[i..i + 1] == "/";
      forall k | 0 <= k < i ensures a[..i][k] != '/' {
        assert !OccursAt(a, "/", k);
        assert a[k..k + 1] == [a[k]];
      }
    }
  }

  lemma SplitAppendNoSlash(a: string, b: string)
    requires '/' !in a && '/' !in b
    ensures Split(a + "/" + b, "/") == [a, b]
  {
    var s := a + "/" + b;
    NoOccurrenceOfChar(a, '/');
    NoOccurrenceOfChar(b, '/');
    assert s[..|a|] == a;
    FirstOccurrenceOfChar(s, '/', |a|);
    assert s[|a| + 1..] == b;
  }

  lemma {:induction false} SplitPartsFromString(s: string)
    ensures forall k, x :: 0 <= k < |Split(s, "/")| && x in Split(s, "/")[k] ==> x in s
    decreases |s|
  {
    var i := Find(s, "/");
    if i != -1 {
      SplitPartsFromString(s[i + 1..]);
      var parts := Split(s, "/");
      assert parts == [s[..i]] + Split(s[i + 1..], "/");
      forall k, x | 0 <= k < |parts| && x in parts[k] ensures x in s {
        if k > 0 {
          assert parts[k] == Split(s[i + 1..], "/")[k - 1];
          assert x in s[i + 1..];
          var j :| 0 <= j < |s[i + 1..]| && s[i + 1..][j] == x;
          assert s[i + 1 + j] == x;
        } else {
          assert x in s[..i];
          var j :| 0 <= j < i && s[..i][j] == x;
          assert s[j] == x;
        }
      }
    }
  }

  lemma NoMagicParts(s: string)
    requires !HasMagic(s)
    ensures forall k :: 0 <= k < |Split(s, "/")| ==> !HasMagic(Split(s, "/")[k])
  {
    SplitPartsFromString(s);
    var parts := Split(s, "/");
    forall k | 0 <= k < |parts| ensures !HasMagic(parts[k]) {
      forall j | 0 <= j < |parts[k]| ensures !IsMagicChar(parts[k][j]) {
        assert parts[k][j] in parts[k];
        assert parts[k][j] in s;
      }
    }
  }

  /** A glob pattern without wildcards matches exactly itself. */
  lemma GlobMatchesLiteral(d: string, q: string)
    requires !HasMagic(d)
    ensures GlobMatches(d, q) <==> q == d
  {
    NoMagicParts(d);
    if GlobMatches(d, q) {
      var ps, ns := Split(d, "/"), Split(q, "/");
      assert ps == ns by {
        forall i | 0 <= i < |ps| ensures ps[i] == ns[i] {
          assert ComponentMatch(ps[i], ns[i]);
        }
      }
      JoinSplit(d, "/");
      JoinSplit(q, "/");
    }
  }

  /** Appending a component to a pattern: the path's last component must
      match it, and the rest of the path must match the shorter pattern. */
  lemma GlobMatchesAppend(pat: string, c: string, q: string)
    requires '/' !in c
    ensures GlobMatches(pat + "/" + c, q) <==>
      '/' in q && GlobMatches(pat, Parent(q)) && ComponentMatch(c, Basename(q))
  {
    SplitAppend(pat, c);
    var ps := Split(pat, "/");
    if '/' in q {
      ParentBasename(q);
      SplitAppend(Parent(q), Basename(q));
      var ns := Split(Parent(q), "/");
      assert Split(q, "/") == ns + [Basename(q)];
      if ComponentsMatch(ps + [c], ns + [Basename(q)]) {
        assert |ps| == |ns|;
        forall i | 0 <= i < |ps| ensures ComponentMatch(ps[i], ns[i]) {
          assert (ps + [c])[i] == ps[i];
          assert (ns + [Basename(q)])[i] == ns[i];
        }
        assert (ps + [c])[|ps|] == c;
      }
      if ComponentsMatch(ps, ns) && ComponentMatch(c, Basename(q)) {
        forall i | 0 <= i < |ps| + 1 ensures ComponentMatch((ps + [c])[i], (ns + [Basename(q)])[i]) {
          if i < |ps| {
            assert (ps + [c])[i] == ps[i];
            assert (ns + [Basename(q)])[i] == ns[i];
          }
        }
      }
    } else {
      NoOccurrenceOfChar(q, '/');
      assert Split(q, "/") == [q];
    }
  }

  /** `glob(d + "/" + c)` for a literal directory `d` and a wildcard
      component `c`: the listed entries directly under `d` whose name
      matches `c`. */
  lemma GlobChildren(w: World, d: string, c: string, q: string)
    requires !HasMagic(d) && HasMagic(c) && '/' !in c
    ensures q in Glob(w, d + "/" + c) <==>
      q in w.listing && '/' in q && Parent(q) == d && ComponentMatch(c, Basename(q))
  {
    assert HasMagic(d + "/" + c) by {
      var k :| 0 <= k < |c| && IsMagicChar(c[k]);
      assert (d + "/" + c)[|d| + 1 + k] == c[k];
    }
    GlobMatchesAppend(d, c, q);
    if '/' in q {
      GlobMatchesLiteral(d, Parent(q));
    }
  }

  /** `glob(d + "/" + c1 + "/" + c2)`: entries two levels below `d`. */
  lemma GlobGrandchildren(w: World, d: string, c1: string, c2: string, q: string)
    requires !HasMagic(d) && '/' !in c1 && '/' !in c2 && HasMagic(c2)
    ensures q in Glob(w, d + "/" + c1 + "/" + c2) <==>
      && q in w.listing && '/' in q && '/' in Parent(q)
      && Parent(Parent(q)) == d
      && ComponentMatch(c1, Basename(Parent(q)))
      && ComponentMatch(c2, Basename(q))
  {
    var pat := d + "/" + c1 + "/" + c2;
    assert HasMagic(pat) by {
      var k :| 0 <= k < |c2| && IsMagicChar(c2[k]);
      assert pat[|d| + |c1| + 2 + k] == c2[k];
    }
    GlobMatchesAppend(d + "/" + c1, c2, q);
    if '/' in q {
      GlobMatchesAppend(d, c1, Parent(q));
      if '/' in Parent(q) {
        GlobMatchesLiteral(d, Parent(Parent(q)));
      }
    }
  }

  // ---------------------------------------------------------------------
  // Directory listing

  function ChildrenIn(listing: seq<string>, dir: string): (r: seq<string>)
    ensures forall n :: n in r <==> exists q :: q in listing && '/' in q && Parent(q) == dir && n == Basename(q)
  {
    if |listing| == 0 then []
    else
      var q := listing[0];
      (if '/' in q && Parent(q) == dir then [Basename(q)] else [])
      + ChildrenIn(listing[1..], dir)
  }

  /** `os.scandir(dir)` names: the listed entries directly under `dir`.
      A missing path raises `FileNotFoundError`; a path that exists but is
      not a directory raises `NotADirectoryError`. */
  function ScanDir(w: World, dir: string): (r: Result<seq<string>>)
    ensures r.Err? <==> !IsDir(w, dir)
    ensures r.Err? && !Exists(w, dir) ==> r.error.kind == FileNotFoundError
    ensures r.Err? && Exists(w, dir) ==> r.error.kind == NotADirectoryError
    ensures r.Ok? ==> forall n :: n in r.value <==>
      exists q :: q in w.listing && '/' in q && Parent(q) == dir && n == Basename(q)
  {
    if !Exists(w, dir) then Raise(FileNotFoundError, dir)
    else if !IsDir(w, dir) then Raise(NotADirectoryError, dir)
    else Ok(ChildrenIn(w.listing, dir))
  }

  // ---------------------------------------------------------------------
  // Effects

  datatype Effect =
    | Run(argv: seq<string>, dryRun: bool)
    | WriteTable(path: string, rows: seq<seq<Cell>>, sep: string)
    | Remove(path: string)
    | WriteText(path: string, text: string)

  /** What an action did: the effects it produced, in order, and the
      exception it ended with, if any. Effects produced before an exception
      stay in the trace; nothing is undone. */
  datatype Outcome = Outcome(effects: seq<Effect>, error: Option<Error>)

  const Done := Outcome([], None)

  function Fail(kind: Kind, about: string): Outcome
  {
    Outcome([], Some(Error(kind, about)))
  }

  /** `run_command(argv, dry_run)`: the command is recorded; outside dry
      run it fails when the oracle rejects it. */
  function RunCommand(w: World, argv: seq<string>, dryRun: bool): (o: Outcome)
    ensures o.effects == [Run(argv, dryRun)]
    ensures o.error.Some? <==> !dryRun && !w.accepts(argv)
  {
    Outcome([Run(argv, dryRun)],
      if !dryRun && !w.accepts(argv) then Some(Error(CalledProcessError, Join(argv, " "))) else None)
  }

  /** Run `a`, then `b` unless `a` raised. */
  function Then(a: Outcome, b: Outcome): (o: Outcome)
    ensures a.error.Some? ==> o == a
    ensures a.error.None? ==> o == Outcome(a.effects + b.effects, b.error)
  {
    if a.error.Some? then a else Outcome(a.effects + b.effects, b.error)
  }

  /** Every command in the trace carries the given dry-run flag. */
  predicate AllRunsDry(effects: seq<Effect>, dryRun: bool)
  {
    forall i :: 0 <= i < |effects| && effects[i].Run? ==> effects[i].dryRun == dryRun
  }

  /** `argv` with `--profile <p>` appended when a profile is given. */
  function WithProfile(argv: seq<string>, profile: Option<string>): (r: seq<string>)
    ensures |argv| <= |r| && r[..|argv|] == argv
    ensures profile.None? ==> r == argv
    ensures profile.Some? ==> r[|argv|..] == ["--profile", profile.value]
  {
    match profile
    case None => argv
    case Some(p) => argv + ["--profile", p]
  }

  /** One step per item: each item either yields a command, which is run,
      or raises, which stops the loop; a failing command stops it too. */
  function RunEach(w: World, steps: seq<Result<seq<string>>>, dryRun: bool): (o: Outcome)
    ensures |o.effects| <= |steps|
    ensures forall i :: 0 <= i < |o.effects| ==> steps[i].Ok? && o.effects[i] == Run(steps[i].value, dryRun)
    ensures o.error.None? <==>
      forall i :: 0 <= i < |steps| ==> steps[i].Ok? && (dryRun || w.accepts(steps[i].value))
    ensures o.error.None? ==> |o.effects| == |steps|
  {
    if |steps| == 0 then Done
    else match steps[0]
      case Err(e) => Outcome([], Some(e))
      case Ok(argv) =>
        var rest := RunEach(w, steps[1..], dryRun);
        var o := Then(RunCommand(w, argv, dryRun), rest);
        assert forall i :: 1 <= i < |steps| ==> steps[i] == steps[1..][i - 1];
        o
  }

  /** The loop reports only the items' own errors or a rejected command. */
  lemma RunEachErrorKinds(w: World, steps: seq<Result<seq<string>>>, dryRun: bool, kinds: set<Kind>)
    requires forall i :: 0 <= i < |steps| && steps[i].Err? ==> steps[i].error.kind in kinds
    ensures var o := RunEach(w, steps, dryRun);
      o.error.Some? ==> o.error.value.kind in kinds || o.error.value.kind == CalledProcessError
  {
    RunEachStops(w, steps, dryRun);
  }

  /** Why a loop stopped: either the next item raised, and its error is the
      one reported, or the last command run was rejected. */
  lemma {:induction false} RunEachStops(w: World, steps: seq<Result<seq<string>>>, dryRun: bool)
    ensures var o := RunEach(w, steps, dryRun);
      o.error.Some? ==>
        || (|o.effects| < |steps| && steps[|o.effects|].Err? && o.error.value == steps[|o.effects|].error)
        || (0 < |o.effects| && !dryRun && !w.accepts(steps[|o.effects| - 1].value)
            && o.error.value.kind == CalledProcessError)
  {
    if |steps| > 0 && steps[0].Ok? {
      var o := RunEach(w, steps, dryRun);
      var rest := RunEach(w, steps[1..], dryRun);
      RunEachStops(w, steps[1..], dryRun);
      if o.error.Some? && (dryRun || w.accepts(steps[0].value)) {
        var n := |rest.effects|;
        assert |o.effects| == n + 1;
        if n < |steps[1..]| {
          assert steps[n + 1] == steps[1..][n];
        }
        if 0 < n {
          assert steps[n] == steps[1..][n - 1];
        }
      }
    }
  }
}

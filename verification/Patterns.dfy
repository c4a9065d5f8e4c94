/** Host and path patterns: what they match, and when one contains another. */
module Patterns {
  import opened Texts

  datatype Parts = Parts(before: string, after: string, found: bool)

  /** strings.Cut around the first separator. */
  function Cut(s: string, sep: char): Parts {
    if s == "" then Parts("", "", false)
    else if s[0] == sep then Parts("", s[1..], true)
    else
      var rest := Cut(s[1..], sep);
      Parts([s[0]] + rest.before, rest.after, rest.found)
  }

  lemma {:induction false} CutParts(s: string, sep: char)
    ensures sep !in Cut(s, sep).before
    ensures Cut(s, sep).found <==> sep in s
    ensures s == if Cut(s, sep).found then Cut(s, sep).before + [sep] + Cut(s, sep).after else Cut(s, sep).before
    ensures !Cut(s, sep).found ==> Cut(s, sep).after == ""
    decreases |s|
  {
    if s != "" && s[0] != sep {
      CutParts(s[1..], sep);
      CutMore(s[0], Cut(s[1..], sep), sep);
      assert s == [s[0]] + s[1..];
    }
  }

  lemma CutMore(c: char, rest: Parts, sep: char)
    ensures [c] + (rest.before + [sep] + rest.after) == ([c] + rest.before) + [sep] + rest.after
  {
  }

  lemma CutAt(a: string, b: string, sep: char)
    requires sep !in a
    ensures Cut(a + [sep] + b, sep) == Parts(a, b, true)
  {
    var s := a + [sep] + b;
    CutParts(s, sep);
    assert s[|a|] == sep;
    CutUnique(a, b, Cut(s, sep).before, Cut(s, sep).after, sep);
  }

  lemma CutNone(s: string, sep: char)
    requires sep !in s
    ensures Cut(s, sep) == Parts(s, "", false)
  {
    CutParts(s, sep);
  }

  // Hosts

  /**
   * The runtime's matcher, which the gate does not own: which names each pattern's name part
   * matches, and which runs of path segments each wildcard segment does.
   */
  datatype Globs = Globs(hosts: iset<(string, string)>, paths: iset<(string, seq<string>)>)

  predicate Universal(pattern: string) {
    pattern == "*" || pattern == "**"
  }

  function NameOf(pattern: string): string {
    Cut(pattern, ':').before
  }

  function PortOf(pattern: string): string {
    Cut(pattern, ':').after
  }

  /** A pattern with no slash or space, and a port after its colon if it has one. */
  predicate HostPattern(pattern: string) {
    ' ' !in pattern && '/' !in pattern && (':' in pattern ==> PortOf(pattern) != "")
  }

  ghost predicate HostMatches(globs: Globs, pattern: string, name: string, port: string) {
    Universal(pattern) || ((NameOf(pattern), name) in globs.hosts && (PortOf(pattern) == "" || PortOf(pattern) == port))
  }

  predicate HostCovers(granting: string, candidate: string) {
    Universal(granting) || (NameOf(granting) == NameOf(candidate) && (PortOf(granting) == "" || PortOf(granting) == PortOf(candidate)))
  }

  /** Whatever the runtime's matcher is, the first pattern matches all the second does. */
  ghost predicate HostContains(granting: string, candidate: string) {
    forall globs, name, port :: HostMatches(globs, candidate, name, port) ==> HostMatches(globs, granting, name, port)
  }

  lemma UniversalName(pattern: string)
    requires Universal(pattern)
    ensures NameOf(pattern) == pattern && PortOf(pattern) == ""
  {
    assert pattern[0] == '*';
    if |pattern| == 2 {
      assert pattern[1] == '*';
    }
    CutNone(pattern, ':');
  }

  lemma PortlessIsName(pattern: string)
    requires HostPattern(pattern) && PortOf(pattern) == ""
    ensures NameOf(pattern) == pattern
  {
    CutParts(pattern, ':');
  }

  /** Host coverage is containment under every matcher. */
  lemma HostCoversExact(granting: string, candidate: string)
    requires HostPattern(granting) && HostPattern(candidate)
    ensures HostCovers(granting, candidate) <==> HostContains(granting, candidate)
  {
    if HostCovers(granting, candidate) && Universal(candidate) {
      UniversalName(candidate);
      if PortOf(granting) == "" {
        PortlessIsName(granting);
      }
    }
    if HostContains(granting, candidate) {
      if Universal(candidate) {
        assert HostMatches(Globs(iset{}, iset{}), candidate, "", "");
      } else {
        var port := if PortOf(candidate) != "" then PortOf(candidate) else PortOf(granting) + "0";
        var globs := Globs(iset{(NameOf(candidate), "")}, iset{});
        assert HostMatches(globs, candidate, "", port);
        assert HostMatches(globs, granting, "", port);
      }
    }
  }

  // Paths

  predicate Subtree(pattern: string) {
    |pattern| >= 3 && pattern[|pattern| - 3..] == "/**"
  }

  /** The directory a subtree pattern names, with its slash. */
  function Root(pattern: string): (root: string)
    requires Subtree(pattern)
    ensures root != "" && root[|root| - 1] == '/' && pattern == root + "**"
  {
    assert pattern == pattern[..|pattern| - 2] + "**";
    pattern[..|pattern| - 2]
  }

  /** A path glob as validation admits them. */
  predicate PathPattern(pattern: string) {
    pattern != "" && pattern[0] == '/'
  }

  const ALL := "**"

  /** One segment of a pattern against a run of segments: `**` matches any, a word itself, another wildcard what the matcher says. */
  ghost predicate PartMatches(paths: iset<(string, seq<string>)>, part: string, run: seq<string>) {
    if part == ALL then true else if '*' in part then (part, run) in paths else run == [part]
  }

  ghost predicate RunsMatch(paths: iset<(string, seq<string>)>, parts: seq<string>, path: seq<string>)
    decreases |parts|
  {
    if parts == [] then path == []
    else exists i :: 0 <= i <= |path| && PartMatches(paths, parts[0], path[..i]) && RunsMatch(paths, parts[1..], path[i..])
  }

  ghost predicate PathMatches(globs: Globs, pattern: string, path: string) {
    RunsMatch(globs.paths, Split(pattern, '/'), Split(path, '/'))
  }

  lemma AllMatches(paths: iset<(string, seq<string>)>, path: seq<string>)
    ensures RunsMatch(paths, [ALL], path)
  {
    assert PartMatches(paths, ALL, path[..|path|]) && RunsMatch(paths, [ALL][1..], path[|path|..]);
  }

  lemma EveryPath(globs: Globs, pattern: string, path: string)
    requires pattern == "/**" && path != "" && path[0] == '/'
    ensures PathMatches(globs, pattern, path) && PathPattern(pattern)
  {
    var parts, runs := Split(pattern, '/'), Split(path, '/');
    assert pattern == "" + ['/'] + ALL && path == "" + ['/'] + path[1..];
    SplitLast("", ALL, '/');
    SplitFirst("", path[1..], '/');
    assert parts == ["", ALL];
    AllMatches(globs.paths, runs[1..]);
    assert PartMatches(globs.paths, parts[0], runs[..1]) && RunsMatch(globs.paths, parts[1..], runs[1..]);
  }

  predicate PathPatternCovers(granted: string, candidate: string) {
    granted == candidate || (Subtree(granted) && (Root(granted) <= candidate || candidate + "/" == Root(granted)))
  }

  /** Whatever the runtime's matcher is, the first pattern matches every path the second does. */
  ghost predicate PathContains(granted: string, candidate: string) {
    forall globs, path :: PathMatches(globs, candidate, path) ==> PathMatches(globs, granted, path)
  }

  // Coverage by segments

  /** The directory a subtree pattern names, without its slash. */
  function Directory(pattern: string): (d: string)
    requires Subtree(pattern)
    ensures pattern == d + ['/'] + ALL && Root(pattern) == d + ['/']
  {
    assert pattern == pattern[..|pattern| - 3] + "/**";
    pattern[..|pattern| - 3]
  }

  lemma SubtreeParts(pattern: string)
    requires Subtree(pattern)
    ensures Split(pattern, '/') == Split(Directory(pattern), '/') + [ALL]
  {
    SplitLast(Directory(pattern), ALL, '/');
  }

  lemma EndsInAll(pattern: string)
    requires PathPattern(pattern)
    ensures |Split(pattern, '/')| > 1
    ensures Split(pattern, '/')[|Split(pattern, '/')| - 1] == ALL <==> Subtree(pattern)
  {
    var parts := Split(pattern, '/');
    SplitFirst("", pattern[1..], '/');
    assert pattern == "" + ['/'] + pattern[1..];
    if Subtree(pattern) {
      SubtreeParts(pattern);
    } else if parts[|parts| - 1] == ALL {
      var front := Join(parts[..|parts| - 1], '/');
      SplitFree(pattern, '/');
      SplitJoin(parts[..|parts| - 1], '/');
      SplitLast(front, ALL, '/');
      assert parts == parts[..|parts| - 1] + [ALL];
      SplitInjective(pattern, front + ['/'] + ALL);
      assert false;
    }
  }

  lemma SplitInjective(a: string, b: string)
    requires Split(a, '/') == Split(b, '/')
    ensures a == b
  {
    JoinSplit(a, '/');
    JoinSplit(b, '/');
  }

  /** Under a subtree pattern, in the gate's sense, is beginning with the segments of its directory. */
  lemma UnderByParts(granted: string, candidate: string)
    requires Subtree(granted)
    ensures Root(granted) <= candidate || candidate + "/" == Root(granted) <==>
      Split(Directory(granted), '/') <= Split(candidate, '/')
  {
    var d, root := Directory(granted), Root(granted);
    var above, parts := Split(d, '/'), Split(candidate, '/');
    if root <= candidate {
      assert candidate == d + ['/'] + candidate[|root|..];
      SplitAround(d, candidate[|root|..], '/');
    }
    if candidate + "/" == root {
      assert candidate == d by { assert (candidate + "/")[..|candidate|] == root[..|d|]; }
    }
    if above <= parts {
      var tail := parts[|above|..];
      assert parts == above + tail;
      if tail == [] {
        SplitInjective(candidate, d);
      } else {
        SplitFree(candidate, '/');
        assert Free(tail, '/');
        SplitJoin(tail, '/');
        SplitAround(d, Join(tail, '/'), '/');
        SplitInjective(candidate, d + ['/'] + Join(tail, '/'));
      }
    }
  }

  // Coverage contains, whatever wildcards the patterns have

  lemma {:induction false} MatchApart(paths: iset<(string, seq<string>)>, a: seq<string>, b: seq<string>, path: seq<string>) returns (i: nat)
    requires RunsMatch(paths, a + b, path)
    ensures i <= |path| && RunsMatch(paths, a, path[..i]) && RunsMatch(paths, b, path[i..])
    decreases |a|
  {
    if a == [] {
      assert a + b == b && path[0..] == path;
      i := 0;
    } else {
      assert (a + b)[1..] == a[1..] + b;
      var k: nat :| 0 <= k <= |path| && PartMatches(paths, a[0], path[..k]) && RunsMatch(paths, (a + b)[1..], path[k..]);
      var j := MatchApart(paths, a[1..], b, path[k..]);
      i := k + j;
      assert path[..i][..k] == path[..k] && path[..i][k..] == path[k..][..j] && path[k..][j..] == path[i..];
    }
  }

  lemma {:induction false} MatchTogether(paths: iset<(string, seq<string>)>, a: seq<string>, b: seq<string>, p: seq<string>, q: seq<string>)
    requires RunsMatch(paths, a, p) && RunsMatch(paths, b, q)
    ensures RunsMatch(paths, a + b, p + q)
    decreases |a|
  {
    if a == [] {
      assert a + b == b && p + q == q;
    } else {
      var k: nat :| 0 <= k <= |p| && PartMatches(paths, a[0], p[..k]) && RunsMatch(paths, a[1..], p[k..]);
      MatchTogether(paths, a[1..], b, p[k..], q);
      assert (a + b)[1..] == a[1..] + b && (p + q)[..k] == p[..k] && (p + q)[k..] == p[k..] + q;
    }
  }

  lemma CoversContains(granted: string, candidate: string)
    requires PathPatternCovers(granted, candidate)
    ensures PathContains(granted, candidate)
  {
    if granted != candidate {
      UnderByParts(granted, candidate);
      SubtreeParts(granted);
      var d, parts := Split(Directory(granted), '/'), Split(candidate, '/');
      forall globs, path | PathMatches(globs, candidate, path) ensures PathMatches(globs, granted, path) {
        var runs := Split(path, '/');
        assert parts == d + parts[|d|..];
        var i := MatchApart(globs.paths, d, parts[|d|..], runs);
        AllMatches(globs.paths, runs[i..]);
        MatchTogether(globs.paths, d, [ALL], runs[..i], runs[i..]);
        assert runs == runs[..i] + runs[i..];
      }
    }
  }

  // And containment is coverage, where `**` stands only at the end

  /** A path glob in which no segment but the last is `**`. */
  predicate Settled(pattern: string) {
    PathPattern(pattern) && ALL !in Split(pattern, '/')[..|Split(pattern, '/')| - 1]
  }

  /** The matcher for which a wildcard segment matches its own text alone. */
  ghost function Verbatim(): iset<(string, seq<string>)> {
    iset part: string | true :: (part, [part])
  }

  lemma {:induction false} VerbatimMatches(parts: seq<string>, path: seq<string>)
    requires ALL !in parts
    ensures RunsMatch(Verbatim(), parts, path) <==> path == parts
    decreases |parts|
  {
    if parts != [] {
      forall i | 0 <= i <= |path| ensures PartMatches(Verbatim(), parts[0], path[..i]) <==> path[..i] == [parts[0]] {
        assert (parts[0], path[..i]) in Verbatim() <==> path[..i] == [parts[0]];
      }
      if path != [] {
        VerbatimMatches(parts[1..], path[1..]);
        assert path[..1] == [path[0]];
        assert path == [path[0]] + path[1..] && parts == [parts[0]] + parts[1..];
      }
    }
  }

  lemma VerbatimUnder(parts: seq<string>, path: seq<string>)
    requires ALL !in parts
    ensures RunsMatch(Verbatim(), parts + [ALL], path) <==> parts <= path
  {
    if RunsMatch(Verbatim(), parts + [ALL], path) {
      var i := MatchApart(Verbatim(), parts, [ALL], path);
      VerbatimMatches(parts, path[..i]);
    }
    if parts <= path {
      VerbatimMatches(parts, parts);
      AllMatches(Verbatim(), path[|parts|..]);
      MatchTogether(Verbatim(), parts, [ALL], parts, path[|parts|..]);
      assert path == parts + path[|parts|..];
    }
  }

  /** What a settled pattern matches verbatim: its own segments, or, for a subtree, all that begins with its directory's. */
  lemma SettledMatches(pattern: string, path: string)
    requires Settled(pattern)
    ensures Subtree(pattern) ==> ALL !in Split(Directory(pattern), '/')
    ensures PathMatches(Globs(iset{}, Verbatim()), pattern, path) <==>
      if Subtree(pattern) then Split(Directory(pattern), '/') <= Split(path, '/') else pattern == path
  {
    var parts := Split(pattern, '/');
    EndsInAll(pattern);
    if Subtree(pattern) {
      SubtreeParts(pattern);
      assert parts[..|parts| - 1] == Split(Directory(pattern), '/');
      VerbatimUnder(Split(Directory(pattern), '/'), Split(path, '/'));
    } else {
      assert parts == parts[..|parts| - 1] + [parts[|parts| - 1]];
      VerbatimMatches(parts, Split(path, '/'));
      if Split(path, '/') == parts {
        SplitInjective(path, pattern);
      }
    }
  }

  /** The segments with a word for each `**`. */
  function Worded(parts: seq<string>, x: string): (w: seq<string>)
    ensures |w| == |parts| && forall i :: 0 <= i < |w| ==> w[i] == if parts[i] == ALL then x else parts[i]
  {
    if parts == [] then [] else [if parts[0] == ALL then x else parts[0]] + Worded(parts[1..], x)
  }

  lemma {:induction false} WordedMatches(parts: seq<string>, x: string)
    ensures RunsMatch(Verbatim(), parts, Worded(parts, x))
    decreases |parts|
  {
    if parts != [] {
      var w := Worded(parts, x);
      WordedMatches(parts[1..], x);
      assert w[..1] == [w[0]] && w[1..] == Worded(parts[1..], x);
      assert (parts[0], [parts[0]]) in Verbatim();
      assert PartMatches(Verbatim(), parts[0], w[..1]);
    }
  }

  /** A path the pattern matches verbatim, with a word for each `**`. */
  function Example(pattern: string, x: string): string {
    Join(Worded(Split(pattern, '/'), x), '/')
  }

  lemma ExampleMatches(pattern: string, x: string)
    requires '/' !in x
    ensures Split(Example(pattern, x), '/') == Worded(Split(pattern, '/'), x)
    ensures PathMatches(Globs(iset{}, Verbatim()), pattern, Example(pattern, x))
  {
    SplitFree(pattern, '/');
    SplitJoin(Worded(Split(pattern, '/'), x), '/');
    WordedMatches(Split(pattern, '/'), x);
  }

  lemma TwoWords(parts: seq<string>, d: seq<string>)
    requires d <= Worded(parts, "0") && d <= Worded(parts, "1")
    ensures d <= parts
  {
    forall i | 0 <= i < |d| ensures parts[i] == d[i] {
      assert d[i] == Worded(parts, "0")[i] == Worded(parts, "1")[i];
      assert "0"[0] != "1"[0];
    }
  }

  /** Where a granted glob has `**` only at its end, coverage is containment under every matcher. */
  lemma PathCoversExact(granted: string, candidate: string)
    requires Settled(granted)
    ensures PathPatternCovers(granted, candidate) <==> PathContains(granted, candidate)
  {
    if PathPatternCovers(granted, candidate) {
      CoversContains(granted, candidate);
    }
    if PathContains(granted, candidate) {
      var a, b := Example(candidate, "0"), Example(candidate, "1");
      ExampleMatches(candidate, "0");
      ExampleMatches(candidate, "1");
      SettledMatches(granted, a);
      SettledMatches(granted, b);
      var d := if Subtree(granted) then Split(Directory(granted), '/') else Split(granted, '/');
      TwoWords(Split(candidate, '/'), d);
      if Subtree(granted) {
        UnderByParts(granted, candidate);
      } else {
        SplitInjective(granted, candidate);
      }
    }
  }

  /** The pattern with a word for its `**` at `i`. */
  function Reworded(pattern: string, i: nat, x: string): string
    requires i < |Split(pattern, '/')|
  {
    Join(Split(pattern, '/')[i := x], '/')
  }

  lemma AllTakesIn(paths: iset<(string, seq<string>)>, before: seq<string>, x: string, after: seq<string>, runs: seq<string>)
    requires RunsMatch(paths, before + ([x] + after), runs)
    ensures RunsMatch(paths, before + ([ALL] + after), runs)
  {
    var j := MatchApart(paths, before, [x] + after, runs);
    var rest := runs[j..];
    var k := MatchApart(paths, [x], after, rest);
    AllMatches(paths, rest[..k]);
    MatchTogether(paths, [ALL], after, rest[..k], rest[k..]);
    assert rest == rest[..k] + rest[k..];
    MatchTogether(paths, before, [ALL] + after, runs[..j], rest);
    assert runs == runs[..j] + rest;
  }

  lemma RewordedParts(granted: string, i: nat, x: string)
    requires i < |Split(granted, '/')| && '/' !in x
    ensures Split(Reworded(granted, i, x), '/') == Split(granted, '/')[i := x]
  {
    SplitFree(granted, '/');
    SplitJoin(Split(granted, '/')[i := x], '/');
  }

  lemma PartsAround(parts: seq<string>, i: nat, x: string)
    requires i < |parts|
    ensures parts[i := x] == parts[..i] + ([x] + parts[i + 1..])
  {
  }

  /** A `**` takes in a word in its place. */
  lemma InnerAllContains(granted: string, i: nat, x: string)
    requires i < |Split(granted, '/')| && Split(granted, '/')[i] == ALL && '/' !in x
    ensures PathContains(granted, Reworded(granted, i, x))
  {
    var parts, candidate := Split(granted, '/'), Reworded(granted, i, x);
    var before, after := parts[..i], parts[i + 1..];
    RewordedParts(granted, i, x);
    PartsAround(parts, i, ALL);
    PartsAround(parts, i, x);
    assert parts[i := ALL] == parts;
    forall globs, path | PathMatches(globs, candidate, path) ensures PathMatches(globs, granted, path) {
      AllTakesIn(globs.paths, before, x, after, Split(path, '/'));
    }
  }

  /** And the gate does not see that it does. */
  lemma InnerAllIsUncovered(granted: string, i: nat, x: string)
    requires i < |Split(granted, '/')| - 1 && Split(granted, '/')[i] == ALL && '/' !in x && x != ALL
    ensures PathContains(granted, Reworded(granted, i, x)) && !PathPatternCovers(granted, Reworded(granted, i, x))
  {
    var candidate := Reworded(granted, i, x);
    InnerAllContains(granted, i, x);
    RewordedParts(granted, i, x);
    assert Split(candidate, '/')[i] == x;
    if Subtree(granted) {
      SubtreeParts(granted);
      UnderByParts(granted, candidate);
      assert Split(Directory(granted), '/')[i] == ALL;
    }
  }

  /** The gate's coverage sees all that a granted glob contains exactly when the glob has `**` only at its end. */
  lemma SettledIsExact(granted: string)
    requires PathPattern(granted)
    ensures Settled(granted) <==> forall candidate :: PathContains(granted, candidate) ==> PathPatternCovers(granted, candidate)
  {
    var parts := Split(granted, '/');
    if Settled(granted) {
      forall candidate | PathContains(granted, candidate) ensures PathPatternCovers(granted, candidate) {
        PathCoversExact(granted, candidate);
      }
    } else {
      var i :| 0 <= i < |parts| - 1 && parts[i] == ALL;
      InnerAllIsUncovered(granted, i, "0");
    }
  }
}

/** What a resolved path is, and when the resolution needs no walk at all. */
module WalkFacts {
  import opened Trees
  import opened PathNames
  import opened Walks

  lemma JoinOne(n: Path, file: string)
    requires AllPlain(n) && file != ""
    ensures Norm([], Join(Abs(n), [file])) == Step(n, file)
  {
    var s := Abs(n) + [file];
    NormAppend([], Abs(n), [file]);
    NormAbs(n);
    NormOne(n, file);
    NormAbs(Step(n, file));
  }

  lemma SplitLast<T>(s: seq<T>)
    requires s != []
    ensures s == s[..|s| - 1] + [s[|s| - 1]]
  {
  }

  lemma NormOne(cur: Path, seg: string)
    ensures Norm(cur, [seg]) == Step(cur, seg)
  {
    assert [seg][1..] == [];
  }

  lemma NormSnoc(init: seq<string>, last: string)
    ensures Norm([], init + [last]) == Step(Norm([], init), last)
  {
    NormAppend([], init, [last]);
    NormOne(Norm([], init), last);
  }

  lemma NormLast(p: Raw)
    ensures Norm([], p) == Step(Norm([], p[..|p| - 1]), p[|p| - 1])
  {
    SplitLast(p);
    NormSnoc(p[..|p| - 1], p[|p| - 1]);
  }

  lemma NormTrailing(p: seq<string>)
    ensures Norm([], p + [""]) == Norm([], p)
  {
    NormSnoc(p, "");
  }

  lemma ClearPrefix(t: Tree, n: Path, k: nat)
    requires Clear(t, n) && k <= |n|
    ensures Clear(t, n[..k])
  {
    forall j | 0 <= j <= k ensures n[..k][..j] == n[..j] {}
    assert n[..|n|] == n;
  }

  lemma ClearChild(t: Tree, n: Path, file: string)
    requires WellFormed(t) && Clear(t, n) && Plain(file) && WalkLink(t, n + [file], 0) == NoLink
    ensures Clear(t, n + [file])
  {
    var q := n + [file];
    assert Parent(q) == n && Last(q) == file && n[..|n|] == n;
    forall k | 0 <= k <= |n| ensures q[..k] == n[..k] {}
    if n in t && !t[n].Dir? {
      LookupPastLeaf(t, n);
    } else {
      LookupClear(t, n);
    }
    assert q in t ==> Hangs(t, q);
  }

  /** Nothing but a symlink-free step goes unexpanded. */
  lemma QuietStep(t: Tree, n: Path, file: string, walked: nat)
    requires WellFormed(t) && Clear(t, n)
    requires WalkLink(t, Step(n, file), walked) == NoLink
    ensures Clear(t, Step(n, file))
  {
    if Plain(file) {
      assert Step(n, file) == n + [file];
      ClearChild(t, n, file);
    } else {
      assert n[..|n|] == n;
      ClearPrefix(t, n, |Step(n, file)|);
    }
  }

  /** A pass that expands nothing returns its path cleaned, and that path is clear. */
  lemma {:induction false} QuietPass(t: Tree, p: Raw, walked: nat)
    requires WellFormed(t)
    requires WalkLinks(t, p, walked).Some? && WalkLinks(t, p, walked).value.1 == walked
    ensures WalkLinks(t, p, walked).value.0 == Abs(Norm([], p))
    ensures Clear(t, Norm([], p))
    decreases |p|, if p[|p| - 1] == "" then 0 else 1
  {
    var file, dir := p[|p| - 1], p[..|p| - 1];
    NormLast(p);
    if |p| == 1 {
      QuietStep(t, [], file, walked);
    } else if file == "" {
      if p == ["", ""] {
        NormAbs([]);
      } else {
        QuietPass(t, dir, walked);
      }
    } else {
      QuietPass(t, dir + [""], walked);
      NormTrailing(dir);
      var n := Norm([], dir);
      JoinOne(n, file);
      QuietStep(t, n, file, walked);
    }
  }

  lemma {:induction false} RootLoopClear(t: Tree, p: Raw, walked: nat)
    requires WellFormed(t) && RootLoop(t, p, walked).Some?
    ensures Clear(t, RootLoop(t, p, walked).value.0)
    decreases MAX_EXTRACT_SYMLINKS + 1 - walked
  {
    var (next, w) := WalkLinks(t, p, walked).value;
    if w == walked {
      QuietPass(t, p, walked);
      NormAbs(Norm([], p));
    } else {
      RootLoopClear(t, next, w);
    }
  }

  /** Nothing but directories, or nothing, at `p` and above it. */
  ghost predicate AllDirs(t: Tree, p: Path) {
    AllPlain(p) && forall k :: 0 <= k <= |p| && p[..k] in t ==> t[p[..k]].Dir?
  }

  lemma StepAllDirs(t: Tree, n: Path, seg: string)
    requires AllDirs(t, n) && !(Plain(seg) && Step(n, seg) in t && !t[Step(n, seg)].Dir?)
    ensures AllDirs(t, Step(n, seg))
  {
    var q := Step(n, seg);
    forall k | 0 <= k <= |q| && q[..k] in t
      ensures t[q[..k]].Dir?
    {
      if k <= |n| {
        assert q[..k] == n[..k];
      } else {
        assert q[..k] == q;
      }
    }
  }

  lemma {:induction false} UncrossedAllDirs(t: Tree, cur: Path, segs: seq<string>)
    requires AllDirs(t, cur) && !Crosses(t, cur, segs)
    ensures AllDirs(t, Norm(cur, segs))
    decreases |segs|
  {
    if segs != [] {
      StepAllDirs(t, cur, segs[0]);
      UncrossedAllDirs(t, Step(cur, segs[0]), segs[1..]);
    }
  }

  /** A resolved path is clean, crosses no symlink, and is none. */
  lemma RootPathClear(t: Tree, p: Raw)
    requires WellFormed(t) && RootPath(t, p).Some?
    ensures Clear(t, RootPath(t, p).value)
  {
    if p != [""] {
      if Crosses(t, [], p) {
        RootLoopClear(t, p, 0);
      } else {
        UncrossedAllDirs(t, [], p);
        var r := Norm([], p);
        assert r[..|r|] == r;
      }
    }
  }

  lemma {:induction false} CrossesAppend(t: Tree, cur: Path, a: seq<string>, b: seq<string>)
    ensures Crosses(t, cur, a + b) <==> Crosses(t, cur, a) || Crosses(t, Norm(cur, a), b)
    decreases |a|
  {
    if a == [] {
      assert a + b == b;
    } else {
      assert (a + b)[1..] == a[1..] + b;
      CrossesAppend(t, Step(cur, a[0]), a[1..], b);
    }
  }

  ghost predicate FitsTo(p: seq<string>, k: nat)
    requires k <= |p|
  {
    AbsLen(Norm([], p[..k])) <= MAX_PATH_LEN
  }

  /** No prefix of `p`, cleaned, is too long for a Linux path. */
  ghost predicate Fits(p: seq<string>) {
    forall k :: 1 <= k <= |p| ==> FitsTo(p, k)
  }

  lemma FitsLast(dir: seq<string>, file: string)
    ensures Fits(dir + [file]) <==> Fits(dir) && AbsLen(Norm([], dir + [file])) <= MAX_PATH_LEN
  {
    var p := dir + [file];
    forall k | 1 <= k <= |dir|
      ensures FitsTo(p, k) <==> FitsTo(dir, k)
    {
      assert dir[..k] == p[..k];
    }
    assert p[..|p|] == p;
    assert FitsTo(p, |p|) <==> AbsLen(Norm([], p)) <= MAX_PATH_LEN;
  }

  lemma AllDirsAbove(t: Tree, q: Path)
    requires AllDirs(t, q) && q != []
    ensures AllDirs(t, Parent(q))
  {
    forall k | 0 <= k < |q| ensures Parent(q)[..k] == q[..k] {}
  }

  lemma UncrossedLink(t: Tree, n: Path, file: string, walked: nat)
    requires WellFormed(t) && AllDirs(t, n) && walked <= MAX_EXTRACT_SYMLINKS
    requires !Crosses(t, n, [file])
    ensures WalkLink(t, Step(n, file), walked) == if AbsLen(Step(n, file)) <= MAX_PATH_LEN then NoLink else Refused
  {
    assert [file][1..] == [];
    var q := Step(n, file);
    StepAllDirs(t, n, file);
    if q != [] {
      AllDirsAbove(t, q);
      LookupClear(t, Parent(q));
      assert q[..|q|] == q && q == Parent(q) + [Last(q)];
      assert q in t ==> Hangs(t, q);
    }
  }

  /** Where nothing is crossed, a pass returns the path cleaned unless a prefix is too long. */
  lemma {:induction false} UncrossedPass(t: Tree, p: Raw, walked: nat)
    requires WellFormed(t) && !Crosses(t, [], p) && walked <= MAX_EXTRACT_SYMLINKS
    ensures WalkLinks(t, p, walked) == if Fits(p) then Some((Abs(Norm([], p)), walked)) else None
    decreases |p|, 1
  {
    var file, dir := p[|p| - 1], p[..|p| - 1];
    SplitLast(p);
    CrossesAppend(t, [], dir, [file]);
    UncrossedAllDirs(t, [], dir);
    NormLast(p);
    FitsLast(dir, file);
    if |p| == 1 {
      assert dir == [];
      UncrossedLink(t, [], file, walked);
    } else if file == "" {
      NormTrailing(dir);
      UncrossedTrailing(t, dir, walked);
    } else {
      UncrossedTrailing(t, dir, walked);
      JoinOne(Norm([], dir), file);
      UncrossedLink(t, Norm([], dir), file, walked);
    }
  }

  lemma {:induction false} UncrossedTrailing(t: Tree, dir: Raw, walked: nat)
    requires WellFormed(t) && !Crosses(t, [], dir) && walked <= MAX_EXTRACT_SYMLINKS
    ensures WalkLinks(t, dir + [""], walked) == if Fits(dir) then Some((Abs(Norm([], dir)), walked)) else None
    ensures Fits(dir + [""]) <==> Fits(dir)
    decreases |dir| + 1, 0
  {
    FitsLast(dir, "");
    NormTrailing(dir);
    assert (dir + [""])[..|dir|] == dir;
    assert FitsTo(dir, |dir|) <==> AbsLen(Norm([], dir)) <= MAX_PATH_LEN by {
      assert dir[..|dir|] == dir;
    }
    if dir == [""] {
      NormLast([""]);
      assert Norm([], [""]) == [];
      FitsLast([], "");
      assert [] + [""] == [""];
    } else {
      UncrossedPass(t, dir, walked);
    }
  }

  /** The shortcut answers what the repeated walk would, for paths that fit. */
  lemma ShortcutExact(t: Tree, p: Raw)
    requires WellFormed(t) && !Crosses(t, [], p)
    ensures RootLoop(t, p, 0) == if Fits(p) then Some((Norm([], p), 0)) else None
  {
    UncrossedPass(t, p, 0);
    NormPlain([], p);
    NormAbs(Norm([], p));
  }
}

/** Where a path through symlinks resolves. */
module Routes {
  import opened Trees
  import opened PathNames
  import opened Walks
  import opened WalkFacts
  import opened PathStrings

  // Paths whose symlinks each lead straight to a directory

  /** The directory a link's target is read from. */
  function Base(cur: Path, link: Raw): Path {
    if IsAbs(link) then [] else cur
  }

  predicate LinkAt(t: Tree, p: Path) {
    p in t && t[p].Symlink?
  }

  /** A target that crosses nothing, and is short enough to walk. */
  ghost predicate Direct(t: Tree, cur: Path, link: Raw) {
    && !Crosses(t, Base(cur, link), link) && AbsLen(Norm(Base(cur, link), link)) <= 4095
    && (IsAbs(link) || cur == [] ==> Fits(link))
  }

  /** Where one component leads from `cur`. */
  ghost function Hop(t: Tree, cur: Path, seg: string): Option<Path> {
    var next := Step(cur, seg);
    if AbsLen(next) > 4095 then None
    else if !Plain(seg) || next !in t || t[next].Dir? then Some(next)
    else if t[next].Symlink? && Direct(t, cur, t[next].link) then Some(Norm(Base(cur, t[next].link), t[next].link))
    else None
  }

  /** How many links that takes. */
  function Takes(t: Tree, cur: Path, seg: string): nat {
    if Plain(seg) && LinkAt(t, cur + [seg]) then 1 else 0
  }

  /** Walking `segs` from `cur`, each link met replaced by where its target leads. */
  ghost function Straight(t: Tree, cur: Path, segs: seq<string>): Option<Path>
    decreases |segs|
  {
    if segs == [] then Some(cur)
    else match Hop(t, cur, segs[0])
      case None => None
      case Some(next) => Straight(t, next, segs[1..])
  }

  ghost function Taken(t: Tree, cur: Path, segs: seq<string>): nat
    decreases |segs|
  {
    if segs == [] then 0
    else match Hop(t, cur, segs[0])
      case None => 0
      case Some(next) => Takes(t, cur, segs[0]) + Taken(t, next, segs[1..])
  }

  lemma SnocTail(segs: seq<string>, seg: string)
    ensures segs == [] ==> segs + [seg] == [seg] && [seg][1..] == []
    ensures segs != [] ==> (segs + [seg])[0] == segs[0] && (segs + [seg])[1..] == segs[1..] + [seg]
  {
  }

  lemma StraightOne(t: Tree, cur: Path, seg: string)
    ensures Straight(t, cur, [seg]) == Hop(t, cur, seg)
    ensures Hop(t, cur, seg).Some? ==> Taken(t, cur, [seg]) == Takes(t, cur, seg)
  {
    assert [seg][0] == seg && [seg][1..] == [];
  }

  lemma StraightStep(t: Tree, cur: Path, segs: seq<string>)
    requires segs != []
    ensures Straight(t, cur, segs) == match Hop(t, cur, segs[0]) case None => None case Some(next) => Straight(t, next, segs[1..])
    ensures Hop(t, cur, segs[0]).Some? ==> Taken(t, cur, segs) == Takes(t, cur, segs[0]) + Taken(t, Hop(t, cur, segs[0]).value, segs[1..])
  {
  }

  lemma {:induction false} StraightSnoc(t: Tree, cur: Path, segs: seq<string>, seg: string)
    ensures Straight(t, cur, segs + [seg]) == match Straight(t, cur, segs) case None => None case Some(end) => Hop(t, end, seg)
    ensures Straight(t, cur, segs + [seg]).Some? ==>
      Taken(t, cur, segs + [seg]) == Taken(t, cur, segs) + Takes(t, Straight(t, cur, segs).value, seg)
    decreases |segs|
  {
    SnocTail(segs, seg);
    if segs == [] {
      StraightOne(t, cur, seg);
    } else {
      StraightStep(t, cur, segs);
      StraightStep(t, cur, segs + [seg]);
      var h := Hop(t, cur, segs[0]);
      if h.Some? {
        StraightSnoc(t, h.value, segs[1..], seg);
      }
    }
  }

  lemma HopAllDirs(t: Tree, cur: Path, seg: string)
    requires AllDirs(t, cur) && Hop(t, cur, seg).Some?
    ensures AllDirs(t, Hop(t, cur, seg).value) && AbsLen(Hop(t, cur, seg).value) <= 4095
  {
    var next := Step(cur, seg);
    if !Plain(seg) || next !in t || t[next].Dir? {
      StepAllDirs(t, cur, seg);
    } else {
      RootAllDirs(t, cur);
      UncrossedAllDirs(t, Base(cur, t[next].link), t[next].link);
    }
  }

  lemma {:induction false} StraightAllDirs(t: Tree, cur: Path, segs: seq<string>)
    requires AllDirs(t, cur) && AbsLen(cur) <= 4095 && Straight(t, cur, segs).Some?
    ensures AllDirs(t, Straight(t, cur, segs).value) && AbsLen(Straight(t, cur, segs).value) <= 4095
    decreases |segs|
  {
    if segs != [] {
      HopAllDirs(t, cur, segs[0]);
      StraightAllDirs(t, Hop(t, cur, segs[0]).value, segs[1..]);
    }
  }

  lemma RootAllDirs(t: Tree, p: Path)
    requires AllDirs(t, p)
    ensures AllDirs(t, [])
  {
    assert p[..0] == [];
  }

  // What a pass makes of them

  /** The string names the directory, through nothing but directories. */
  ghost predicate Names(t: Tree, p: Raw, d: Path) {
    Norm([], p) == d && !Crosses(t, [], p) && Fits(p)
  }

  lemma {:induction false} DownUncrossed(t: Tree, cur: Path, p: Path)
    requires AllPlain(p) && forall k :: 0 <= k <= |p| && cur + p[..k] in t ==> t[cur + p[..k]].Dir?
    ensures !Crosses(t, cur, p)
    decreases |p|
  {
    if p != [] {
      var next := cur + [p[0]];
      assert next == cur + p[..1];
      forall k | 0 <= k <= |p[1..]| && next + p[1..][..k] in t ensures t[next + p[1..][..k]].Dir? {
        assert next + p[1..][..k] == cur + p[..k + 1];
      }
      DownUncrossed(t, next, p[1..]);
    }
  }

  lemma {:induction false} SegsLenGrows(p: Path, k: nat)
    requires k <= |p|
    ensures SegsLen(p[..k]) <= SegsLen(p)
    decreases |p|
  {
    if k < |p| {
      SegsLenGrows(p[..|p| - 1], k);
      assert p[..|p| - 1][..k] == p[..k];
    } else {
      assert p[..k] == p;
    }
  }

  lemma {:induction false} NormUps(ups: Path, d: Path)
    requires (forall i :: 0 <= i < |ups| ==> ups[i] == "" || ups[i] == "..") && AllPlain(d)
    ensures Norm([], ups + d) == d
    decreases |ups|
  {
    if ups == [] {
      assert ups + d == d;
      NormOfPlain([], d);
      assert [] + d == d;
    } else {
      assert (ups + d)[1..] == ups[1..] + d;
      NormUps(ups[1..], d);
    }
  }

  lemma PrefixFits(ups: Path, d: Path, k: nat)
    requires (forall i :: 0 <= i < |ups| ==> ups[i] == "" || ups[i] == "..") && AllPlain(d) && AbsLen(d) <= 4095 && k <= |ups + d|
    ensures AbsLen(Norm([], (ups + d)[..k])) <= 4095
  {
    if k <= |ups| {
      assert (ups + d)[..k] == ups[..k] + [];
      NormUps(ups[..k], []);
    } else {
      assert (ups + d)[..k] == ups + d[..k - |ups|];
      NormUps(ups, d[..k - |ups|]);
      SegsLenGrows(d, k - |ups|);
    }
  }

  lemma {:induction false} RootedNames(t: Tree, ups: Path, d: Path)
    requires (forall i :: 0 <= i < |ups| ==> ups[i] == "" || ups[i] == "..") && AllDirs(t, d)
    ensures Norm([], ups + d) == d && !Crosses(t, [], ups + d)
    decreases |ups|
  {
    if ups == [] {
      assert ups + d == d;
      NormOfPlain([], d);
      assert [] + d == d;
      forall k | 0 <= k <= |d| && [] + d[..k] in t ensures t[[] + d[..k]].Dir? {
        assert [] + d[..k] == d[..k];
      }
      DownUncrossed(t, [], d);
    } else {
      assert (ups + d)[1..] == ups[1..] + d;
      RootedNames(t, ups[1..], d);
    }
  }

  /** Steps up from the root, or none, and then the directory's own names. */
  lemma UpsName(t: Tree, ups: Path, d: Path)
    requires (forall i :: 0 <= i < |ups| ==> ups[i] == "" || ups[i] == "..") && AllDirs(t, d) && AbsLen(d) <= 4095 && ups + d != []
    ensures Names(t, ups + d, d)
  {
    RootedNames(t, ups, d);
    forall k | 1 <= k <= |ups + d| ensures FitsTo(ups + d, k) {
      PrefixFits(ups, d, k);
    }
  }

  lemma {:induction false} TidyIsUps(p: seq<string>) returns (ups: Path, d: Path)
    requires Tidy(p)
    ensures p == ups + d && AllPlain(d) && forall i :: 0 <= i < |ups| ==> ups[i] == ".."
    decreases |p|
  {
    if p == [] {
      ups, d := [], [];
    } else {
      var front, last := p[..|p| - 1], p[|p| - 1];
      assert p == front + [last];
      ups, d := TidyIsUps(front);
      if last == ".." {
        ups, d := p, [];
      } else {
        d := d + [last];
      }
    }
  }

  lemma DotNames(t: Tree)
    ensures Names(t, ["."], [])
  {
    NormOne([], ".");
    assert ["."][..1] == ["."];
    assert FitsTo(["."], 1);
    assert ["."][1..] == [];
  }

  /** A cleaned name of the directory passes through nothing else. */
  lemma CleanNames(t: Tree, p: Raw, d: Path)
    requires Norm([], p) == d && AllDirs(t, d) && AbsLen(d) <= 4095
    ensures Names(t, Clean(p), d)
  {
    CleanMeans(p, []);
    if IsAbs(p) {
      AbsNames(t, d, d);
    } else if Clean(p) == ["."] {
      DotNames(t);
    } else {
      var ups, names := TidyIsUps(Clean(p));
      NormUps(ups, names);
      UpsName(t, ups, d);
    }
  }

  lemma JoinOn(p: Raw, file: string)
    requires file != ""
    ensures Norm([], Join(p, [file])) == Step(Norm([], p), file)
  {
    NormOne([], "");
    NormOne([], file);
    NormAppend([], p, [file]);
    NormOne(Norm([], p), file);
    CleanMeans(p + [file], []);
    CleanMeans([file], []);
  }

  /** A target joined to the directory its link stands in leads where it does from there. */
  lemma JoinTarget(t: Tree, p: Raw, d: Path, link: Raw)
    requires Norm([], p) == d && AllDirs(t, Norm(d, link)) && AbsLen(Norm(d, link)) <= 4095
    ensures Names(t, Join(p, link), Norm(d, link))
  {
    NormOne([], "");
    NormOne(d, "");
    NormAppend([], p, link);
    if p == [""] && link == [""] {
      assert Join(p, link) == [""];
      UpsName(t, [""], []);
      assert [""] + [] == [""];
    } else if p == [""] {
      CleanNames(t, link, Norm(d, link));
    } else if link == [""] {
      CleanNames(t, p, d);
    } else {
      CleanNames(t, p + link, Norm(d, link));
    }
  }

  // One pass over such a path

  lemma WalkLinkAt(t: Tree, cur: Path, seg: string, walked: nat)
    requires WellFormed(t) && AllDirs(t, cur) && walked <= 255 && AbsLen(Step(cur, seg)) <= 4095
    ensures WalkLink(t, Step(cur, seg), walked) == if Plain(seg) && LinkAt(t, Step(cur, seg)) then Target(t[Step(cur, seg)].link) else NoLink
  {
    var q := Step(cur, seg);
    assert cur[..|cur|] == cur;
    if q != [] {
      var up := Parent(q);
      assert up == cur[..|up|] && forall k :: 0 <= k <= |up| ==> up[..k] == cur[..k];
      assert q == up + [Last(q)];
      LookupClear(t, up);
      if q in t {
        assert Hangs(t, q);
        if |q| <= |cur| {
          assert q == cur[..|q|];
        }
      }
    }
  }

  /** What a pass leaves: a string that names the directory, and `n` links expanded in all. */
  ghost predicate Arrives(t: Tree, r: Option<(Raw, nat)>, d: Path, walked: nat, n: nat) {
    r.Some? && r.value.1 == n && Names(t, r.value.0, d) && (n == walked ==> r.value.0 == Abs(d))
  }

  /** One component more: from `cur` with `w` links expanded to `d` with `n`. */
  ghost predicate Onward(t: Tree, cur: Path, file: string, walked: nat, w: nat, d: Path, n: nat) {
    AllDirs(t, cur) && Hop(t, cur, file) == Some(d) && n == w + Takes(t, cur, file) && walked <= w <= 255
  }

  lemma PassLink(t: Tree, newdir: Raw, cur: Path, file: string, walked: nat, w: nat, d: Path, n: nat)
    requires WellFormed(t) && Onward(t, cur, file, walked, w, d, n) && Names(t, newdir, cur) && Plain(file) && LinkAt(t, cur + [file])
    ensures Arrives(t, Follow(Target(t[cur + [file]].link), Some(newdir), cur + [file], w), d, walked, n) == true
  {
    HopAllDirs(t, cur, file);
    if !IsAbs(t[cur + [file]].link) {
      JoinTarget(t, newdir, cur, t[cur + [file]].link);
    }
  }

  lemma PassPlain(t: Tree, newdir: Raw, cur: Path, file: string, walked: nat, w: nat, d: Path, n: nat)
    requires WellFormed(t) && Onward(t, cur, file, walked, w, d, n) && Names(t, newdir, cur) && !(Plain(file) && LinkAt(t, cur + [file]))
    ensures Arrives(t, Follow(NoLink, Some(newdir), Step(cur, file), w), d, walked, n) == true
  {
    HopAllDirs(t, cur, file);
    AbsNames(t, Step(cur, file), d);
  }

  lemma PassStep(t: Tree, newdir: Raw, cur: Path, file: string, walked: nat, w: nat, d: Path, n: nat)
    requires WellFormed(t) && Onward(t, cur, file, walked, w, d, n) && Names(t, newdir, cur) && file != ""
    ensures Arrives(t, Follow(WalkLink(t, Norm([], Join(newdir, [file])), w), Some(newdir), Norm([], Join(newdir, [file])), w), d, walked, n) == true
  {
    JoinOn(newdir, file);
    WalkLinkAt(t, cur, file, w);
    if Plain(file) && LinkAt(t, cur + [file]) {
      PassLink(t, newdir, cur, file, walked, w, d, n);
    } else {
      PassPlain(t, newdir, cur, file, walked, w, d, n);
    }
  }

  lemma TopStep(t: Tree, file: string, walked: nat, d: Path, n: nat)
    requires WellFormed(t) && walked <= 255 && Hop(t, [], file) == Some(d) && n == walked + Takes(t, [], file)
    ensures Arrives(t, Follow(WalkLink(t, Norm([], [file]), walked), None, Norm([], [file]), walked), d, walked, n) == true
  {
    NormOne([], file);
    WalkLinkAt(t, [], file, walked);
    HopAllDirs(t, [], file);
    var q := Step([], file);
    if Plain(file) && LinkAt(t, q) {
      assert [] + [file] == q;
    } else {
      AbsNames(t, q, d);
      assert Plain(file) ==> [] + [file] == q;
    }
  }

  lemma PassOn(t: Tree, dir: Raw, file: string, walked: nat, newdir: Raw, w: nat)
    requires file != "" && WalkLinks(t, dir + [""], walked) == Some((newdir, w))
    ensures var here := Norm([], Join(newdir, [file]));
            WalkLinks(t, dir + [file], walked) == Follow(WalkLink(t, here, w), Some(newdir), here, w)
  {
    assert (dir + [file])[..|dir|] == dir;
  }

  lemma TopPass(t: Tree, file: string, walked: nat, d: Path, n: nat)
    requires WellFormed(t) && walked <= 255 && Hop(t, [], file) == Some(d) && n == walked + Takes(t, [], file)
    ensures Arrives(t, WalkLinks(t, [file], walked), d, walked, n) == true
  {
    TopStep(t, file, walked, d, n);
  }

  lemma OnPass(t: Tree, dir: Raw, file: string, walked: nat, newdir: Raw, w: nat, cur: Path, d: Path, n: nat)
    requires WellFormed(t) && Onward(t, cur, file, walked, w, d, n)
    requires WalkLinks(t, dir + [""], walked) == Some((newdir, w)) && Names(t, newdir, cur) && (w == walked ==> newdir == Abs(cur))
    ensures Arrives(t, WalkLinks(t, dir + [file], walked), d, walked, n) == true
  {
    if file != "" {
      PassStep(t, newdir, cur, file, walked, w, d, n);
      PassOn(t, dir, file, walked, newdir, w);
    }
  }

  lemma LastPass(t: Tree, dir: Raw, file: string, walked: nat, cur: Path, w: nat, d: Path, n: nat)
    requires WellFormed(t) && Arrives(t, WalkLinks(t, dir + [""], walked), cur, walked, w) && Onward(t, cur, file, walked, w, d, n)
    ensures Arrives(t, WalkLinks(t, dir + [file], walked), d, walked, n) == true
  {
    OnPass(t, dir, file, walked, WalkLinks(t, dir + [""], walked).value.0, w, cur, d, n);
  }

  /** The path leads straight to `d`, with `n` links expanded by then. */
  ghost predicate Counts(t: Tree, p: seq<string>, walked: nat, d: Path, n: nat) {
    Straight(t, [], p) == Some(d) && n == walked + Taken(t, [], p) <= 255
  }

  lemma CountsFront(t: Tree, dir: seq<string>, file: string, walked: nat, d: Path, n: nat) returns (cur: Path, w: nat)
    requires WellFormed(t) && Counts(t, dir + [file], walked, d, n)
    ensures Counts(t, dir, walked, cur, w) && Onward(t, cur, file, walked, w, d, n) == true
  {
    StraightSnoc(t, [], dir, file);
    cur, w := Straight(t, [], dir).value, walked + Taken(t, [], dir);
    RootIsDirs(t);
    StraightAllDirs(t, [], dir);
  }

  /** A pass over a path whose links lead straight to directories ends where they lead, having expanded them all. */
  lemma {:induction false} StraightPass(t: Tree, p: Raw, walked: nat, d: Path, n: nat)
    requires WellFormed(t) && Counts(t, p, walked, d, n)
    ensures Arrives(t, WalkLinks(t, p, walked), d, walked, n) == true
    decreases |p|, 1
  {
    var file, dir := p[|p| - 1], p[..|p| - 1];
    SplitLast(p);
    if dir == [] {
      assert p == [file];
      StraightOne(t, [], file);
      TopPass(t, file, walked, d, n);
    } else {
      var cur, w := CountsFront(t, dir, file, walked, d, n);
      StraightTrailing(t, dir, walked, cur, w);
      LastPass(t, dir, file, walked, cur, w, d, n);
    }
  }

  lemma RootIsDirs(t: Tree)
    requires WellFormed(t)
    ensures AllDirs(t, []) && AbsLen([]) == 1
  {
  }

  lemma AbsNames(t: Tree, p: Path, d: Path)
    requires AllDirs(t, d) && AbsLen(d) <= 4095
    ensures p == d ==> Names(t, Abs(p), d)
  {
    if p == d {
      UpsName(t, if d == [] then ["", ""] else [""], d);
      assert Abs(d) == (if d == [] then ["", ""] else [""]) + d;
    }
  }

  lemma {:induction false} StraightTrailing(t: Tree, dir: Raw, walked: nat, d: Path, n: nat)
    requires WellFormed(t) && Counts(t, dir, walked, d, n)
    ensures Arrives(t, WalkLinks(t, dir + [""], walked), d, walked, n) == true
    decreases |dir| + 1, 0
  {
    assert (dir + [""])[..|dir|] == dir;
    if dir == [""] {
      RootIsDirs(t);
      StraightOne(t, [], "");
      AbsNames(t, [], []);
      assert dir + [""] == ["", ""];
    } else {
      StraightPass(t, dir, walked, d, n);
    }
  }

  // Where such a path resolves

  lemma LoopStep(t: Tree, p: Raw, walked: nat, next: Raw, w: nat)
    requires WalkLinks(t, p, walked) == Some((next, w))
    ensures RootLoop(t, p, walked) == if w == walked then Some((Norm([], next), w)) else RootLoop(t, next, w)
  {
  }

  /** Repeating passes from `p` ends at `d`, having expanded `k` links in all. */
  ghost predicate Ends(t: Tree, p: Raw, walked: nat, d: Path, k: nat) {
    RootLoop(t, p, walked) == Some((d, k))
  }

  lemma NamesLoop(t: Tree, p: Raw, walked: nat, d: Path)
    requires WellFormed(t) && Names(t, p, d) && AllPlain(d) && walked <= 255
    ensures Ends(t, p, walked, d, walked) == true
  {
    UncrossedPass(t, p, walked);
    LoopStep(t, p, walked, Abs(d), walked);
    NormAbs(d);
  }

  lemma LoopNext(t: Tree, p: Raw, walked: nat, next: Raw, w: nat, d: Path, k: nat)
    requires WalkLinks(t, p, walked) == Some((next, w)) && w != walked && Ends(t, next, w, d, k)
    ensures Ends(t, p, walked, d, k) == true
  {
  }

  lemma LoopDone(t: Tree, p: Raw, walked: nat, next: Raw, d: Path, n: nat)
    requires WalkLinks(t, p, walked) == Some((next, n)) && Norm([], next) == d && n == walked
    ensures Ends(t, p, walked, d, n) == true
  {
  }

  lemma LoopFrom(t: Tree, p: Raw, walked: nat, next: Raw, d: Path, n: nat)
    requires WellFormed(t) && WalkLinks(t, p, walked) == Some((next, n)) && Names(t, next, d) && AllPlain(d) && n <= 255
    ensures Ends(t, p, walked, d, n) == true
  {
    if n == walked {
      LoopDone(t, p, walked, next, d, n);
    } else {
      NamesLoop(t, next, n, d);
      LoopNext(t, p, walked, next, n, d, n);
    }
  }

  lemma StraightIsPlain(t: Tree, p: Raw)
    requires WellFormed(t) && Straight(t, [], p).Some?
    ensures AllPlain(Straight(t, [], p).value)
  {
    RootIsDirs(t);
    StraightAllDirs(t, [], p);
  }

  lemma StraightLoop(t: Tree, p: Raw, walked: nat, d: Path, n: nat)
    requires WellFormed(t) && Straight(t, [], p) == Some(d) && n == walked + Taken(t, [], p) <= 255
    ensures Ends(t, p, walked, d, n) == true
  {
    StraightIsPlain(t, p);
    StraightPass(t, p, walked, d, n);
    LoopFrom(t, p, walked, WalkLinks(t, p, walked).value.0, d, n);
  }

  lemma LoopOn(t: Tree, p: Raw, next: Raw, walked: nat, r: Path, n: nat)
    requires WellFormed(t) && NamesNext(t, p, next) && walked <= 255 && Ends(t, next, walked + 1, r, n)
    ensures Ends(t, p, walked, r, n) == true
  {
    RelinkPass(t, p, walked);
    LoopNext(t, p, walked, next, walked + 1, r, n);
  }

  lemma {:induction false} UncrossedStraight(t: Tree, cur: Path, segs: seq<string>)
    requires !Crosses(t, cur, segs) && Straight(t, cur, segs).Some?
    ensures Straight(t, cur, segs) == Some(Norm(cur, segs))
    decreases |segs|
  {
    if segs != [] {
      assert Hop(t, cur, segs[0]) == Some(Step(cur, segs[0]));
      UncrossedStraight(t, Step(cur, segs[0]), segs[1..]);
    }
  }

  lemma LoopIsRootPath(t: Tree, p: Raw, r: Path, n: nat)
    requires WellFormed(t) && Ends(t, p, 0, r, n)
    requires !Crosses(t, [], p) ==> Straight(t, [], p) == Some(r)
    ensures RootPath(t, p) == Some(r)
  {
    RootPathCases(t, p);
    if !Crosses(t, [], p) {
      UncrossedStraight(t, [], p);
    }
  }

  lemma RootPathCases(t: Tree, p: Raw)
    ensures RootPath(t, p) == if !Crosses(t, [], p) then Some(Norm([], p)) else
      match RootLoop(t, p, 0)
      case None => None
      case Some((r, _)) => Some(r)
  {
    if p == [""] {
      NormOne([], "");
      assert [""][1..] == [];
    }
  }

  // Links that lead to links

  /** The path without a trailing slash. */
  function Core(p: Raw): Raw {
    if |p| > 1 && p[|p| - 1] == "" then p[..|p| - 1] else p
  }

  function Front(p: Raw): seq<string> {
    p[..|p| - 1]
  }

  /** A symlink under a path of directories. */
  ghost predicate Relinks(t: Tree, p: Raw) {
    var dir, n := Front(Core(p)), SplitEnd(Core(p));
    Plain(n) && !Crosses(t, [], dir) && Fits(Core(p)) && LinkAt(t, Norm([], dir) + [n])
  }

  function SplitEnd(p: Raw): string {
    p[|p| - 1]
  }

  /** The path its target names: as written at the top or when absolute, or else from the directory the link stands in. */
  ghost function Relinked(t: Tree, p: Raw): Raw
    requires Relinks(t, p)
  {
    var dir := Front(Core(p));
    var link := t[Norm([], dir) + [SplitEnd(Core(p))]].link;
    if dir == [] || IsAbs(link) then link else Abs(Norm(Norm([], dir), link))
  }

  /** The one path names the other: it ends at a link, and that is where the link's target leads. */
  ghost predicate NamesNext(t: Tree, p: Raw, next: Raw) {
    Relinks(t, p) && next == Relinked(t, p)
  }

  /** Each path ends at a link that names the next. */
  ghost predicate Chain(t: Tree, ps: seq<Raw>) {
    forall i :: 0 <= i < |ps| - 1 ==> NamesNext(t, ps[i], ps[i + 1])
  }

  /** Each path ends at a link that names the next, and the last leads straight to `r`: `k` links in all. */
  ghost predicate Route(t: Tree, ps: seq<Raw>, r: Path, k: nat) {
    && ps != [] && Chain(t, ps)
    && Straight(t, [], ps[|ps| - 1]) == Some(r) && k == |ps| - 1 + Taken(t, [], ps[|ps| - 1])
  }

  lemma RelinkPass(t: Tree, p: Raw, walked: nat)
    requires WellFormed(t) && Relinks(t, p)
    ensures WalkLinks(t, p, walked) == if walked <= 255 then Some((Relinked(t, p), walked + 1)) else None
  {
    var core := Core(p);
    var dir, n := Front(core), SplitEnd(core);
    SplitLast(core);
    assert core == dir + [n];
    assert WalkLinks(t, p, walked) == WalkLinks(t, core, walked);
    RelinkCore(t, dir, n, walked);
  }

  lemma RelinkTop(t: Tree, n: string, walked: nat)
    requires WellFormed(t) && Plain(n) && Fits([n]) && LinkAt(t, [n])
    ensures WalkLinks(t, [n], walked) == if walked <= 255 then Some((t[[n]].link, walked + 1)) else None
  {
    NormOne([], n);
    FitsLast([], n);
    assert [] + [n] == [n];
    RootIsDirs(t);
    if walked <= 255 { WalkLinkAt(t, [], n, walked); }
  }

  lemma RelinkBelow(t: Tree, dir: Raw, n: string, walked: nat, cur: Path)
    requires WellFormed(t) && Plain(n) && !Crosses(t, [], dir) && Fits(dir + [n]) && cur == Norm([], dir) && LinkAt(t, cur + [n]) && walked <= 255
    ensures WalkLinks(t, dir + [""], walked) == Some((Abs(cur), walked)) && AllDirs(t, cur) && AbsLen(cur + [n]) <= 4095
    ensures Norm([], Join(Abs(cur), [n])) == cur + [n] && Join(Abs(cur), t[cur + [n]].link) == Abs(Norm(cur, t[cur + [n]].link))
  {
    FitsLast(dir, n);
    NormSnoc(dir, n);
    RootIsDirs(t);
    UncrossedAllDirs(t, [], dir);
    UncrossedTrailing(t, dir, walked);
    JoinOn(Abs(cur), n);
    NormAbs(cur);
    NormAppend([], Abs(cur), t[cur + [n]].link);
    NormOne(cur, "");
  }

  lemma Spent(t: Tree, dir: Raw, n: string, walked: nat)
    requires n != "" && walked > 255
    ensures WalkLinks(t, dir + [n], walked).None?
  {
    var r := WalkLinks(t, dir + [""], walked);
    if r.Some? {
      PassOn(t, dir, n, walked, r.value.0, r.value.1);
    } else {
      assert (dir + [n])[..|dir|] == dir;
    }
  }

  lemma RelinkCore(t: Tree, dir: seq<string>, n: string, walked: nat)
    requires WellFormed(t) && Plain(n) && !Crosses(t, [], dir) && Fits(dir + [n]) && LinkAt(t, Norm([], dir) + [n])
    ensures
      var cur := Norm([], dir);
      var link := t[cur + [n]].link;
      WalkLinks(t, dir + [n], walked) ==
        if walked <= 255 then Some((if dir == [] || IsAbs(link) then link else Abs(Norm(cur, link)), walked + 1)) else None
  {
    var cur := Norm([], dir);
    if dir == [] {
      assert dir + [n] == [n] && cur + [n] == [n];
      RelinkTop(t, n, walked);
    } else if walked > 255 {
      Spent(t, dir, n, walked);
    } else {
      RelinkBelow(t, dir, n, walked, cur);
      PassOn(t, dir, n, walked, Abs(cur), walked);
      WalkLinkAt(t, cur, n, walked);
    }
  }

  /** On a route at its `i`th path, so many links expanded of `n` in all. */
  ghost predicate Along(t: Tree, ps: seq<Raw>, r: Path, k: nat, i: nat, walked: nat, n: nat) {
    Route(t, ps, r, k) && i < |ps| && walked + k - i == n <= 255
  }

  lemma AlongNext(t: Tree, ps: seq<Raw>, r: Path, k: nat, i: nat, walked: nat, n: nat)
    requires Along(t, ps, r, k, i, walked, n) && i < |ps| - 1
    ensures NamesNext(t, ps[i], ps[i + 1]) && walked <= 255 && Along(t, ps, r, k, i + 1, walked + 1, n) == true
  {
  }

  lemma RouteEnd(t: Tree, ps: seq<Raw>, r: Path, k: nat, i: nat, walked: nat, n: nat)
    requires WellFormed(t) && Along(t, ps, r, k, i, walked, n) && i == |ps| - 1
    ensures Ends(t, ps[i], walked, r, n) == true
  {
    StraightLoop(t, ps[i], walked, r, n);
  }

  lemma {:induction false} RouteLoop(t: Tree, ps: seq<Raw>, r: Path, k: nat, i: nat, walked: nat, n: nat)
    requires WellFormed(t) && Along(t, ps, r, k, i, walked, n)
    ensures Ends(t, ps[i], walked, r, n) == true
    decreases |ps| - i
  {
    if i == |ps| - 1 {
      RouteEnd(t, ps, r, k, i, walked, n);
    } else {
      AlongNext(t, ps, r, k, i, walked, n);
      RouteLoop(t, ps, r, k, i + 1, walked + 1, n);
      LoopOn(t, ps[i], ps[i + 1], walked, r, n);
    }
  }

  /** A path resolves to where its links lead, if they are no more than may be expanded. */
  lemma RouteResolves(t: Tree, ps: seq<Raw>, r: Path, k: nat)
    requires WellFormed(t) && Route(t, ps, r, k) && k <= 255
    ensures RootPath(t, ps[0]) == Some(r)
  {
    RouteLoop(t, ps, r, k, 0, 0, k);
    RouteCrosses(t, ps, r, k);
    LoopIsRootPath(t, ps[0], r, k);
  }

  lemma RouteCrosses(t: Tree, ps: seq<Raw>, r: Path, k: nat)
    requires WellFormed(t) && Route(t, ps, r, k)
    ensures !Crosses(t, [], ps[0]) ==> Straight(t, [], ps[0]) == Some(r)
  {
    if |ps| > 1 {
      assert NamesNext(t, ps[0], ps[1]);
      RelinkCrosses(t, ps[0]);
    }
  }

  lemma RelinkCrosses(t: Tree, p: Raw)
    requires Relinks(t, p)
    ensures Crosses(t, [], p)
  {
    var core := Core(p);
    var dir, n := Front(core), SplitEnd(core);
    SplitLast(core);
    CrossesAppend(t, [], dir, [n]);
    CrossesAppend(t, [], core, [""]);
    assert p == core || p == core + [""];
  }

  /** Repeating passes from `p` meets a refusal. */
  ghost predicate GivesUp(t: Tree, p: Raw, walked: nat) {
    RootLoop(t, p, walked).None?
  }

  lemma LoopRefused(t: Tree, p: Raw, next: Raw, walked: nat)
    requires WellFormed(t) && NamesNext(t, p, next) && (walked <= 255 ==> GivesUp(t, next, walked + 1))
    ensures GivesUp(t, p, walked) == true
  {
    RelinkPass(t, p, walked);
    if walked <= 255 {
      LoopStep(t, p, walked, next, walked + 1);
    }
  }

  /** So many links still to come, and too many in all. */
  ghost predicate Exceeds(ps: seq<Raw>, i: nat, walked: nat) {
    i < |ps| - 1 && walked + |ps| - i >= 258
  }

  lemma ChainStep(t: Tree, ps: seq<Raw>, i: nat, walked: nat)
    requires WellFormed(t) && Chain(t, ps) && i < |ps| - 1 && (walked <= 255 ==> GivesUp(t, ps[i + 1], walked + 1))
    ensures GivesUp(t, ps[i], walked) == true
  {
    assert NamesNext(t, ps[i], ps[i + 1]);
    LoopRefused(t, ps[i], ps[i + 1], walked);
  }

  /** One link too many is refused, wherever it would lead, and so is a circle. */
  lemma {:induction false} ChainRefused(t: Tree, ps: seq<Raw>, i: nat, walked: nat)
    requires WellFormed(t) && Chain(t, ps) && Exceeds(ps, i, walked)
    ensures GivesUp(t, ps[i], walked) == true
    decreases |ps| - i
  {
    if walked <= 255 {
      ChainRefused(t, ps, i + 1, walked + 1);
    }
    ChainStep(t, ps, i, walked);
  }

  lemma TooManyLinks(t: Tree, ps: seq<Raw>)
    requires WellFormed(t) && Chain(t, ps) && |ps| >= 258
    ensures RootPath(t, ps[0]).None?
  {
    assert NamesNext(t, ps[0], ps[1]);
    RelinkCrosses(t, ps[0]);
    RootPathCases(t, ps[0]);
    ChainRefused(t, ps, 0, 0);
  }

  /** One link in a directory reached through no other: the target, from there or from the root. */
  lemma LinkResolves(t: Tree, d: Path, n: string, link: Raw)
    requires WellFormed(t) && AllDirs(t, d) && Plain(n) && AbsLen(d + [n]) <= 4095
    requires d + [n] in t && t[d + [n]] == Symlink(link)
    requires !Crosses(t, Base(d, link), link) && AbsLen(Norm(Base(d, link), link)) <= 4095 && Fits(link)
    ensures RootPath(t, Abs(d + [n])) == Some(Norm(if IsAbs(link) then [] else d, link))
  {
    var q, to := d + [n], Norm(Base(d, link), link);
    SegsLenGrows(q, |d|);
    assert q[..|d|] == d;
    assert AbsLen(d) <= 4095;
    StraightTo(t, d, n);
    assert Hop(t, d, n) == Some(to) && Takes(t, d, n) == 1;
    RouteResolves(t, [Abs(q)], to, 1);
  }

  lemma StraightTo(t: Tree, d: Path, n: string)
    requires WellFormed(t) && AllDirs(t, d) && AbsLen(d) <= 4095
    ensures Straight(t, [], Abs(d + [n])) == Hop(t, d, n)
    ensures Hop(t, d, n).Some? ==> Taken(t, [], Abs(d + [n])) == Takes(t, d, n)
  {
    var p := Abs(d + [n]);
    assert p == [""] + (d + [n]);
    StraightFromRoot(t, p);
    StraightDown(t, [], d, d);
    StraightSnoc(t, [], d, n);
  }

  lemma StraightFromRoot(t: Tree, p: Path)
    requires p != [] && p[0] == ""
    ensures Straight(t, [], p) == Straight(t, [], p[1..])
    ensures Straight(t, [], p).Some? ==> Taken(t, [], p) == Taken(t, [], p[1..])
  {
    StraightStep(t, [], p);
  }

  /** Down directories that are no links. */
  lemma {:induction false} StraightDown(t: Tree, cur: Path, p: Path, d: Path)
    requires AllDirs(t, d) && AbsLen(d) <= 4095 && d == cur + p
    ensures Straight(t, cur, p) == Some(d) && Taken(t, cur, p) == 0
    decreases |p|
  {
    if p == [] {
      assert cur + p == cur;
    } else {
      var next := cur + [p[0]];
      assert Plain(d[|cur|]) && d[|cur|] == p[0];
      assert next == d[..|cur| + 1] && next + p[1..] == d;
      SegsLenGrows(d, |cur| + 1);
      assert Hop(t, cur, p[0]) == Some(next) && Takes(t, cur, p[0]) == 0;
      StraightStep(t, cur, p);
      StraightDown(t, next, p[1..], d);
    }
  }

  // And one that meets none

  /** A path with no link on it and nothing else but directories above it resolves to itself. */
  lemma ClearResolves(t: Tree, p: Path)
    requires WellFormed(t) && Clear(t, p) && p in t && (t[p].Dir? || AbsLen(p) <= 4095)
    ensures RootPath(t, Abs(p)) == Some(p)
  {
    RootPathCases(t, Abs(p));
    NormAbs(p);
    assert p[..|p|] == p;
    if t[p].Dir? {
      RootedNames(t, if p == [] then ["", ""] else [""], p);
      assert Abs(p) == (if p == [] then ["", ""] else [""]) + p;
    } else {
      assert p == Parent(p) + [Last(p)];
      LeafLoop(t, Parent(p), Last(p));
    }
  }

  lemma LeafLoop(t: Tree, d: Path, n: string)
    requires WellFormed(t) && Clear(t, d + [n]) && d + [n] in t && AbsLen(d + [n]) <= 4095
    ensures RootLoop(t, Abs(d + [n]), 0) == Some((d + [n], 0))
  {
    var q, dir := d + [n], [""] + d;
    assert Plain(q[|d|]) && q[..|d|] == d && Hangs(t, q);
    forall k | 0 <= k <= |d| && d[..k] in t ensures t[d[..k]].Dir? { assert d[..k] == q[..k]; }
    SegsLenGrows(q, |d|);
    assert AbsLen(d) <= 4095 && Abs(q) == dir + [n];
    UpsName(t, [""], d);
    UncrossedTrailing(t, dir, 0);
    PassOn(t, dir, n, 0, Abs(d), 0);
    JoinOn(Abs(d), n);
    NormAbs(d);
    WalkLinkAt(t, d, n, 0);
    NormAbs(q);
    LoopDone(t, Abs(q), 0, Abs(q), q, 0);
  }
}

/** That the kernel's walk ends where a path resolves. */
module KernelRoutes {
  import opened Trees
  import opened PathNames
  import opened Walks
  import opened WalkFacts
  import opened Kernel
  import opened Routes

  lemma Pushed(below: seq<string>, p: seq<string>)
    requires p != []
    ensures below + Reverse(p) != [] && (below + Reverse(p))[|below + Reverse(p)| - 1] == p[0]
    ensures (below + Reverse(p))[..|below + Reverse(p)| - 1] == below + Reverse(p[1..])
  {
  }

  lemma StepStands(t: Tree, cur: Path, seg: string)
    requires WellFormed(t) && IsDirAt(t, cur) && (Plain(seg) ==> Step(cur, seg) in t && t[Step(cur, seg)].Dir?)
    ensures IsDirAt(t, Step(cur, seg))
  {
    assert Hangs(t, cur);
  }

  lemma UncrossedStep(t: Tree, cur: Path, segs: seq<string>, below: seq<string>, followed: nat)
    requires IsDirAt(t, cur) && segs != [] && !Crosses(t, cur, segs) && followed <= 40
    ensures
      var r, next := KernelWalk(t, cur, below + Reverse(segs), followed), Step(cur, segs[0]);
      if Plain(segs[0]) && next !in t then r.None? else r == KernelWalk(t, next, below + Reverse(segs[1..]), followed)
  {
    Pushed(below, segs);
  }

  /** Over directories alone the kernel goes where cleaning says, or finds nothing. */
  lemma {:induction false} KernelUncrossed(t: Tree, cur: Path, segs: seq<string>, below: seq<string>, followed: nat)
    requires WellFormed(t) && IsDirAt(t, cur) && !Crosses(t, cur, segs) && followed <= 40
    ensures
      var r := KernelWalk(t, cur, below + Reverse(segs), followed);
      r.None? || (r == KernelWalk(t, Norm(cur, segs), below, followed) && IsDirAt(t, Norm(cur, segs)))
    decreases |segs|
  {
    if segs == [] {
      assert below + [] == below;
    } else {
      UncrossedStep(t, cur, segs, below, followed);
      var next := Step(cur, segs[0]);
      if !Plain(segs[0]) || next in t {
        StepStands(t, cur, segs[0]);
        KernelUncrossed(t, next, segs[1..], below, followed);
      }
    }
  }

  /** The kernel's walk finds nothing, or has the rest to go from `d`, `n` links followed in all. */
  ghost predicate Goes(t: Tree, cur: Path, pending: seq<string>, followed: nat, d: Path, rest: seq<string>, n: nat)
    requires followed <= 40
  {
    var r := KernelWalk(t, cur, pending, followed);
    r.None? || (n <= 40 && r == KernelWalk(t, d, rest, n) && IsDirAt(t, d))
  }

  lemma KernelHop(t: Tree, cur: Path, seg: string, rest: seq<string>, followed: nat, next: Path, now: nat)
    requires WellFormed(t) && IsDirAt(t, cur) && followed <= 40 && Hop(t, cur, seg) == Some(next) && now == followed + Takes(t, cur, seg)
    ensures Goes(t, cur, rest + [seg], followed, next, rest, now) == true
  {
    var q := Step(cur, seg);
    assert (rest + [seg])[..|rest|] == rest;
    if !Plain(seg) || (q in t && t[q].Dir?) {
      StepStands(t, cur, seg);
    } else if q in t && followed < 40 {
      assert Hangs(t, cur) && IsDirAt(t, []);
      KernelUncrossed(t, Base(cur, t[q].link), t[q].link, rest, followed + 1);
    }
  }

  lemma GoesOn(t: Tree, a: Path, x: seq<string>, f: nat, b: Path, y: seq<string>, g: nat, c: Path, z: seq<string>, n: nat)
    requires f <= 40 && Goes(t, a, x, f, b, y, g) && (g <= 40 && IsDirAt(t, b) ==> Goes(t, b, y, g, c, z, n))
    ensures Goes(t, a, x, f, c, z, n) == true
  {
  }

  lemma GoesNowhere(t: Tree, cur: Path, pending: seq<string>, followed: nat)
    requires followed <= 40 && IsDirAt(t, cur)
    ensures Goes(t, cur, pending, followed, cur, pending, followed) == true
  {
  }

  /** And through links that lead straight, counting each. */
  lemma {:induction false} KernelStraight(t: Tree, cur: Path, segs: seq<string>, below: seq<string>, followed: nat, d: Path, n: nat)
    requires WellFormed(t) && IsDirAt(t, cur) && followed <= 40 && Straight(t, cur, segs) == Some(d) && n == followed + Taken(t, cur, segs)
    ensures Goes(t, cur, below + Reverse(segs), followed, d, below, n) == true
    decreases |segs|
  {
    if segs == [] {
      assert below + Reverse(segs) == below;
      KernelEnd(t, cur, below, followed, d, n);
    } else {
      Pushed(below, segs);
      StraightStep(t, cur, segs);
      var rest, next := below + Reverse(segs[1..]), Hop(t, cur, segs[0]).value;
      var now := followed + Takes(t, cur, segs[0]);
      assert below + Reverse(segs) == rest + [segs[0]];
      KernelHop(t, cur, segs[0], rest, followed, next, now);
      if now <= 40 && IsDirAt(t, next) {
        KernelStraight(t, next, segs[1..], below, now, d, n);
      }
      GoesOn(t, cur, below + Reverse(segs), followed, next, rest, now, d, below, n);
    }
  }

  lemma KernelEnd(t: Tree, cur: Path, below: seq<string>, followed: nat, d: Path, n: nat)
    requires IsDirAt(t, cur) && followed <= 40 && d == cur && n == followed
    ensures Goes(t, cur, below, followed, d, below, n) == true
  {
    GoesNowhere(t, cur, below, followed);
  }

  lemma {:induction false} ReverseSum(a: seq<string>, b: seq<string>)
    ensures Reverse(a + b) == Reverse(b) + Reverse(a)
    decreases |a|
  {
    if a == [] {
      assert a + b == b && Reverse(b) + [] == Reverse(b);
    } else {
      ReverseSum(a[1..], b);
      assert (a + b)[1..] == a[1..] + b;
    }
  }

  lemma ReverseAbs(e: Path, n: string)
    ensures Reverse(Abs([])) == ["", ""] && Reverse(Abs([n])) == [n, ""]
    ensures e != [] ==> Reverse(Abs(e + [n])) == [n] + Reverse(Abs(e))
  {
    assert Reverse([""]) == [""] && Reverse([n]) == [n];
    ReverseSum([""], [""]);
    assert [""] + [""] == ["", ""];
    ReverseSum([""], [n]);
    assert [""] + [n] == Abs([n]) && [n] + [""] == [n, ""];
    if e != [] {
      ReverseSum([""] + e, [n]);
      assert Abs(e + [n]) == ([""] + e) + [n];
    }
  }

  lemma KernelStep(t: Tree, cur: Path, rest: seq<string>, seg: string, followed: nat)
    requires followed <= 40
    ensures seg == "" ==> KernelWalk(t, cur, rest + [seg], followed) == KernelWalk(t, cur, rest, followed)
    ensures Plain(seg) && IsDirAt(t, cur + [seg]) ==>
      KernelWalk(t, cur, rest + [seg], followed) == KernelWalk(t, cur + [seg], rest, followed)
  {
    assert (rest + [seg])[..|rest|] == rest;
  }

  lemma DownOne(t: Tree, n: string, below: seq<string>, followed: nat)
    requires IsDirAt(t, [n]) && Plain(n) && followed <= 40
    ensures KernelWalk(t, [], below + Reverse(Abs([n])), followed) == KernelWalk(t, [n], below, followed)
  {
    ReverseAbs([], n);
    KernelStep(t, [], below + [n], "", followed);
    assert [] + [n] == [n];
    KernelStep(t, [], below, n, followed);
    assert below + [n, ""] == below + [n] + [""];
  }

  lemma DownNone(t: Tree, below: seq<string>, followed: nat)
    requires followed <= 40
    ensures KernelWalk(t, [], below + Reverse(Abs([])), followed) == KernelWalk(t, [], below, followed)
  {
    ReverseAbs([], "");
    KernelStep(t, [], below + [""], "", followed);
    KernelStep(t, [], below, "", followed);
    assert below + ["", ""] == below + [""] + [""];
  }

  /** From the root down to a directory that is there. */
  lemma {:induction false} KernelDown(t: Tree, e: Path, below: seq<string>, followed: nat)
    requires WellFormed(t) && IsDirAt(t, e) && AllPlain(e) && followed <= 40
    ensures KernelWalk(t, [], below + Reverse(Abs(e)), followed) == KernelWalk(t, e, below, followed)
    decreases |e|
  {
    if e == [] {
      DownNone(t, below, followed);
    } else {
      var up, n := Parent(e), Last(e);
      assert e == up + [n] && Hangs(t, e);
      if up == [] {
        assert e == [n];
        DownOne(t, n, below, followed);
      } else {
        ReverseAbs(up, n);
        KernelDown(t, up, below + [n], followed);
        KernelStep(t, up, below, n, followed);
        assert below + ([n] + Reverse(Abs(up))) == below + [n] + Reverse(Abs(up));
      }
    }
  }

  lemma KernelHome(t: Tree, e: Path, last: string, followed: nat)
    requires WellFormed(t) && IsDirAt(t, e) && AllPlain(e) && followed <= 40
    ensures KernelWalk(t, e, [last], followed) == KernelWalk(t, [], Reverse(Abs(Step(e, last))), followed)
  {
    if Plain(last) {
      HomePlain(t, e, last, followed);
    } else {
      assert [last][..0] == [];
      StepStands(t, e, last);
      HomeDot(t, Step(e, last), followed);
    }
  }

  lemma HomeDot(t: Tree, e: Path, followed: nat)
    requires WellFormed(t) && IsDirAt(t, e) && AllPlain(e) && followed <= 40
    ensures KernelWalk(t, [], Reverse(Abs(e)), followed) == Some(e)
  {
    KernelDown(t, e, [], followed);
    assert [] + Reverse(Abs(e)) == Reverse(Abs(e));
  }

  lemma HomePlain(t: Tree, e: Path, last: string, followed: nat)
    requires WellFormed(t) && IsDirAt(t, e) && AllPlain(e) && followed <= 40
    ensures KernelWalk(t, e, [last], followed) == KernelWalk(t, [], Reverse(Abs(e + [last])), followed)
  {
    ReverseAbs(e, last);
    if e == [] {
      KernelStep(t, [], [last], "", followed);
      assert [last] + [""] == [last, ""];
      assert [] + [last] == [last];
    } else {
      KernelDown(t, e, [last], followed);
    }
  }

  /** A trailing slash asks for a directory, and changes nothing else. */
  lemma {:induction false} KernelTrailing(t: Tree, cur: Path, pending: seq<string>, followed: nat)
    requires followed <= 40
    ensures
      var r := KernelWalk(t, cur, [""] + pending, followed);
      r.None? || r == KernelWalk(t, cur, pending, followed)
    decreases 40 - followed, |pending|
  {
    var all := [""] + pending;
    if pending == [] {
      assert all == [""] && all[..0] == [];
    } else {
      var seg, rest := pending[|pending| - 1], pending[..|pending| - 1];
      assert all[..|all| - 1] == [""] + rest;
      if seg == "" || seg == "." {
        KernelTrailing(t, cur, rest, followed);
      } else if seg == ".." {
        KernelTrailing(t, if cur == [] then cur else Parent(cur), rest, followed);
      } else if cur + [seg] in t {
        match t[cur + [seg]]
        case Dir(_, _) => KernelTrailing(t, cur + [seg], rest, followed);
        case Symlink(link) =>
          if followed < 40 {
            KernelTrailing(t, if IsAbs(link) then [] else cur, Push(rest, link), followed + 1);
            assert [""] + Push(rest, link) == Push([""] + rest, link);
          }
        case _ =>
      }
    }
  }

  /** A relative target passes through no link before its own end. */
  ghost predicate Joins(t: Tree, p: Raw) {
    var dir, q := Front(Core(p)), Norm([], Front(Core(p))) + [SplitEnd(Core(p))];
    LinkAt(t, q) && (dir == [] || IsAbs(t[q].link) || !Crosses(t, Norm([], dir), Front(t[q].link)))
  }

  lemma ReverseSlash(core: Raw)
    ensures Reverse(core) == [SplitEnd(core)] + Reverse(Front(core))
    ensures Reverse(core + [""]) == [""] + Reverse(core)
  {
    SplitLast(core);
    ReverseSum(Front(core), [SplitEnd(core)]);
    ReverseSum(core, [""]);
    assert Reverse([SplitEnd(core)]) == [SplitEnd(core)] && Reverse([""]) == [""];
  }

  lemma RelinkParts(p: Raw) returns (dir: seq<string>, n: string, rest: seq<string>)
    ensures dir == Front(Core(p)) && n == SplitEnd(Core(p)) && (rest == [] || rest == [""])
    ensures Reverse(p) == (rest + [n]) + Reverse(dir)
  {
    dir, n := Front(Core(p)), SplitEnd(Core(p));
    ReverseSlash(Core(p));
    if p == Core(p) {
      rest := [];
      assert rest + [n] == [n];
    } else {
      rest := [""];
      SplitLast(p);
      assert [""] + ([n] + Reverse(dir)) == (rest + [n]) + Reverse(dir);
    }
  }

  lemma KernelRelink(t: Tree, p: Raw, followed: nat)
    requires WellFormed(t) && Relinks(t, p) && Joins(t, p) && followed <= 40
    ensures Goes(t, [], Reverse(p), followed, [], if followed < 40 then Reverse(Relinked(t, p)) else [], followed + 1) == true
  {
    var dir, n, rest := RelinkParts(p);
    var cur := Norm([], dir);
    assert IsDirAt(t, []);
    KernelUncrossed(t, [], dir, rest + [n], followed);
    NormPlain([], dir);
    if IsDirAt(t, cur) {
      KernelLink(t, cur, n, rest, followed);
      if followed < 40 {
        RelinkFrom(t, cur, t[cur + [n]].link, dir == [], rest == [""], followed + 1);
      }
    }
  }

  lemma KernelLink(t: Tree, cur: Path, n: string, rest: seq<string>, followed: nat)
    requires Plain(n) && LinkAt(t, cur + [n]) && followed <= 40
    ensures KernelWalk(t, cur, rest + [n], followed) ==
      if followed == 40 then None else KernelWalk(t, Base(cur, t[cur + [n]].link), rest + Reverse(t[cur + [n]].link), followed + 1)
  {
    assert (rest + [n])[..|rest|] == rest;
  }

  /** An absolute link met anywhere in the walk starts it again from the root. */
  lemma AbsoluteStartsAgain(t: Tree, cur: Path, n: string, rest: seq<string>, followed: nat)
    requires Plain(n) && LinkAt(t, cur + [n]) && IsAbs(t[cur + [n]].link) && followed < 40
    ensures KernelWalk(t, cur, rest + [n], followed) == KernelWalk(t, [], rest + Reverse(t[cur + [n]].link), followed + 1)
  {
    KernelLink(t, cur, n, rest, followed);
  }

  lemma RelinkFrom(t: Tree, cur: Path, link: Raw, top: bool, slash: bool, followed: nat)
    requires WellFormed(t) && IsDirAt(t, cur) && AllPlain(cur) && followed <= 40 && (top ==> cur == [])
    requires top || IsAbs(link) || !Crosses(t, cur, Front(link))
    ensures
      var r := KernelWalk(t, Base(cur, link), (if slash then [""] else []) + Reverse(link), followed);
      r.None? || r == KernelWalk(t, [], Reverse(if top || IsAbs(link) then link else Abs(Norm(cur, link))), followed)
  {
    assert [] + Reverse(link) == Reverse(link);
    if slash {
      KernelTrailing(t, Base(cur, link), Reverse(link), followed);
    }
    if !top && !IsAbs(link) {
      var front, last := Front(link), link[|link| - 1];
      SplitLast(link);
      ReverseSum(front, [last]);
      assert Reverse([last]) == [last];
      KernelUncrossed(t, cur, front, [last], followed);
      NormAppend(cur, front, [last]);
      NormOne(Norm(cur, front), last);
      NormPlain(cur, front);
      if IsDirAt(t, Norm(cur, front)) {
        KernelHome(t, Norm(cur, front), last, followed);
      }
    }
  }

  /** Wherever the kernel's walk of such a path ends at all, it ends where the path resolves, within its own limit of links. */
  lemma {:induction false} KernelRoute(t: Tree, ps: seq<Raw>, r: Path, k: nat, i: nat, followed: nat, n: nat)
    requires WellFormed(t) && Route(t, ps, r, k) && i < |ps| && followed <= 40 && n == followed + k - i
    requires forall j :: 0 <= j < |ps| - 1 ==> Joins(t, ps[j])
    ensures Goes(t, [], Reverse(ps[i]), followed, r, [], n) == true
    decreases |ps| - i
  {
    if i == |ps| - 1 {
      KernelAlone(t, ps[i], followed, r, n);
    } else {
      assert NamesNext(t, ps[i], ps[i + 1]);
      if followed < 40 {
        KernelRoute(t, ps, r, k, i + 1, followed + 1, n);
      }
      RouteOn(t, ps[i], ps[i + 1], r, followed, n);
    }
  }

  lemma KernelAlone(t: Tree, p: Raw, followed: nat, d: Path, n: nat)
    requires WellFormed(t) && followed <= 40 && Straight(t, [], p) == Some(d) && n == followed + Taken(t, [], p)
    ensures Goes(t, [], Reverse(p), followed, d, [], n) == true
  {
    assert [] + Reverse(p) == Reverse(p);
    KernelStraight(t, [], p, [], followed, d, n);
  }

  lemma RouteOn(t: Tree, p: Raw, next: Raw, r: Path, followed: nat, n: nat)
    requires WellFormed(t) && NamesNext(t, p, next) && Joins(t, p) && followed <= 40
    requires followed < 40 ==> Goes(t, [], Reverse(next), followed + 1, r, [], n)
    ensures Goes(t, [], Reverse(p), followed, r, [], n) == true
  {
    KernelRelink(t, p, followed);
    if followed < 40 {
      GoesOn(t, [], Reverse(p), followed, [], Reverse(next), followed + 1, r, [], n);
    }
  }

  /** Where the extractor resolves a path, the kernel walks it, or finds nothing. */
  lemma ResolvesAsKernel(t: Tree, ps: seq<Raw>, r: Path, k: nat)
    requires WellFormed(t) && Route(t, ps, r, k) && k <= 255 && forall i :: 0 <= i < |ps| - 1 ==> Joins(t, ps[i])
    requires KernelWalk(t, [], Push([], ps[0]), 0).Some?
    ensures KernelWalk(t, [], Push([], ps[0]), 0) == RootPath(t, ps[0]) == Some(r) && k <= 40
  {
    RouteResolves(t, ps, r, k);
    KernelRoute(t, ps, r, k, 0, 0, k);
    assert Push([], ps[0]) == Reverse(ps[0]);
  }
}

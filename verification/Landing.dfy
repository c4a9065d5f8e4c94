/** What one archive entry changes in a layer, and what it leaves as it was. */
module Landing {
  import opened Trees
  import opened PathNames
  import opened Walks
  import opened WalkFacts
  import opened Extraction
  import opened Routes

  /** No layer from `from` up says anything of a directory at `p`. */
  ghost predicate Silent(lowers: seq<Tree>, p: Path, from: nat) {
    forall j :: from <= j < |lowers| ==> InheritFrom(lowers[j], p).Nothing?
  }

  /** Layers that say nothing pass the question down. */
  lemma {:induction false} SilentPassesDown(lowers: seq<Tree>, p: Path, from: nat)
    requires from <= |lowers| && Silent(lowers, p, from)
    ensures Inherit(lowers, p) == Inherit(lowers[..from], p)
    decreases |lowers|
  {
    var n := |lowers| - 1;
    if from == |lowers| {
      assert lowers[..from] == lowers;
    } else {
      InheritStep(lowers, p, Nothing);
      SilentPassesDown(lowers[..n], p, from);
      assert lowers[..n][..from] == lowers[..from];
    }
  }

  function Said(source: Source): Option<Option<DirInfo>> {
    match source
    case Nothing => Some(None)
    case Fails => None
    case Gives(info) => Some(info)
  }

  /** A made directory takes the word of the nearest layer below that says anything of it, or says nothing of itself where none does. */
  lemma InheritIsNearest(lowers: seq<Tree>, p: Path, from: nat)
    requires from <= |lowers| && Silent(lowers, p, from) && (from > 0 ==> !InheritFrom(lowers[from - 1], p).Nothing?)
    ensures Inherit(lowers, p) == Said(if from == 0 then Nothing else InheritFrom(lowers[from - 1], p))
  {
    SilentPassesDown(lowers, p, from);
    if from == 0 {
      assert lowers[..0] == [];
    } else {
      InheritStep(lowers[..from], p, InheritFrom(lowers[from - 1], p));
    }
  }

  /** `q` is a directory made on the way to `p`, with what the layers below say of it. */
  ghost predicate MadeOnTheWay(t: Tree, lowers: seq<Tree>, p: Path, q: Path) {
    && q != [] && q <= p && q in t && t[q].Dir? && !t[q].hides
    && Inherit(lowers, q) == Some(t[q].info)
  }

  lemma {:induction false} MakeParentsAdds(t: Tree, lowers: seq<Tree>, p: Path, k: nat, q: Path)
    requires k <= |p|
    ensures
      var made := MakeParents(t, lowers, p, k).0;
      if q in t then q in made && made[q] == t[q] else q in made ==> MadeOnTheWay(made, lowers, p, q)
    decreases |p| - k
  {
    if k < |p| {
      var next := p[..k + 1];
      var one := MakeOne(t, lowers, next);
      if one.Some? {
        MakeParentsAdds(one.value, lowers, p, k + 1, q);
        MakeParentsAdds(one.value, lowers, p, k + 1, next);
      }
    }
  }

  /** Where an entry of this name takes effect, once its directory has resolved to `p`. */
  function LandsAt(p: Path, base: string): Path {
    if base == OPAQUE_MARKER then p
    else if WHITEOUT_PREFIX <= base then p + [base[|WHITEOUT_PREFIX|..]]
    else p + [base]
  }

  predicate IsMarker(base: string) {
    base == OPAQUE_MARKER || WHITEOUT_PREFIX <= base
  }

  /** Whether the entry keeps what the layer already has below where it lands. */
  ghost predicate KeepsBelow(before: Tree, p: Path, base: string, h: Header) {
    IsMarker(base) || (h.flag.Directory? && IsDirAt(before, LandsAt(p, base)))
  }

  /** What stands at a path is as it was, but that a directory may have been marked or described anew; no mark is lifted. */
  ghost predicate StaysAt(before: Tree, after: Tree, c: Path) {
    || c !in before
    || (c in after && (after[c] == before[c] || (before[c].Dir? && after[c].Dir? && (before[c].hides ==> after[c].hides))))
  }

  /** What placing an entry leaves of the layer at `q`: all of it outside where the entry lands, and there what it does not replace. */
  ghost predicate Framed(before: Tree, after: Tree, p: Path, base: string, h: Header, q: Path) {
    var c, keeps := LandsAt(p, base), KeepsBelow(before, p, base, h);
    && (!(c <= q) ==> (q in after <==> q in before) && (q in before ==> after[q] == before[q]))
    && (c < q ==> if keeps then (q in after <==> q in before) && (q in before ==> after[q] == before[q]) else q !in after)
    && (c == q && keeps ==> StaysAt(before, after, c))
  }

  lemma PlaceFramed(t: Tree, p: Path, base: string, h: Header, q: Path)
    requires WellFormed(t) && IsDirAt(t, p) && PlaceEntry(t, p, base, h).1
    ensures Framed(t, PlaceEntry(t, p, base, h).0, p, base, h, q)
  {
    var c := LandsAt(p, base);
    assert c <= c;
  }

  /** The tree an entry is placed in: the layer with the directories on the way to it made. */
  function Prepared(t: Tree, lowers: seq<Tree>, p: Path): Tree {
    MakeParents(t, lowers, p, 0).0
  }

  /** The headers the extractor passes over: they name the layer's root, or what is above it. */
  predicate Skipped(h: Header) {
    var name := Clean(h.name);
    name == ["."] || name == ["", ""] || SplitBase(name) == ".."
  }

  /**
   * A taken entry lands where its directory resolves to, on a layer with nothing added but the
   * directories on the way there, and changes nothing anywhere else.
   */
  lemma EntryLands(t: Tree, lowers: seq<Tree>, h: Header, q: Path)
    requires WellFormed(t) && Extracted(t, lowers, h).1 && !Skipped(h)
    ensures RootPath(t, SplitDir(Clean(h.name))).Some?
    ensures
      var p, base := RootPath(t, SplitDir(Clean(h.name))).value, SplitBase(Clean(h.name));
      var before, after := Prepared(t, lowers, p), Extracted(t, lowers, h).0;
      && (q in t ==> q in before && before[q] == t[q])
      && (q in before && q !in t ==> MadeOnTheWay(before, lowers, p, q))
      && Framed(before, after, p, base, h, q)
  {
    var p, base := RootPath(t, SplitDir(Clean(h.name))).value, SplitBase(Clean(h.name));
    MakeParentsWellFormed(t, lowers, p, 0);
    MakeParentsAdds(t, lowers, p, 0, q);
    PlaceFramed(Prepared(t, lowers, p), p, base, h, q);
  }

  // What stands where an entry lands

  /** Where the entry lands if its directory resolves to `p`: named for itself, marker or not. */
  ghost predicate Goes(t: Tree, lowers: seq<Tree>, h: Header, p: Path) {
    && !Skipped(h) && RawLen(Clean(h.name)) <= 4095
    && RootPath(t, SplitDir(Clean(h.name))) == Some(p) && MakeParents(t, lowers, p, 0).1
  }

  /** What a hard link shares: a non-directory under the last component of its target, in the directory the rest resolves to. */
  ghost predicate Shares(t: Tree, link: Raw, e: Entry) {
    exists d, q :: RootPath(t, SplitDir(link)) == Some(d) && q == Norm(d, [SplitBase(link)]) && q in t && t[q] == e && !e.Dir?
  }

  lemma TargetNamed(t: Tree, link: Raw, d: Path)
    requires WellFormed(t) && RootPath(t, SplitDir(link)) == Some(d)
    ensures Clear(t, d) && Norm([], Join(Abs(d), [SplitBase(link)])) == Step(d, SplitBase(link)) == Norm(d, [SplitBase(link)])
  {
    var last := SplitBase(link);
    RootPathClear(t, SplitDir(link));
    NormOne(d, last);
    if last == "" {
      NormAbs(d);
      CleanAbs(d);
    } else {
      JoinOne(d, last);
    }
  }

  lemma TargetShown(t: Tree, link: Raw, d: Path)
    requires WellFormed(t) && RootPath(t, SplitDir(link)) == Some(d)
    ensures var q, r := Norm(d, [SplitBase(link)]), Lstat(t, Norm([], Join(Abs(d), [SplitBase(link)])));
            if q in t then r == Found(q) else !r.Found?
  {
    TargetNamed(t, link, d);
    ClearLstat(t, d, SplitBase(link));
  }

  lemma CleanAbs(d: Path)
    requires AllPlain(d)
    ensures Clean(Abs(d)) == Abs(d) && Join(Abs(d), [""]) == Abs(d)
  {
    NormAbs(d);
  }

  /** Through a clear directory, lstat finds what the tree has. */
  lemma ClearLstat(t: Tree, d: Path, last: string)
    requires WellFormed(t) && Clear(t, d)
    ensures var q := Step(d, last); if q in t then Lstat(t, q) == Found(q) else !Lstat(t, q).Found?
  {
    var q := Step(d, last);
    assert d[..|d|] == d;
    if q != [] {
      var up := Parent(q);
      assert up == d[..|up|] && forall k :: 0 <= k <= |up| ==> up[..k] == d[..k];
      assert q == up + [Last(q)];
      if q in t {
        assert Hangs(t, q);
        LookupClear(t, up);
      } else if up in t && !t[up].Dir? {
        assert up == d;
        LookupPastLeaf(t, up);
      } else {
        LookupClear(t, up);
      }
    }
  }

  lemma SharesOne(t: Tree, link: Raw, e: Entry)
    ensures RootPath(t, SplitDir(link)).None? ==> !Shares(t, link, e)
    ensures RootPath(t, SplitDir(link)).Some? ==>
      var q := Norm(RootPath(t, SplitDir(link)).value, [SplitBase(link)]);
      Shares(t, link, e) <==> q in t && t[q] == e && !e.Dir?
  {
  }

  lemma LinkMade(t: Tree, link: Raw, e: Entry)
    requires WellFormed(t)
    ensures LinkEntry(t, link) == Some(e) <==> Shares(t, link, e)
  {
    SharesOne(t, link, e);
    var d := RootPath(t, SplitDir(link));
    if d.Some? {
      TargetShown(t, link, d.value);
    }
  }

  /** What the entry puts under its name, by its type. A directory keeps the mark of one already there. */
  lemma EntryShows(t: Tree, lowers: seq<Tree>, h: Header, p: Path)
    requires WellFormed(t) && Goes(t, lowers, h, p) && !IsMarker(SplitBase(Clean(h.name))) && Extracted(t, lowers, h).1
    ensures
      var before, after, c := Prepared(t, lowers, p), Extracted(t, lowers, h).0, p + [SplitBase(Clean(h.name))];
      match h.flag
      case GlobalHeader => c !in after
      case Regular => c in after && after[c] == File
      case CharDevice => c in after && after[c] == if h.devmajor == 0 && h.devminor == 0 then Whiteout else File
      case SymbolicLink => c in after && after[c] == Symlink(h.linkname)
      case HardLink => c in after && Shares(before, h.linkname, after[c])
      case Directory =>
        c in after && after[c].Dir? && after[c].info == Some(h.info) && (after[c].hides <==> IsDirAt(before, c) && before[c].hides)
  {
    MakeParentsWellFormed(t, lowers, p, 0);
    if h.flag.HardLink? {
      LinkMade(Prepared(t, lowers, p), h.linkname, LinkEntry(Prepared(t, lowers, p), h.linkname).value);
    }
  }

  /** Whether it is taken at all: a symlink needs a target that fits, a hard link something to share. */
  lemma EntryTaken(t: Tree, lowers: seq<Tree>, h: Header, p: Path)
    requires WellFormed(t) && Goes(t, lowers, h, p)
    ensures Extracted(t, lowers, h).1 <==>
      || IsMarker(SplitBase(Clean(h.name)))
      || match h.flag
         case SymbolicLink => h.linkname != [""] && RawLen(h.linkname) <= 4095
         case HardLink => exists e :: Shares(Prepared(t, lowers, p), h.linkname, e)
         case _ => true
  {
    MakeParentsWellFormed(t, lowers, p, 0);
    if h.flag.HardLink? {
      var made := LinkEntry(Prepared(t, lowers, p), h.linkname);
      forall e ensures made == Some(e) <==> Shares(Prepared(t, lowers, p), h.linkname, e) {
        LinkMade(Prepared(t, lowers, p), h.linkname, e);
      }
      assert made.Some? ==> Shares(Prepared(t, lowers, p), h.linkname, made.value);
    }
  }

  /** A marker is taken whatever its type: an opaque one marks any directory but the root, a whiteout stands where nothing did. */
  lemma MarkerShows(t: Tree, lowers: seq<Tree>, h: Header, p: Path)
    requires WellFormed(t) && Goes(t, lowers, h, p) && IsMarker(SplitBase(Clean(h.name)))
    ensures Extracted(t, lowers, h).1
    ensures
      var before, after, base := Prepared(t, lowers, p), Extracted(t, lowers, h).0, SplitBase(Clean(h.name));
      if base == ".wh..wh..opq" then
        if p == [] then after == before else IsDirAt(after, p) && after[p].hides && after[p].info == before[p].info
      else
        var victim := p + [base[4..]];
        if |base| == 4 || victim in before then after == before else victim in after && after[victim] == Whiteout
  {
    MakeParentsWellFormed(t, lowers, p, 0);
  }

  /** Headers that name the root, or what is above it, are passed over. */
  lemma SkippedIsNothing(t: Tree, lowers: seq<Tree>, h: Header)
    requires Skipped(h)
    ensures Extracted(t, lowers, h) == (t, true)
  {
  }

  lemma ClearFound(t: Tree, p: Path)
    requires WellFormed(t) && Clear(t, p) && p in t
    ensures Lstat(t, p) == Found(p)
  {
    if p != [] {
      assert p == Parent(p) + [Last(p)] && Plain(Last(p));
      ClearPrefix(t, p, |p| - 1);
      ClearLstat(t, Parent(p), Last(p));
    }
  }

  /** What a layer says of a path it reaches through no link: its directory's own metadata, root's where something else stands. */
  lemma InheritFromClear(t: Tree, p: Path)
    requires WellFormed(t) && Clear(t, p) && p in t && (t[p].Dir? || AbsLen(p) <= 4095)
    ensures InheritFrom(t, p) == Gives(if t[p].Dir? then t[p].info else Some(DirInfo(0, 0, 493)))
  {
    ClearResolves(t, p);
    ClearFound(t, p);
  }
}

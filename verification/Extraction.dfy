/** Applying one archive entry to a layer, as a function of the layer's tree and the trees below it. */
module Extraction {
  import opened Trees
  import opened PathNames
  import opened Walks

  datatype TypeFlag = GlobalHeader | CharDevice | Directory | SymbolicLink | HardLink | Regular

  datatype Header = Header(name: Raw, flag: TypeFlag, linkname: Raw, info: DirInfo, devmajor: int, devminor: int)

  const ROOT_OWNED := DirInfo(0, 0, 493)  // mode 0755

  /** path.Split: what precedes the last slash, slash included, and what follows it. */
  function SplitDir(p: Raw): Raw {
    if |p| == 1 then [""] else p[..|p| - 1] + [""]
  }

  function SplitBase(p: Raw): string {
    p[|p| - 1]
  }

  /** What one layer below says of a directory made at `p`. */
  datatype Source = Fails | Nothing | Gives(info: Option<DirInfo>)

  function InheritFrom(t: Tree, p: Path): Source {
    match RootPath(t, Abs(p))
    case None => Fails
    case Some(q) =>
      match Lstat(t, q)
      case Failed => Fails
      case Absent => Nothing
      case Found(r) => Gives(if r in t && t[r].Dir? then t[r].info else Some(ROOT_OWNED))
  }

  /** The metadata of a directory made at `p`: from the nearest layer below that resolves it. */
  function Inherit(lowers: seq<Tree>, p: Path): Option<Option<DirInfo>>
    decreases |lowers|, 0
  {
    if lowers == [] then Some(None)
    else Decided(InheritFrom(lowers[|lowers| - 1], p), lowers[..|lowers| - 1], p)
  }

  /** One layer's word, or that of the layers below it if it has none. */
  function Decided(source: Source, lowers: seq<Tree>, p: Path): Option<Option<DirInfo>>
    decreases |lowers|, 1
  {
    match source
    case Fails => None
    case Gives(info) => Some(info)
    case Nothing => Inherit(lowers, p)
  }

  /** The topmost layer is asked first. */
  lemma InheritStep(lowers: seq<Tree>, p: Path, source: Source)
    requires lowers != [] && source == InheritFrom(lowers[|lowers| - 1], p)
    ensures Inherit(lowers, p) == Decided(source, lowers[..|lowers| - 1], p)
  {
  }

  /** A directory at `q`, made if nothing is there; None where it cannot be. */
  function MakeOne(t: Tree, lowers: seq<Tree>, q: Path): Option<Tree> {
    if q in t then (if t[q].Dir? then Some(t) else None)
    else match Inherit(lowers, q)
      case None => None
      case Some(info) => Some(t[q := Dir(false, info)])
  }

  /** Makes the directories of p[..k..] that do not exist; p[..k] is a directory already. */
  function MakeParents(t: Tree, lowers: seq<Tree>, p: Path, k: nat): (Tree, bool)
    requires k <= |p|
    decreases |p| - k
  {
    if k == |p| then (t, true)
    else match MakeOne(t, lowers, p[..k + 1])
      case None => (t, false)
      case Some(t') => MakeParents(t', lowers, p, k + 1)
  }

  const OPAQUE_MARKER := ".wh..wh..opq"
  const WHITEOUT_PREFIX := ".wh."

  /** What a hard link to `link` shares, or None where the extractor refuses it. */
  function LinkEntry(t: Tree, link: Raw): Option<Entry> {
    match RootPath(t, SplitDir(link))
    case None => None
    case Some(d) =>
      var r := Lstat(t, Norm([], Join(Abs(d), [SplitBase(link)])));
      if r.Found? && r.path in t && !t[r.path].Dir? then Some(t[r.path]) else None
  }

  /** The entry a header makes, or None where the extractor refuses it. */
  function EntryMade(t: Tree, h: Header): Option<Entry> {
    match h.flag
    case CharDevice => Some(if h.devmajor == 0 && h.devminor == 0 then Whiteout else File)
    case Directory => Some(Dir(false, Some(h.info)))
    case SymbolicLink => if h.linkname == [""] || RawLen(h.linkname) > MAX_PATH_LEN then None else Some(Symlink(h.linkname))
    case HardLink => LinkEntry(t, h.linkname)
    case _ => Some(File)
  }

  /** Places an entry named `base` in the directory at `p`. */
  ghost function PlaceEntry(t: Tree, p: Path, base: string, h: Header): (Tree, bool) {
    var c := p + [base];
    if base == OPAQUE_MARKER then
      (if p != [] && IsDirAt(t, p) then t[p := Dir(true, t[p].info)] else t, true)
    else if WHITEOUT_PREFIX <= base then
      var victim := p + [base[|WHITEOUT_PREFIX|..]];
      (if |base| > |WHITEOUT_PREFIX| && victim !in t then t[victim := Whiteout] else t, true)
    else if h.flag.GlobalHeader? then (Without(t, c), true)
    else if h.flag.Directory? && IsDirAt(t, c) then (t[c := Dir(t[c].hides, Some(h.info))], true)
    else match EntryMade(t, h)
      case None => (t, false)
      case Some(e) => (Without(t, c)[c := e], true)
  }

  /** One archive entry: the layer's tree after it, and whether the extractor took it. */
  ghost function Extracted(t: Tree, lowers: seq<Tree>, h: Header): (Tree, bool) {
    var name := Clean(h.name);
    var base := SplitBase(name);
    if name == ["."] || name == ["", ""] || base == ".." then (t, true)
    else if RawLen(name) > MAX_PATH_LEN then (t, false)
    else match RootPath(t, SplitDir(name))
      case None => (t, false)
      case Some(p) =>
        var (t', ok) := MakeParents(t, lowers, p, 0);
        if ok then PlaceEntry(t', p, base, h) else (t', false)
  }

  /** A whole layer's entries, in archive order; None once one is refused. */
  ghost function LayerTree(t: Tree, lowers: seq<Tree>, entries: seq<Header>): Option<Tree>
    decreases |entries|
  {
    if entries == [] then Some(t)
    else
      var (t', ok) := Extracted(t, lowers, entries[0]);
      if ok then LayerTree(t', lowers, entries[1..]) else None
  }

  /** An archive read in two parts is the archive read whole: each header lands over those before it. */
  lemma {:induction false} LayerTreeInTurn(t: Tree, lowers: seq<Tree>, a: seq<Header>, b: seq<Header>)
    ensures LayerTree(t, lowers, a + b) == if LayerTree(t, lowers, a).Some? then LayerTree(LayerTree(t, lowers, a).value, lowers, b) else None
    decreases |a|
  {
    if a == [] {
      assert a + b == b;
    } else {
      assert (a + b)[0] == a[0] && (a + b)[1..] == a[1..] + b;
      LayerTreeInTurn(Extracted(t, lowers, a[0]).0, lowers, a[1..], b);
    }
  }

  lemma AddChild(t: Tree, c: Path, e: Entry)
    requires WellFormed(t) && c != [] && IsDirAt(t, Parent(c))
    requires c !in t || (t[c].Dir? && e.Dir?)
    ensures WellFormed(t[c := e])
  {
    var t' := t[c := e];
    forall p | p in t'
      ensures Hangs(t', p)
    {
      if p != c {
        assert Hangs(t, p);
        if p != [] && Parent(p) == c { assert t[c].Dir?; }
      }
    }
  }

  lemma ReplaceChild(t: Tree, c: Path, e: Option<Entry>)
    requires WellFormed(t) && c != [] && IsDirAt(t, Parent(c))
    ensures WellFormed(Without(t, c))
    ensures e.Some? ==> WellFormed(Without(t, c)[c := e.value])
  {
    assert !(c <= Parent(c));
    forall p | p in t && !(c <= p)
      ensures Hangs(Without(t, c), p)
    {
      assert Hangs(t, p);
      assert p != [] ==> !(c <= Parent(p));
    }
    if e.Some? {
      var s := Without(t, c)[c := e.value];
      forall p | p in s
        ensures Hangs(s, p)
      {
        if p != c {
          assert Hangs(Without(t, c), p);
        }
      }
    }
  }

  lemma {:induction false} MakeParentsWellFormed(t: Tree, lowers: seq<Tree>, p: Path, k: nat)
    requires WellFormed(t) && k <= |p| && IsDirAt(t, p[..k])
    ensures WellFormed(MakeParents(t, lowers, p, k).0)
    ensures MakeParents(t, lowers, p, k).1 ==> IsDirAt(MakeParents(t, lowers, p, k).0, p)
    ensures !MakeParents(t, lowers, p, k).0[[]].hides || t[[]].hides
    decreases |p| - k
  {
    assert p[..|p|] == p;
    if k < |p| {
      var q := p[..k + 1];
      assert Parent(q) == p[..k];
      var made := MakeOne(t, lowers, q);
      if made.Some? {
        if q !in t {
          AddChild(t, q, made.value[q]);
        }
        MakeParentsWellFormed(made.value, lowers, p, k + 1);
      }
    }
  }

  /** Every entry, taken or refused, leaves a tree; and a layer's root is never opaque. */
  lemma ExtractedWellFormed(t: Tree, lowers: seq<Tree>, h: Header)
    requires WellFormed(t) && !t[[]].hides
    ensures WellFormed(Extracted(t, lowers, h).0)
    ensures !Extracted(t, lowers, h).0[[]].hides
  {
    var name := Clean(h.name);
    var base := SplitBase(name);
    var r := RootPath(t, SplitDir(name));
    if r.Some? {
      var p := r.value;
      MakeParentsWellFormed(t, lowers, p, 0);
      var (t', ok) := MakeParents(t, lowers, p, 0);
      if ok {
        PlaceWellFormed(t', p, base, h);
      }
    }
  }

  lemma PlaceWellFormed(t: Tree, p: Path, base: string, h: Header)
    requires WellFormed(t) && !t[[]].hides && IsDirAt(t, p)
    ensures WellFormed(PlaceEntry(t, p, base, h).0)
    ensures !PlaceEntry(t, p, base, h).0[[]].hides
  {
    var c, victim := p + [base], p + [if WHITEOUT_PREFIX <= base then base[|WHITEOUT_PREFIX|..] else base];
    assert Parent(c) == p == Parent(victim);
    if base == OPAQUE_MARKER {
      if p != [] {
        assert Hangs(t, p);
        AddChild(t, p, Dir(true, t[p].info));
      }
    } else if WHITEOUT_PREFIX <= base {
      if victim !in t {
        AddChild(t, victim, Whiteout);
      }
    } else if h.flag.Directory? && IsDirAt(t, c) {
      AddChild(t, c, Dir(t[c].hides, Some(h.info)));
    } else {
      ReplaceChild(t, c, EntryMade(t, h));
    }
  }

  lemma {:induction false} LayerTreeWellFormed(t: Tree, lowers: seq<Tree>, entries: seq<Header>)
    requires WellFormed(t) && !t[[]].hides && LayerTree(t, lowers, entries).Some?
    ensures WellFormed(LayerTree(t, lowers, entries).value)
    ensures !LayerTree(t, lowers, entries).value[[]].hides
    decreases |entries|
  {
    if entries != [] {
      ExtractedWellFormed(t, lowers, entries[0]);
      LayerTreeWellFormed(Extracted(t, lowers, entries[0]).0, lowers, entries[1..]);
    }
  }
}

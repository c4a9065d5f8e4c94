/** Filesystem trees as values, and the union mount of one tree over another. */
module Trees {

  datatype Option<+T> = None | Some(value: T) {
    function GetOr(default: T): T {
      if None? then default else value
    }
  }

  /** A slash-separated string, by its segments: "/a/b" is ["", "a", "b"], "" is [""]. */
  type Raw = s: seq<string> | |s| > 0 witness [""]

  /** A clean absolute path, by its components: "/" is []. */
  type Path = seq<string>

  datatype DirInfo = DirInfo(uid: int, gid: int, mode: int)

  /** `info` is what an overlay itself says about a directory; None leaves it to the base. */
  datatype Entry =
    | Dir(hides: bool, info: Option<DirInfo>)
    | File
    | Symlink(link: Raw)
    | Whiteout

  type Tree = map<Path, Entry>

  const EMPTY: Tree := map[[] := Dir(false, None)]

  function Parent(p: Path): Path
    requires p != []
  {
    p[..|p| - 1]
  }

  function Last(p: Path): string
    requires p != []
  {
    p[|p| - 1]
  }

  lemma PrefixOfChild(p: Path, name: string, q: Path, m: string)
    requires p + [name] <= q + [m] && !(p + [name] <= q)
    ensures p == q && name == m
  {
    var c := p + [name];
    assert |c| == |q| + 1;
    assert c == (q + [m])[..|c|];
    assert p == c[..|p|] && q == (q + [m])[..|q|];
    assert c[|p|] == name && (q + [m])[|q|] == m;
  }

  lemma BelowExtended(p: Path, q: Path, m: string)
    requires p < q + [m]
    ensures p <= q
    ensures (q + [m])[|p|] == if q == p then m else q[|p|]
  {
    assert p == (q + [m])[..|p|] == q[..|p|];
  }

  /** What `m` has at `p` or below it. */
  ghost function Under<T>(m: map<Path, T>, p: Path): set<Path> {
    set q | q in m && p <= q
  }

  lemma UnderShrinks<T>(m: map<Path, T>, p: Path, name: string)
    requires p in m
    ensures Under(m, p + [name]) < Under(m, p)
  {
    assert p in Under(m, p) && p !in Under(m, p + [name]);
  }

  /** `m` without what stands at `c` or below it. */
  ghost function Without<T>(m: map<Path, T>, c: Path): map<Path, T> {
    map q | q in m && !(c <= q) :: m[q]
  }

  ghost predicate IsDirAt(t: Tree, p: Path) {
    p in t && t[p].Dir?
  }

  ghost predicate Hangs(t: Tree, p: Path) {
    p == [] || IsDirAt(t, Parent(p))
  }

  /** Every path hangs below a directory, and the root is one. */
  ghost predicate WellFormed(t: Tree) {
    && IsDirAt(t, [])
    && forall p: Path {:trigger Hangs(t, p)} :: p in t ==> Hangs(t, p)
  }

  lemma {:induction false} AncestorIsDir(t: Tree, p: Path, k: nat)
    requires WellFormed(t) && p in t && k < |p|
    ensures IsDirAt(t, p[..k])
    decreases |p|
  {
    assert Hangs(t, p);
    if k < |p| - 1 {
      AncestorIsDir(t, Parent(p), k);
      assert Parent(p)[..k] == p[..k];
    }
  }

  /** What an upper layer does at a directory prefix to everything below it. */
  predicate Covers(u: Tree, q: Path) {
    q in u && (!u[q].Dir? || u[q].hides)
  }

  /** Some proper ancestor of `p`, at depth `from` or deeper, covers what lies below. */
  ghost predicate HiddenFrom(u: Tree, p: Path, from: nat) {
    exists k: nat :: from <= k < |p| && Covers(u, p[..k])
  }

  ghost predicate Hidden(u: Tree, p: Path) {
    HiddenFrom(u, p, 0)
  }

  /** The lower entry that still matters at `p` once `u` is mounted above. */
  ghost function Below(l: Tree, u: Tree, p: Path, from: nat): Option<Entry> {
    if p in l && !HiddenFrom(u, p, from) then Some(l[p]) else None
  }

  /** A directory shown over what was below it. */
  function Merge(d: Entry, below: Option<Entry>): Entry
    requires d.Dir?
  {
    match below
    case None => d
    case Some(Dir(o, i)) => Dir(d.hides || o, if d.info.Some? then d.info else i)
    case Some(_) => Dir(true, d.info)
  }

  ghost function StackedEntry(l: Tree, u: Tree, p: Path, from: nat): Option<Entry> {
    if p !in u then Below(l, u, p, from)
    else if !u[p].Dir? then Some(u[p])
    else Some(Merge(u[p], Below(l, u, p, from)))
  }

  /** The union mount: `u` over `l`. */
  ghost function Stacked(l: Tree, u: Tree): Tree {
    map p | p in l.Keys + u.Keys && StackedEntry(l, u, p, 0).Some? :: StackedEntry(l, u, p, 0).value
  }

  lemma StackedWellFormed(l: Tree, u: Tree)
    requires WellFormed(l) && WellFormed(u)
    ensures WellFormed(Stacked(l, u))
  {
    var s := Stacked(l, u);
    assert Covers(u, []) || !Covers(u, []);
    forall p: Path | p in s
      ensures Hangs(s, p)
    {
      if p != [] {
        ParentShown(l, u, p);
      }
    }
  }

  lemma ParentShown(l: Tree, u: Tree, p: Path)
    requires WellFormed(l) && WellFormed(u) && p in Stacked(l, u) && p != []
    ensures IsDirAt(Stacked(l, u), Parent(p))
  {
    var q := Parent(p);
    assert p in l ==> Hangs(l, p);
    assert p in u ==> Hangs(u, p);
    assert p !in u && q in u ==> !Covers(u, p[..|p| - 1]);
    assert forall k :: 0 <= k < |q| ==> q[..k] == p[..k];
  }

  function EraseEntry(e: Entry): Entry {
    if e.Dir? then Dir(e.hides, None) else e
  }

  /** A tree without owners and modes. */
  function Erase(t: Tree): Tree {
    map p | p in t :: EraseEntry(t[p])
  }

  /** Mounting b and then c hides exactly what the folded pair hides. */
  lemma HiddenStacked(b: Tree, c: Tree, p: Path)
    requires WellFormed(b) && WellFormed(c)
    ensures Hidden(Stacked(b, c), p) <==> Hidden(b, p) || Hidden(c, p)
  {
    var s := Stacked(b, c);
    if Hidden(s, p) {
      var k :| 0 <= k < |p| && Covers(s, p[..k]);
      assert Covers(b, p[..k]) || Covers(c, p[..k]);
    }
    if Hidden(c, p) {
      var k :| 0 <= k < |p| && Covers(c, p[..k]);
      assert Covers(s, p[..k]);
    } else if Hidden(b, p) {
      var k :| 0 <= k < |p| && Covers(b, p[..k]);
      assert forall j :: 0 <= j < k ==> p[..k][..j] == p[..j];
      assert !HiddenFrom(c, p[..k], 0);
      assert Covers(s, p[..k]);
    }
  }

  lemma StackAssociativeAt(a: Tree, b: Tree, c: Tree, p: Path)
    requires WellFormed(a) && WellFormed(b) && WellFormed(c)
    ensures
      var x, y := Stacked(Stacked(a, b), c), Stacked(a, Stacked(b, c));
      (p in x <==> p in y) && (p in x ==> EraseEntry(x[p]) == EraseEntry(y[p]))
  {
    HiddenStacked(b, c, p);
    var ab, bc := Stacked(a, b), Stacked(b, c);
    if p in c && !c[p].Dir? {
    } else if Hidden(c, p) {
      assert Below(ab, c, p, 0) == Below(b, c, p, 0) == Below(a, bc, p, 0) == None;
    } else {
      assert Below(ab, c, p, 0) == StackedEntry(a, b, p, 0);
      assert Below(b, c, p, 0) == if p in b then Some(b[p]) else None;
      assert Below(a, bc, p, 0) == Below(a, b, p, 0);
    }
  }

  /** Stacking is associative, owners and modes aside. */
  lemma StackAssociative(a: Tree, b: Tree, c: Tree)
    requires WellFormed(a) && WellFormed(b) && WellFormed(c)
    ensures Erase(Stacked(Stacked(a, b), c)) == Erase(Stacked(a, Stacked(b, c)))
  {
    var x, y := Stacked(Stacked(a, b), c), Stacked(a, Stacked(b, c));
    forall p: Path
      ensures p in x <==> p in y
      ensures p in x && p in y ==> EraseEntry(x[p]) == EraseEntry(y[p])
    {
      StackAssociativeAt(a, b, c, p);
    }
    assert Erase(x).Keys == Erase(y).Keys;
  }

  /** c shows a bare directory where b shows a non-directory over a's own directory. */
  ghost predicate MetadataDiffers(a: Tree, b: Tree, c: Tree, p: Path) {
    && p in c && c[p].Dir? && c[p].info.None? && !Hidden(c, p)
    && p in b && !b[p].Dir? && !Hidden(b, p)
    && p in a && a[p].Dir? && a[p].info.Some?
  }

  /** With owners and modes, the two orders of stacking differ exactly there. */
  lemma StackMetadataExact(a: Tree, b: Tree, c: Tree, p: Path)
    requires WellFormed(a) && WellFormed(b) && WellFormed(c)
    requires p in Stacked(Stacked(a, b), c)
    ensures p in Stacked(a, Stacked(b, c))
    ensures Stacked(Stacked(a, b), c)[p] == Stacked(a, Stacked(b, c))[p] <==> !MetadataDiffers(a, b, c, p)
  {
    StackAssociativeAt(a, b, c, p);
    HiddenStacked(b, c, p);
    var ab, bc := Stacked(a, b), Stacked(b, c);
    if p in c && c[p].Dir? && !Hidden(c, p) {
      assert Below(ab, c, p, 0) == StackedEntry(a, b, p, 0);
      assert Below(b, c, p, 0) == if p in b then Some(b[p]) else None;
      assert Below(a, bc, p, 0) == Below(a, b, p, 0);
    }
  }
}

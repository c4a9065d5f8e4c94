/** The node graph a layer or a mount is held in, and the tree it shows. */
module FsNodes {
  import opened Trees

  datatype Kind = NodeDir | NodeFile | NodeSymlink | NodeWhiteout

  /** One path in a tree. What is not a directory never changes once it is made. */
  class FsNode {
    const kind: Kind
    const link: Raw
    var explicit: bool
    var info: DirInfo
    var hides: bool
    var children: map<string, FsNode>

    constructor Directory(hides: bool)
      ensures kind == NodeDir && children == map[] && this.hides == hides && !explicit
    {
      kind, link, explicit, info, children := NodeDir, [""], false, DirInfo(0, 0, 0), map[];
      this.hides := hides;
    }

    constructor Leaf(kind: Kind, link: Raw)
      requires kind != NodeDir
      ensures this.kind == kind && this.link == link
    {
      this.kind, this.link := kind, link;
      explicit, info, hides, children := false, DirInfo(0, 0, 0), false, map[];
    }
  }

  /** A tree's nodes, by path. A leaf may stand at several paths, a directory at one. */
  type Nodes = map<Path, FsNode>

  ghost function DirNodes(at: Nodes): set<FsNode> {
    set p | p in at && at[p].kind == NodeDir :: at[p]
  }

  function EntryOf(n: FsNode): (e: Entry)
    reads if n.kind == NodeDir then {n} else {}
    ensures e.Dir? <==> n.kind == NodeDir
  {
    match n.kind
    case NodeDir => Dir(n.hides, if n.explicit then Some(n.info) else None)
    case NodeFile => File
    case NodeSymlink => Symlink(n.link)
    case NodeWhiteout => Whiteout
  }

  /** What each directory holds, by name. */
  type Kids = map<Path, map<string, FsNode>>

  ghost function KidsOf(at: Nodes): Kids
    reads DirNodes(at)
  {
    map p | p in at && at[p].kind == NodeDir :: at[p].children
  }

  ghost predicate Attached(at: Nodes, kids: Kids, p: Path) {
    p != [] && p in at ==> Parent(p) in kids && Last(p) in kids[Parent(p)] && kids[Parent(p)][Last(p)] == at[p]
  }

  ghost predicate Holds(at: Nodes, kids: Kids, p: Path, name: string) {
    p in kids && name in kids[p] ==> p + [name] in at
  }

  ghost predicate Distinct(at: Nodes, p: Path, q: Path) {
    p in at && q in at && at[p] == at[q] && at[p].kind == NodeDir ==> p == q
  }

  /** `at` is the whole graph under at[[]], and its directories form a tree. */
  ghost predicate Linked(at: Nodes, kids: Kids) {
    && [] in kids
    && (forall p :: p in kids <==> p in at && at[p].kind == NodeDir)
    && (forall p {:trigger Attached(at, kids, p)} :: Attached(at, kids, p))
    && (forall p, name {:trigger Holds(at, kids, p, name)} :: Holds(at, kids, p, name))
    && (forall p, q {:trigger Distinct(at, p, q)} :: Distinct(at, p, q))
  }

  ghost function EntriesOf(at: Nodes): Tree
    reads DirNodes(at)
  {
    map p | p in at :: EntryOf(at[p])
  }

  /** The tree the nodes show, if they are one. */
  ghost function View(at: Nodes): Option<Tree>
    reads DirNodes(at)
  {
    if Linked(at, KidsOf(at)) then Some(EntriesOf(at)) else None
  }

  /** The tree hanging from `root`. */
  ghost function Shown(root: FsNode, at: Nodes): Option<Tree>
    reads DirNodes(at)
  {
    if [] in at && at[[]] == root then View(at) else None
  }

  ghost function AllDirNodes(ats: seq<Nodes>): set<FsNode> {
    set i, n | 0 <= i < |ats| && n in DirNodes(ats[i]) :: n
  }

  /** The trees hanging from `roots`, if they all are trees. */
  ghost function AllShown(roots: seq<FsNode>, ats: seq<Nodes>): Option<seq<Tree>>
    reads AllDirNodes(ats)
  {
    if |roots| == |ats| && forall i :: 0 <= i < |ats| ==> Shown(roots[i], ats[i]).Some?
    then Some(seq(|ats|, i requires 0 <= i < |ats| reads AllDirNodes(ats) => Shown(roots[i], ats[i]).GetOr(map[])))
    else None
  }

  lemma ShownAt(roots: seq<FsNode>, ats: seq<Nodes>, ts: seq<Tree>, i: nat)
    requires AllShown(roots, ats) == Some(ts) && i < |roots|
    ensures |roots| == |ats| == |ts| && Shown(roots[i], ats[i]) == Some(ts[i])
    ensures DirNodes(ats[i]) <= AllDirNodes(ats)
  {
  }

  lemma ShownWellFormed(at: Nodes, t: Tree)
    requires View(at) == Some(t)
    ensures WellFormed(t)
  {
    forall p: Path | p in t
      ensures Hangs(t, p)
    {
      assert Attached(at, KidsOf(at), p);
    }
  }

  lemma NamesShown(at: Nodes, t: Tree, p: Path)
    requires View(at) == Some(t) && p in at && at[p].kind == NodeDir
    ensures IsDirAt(t, p) && EntryOf(at[p]) == t[p]
    ensures forall name :: name in at[p].children <==> p + [name] in t
  {
    forall name ensures name in at[p].children <==> p + [name] in t { ChildAt(at, t, p, name); }
  }

  lemma ChildAt(at: Nodes, t: Tree, p: Path, name: string)
    requires View(at) == Some(t) && p in at && at[p].kind == NodeDir
    ensures name in at[p].children <==> p + [name] in at
    ensures p + [name] in at <==> p + [name] in t
    ensures name in at[p].children ==>
      at[p + [name]] == at[p].children[name] && t[p + [name]] == EntryOf(at[p].children[name])
  {
    assert Holds(at, KidsOf(at), p, name);
    assert Parent(p + [name]) == p;
    assert Attached(at, KidsOf(at), p + [name]);
  }

  lemma OnlyAt(at: Nodes, kids: Kids, p: Path)
    requires Linked(at, kids) && p in kids
    ensures forall q :: q in at && at[q] == at[p] ==> q == p
  {
    forall q | q in at && at[q] == at[p] ensures q == p { assert Distinct(at, p, q); }
  }

  ghost function Graft(at: Nodes, c: Path, n: FsNode): Nodes {
    Without(at, c)[c := n]
  }

  ghost function GraftKids(kids: Kids, p: Path, name: string, n: FsNode): Kids
    requires p in kids
  {
    var k := Without(kids, p + [name])[p := kids[p][name := n]];
    if n.kind == NodeDir then k[p + [name] := map[]] else k
  }

  lemma GraftLinked(at: Nodes, kids: Kids, p: Path, name: string, n: FsNode)
    requires Linked(at, kids) && p in kids && (n.kind == NodeDir ==> n !in at.Values)
    ensures Linked(Graft(at, p + [name], n), GraftKids(kids, p, name, n))
  {
    var c := p + [name];
    var at', kids' := Graft(at, c, n), GraftKids(kids, p, name, n);
    assert Parent(c) == p && Last(c) == name && !(c <= p);
    forall q: Path ensures Attached(at', kids', q) { GraftAttached(at, kids, p, name, n, q); }
    forall q, m ensures Holds(at', kids', q, m) { GraftHolds(at, kids, p, name, n, q, m); }
    forall q, r ensures Distinct(at', q, r) {
      assert Distinct(at, q, r);
      assert q in at ==> at[q] in at.Values;
      assert r in at ==> at[r] in at.Values;
    }
  }

  lemma GraftAttached(at: Nodes, kids: Kids, p: Path, name: string, n: FsNode, q: Path)
    requires Linked(at, kids) && p in kids
    ensures Attached(Graft(at, p + [name], n), GraftKids(kids, p, name, n), q)
  {
    var c := p + [name];
    if q == c {
      assert Parent(c) == p && !(c <= p);
    } else if q != [] && q in at && !(c <= q) {
      assert Attached(at, kids, q);
      assert q == Parent(q) + [Last(q)];
      assert !(c <= Parent(q));
    }
  }

  lemma GraftHolds(at: Nodes, kids: Kids, p: Path, name: string, n: FsNode, q: Path, m: string)
    requires Linked(at, kids) && p in kids
    ensures Holds(Graft(at, p + [name], n), GraftKids(kids, p, name, n), q, m)
  {
    var c := p + [name];
    if q != c && !(q == p && m == name) {
      assert Holds(at, kids, q, m);
      if c <= q + [m] && !(c <= q) {
        PrefixOfChild(p, name, q, m);
      }
    }
  }

  lemma GraftSeen(at: Nodes, kids: Kids, t: Tree, p: Path, name: string, n: FsNode)
    requires Linked(at, kids) && p in kids
    requires forall q :: q in kids && q != p ==> at[q].children == kids[q]
    requires at[p].children == kids[p][name := n]
    requires t.Keys == at.Keys && forall q :: q in at ==> EntryOf(at[q]) == t[q]
    requires n.kind == NodeDir ==> n.children == map[]
    ensures KidsOf(Graft(at, p + [name], n)) == GraftKids(kids, p, name, n)
    ensures EntriesOf(Graft(at, p + [name], n)) == Without(t, p + [name])[p + [name] := EntryOf(n)]
  {
    var c := p + [name];
    assert !(c <= p);
    var at', kids', t' := Graft(at, c, n), GraftKids(kids, p, name, n), Without(t, c)[c := EntryOf(n)];
    forall q: Path
      ensures q in kids' <==> q in at' && at'[q].kind == NodeDir
      ensures q in kids' ==> at'[q].children == kids'[q]
      ensures q in at' <==> q in t'
      ensures q in at' ==> EntryOf(at'[q]) == t'[q]
    {
    }
    assert KidsOf(at').Keys == kids'.Keys;
    assert EntriesOf(at').Keys == t'.Keys;
  }

  /** Puts `n`, a leaf or a directory with nothing in it yet, in place of whatever is at p/name. */
  method SetChild(parent: FsNode, name: string, n: FsNode, ghost p: Path, ghost at: Nodes, ghost t: Tree)
    requires View(at) == Some(t) && p in at && at[p] == parent && parent.kind == NodeDir
    requires n.kind == NodeDir ==> n !in at.Values && n.children == map[]
    modifies parent`children
    ensures parent.children == old(parent.children)[name := n]
    ensures View(Graft(at, p + [name], n)) == Some(Without(t, p + [name])[p + [name] := old(EntryOf(n))])
  {
    ghost var kids := KidsOf(at);
    parent.children := parent.children[name := n];
    OnlyAt(at, kids, p);
    GraftSeen(at, kids, t, p, name, n);
    GraftLinked(at, kids, p, name, n);
  }

  /** `m` without what stands at or below the children of `p` named in `drop`. */
  ghost function Cut<T>(m: map<Path, T>, p: Path, drop: set<string>): map<Path, T> {
    map q | q in m && !(p < q && q[|p|] in drop) :: m[q]
  }

  lemma CutOne<T>(m: map<Path, T>, p: Path, name: string)
    ensures Cut(m, p, {name}) == Without(m, p + [name])
  {
    forall q: Path
      ensures p < q && q[|p|] == name <==> p + [name] <= q
    {
    }
  }

  lemma CutLinked(at: Nodes, kids: Kids, p: Path, drop: set<string>)
    requires Linked(at, kids) && p in kids
    ensures Linked(Cut(at, p, drop), Cut(kids[p := kids[p] - drop], p, drop))
  {
    var at', kids' := Cut(at, p, drop), Cut(kids[p := kids[p] - drop], p, drop);
    forall q: Path ensures Attached(at', kids', q) {
      assert Attached(at, kids, q);
      if q != [] && q in at' {
        assert q == Parent(q) + [Last(q)];
        assert p < Parent(q) ==> p < q && q[|p|] == Parent(q)[|p|];
        assert Parent(q) == p ==> q[|p|] == Last(q);
      }
    }
    forall q, m ensures Holds(at', kids', q, m) {
      assert Holds(at, kids, q, m);
      if p < q + [m] {
        BelowExtended(p, q, m);
      }
    }
    forall q, r ensures Distinct(at', q, r) { assert Distinct(at, q, r); }
  }

  lemma CutSeen(at: Nodes, kids: Kids, t: Tree, p: Path, drop: set<string>)
    requires Linked(at, kids) && p in kids
    requires forall q :: q in kids && q != p ==> at[q].children == kids[q]
    requires at[p].children == kids[p] - drop
    requires t.Keys == at.Keys && forall q :: q in at ==> EntryOf(at[q]) == t[q]
    ensures KidsOf(Cut(at, p, drop)) == Cut(kids[p := kids[p] - drop], p, drop)
    ensures EntriesOf(Cut(at, p, drop)) == Cut(t, p, drop)
  {
    var at', kids' := Cut(at, p, drop), Cut(kids[p := kids[p] - drop], p, drop);
    assert KidsOf(at').Keys == kids'.Keys;
    assert EntriesOf(at').Keys == Cut(t, p, drop).Keys;
  }

  /** Takes the children named in `drop` out of a directory. */
  method DropChildren(parent: FsNode, drop: set<string>, ghost p: Path, ghost at: Nodes, ghost t: Tree)
    requires View(at) == Some(t) && p in at && at[p] == parent && parent.kind == NodeDir
    modifies parent`children
    ensures parent.children == old(parent.children) - drop
    ensures View(Cut(at, p, drop)) == Some(Cut(t, p, drop))
  {
    ghost var kids := KidsOf(at);
    parent.children := parent.children - drop;
    OnlyAt(at, kids, p);
    CutSeen(at, kids, t, p, drop);
    CutLinked(at, kids, p, drop);
  }

  lemma MarkSeen(at: Nodes, kids: Kids, t: Tree, p: Path)
    requires Linked(at, kids) && p in kids
    requires forall q :: q in kids ==> at[q].children == kids[q]
    requires t.Keys == at.Keys && forall q :: q in at && q != p ==> EntryOf(at[q]) == t[q]
    ensures View(at) == Some(t[p := EntryOf(at[p])])
  {
    assert KidsOf(at) == kids;
    assert EntriesOf(at) == t[p := EntryOf(at[p])];
  }

  /** Changes what a directory says about itself. */
  method Mark(n: FsNode, hides: bool, info: Option<DirInfo>, ghost p: Path, ghost at: Nodes, ghost t: Tree)
    requires View(at) == Some(t) && p in at && at[p] == n && n.kind == NodeDir
    modifies n`hides, n`explicit, n`info
    ensures t[p].Dir?
    ensures View(at) == Some(t[p := Dir(hides, if info.Some? then info else t[p].info)])
  {
    ghost var kids := KidsOf(at);
    n.hides := hides;
    if info.Some? {
      n.explicit, n.info := true, info.value;
    }
    OnlyAt(at, kids, p);
    MarkSeen(at, kids, t, p);
  }
}

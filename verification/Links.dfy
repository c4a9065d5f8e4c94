/** The symlinks a mount exposes whose targets it does not carry, as the kernel resolves them. */
module Links {
  import opened Trees
  import opened PathNames
  import opened Walks
  import opened Kernel
  import KernelRoutes
  import opened FsNodes
  import opened Resolvers

  /** `n` is the node standing where the walk ends, or null where it ends nowhere. */
  ghost predicate Reached(n: FsNode?, where: Option<Path>, at: Nodes) {
    match where
    case None => n == null
    case Some(p) => p in at && n == at[p]
  }

  method KernelLookup(root: FsNode, dirs0: seq<FsNode?>, target: Raw, spent: nat, ghost dir: Path, ghost at: Nodes, ghost t: Tree)
    returns (n: FsNode?)
    requires Shown(root, at) == Some(t) && Trail(dirs0, dir, at) && dir in at && spent <= MAX_LOOKUP_SYMLINKS
    ensures Shown(root, at) == Some(t)
    ensures Reached(n, KernelWalk(t, if IsAbs(target) then [] else dir, Push([], target), spent), at)
  {
    var dirs := if IsAbs(target) then [root] else dirs0;
    ghost var cur: Path := if IsAbs(target) then [] else dir;
    ghost var goal := KernelWalk(t, cur, Push([], target), spent);
    var pending := Push([], target);
    var followed := spent;
    RootTrail(root, at, t);
    while |pending| > 0
      invariant Shown(root, at) == Some(t) && Trail(dirs, cur, at) && cur in at && followed <= MAX_LOOKUP_SYMLINKS
      invariant goal == KernelWalk(t, cur, pending, followed)
      decreases MAX_LOOKUP_SYMLINKS - followed, |pending|
    {
      var seg := pending[|pending| - 1];
      pending := pending[..|pending| - 1];
      assert cur[..|cur|] == cur;
      if seg == "" || seg == "." {
      } else if seg == ".." {
        if |dirs| > 1 {
          TrailUp(dirs, cur, at);
          assert Attached(at, KidsOf(at), cur);
          dirs, cur := dirs[..|dirs| - 1], Parent(cur);
        }
      } else {
        ChildOfTrail(dirs, cur, seg, at, t);
        var c := ChildOf(dirs[|dirs| - 1], seg);
        if c == null {
          return null;
        }
        match c.kind
        case NodeDir =>
          TrailDown(dirs, cur, at, seg, c);
          dirs, cur := dirs + [c], cur + [seg];
        case NodeSymlink =>
          if followed == MAX_LOOKUP_SYMLINKS {
            return null;
          }
          followed := followed + 1;
          if IsAbs(c.link) {
            dirs, cur := [root], [];
          }
          pending := Push(pending, c.link);
        case NodeFile =>
          return if |pending| > 0 then null else c;
        case NodeWhiteout =>
          return null;
      }
    }
    assert cur[..|cur|] == cur;
    return dirs[|dirs| - 1];
  }

  lemma RootTrail(root: FsNode, at: Nodes, t: Tree)
    requires Shown(root, at) == Some(t)
    ensures root.kind == NodeDir && Trail([root], [], at)
  {
    ShownWellFormed(at, t);
    assert IsDirAt(t, []);
  }

  datatype Link = Link(path: Path, target: Raw)

  /** A symlink of the mount whose target the mount does not carry. The link itself is the first expansion. */
  ghost predicate Dangles(t: Tree, l: Link) {
    && l.path != [] && l.path in t && t[l.path] == Symlink(l.target)
    && KernelWalk(t, if IsAbs(l.target) then [] else Parent(l.path), Push([], l.target), 1).None?
  }

  /** What leads nowhere is the link's own path, walked from the root. */
  lemma DanglesFromRoot(t: Tree, l: Link)
    requires WellFormed(t) && l.path != [] && AllPlain(l.path) && l.path in t && t[l.path] == Symlink(l.target)
    ensures Dangles(t, l) <==> KernelWalk(t, [], Push([], Abs(l.path)), 0).None?
  {
    var d, n := Parent(l.path), Last(l.path);
    assert l.path == d + [n] && Hangs(t, l.path);
    KernelRoutes.HomePlain(t, d, n, 0);
    KernelRoutes.KernelLink(t, d, n, [], 0);
    assert [] + [n] == [n] && [] + Reverse(l.target) == Reverse(l.target);
    assert Push([], l.target) == Reverse(l.target) && Push([], Abs(l.path)) == Reverse(Abs(l.path));
  }

  ghost predicate StrictlyBelow(p: Path, q: Path) {
    |p| < |q| && q[..|p|] == p
  }

  ghost predicate At(p: Path, name: string, q: Path) {
    |p| < |q| && q[..|p| + 1] == p + [name]
  }

  lemma BelowByName(p: Path, q: Path)
    ensures StrictlyBelow(p, q) <==> |p| < |q| && At(p, q[|p|], q)
  {
    if |p| < |q| {
      assert q[..|p| + 1] == q[..|p|] + [q[|p|]];
      assert (p + [q[|p|]])[..|p|] == p && q[..|p| + 1][..|p|] == q[..|p|];
    }
  }

  lemma {:induction false} FirstComponent(t: Tree, p: Path, name: string, q: Path)
    requires WellFormed(t) && q in t && At(p, name, q)
    ensures p + [name] in t
    ensures q == p + [name] || (t[p + [name]].Dir? && StrictlyBelow(p + [name], q))
    decreases |q|
  {
    if q != p + [name] {
      assert Hangs(t, q);
      var up := Parent(q);
      assert up[..|p| + 1] == q[..|p| + 1];
      FirstComponent(t, p, name, up);
      if up == p + [name] {
        assert IsDirAt(t, up);
      }
    }
  }

  /** One name in a directory, and all below it. */
  method VisitName(root: FsNode, dir: FsNode, dirs: seq<FsNode?>, name: string, p: Path, ghost at: Nodes, ghost t: Tree)
    returns (out: seq<Link>)
    requires Shown(root, at) == Some(t) && p in at && at[p] == dir && dir.kind == NodeDir && Trail(dirs, p, at)
    requires name in dir.children
    ensures Shown(root, at) == Some(t)
    ensures forall l :: l in out <==> Dangles(t, l) && At(p, name, l.path)
    decreases Under(t, p), 0
  {
    var n := dir.children[name];
    out := [];
    ChildAt(at, t, p, name);
    ShownWellFormed(at, t);
    var q := p + [name];
    assert Parent(q) == p && q[..|p| + 1] == q;
    forall l | Dangles(t, l) && At(p, name, l.path)
      ensures l.path == q || (t[q].Dir? && StrictlyBelow(q, l.path))
    {
      FirstComponent(t, p, name, l.path);
    }
    if n.kind == NodeDir {
      UnderShrinks(t, p, name);
      TrailDown(dirs, p, at, name, n);
      out := VisitDir(root, n, dirs + [n], q, at, t);
    } else if n.kind == NodeSymlink {
      var reached := KernelLookup(root, dirs, n.link, 1, p, at, t);
      if reached == null {
        out := [Link(q, n.link)];
      }
    }
  }

  method VisitDir(root: FsNode, dir: FsNode, dirs: seq<FsNode?>, p: Path, ghost at: Nodes, ghost t: Tree)
    returns (out: seq<Link>)
    requires Shown(root, at) == Some(t) && p in at && at[p] == dir && dir.kind == NodeDir && Trail(dirs, p, at)
    ensures Shown(root, at) == Some(t)
    ensures forall l :: l in out <==> Dangles(t, l) && StrictlyBelow(p, l.path)
    decreases Under(t, p), 1
  {
    out := [];
    var names := dir.children.Keys;
    while names != {}
      invariant Shown(root, at) == Some(t) && names <= dir.children.Keys
      invariant forall l :: l in out <==> Dangles(t, l) && exists name :: name in dir.children && name !in names && At(p, name, l.path)
      decreases names
    {
      var name :| name in names;
      names := names - {name};
      var more := VisitName(root, dir, dirs, name, p, at, t);
      out := out + more;
    }
    forall l | Dangles(t, l)
      ensures StrictlyBelow(p, l.path) <==> exists name :: name in dir.children && At(p, name, l.path)
    {
      NamedInDirectory(dir, p, at, t, l.path);
    }
  }

  lemma NamedInDirectory(dir: FsNode, p: Path, at: Nodes, t: Tree, q: Path)
    requires View(at) == Some(t) && p in at && at[p] == dir && dir.kind == NodeDir && q in t
    ensures StrictlyBelow(p, q) <==> exists name :: name in dir.children && At(p, name, q)
  {
    ShownWellFormed(at, t);
    BelowByName(p, q);
    if StrictlyBelow(p, q) {
      FirstComponent(t, p, q[|p|], q);
      ChildAt(at, t, p, q[|p|]);
    }
    if name :| name in dir.children && At(p, name, q) {
      assert (p + [name])[..|p|] == p && q[..|p| + 1][..|p|] == q[..|p|];
    }
  }

  /** Every symlink of the mount that leads nowhere in it. */
  method DanglingSymlinks(root: FsNode, ghost at: Nodes, ghost t: Tree) returns (out: seq<Link>)
    requires Shown(root, at) == Some(t)
    ensures Shown(root, at) == Some(t)
    ensures forall l :: l in out <==> Dangles(t, l)
  {
    RootTrail(root, at, t);
    out := VisitDir(root, root, [root], [], at, t);
  }
}

/** The walks over the node graph itself, each proved against its function of the tree. */
module Resolvers {
  import opened Trees
  import opened PathNames
  import opened Walks
  import opened FsNodes

  /** A lookup's answer, as a node and whether it failed. */
  datatype NodeResult = NodeResult(n: FsNode?, failed: bool)

  /** `r` is the node standing where the lookup `l` ends. */
  ghost predicate Answers(r: NodeResult, l: Lookup, at: Nodes) {
    match l
    case Found(p) => p in at && r == NodeResult(at[p], false)
    case Absent => r == NodeResult(null, false)
    case Failed => r == NodeResult(null, true)
  }

  /** `dirs` are the directories from the root down to `cur`, null from the first missing one on. */
  ghost predicate Trail(dirs: seq<FsNode?>, cur: Path, at: Nodes) {
    && |dirs| == |cur| + 1
    && forall k {:trigger dirs[k]} :: 0 <= k <= |cur| ==>
         if cur[..k] in at then at[cur[..k]].kind == NodeDir && dirs[k] == at[cur[..k]] else dirs[k] == null
  }

  lemma TrailUp(dirs: seq<FsNode?>, cur: Path, at: Nodes)
    requires Trail(dirs, cur, at) && cur != []
    ensures Trail(dirs[..|dirs| - 1], Parent(cur), at)
  {
    forall k | 0 <= k < |cur|
      ensures Parent(cur)[..k] == cur[..k] && dirs[..|dirs| - 1][k] == dirs[k]
    {
    }
  }

  lemma TrailDown(dirs: seq<FsNode?>, cur: Path, at: Nodes, name: string, n: FsNode?)
    requires Trail(dirs, cur, at)
    requires if cur + [name] in at then at[cur + [name]].kind == NodeDir && n == at[cur + [name]] else n == null
    ensures Trail(dirs + [n], cur + [name], at)
  {
    var next := cur + [name];
    assert next[..|next|] == next;
    forall k | 0 <= k <= |cur|
      ensures next[..k] == cur[..k] && (dirs + [n])[k] == dirs[k]
    {
    }
  }

  function ChildOf(top: FsNode?, name: string): FsNode?
    reads top
  {
    if top != null && name in top.children then top.children[name] else null
  }

  /** The child of the directory a trail ends at is what the tree has there. */
  lemma ChildOfTrail(dirs: seq<FsNode?>, cur: Path, name: string, at: Nodes, t: Tree)
    requires View(at) == Some(t) && Trail(dirs, cur, at)
    ensures
      var n := ChildOf(dirs[|dirs| - 1], name);
      && (n == null <==> cur + [name] !in t) && (n == null <==> cur + [name] !in at)
      && (n != null ==> n == at[cur + [name]] && t[cur + [name]] == EntryOf(n))
  {
    assert cur[..|cur|] == cur && dirs[|cur|] == dirs[|dirs| - 1];
    if cur in at {
      ChildAt(at, t, cur, name);
    } else {
      assert Parent(cur + [name]) == cur;
      assert Attached(at, KidsOf(at), cur + [name]);
    }
  }

  method CrossesSymlink(root: FsNode, p: Raw, ghost at: Nodes, ghost t: Tree) returns (crosses: bool)
    requires View(at) == Some(t) && [] in at && at[[]] == root && root.kind == NodeDir
    ensures crosses == Crosses(t, [], p) && View(at) == Some(t)
  {
    var dirs: seq<FsNode?> := [root];
    ghost var cur: Path := [];
    var i := 0;
    while i < |p|
      invariant View(at) == Some(t) && 0 <= i <= |p| && Trail(dirs, cur, at)
      invariant Crosses(t, [], p) == Crosses(t, cur, p[i..])
    {
      var seg := p[i];
      assert p[i..][0] == seg && p[i..][1..] == p[i + 1..];
      i := i + 1;
      if seg == "" || seg == "." {
      } else if seg == ".." {
        if |dirs| > 1 {
          TrailUp(dirs, cur, at);
          dirs, cur := dirs[..|dirs| - 1], Parent(cur);
        }
      } else {
        ChildOfTrail(dirs, cur, seg, at, t);
        var n := ChildOf(dirs[|dirs| - 1], seg);
        if n != null && n.kind != NodeDir {
          return true;
        }
        TrailDown(dirs, cur, at, seg, n);
        dirs, cur := dirs + [n], cur + [seg];
      }
    }
    return false;
  }

  /** The kernel's lookup of a directory path, from scratch. */
  method FreshLookup(root: FsNode, d: Path, ghost at: Nodes, ghost t: Tree) returns (r: NodeResult)
    requires View(at) == Some(t) && [] in at && at[[]] == root && root.kind == NodeDir
    ensures Answers(r, HostLookup(t, d), at) && View(at) == Some(t)
  {
    var dirs: seq<FsNode?> := [root];
    ghost var cur: Path := [];
    var pending := Push([], Abs(d));
    var followed := 0;
    while |pending| > 0
      invariant View(at) == Some(t) && Trail(dirs, cur, at) && cur in at && followed <= MAX_LOOKUP_SYMLINKS
      invariant HostLookup(t, d) == HostWalk(t, cur, pending, followed).0
      decreases MAX_LOOKUP_SYMLINKS - followed, |pending|
    {
      var seg := pending[|pending| - 1];
      pending := pending[..|pending| - 1];
      assert cur[..|cur|] == cur;
      if seg == "" || seg == "." {
      } else if seg == ".." {
        if |dirs| == 1 {
          return NodeResult(null, false);
        }
        TrailUp(dirs, cur, at);
        assert Attached(at, KidsOf(at), cur);
        dirs, cur := dirs[..|dirs| - 1], Parent(cur);
      } else {
        ChildOfTrail(dirs, cur, seg, at, t);
        var n := ChildOf(dirs[|dirs| - 1], seg);
        if n == null {
          return NodeResult(null, false);
        }
        match n.kind
        case NodeDir =>
          TrailDown(dirs, cur, at, seg, n);
          dirs, cur := dirs + [n], cur + [seg];
        case NodeSymlink =>
          if followed == MAX_LOOKUP_SYMLINKS {
            return NodeResult(null, true);
          }
          followed := followed + 1;
          if IsAbs(n.link) {
            return NodeResult(null, false);
          }
          pending := Push(pending, n.link);
        case _ =>
          return NodeResult(null, true);
      }
    }
    assert cur[..|cur|] == cur;
    return NodeResult(dirs[|dirs| - 1], false);
  }

  /** Answers lstat for one tree, remembering the directories it has resolved. */
  class Resolver {
    const root: FsNode
    var dirs: map<Path, NodeResult>

    constructor (root: FsNode)
      ensures this.root == root && dirs == map[]
    {
      this.root, dirs := root, map[];
    }

    /** What it remembers is what a fresh lookup would find. */
    ghost predicate Remembers(at: Nodes, t: Tree)
      reads this
    {
      && [] in at && at[[]] == root && root.kind == NodeDir
      && forall d :: d in dirs ==> AllPlain(d) && Answers(dirs[d], HostLookup(t, d), at)
    }

    /** One step below a directory already resolved; a symlink there is looked up from scratch. */
    method Enter(parent: NodeResult, d: Path, ghost at: Nodes, ghost t: Tree) returns (r: NodeResult)
      requires View(at) == Some(t) && [] in at && at[[]] == root && root.kind == NodeDir
      requires AllPlain(d) && d != [] && Answers(parent, HostLookup(t, Parent(d)), at)
      ensures View(at) == Some(t) && Answers(r, HostLookup(t, d), at)
    {
      var base := Last(d);
      assert d == Parent(d) + [base] && Plain(base);
      ShownWellFormed(at, t);
      HostLookupIsDir(t, Parent(d));
      HostLookupStep(t, Parent(d), base);
      if parent.n == null {
        return parent;
      }
      ghost var p := HostLookup(t, Parent(d)).path;
      ChildAt(at, t, p, base);
      if base !in parent.n.children {
        return NodeResult(null, false);
      }
      var c := parent.n.children[base];
      match c.kind
      case NodeDir => r := NodeResult(c, false);
      case NodeSymlink => r := FreshLookup(root, d, at, t);
      case _ => r := NodeResult(null, true);
    }

    /** Resolves a directory through each prefix already resolved: the same as a fresh lookup. */
    method Dir(d: Path, ghost at: Nodes, ghost t: Tree) returns (r: NodeResult)
      requires View(at) == Some(t) && Remembers(at, t) && AllPlain(d)
      modifies this`dirs
      ensures View(at) == Some(t) && Remembers(at, t)
      ensures Answers(r, HostLookup(t, d), at)
      decreases |d|
    {
      if d == [] {
        HostLookupStep(t, [], "a");
        return NodeResult(root, false);
      }
      if d in dirs {
        return dirs[d];
      }
      r := Dir(Parent(d), at, t);
      r := Enter(r, d, at, t);
      label Found:
      dirs := dirs[d := r];
      assert unchanged@Found(DirNodes(at));
    }

    method Lstat(p: Path, ghost at: Nodes, ghost t: Tree) returns (r: NodeResult)
      requires View(at) == Some(t) && Remembers(at, t) && AllPlain(p)
      modifies this`dirs
      ensures View(at) == Some(t) && Remembers(at, t)
      ensures Answers(r, Walks.Lstat(t, p), at)
    {
      if p == [] {
        return NodeResult(root, false);
      }
      r := Dir(Parent(p), at, t);
      if r.n != null {
        ghost var d := HostLookup(t, Parent(p)).path;
        ShownWellFormed(at, t);
        HostLookupIsDir(t, Parent(p));
        ChildAt(at, t, d, Last(p));
        r := NodeResult(ChildOf(r.n, Last(p)), false);
      }
    }

    /** The target of the symlink at `p`, if one stands there. */
    method ReadLink(p: Path, walked: nat, ghost at: Nodes, ghost t: Tree) returns (l: Link)
      requires View(at) == Some(t) && Remembers(at, t) && AllPlain(p)
      modifies this`dirs
      ensures View(at) == Some(t) && Remembers(at, t)
      ensures l == WalkLink(t, p, walked)
    {
      if walked > MAX_EXTRACT_SYMLINKS {
        return Refused;
      }
      if p == [] {
        return NoLink;
      }
      if AbsLen(p) > MAX_PATH_LEN {
        return Refused;
      }
      var r := Lstat(p, at, t);
      if r.failed {
        return Refused;
      }
      if r.n == null || r.n.kind != NodeSymlink {
        return NoLink;
      }
      return Target(r.n.link);
    }

    /** One pass of the extractor's path resolution. */
    method Pass(p: Raw, walked: nat, ghost at: Nodes, ghost t: Tree) returns (r: Option<(Raw, nat)>)
      requires View(at) == Some(t) && Remembers(at, t)
      modifies this`dirs
      ensures View(at) == Some(t) && Remembers(at, t)
      ensures r == WalkLinks(t, p, walked)
      decreases |p|, if p[|p| - 1] == "" then 0 else 1
    {
      var file, dir := p[|p| - 1], p[..|p| - 1];
      if |p| == 1 {
        NormPlain([], p);
        var l := ReadLink(Norm([], p), walked, at, t);
        r := Follow(l, None, Norm([], p), walked);
      } else if file == "" {
        if p == ["", ""] {
          r := Some((p, walked));
        } else {
          r := Pass(dir, walked, at, t);
        }
      } else {
        r := Pass(dir + [""], walked, at, t);
        if r.Some? {
          var (newdir, w) := r.value;
          var here := Norm([], Join(newdir, [file]));
          NormPlain([], Join(newdir, [file]));
          var l := ReadLink(here, w, at, t);
          r := Follow(l, Some(newdir), here, w);
        }
      }
    }
  }

  /** containerd's RootPath: what an entry's directory resolves to inside its own layer. */
  method ResolveRoot(root: FsNode, p: Raw, ghost at: Nodes, ghost t: Tree) returns (r: Option<Path>)
    requires View(at) == Some(t) && [] in at && at[[]] == root && root.kind == NodeDir
    ensures r == RootPath(t, p) && View(at) == Some(t)
  {
    if p == [""] {
      return Some([]);
    }
    var crosses := CrossesSymlink(root, p, at, t);
    if !crosses {
      return Some(Norm([], p));
    }
    var resolver := new Resolver(root);
    assert unchanged(DirNodes(at));
    var walked, cur := 0, p;
    while true
      invariant View(at) == Some(t) && resolver.Remembers(at, t) && fresh(resolver)
      invariant RootLoop(t, p, 0) == RootLoop(t, cur, walked)
      decreases MAX_EXTRACT_SYMLINKS + 1 - walked
    {
      var next := resolver.Pass(cur, walked, at, t);
      if next.None? {
        return None;
      }
      if next.value.1 == walked {
        return Some(Norm([], next.value.0));
      }
      cur, walked := next.value.0, next.value.1;
    }
  }
}

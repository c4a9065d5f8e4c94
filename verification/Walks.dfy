/** How a layer's own tree resolves paths: the walks, as functions of the tree. */
module Walks {
  import opened Trees
  import opened PathNames

  const MAX_LOOKUP_SYMLINKS := 40
  const MAX_EXTRACT_SYMLINKS := 255

  /** A lookup reaches a path, finds nothing, or fails as ENOTDIR or ELOOP. */
  datatype Lookup = Found(path: Path) | Absent | Failed

  function Reverse<T>(s: seq<T>): (r: seq<T>)
    ensures |r| == |s| && forall i :: 0 <= i < |s| ==> r[i] == s[|s| - 1 - i]
  {
    if s == [] then [] else Reverse(s[1..]) + [s[0]]
  }

  /** Pushes a path's segments onto a stack, the next one last. */
  function Push(pending: seq<string>, p: Raw): seq<string> {
    pending + Reverse(p)
  }

  /** The kernel's walk inside a layer's directory, leaving it for the host where nothing is. */
  function HostWalk(t: Tree, cur: Path, pending: seq<string>, followed: nat): (r: (Lookup, nat))
    requires followed <= MAX_LOOKUP_SYMLINKS
    ensures followed <= r.1 <= MAX_LOOKUP_SYMLINKS
    decreases MAX_LOOKUP_SYMLINKS - followed, |pending|
  {
    if pending == [] then (Found(cur), followed)
    else
      var seg, rest := pending[|pending| - 1], pending[..|pending| - 1];
      if seg == "" || seg == "." then HostWalk(t, cur, rest, followed)
      else if seg == ".." then
        if cur == [] then (Absent, followed) else HostWalk(t, Parent(cur), rest, followed)
      else if cur + [seg] !in t then (Absent, followed)
      else match t[cur + [seg]]
        case Dir(_, _) => HostWalk(t, cur + [seg], rest, followed)
        case Symlink(link) =>
          if followed == MAX_LOOKUP_SYMLINKS then (Failed, followed)
          else if IsAbs(link) then (Absent, followed + 1)
          else HostWalk(t, cur, Push(rest, link), followed + 1)
        case _ => (Failed, followed)
  }

  function HostLookup(t: Tree, d: Path): Lookup {
    HostWalk(t, [], Push([], Abs(d)), 0).0
  }

  /** A walk with more below it on the stack goes on from where it ends. */
  lemma {:induction false} HostWalkOn(t: Tree, cur: Path, below: seq<string>, pending: seq<string>, followed: nat)
    requires followed <= MAX_LOOKUP_SYMLINKS
    ensures
      var (r, f) := HostWalk(t, cur, pending, followed);
      HostWalk(t, cur, below + pending, followed) == if r.Found? then HostWalk(t, r.path, below, f) else (r, f)
    decreases MAX_LOOKUP_SYMLINKS - followed, |pending|
  {
    if pending == [] {
      assert below + pending == below;
    } else {
      var seg, rest := pending[|pending| - 1], pending[..|pending| - 1];
      assert (below + pending)[..|below + pending| - 1] == below + rest;
      if seg == "" || seg == "." {
        HostWalkOn(t, cur, below, rest, followed);
      } else if seg == ".." {
        if cur != [] {
          HostWalkOn(t, Parent(cur), below, rest, followed);
        }
      } else if cur + [seg] in t {
        match t[cur + [seg]]
        case Dir(_, _) => HostWalkOn(t, cur + [seg], below, rest, followed);
        case Symlink(link) =>
          if followed < MAX_LOOKUP_SYMLINKS && !IsAbs(link) {
            HostWalkOn(t, cur, below, Push(rest, link), followed + 1);
            assert Push(below + rest, link) == below + Push(rest, link);
          }
        case _ =>
      }
    }
  }

  lemma {:induction false} HostWalkIsDir(t: Tree, cur: Path, pending: seq<string>, followed: nat)
    requires WellFormed(t) && IsDirAt(t, cur) && followed <= MAX_LOOKUP_SYMLINKS
    ensures
      var r := HostWalk(t, cur, pending, followed).0;
      r.Found? ==> IsDirAt(t, r.path)
    decreases MAX_LOOKUP_SYMLINKS - followed, |pending|
  {
    if pending != [] {
      var seg, rest := pending[|pending| - 1], pending[..|pending| - 1];
      if seg == "" || seg == "." {
        HostWalkIsDir(t, cur, rest, followed);
      } else if seg == ".." {
        if cur != [] {
          assert Hangs(t, cur);
          HostWalkIsDir(t, Parent(cur), rest, followed);
        }
      } else if cur + [seg] in t {
        match t[cur + [seg]]
        case Dir(_, _) => HostWalkIsDir(t, cur + [seg], rest, followed);
        case Symlink(link) =>
          if followed < MAX_LOOKUP_SYMLINKS && !IsAbs(link) {
            HostWalkIsDir(t, cur, Push(rest, link), followed + 1);
          }
        case _ =>
      }
    }
  }

  lemma HostLookupIsDir(t: Tree, d: Path)
    requires WellFormed(t)
    ensures HostLookup(t, d).Found? ==> IsDirAt(t, HostLookup(t, d).path)
  {
    HostWalkIsDir(t, [], Push([], Abs(d)), 0);
  }

  /** Resolving d/base is one step from wherever resolving d led, and a fresh walk at a symlink. */
  lemma HostLookupStep(t: Tree, d: Path, base: string)
    requires Plain(base)
    ensures HostLookup(t, []) == Found([])
    ensures
      var r := HostLookup(t, d);
      HostLookup(t, d + [base]) ==
        if !r.Found? then r
        else if r.path + [base] !in t then Absent
        else match t[r.path + [base]]
          case Dir(_, _) => Found(r.path + [base])
          case Symlink(_) => HostLookup(t, d + [base])
          case _ => Failed
  {
    var pd, pb := Push([], Abs(d)), Push([], Abs(d + [base]));
    assert Push([], Abs([])) == ["", ""];
    assert HostWalk(t, [], ["", ""], 0) == HostWalk(t, [], ["", ""][..1], 0);
    HostWalkOn(t, [], [base], pd, 0);
    if d == [] {
      assert pb == [base, ""] && pb[..1] == [base];
      assert HostWalk(t, [], pb, 0) == HostWalk(t, [], [base], 0);
    } else {
      assert pb == [base] + pd;
    }
    var (r, f) := HostWalk(t, [], pd, 0);
    if r.Found? {
      assert [base][..0] == [];
    }
  }

  /** lstat(2): the directory as the kernel resolves it, the last component as it is. */
  function Lstat(t: Tree, p: Path): Lookup {
    if p == [] then Found([])
    else
      var r := HostLookup(t, Parent(p));
      if r.Found? then (if r.path + [Last(p)] in t then Found(r.path + [Last(p)]) else Absent) else r
  }

  datatype Link = NoLink | Target(link: Raw) | Refused

  /** Whether a symlink stands at `p`, once `walked` have been expanded. */
  function WalkLink(t: Tree, p: Path, walked: nat): Link {
    if walked > MAX_EXTRACT_SYMLINKS then Refused
    else if p == [] then NoLink
    else if AbsLen(p) > MAX_PATH_LEN then Refused
    else
      var r := Lstat(t, p);
      if r.Failed? then Refused
      else if r.Found? && r.path in t && t[r.path].Symlink? then Target(t[r.path].link)
      else NoLink
  }

  /** What a pass makes of the name at `here`; one written with no directory has its link taken as is. */
  function Follow(l: Link, newdir: Option<Raw>, here: Path, walked: nat): (r: Option<(Raw, nat)>) {
    match l
    case Refused => None
    case NoLink => Some((Abs(here), walked))
    case Target(link) => Some((if newdir.None? || IsAbs(link) then link else Join(newdir.value, link), walked + 1))
  }

  /** One pass over `p`: the string it resolves to, and the symlinks expanded so far. */
  function WalkLinks(t: Tree, p: Raw, walked: nat): (r: Option<(Raw, nat)>)
    ensures r.Some? ==> walked <= r.value.1 && (r.value.1 == walked || r.value.1 <= MAX_EXTRACT_SYMLINKS + 1)
    decreases |p|, if p[|p| - 1] == "" then 0 else 1
  {
    var file, dir := p[|p| - 1], p[..|p| - 1];
    if |p| == 1 then
      Follow(WalkLink(t, Norm([], p), walked), None, Norm([], p), walked)
    else if file == "" then
      if p == ["", ""] then Some((p, walked)) else WalkLinks(t, dir, walked)
    else
      match WalkLinks(t, dir + [""], walked)
      case None => None
      case Some((newdir, w)) =>
        var here := Norm([], Join(newdir, [file]));
        Follow(WalkLink(t, here, w), Some(newdir), here, w)
  }

  /** Passes are repeated until one expands nothing. */
  function RootLoop(t: Tree, p: Raw, walked: nat): (r: Option<(Path, nat)>)
    ensures r.Some? ==> r.value.1 == walked || r.value.1 <= MAX_EXTRACT_SYMLINKS + 1
    decreases MAX_EXTRACT_SYMLINKS + 1 - walked
  {
    match WalkLinks(t, p, walked)
    case None => None
    case Some((next, w)) => if w == walked then Some((Norm([], next), w)) else RootLoop(t, next, w)
  }

  /** Whether walking `segs` from `cur` meets anything but directories. */
  function Crosses(t: Tree, cur: Path, segs: seq<string>): bool
    decreases |segs|
  {
    if segs == [] then false
    else
      var next := Step(cur, segs[0]);
      if Plain(segs[0]) && next in t && !t[next].Dir? then true else Crosses(t, next, segs[1..])
  }

  /** The path an entry's directory resolves to inside its layer. */
  function RootPath(t: Tree, p: Raw): Option<Path> {
    if p == [""] then Some([])
    else if !Crosses(t, [], p) then Some(Norm([], p))
    else match RootLoop(t, p, 0)
      case None => None
      case Some((r, _)) => Some(r)
  }

  /** Only directories, or nothing, stand at the proper prefixes of `p`, and no symlink at `p`. */
  ghost predicate Clear(t: Tree, p: Path) {
    && AllPlain(p)
    && (forall k :: 0 <= k < |p| && p[..k] in t ==> t[p[..k]].Dir?)
    && (p in t ==> !t[p].Symlink?)
  }

  lemma {:induction false} LookupClear(t: Tree, p: Path)
    requires WellFormed(t) && AllPlain(p)
    requires forall k :: 0 <= k <= |p| && p[..k] in t ==> t[p[..k]].Dir?
    ensures HostLookup(t, p) == if p in t then Found(p) else Absent
    decreases |p|
  {
    if p == [] {
      HostLookupStep(t, [], "a");
    } else {
      var d, b := Parent(p), Last(p);
      assert p == d + [b] && Plain(b);
      assert forall k :: 0 <= k <= |d| ==> d[..k] == p[..k];
      LookupClear(t, d);
      HostLookupStep(t, d, b);
      assert p in t ==> Hangs(t, p);
      assert p[..|p|] == p;
    }
  }

  /** A directory walk that fails or ends elsewhere met something on the way. */
  lemma LookupPastLeaf(t: Tree, p: Path)
    requires WellFormed(t) && Clear(t, p) && p in t && !t[p].Dir?
    ensures HostLookup(t, p) == Failed
  {
    var d, b := Parent(p), Last(p);
    assert p == d + [b] && Plain(b);
    assert Hangs(t, p);
    assert forall k :: 0 <= k <= |d| ==> d[..k] == p[..k];
    LookupClear(t, d);
    HostLookupStep(t, d, b);
  }
}

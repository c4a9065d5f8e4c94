/** The kernel's own walk of a tree, free to leave what it walks in. */
module Kernel {
  import opened Trees
  import opened PathNames
  import opened Walks

  /** The kernel's walk: ".." stops at the root, an absolute link starts again there, and nothing lies below a file. */
  function KernelWalk(t: Tree, cur: Path, pending: seq<string>, followed: nat): Option<Path>
    requires followed <= MAX_LOOKUP_SYMLINKS
    decreases MAX_LOOKUP_SYMLINKS - followed, |pending|
  {
    if pending == [] then Some(cur)
    else
      var seg, rest := pending[|pending| - 1], pending[..|pending| - 1];
      if seg == "" || seg == "." then KernelWalk(t, cur, rest, followed)
      else if seg == ".." then KernelWalk(t, if cur == [] then cur else Parent(cur), rest, followed)
      else if cur + [seg] !in t then None
      else match t[cur + [seg]]
        case Dir(_, _) => KernelWalk(t, cur + [seg], rest, followed)
        case Symlink(link) =>
          if followed == MAX_LOOKUP_SYMLINKS then None
          else KernelWalk(t, if IsAbs(link) then [] else cur, Push(rest, link), followed + 1)
        case File => if rest == [] then Some(cur + [seg]) else None
        case Whiteout => None
  }

  /** Where the extractor's confined walk ends at a directory, the kernel's ends there too. */
  lemma {:induction false} HostWalkIsKernels(t: Tree, cur: Path, pending: seq<string>, followed: nat)
    requires followed <= MAX_LOOKUP_SYMLINKS && HostWalk(t, cur, pending, followed).0.Found?
    ensures KernelWalk(t, cur, pending, followed) == Some(HostWalk(t, cur, pending, followed).0.path)
    decreases MAX_LOOKUP_SYMLINKS - followed, |pending|
  {
    if pending != [] {
      var seg, rest := pending[|pending| - 1], pending[..|pending| - 1];
      if seg == "" || seg == "." {
        HostWalkIsKernels(t, cur, rest, followed);
      } else if seg == ".." {
        HostWalkIsKernels(t, Parent(cur), rest, followed);
      } else {
        match t[cur + [seg]]
        case Dir(_, _) => HostWalkIsKernels(t, cur + [seg], rest, followed);
        case Symlink(link) => HostWalkIsKernels(t, cur, Push(rest, link), followed + 1);
      }
    }
  }

  /** The kernel's walk ends at a directory or a file. */
  lemma {:induction false} KernelReaches(t: Tree, cur: Path, pending: seq<string>, followed: nat)
    requires WellFormed(t) && IsDirAt(t, cur) && followed <= MAX_LOOKUP_SYMLINKS
    ensures
      var r := KernelWalk(t, cur, pending, followed);
      r.Some? ==> r.value in t && (t[r.value].Dir? || t[r.value].File?)
    decreases MAX_LOOKUP_SYMLINKS - followed, |pending|
  {
    if pending != [] {
      var seg, rest := pending[|pending| - 1], pending[..|pending| - 1];
      if seg == "" || seg == "." {
        KernelReaches(t, cur, rest, followed);
      } else if seg == ".." {
        assert Hangs(t, cur);
        KernelReaches(t, if cur == [] then cur else Parent(cur), rest, followed);
      } else if cur + [seg] in t {
        match t[cur + [seg]]
        case Dir(_, _) => KernelReaches(t, cur + [seg], rest, followed);
        case Symlink(link) =>
          if followed < MAX_LOOKUP_SYMLINKS {
            assert Hangs(t, cur) && IsDirAt(t, []);
            KernelReaches(t, if IsAbs(link) then [] else cur, Push(rest, link), followed + 1);
          }
        case _ =>
      }
    }
  }

  /** The walk would leave the tree it is confined to: above its root, or through an absolute link. */
  ghost predicate Leaves(t: Tree, cur: Path, pending: seq<string>, followed: nat)
    requires followed <= MAX_LOOKUP_SYMLINKS
    decreases MAX_LOOKUP_SYMLINKS - followed, |pending|
  {
    if pending == [] then false
    else
      var seg, rest := pending[|pending| - 1], pending[..|pending| - 1];
      if seg == "" || seg == "." then Leaves(t, cur, rest, followed)
      else if seg == ".." then cur == [] || Leaves(t, Parent(cur), rest, followed)
      else if cur + [seg] !in t then false
      else match t[cur + [seg]]
        case Dir(_, _) => Leaves(t, cur + [seg], rest, followed)
        case Symlink(link) => followed < MAX_LOOKUP_SYMLINKS && (IsAbs(link) || Leaves(t, cur, Push(rest, link), followed + 1))
        case _ => false
  }

  /** The confined walk finds nothing where it would leave, and elsewhere the directory at which the kernel's ends. */
  lemma {:induction false} HostWalkExact(t: Tree, cur: Path, pending: seq<string>, followed: nat)
    requires WellFormed(t) && IsDirAt(t, cur) && followed <= MAX_LOOKUP_SYMLINKS
    ensures
      var r, k := HostWalk(t, cur, pending, followed).0, KernelWalk(t, cur, pending, followed);
      if Leaves(t, cur, pending, followed) then r == Absent
      else if k.Some? && IsDirAt(t, k.value) then r == Found(k.value)
      else !r.Found?
    decreases MAX_LOOKUP_SYMLINKS - followed, |pending|
  {
    if pending != [] {
      var seg, rest := pending[|pending| - 1], pending[..|pending| - 1];
      if seg == "" || seg == "." {
        HostWalkExact(t, cur, rest, followed);
      } else if seg == ".." {
        assert Hangs(t, cur);
        if cur != [] {
          HostWalkExact(t, Parent(cur), rest, followed);
        }
      } else if cur + [seg] in t {
        match t[cur + [seg]]
        case Dir(_, _) => HostWalkExact(t, cur + [seg], rest, followed);
        case Symlink(link) =>
          if followed < MAX_LOOKUP_SYMLINKS && !IsAbs(link) {
            HostWalkExact(t, cur, Push(rest, link), followed + 1);
          }
        case _ =>
      }
    }
  }

  /** A link to itself fails the walk rather than finding nothing. */
  lemma {:induction false} SelfLinkFails(t: Tree, cur: Path, n: string, below: seq<string>, followed: nat)
    requires Plain(n) && cur + [n] in t && t[cur + [n]] == Symlink([n]) && followed <= MAX_LOOKUP_SYMLINKS
    ensures HostWalk(t, cur, below + [n], followed).0 == Failed && KernelWalk(t, cur, below + [n], followed).None?
    decreases MAX_LOOKUP_SYMLINKS - followed
  {
    assert (below + [n])[..|below|] == below;
    assert n != "" && [n] != [""];
    if followed < MAX_LOOKUP_SYMLINKS {
      assert Push(below, [n]) == below + [n];
      SelfLinkFails(t, cur, n, below, followed + 1);
    }
  }
}

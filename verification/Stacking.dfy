/** Merging one extracted layer's nodes onto the mount below it, in place. */
module Stacking {
  import opened Trees
  import opened FsNodes

  ghost function Lookup(t: Tree, q: Path): Option<Entry> {
    if q in t then Some(t[q]) else None
  }

  /** What stands at `q` while the directory at `p` still has `names` to merge. */
  ghost function PartlyEntry(l: Tree, u: Tree, p: Path, names: set<string>, q: Path): Option<Entry>
    requires IsDirAt(u, p)
  {
    if !(p <= q) then Lookup(l, q)
    else if q != p && q[|p|] in names then (if u[p].hides then None else Lookup(l, q))
    else StackedEntry(l, u, q, |p|)
  }

  ghost function Partly(l: Tree, u: Tree, p: Path, names: set<string>): (t: Tree)
    requires IsDirAt(u, p)
    ensures forall q {:trigger Lookup(t, q)} :: Lookup(t, q) == PartlyEntry(l, u, p, names, q)
  {
    map q | q in l.Keys + u.Keys && PartlyEntry(l, u, p, names, q).Some? :: PartlyEntry(l, u, p, names, q).value
  }

  /** The mount with the directories at `p` merged, everything else as it was. */
  ghost function StackedUnder(l: Tree, u: Tree, p: Path): Tree
    requires IsDirAt(u, p)
  {
    Partly(l, u, p, {})
  }

  lemma SameTree(s: Tree, t: Tree)
    requires forall q :: Lookup(s, q) == Lookup(t, q)
    ensures s == t
  {
    forall q: Path
      ensures q in s <==> q in t
      ensures q in s ==> s[q] == t[q]
    {
      assert Lookup(s, q) == Lookup(t, q);
    }
    assert s.Keys == t.Keys;
  }

  lemma {:induction false} StackedUnderRoot(l: Tree, u: Tree)
    requires IsDirAt(u, [])
    ensures StackedUnder(l, u, []) == Stacked(l, u)
  {
    forall q
      ensures Lookup(StackedUnder(l, u, []), q) == Lookup(Stacked(l, u), q)
    {
      assert PartlyEntry(l, u, [], {}, q) == StackedEntry(l, u, q, 0);
    }
    SameTree(StackedUnder(l, u, []), Stacked(l, u));
  }

  lemma HiddenSplit(u: Tree, q: Path, k: nat)
    requires k < |q|
    ensures HiddenFrom(u, q, k) <==> Covers(u, q[..k]) || HiddenFrom(u, q, k + 1)
  {
  }

  lemma UnderChild(p: Path, name: string, q: Path)
    ensures p + [name] <= q <==> p < q && q[|p|] == name
    ensures p <= q ==> q[..|p|] == p
  {
  }

  /** Before any child is merged: the directory's own marks, and its contents cleared if opaque. */
  lemma PartlyStart(l: Tree, u: Tree, p: Path, names: set<string>, drop: set<string>)
    requires WellFormed(l) && WellFormed(u) && IsDirAt(u, p) && IsDirAt(l, p)
    requires forall name :: name in names <==> p + [name] in u
    requires forall name :: u[p].hides && p + [name] in l ==> name in drop
    requires !u[p].hides ==> drop == {}
    ensures Partly(l, u, p, names) == Cut(l, p, drop)[p := Merge(u[p], Some(l[p]))]
  {
    var x, y := Partly(l, u, p, names), Cut(l, p, drop)[p := Merge(u[p], Some(l[p]))];
    forall q
      ensures Lookup(x, q) == Lookup(y, q)
    {
      PartlyStartAt(l, u, p, names, drop, q);
    }
    SameTree(x, y);
  }

  lemma PartlyStartAt(l: Tree, u: Tree, p: Path, names: set<string>, drop: set<string>, q: Path)
    requires WellFormed(l) && WellFormed(u) && IsDirAt(u, p) && IsDirAt(l, p)
    requires forall name :: name in names <==> p + [name] in u
    requires forall name :: u[p].hides && p + [name] in l ==> name in drop
    requires !u[p].hides ==> drop == {}
    ensures PartlyEntry(l, u, p, names, q) == Lookup(Cut(l, p, drop)[p := Merge(u[p], Some(l[p]))], q)
  {
    if p < q {
      HiddenSplit(u, q, |p|);
      assert q[..|p|] == p;
      ChildShown(l, q, p);
      ChildShown(u, q, p);
      assert Lookup(Cut(l, p, drop), q) == (if u[p].hides then None else Lookup(l, q));
      if q[|p|] !in names {
        forall k: nat | |p| + 1 <= k < |q|
          ensures !Covers(u, q[..k])
        {
          ChildShown(u, q[..k], p);
          assert q[..k][|p|] == q[|p|];
        }
        assert !HiddenFrom(u, q, |p| + 1);
      }
    } else if p == q {
      assert !HiddenFrom(u, p, |p|);
    }
  }

  lemma ChildShown(t: Tree, q: Path, p: Path)
    requires WellFormed(t) && p < q
    ensures q in t ==> p + [q[|p|]] in t
    ensures q in t && |q| > |p| + 1 ==> t[p + [q[|p|]]].Dir?
  {
    assert q[..|p| + 1] == p + [q[|p|]];
    if q in t && |q| > |p| + 1 {
      AncestorIsDir(t, q, |p| + 1);
    } else if |q| == |p| + 1 {
      assert q == p + [q[|p|]];
    }
  }

  lemma PartlyLeaf(l: Tree, u: Tree, p: Path, names: set<string>, name: string)
    requires WellFormed(l) && WellFormed(u) && IsDirAt(u, p)
    requires name in names && p + [name] in u && !u[p + [name]].Dir?
    ensures Without(Partly(l, u, p, names), p + [name])[p + [name] := u[p + [name]]] == Partly(l, u, p, names - {name})
  {
    var c := p + [name];
    var x, y := Without(Partly(l, u, p, names), c)[c := u[c]], Partly(l, u, p, names - {name});
    forall q
      ensures Lookup(x, q) == Lookup(y, q)
    {
      UnderChild(p, name, q);
      assert Lookup(Partly(l, u, p, names), q) == PartlyEntry(l, u, p, names, q);
      if c <= q {
        ChildShown(u, q, p);
        assert q[..|c|] == c && Covers(u, q[..|c|]);
        assert q != c ==> HiddenFrom(u, q, |p|);
      }
    }
    SameTree(x, y);
  }

  /** The tree once there is a directory at `c` to merge into. */
  ghost function WithDirectory(t: Tree, c: Path): Tree {
    if IsDirAt(t, c) then t else Without(t, c)[c := Dir(c in t, None)]
  }

  lemma PartlyDirectory(l: Tree, u: Tree, p: Path, names: set<string>, name: string)
    requires WellFormed(l) && WellFormed(u) && IsDirAt(u, p)
    requires name in names && IsDirAt(u, p + [name])
    ensures StackedUnder(WithDirectory(Partly(l, u, p, names), p + [name]), u, p + [name]) == Partly(l, u, p, names - {name})
  {
    var c := p + [name];
    var t := WithDirectory(Partly(l, u, p, names), c);
    forall q
      ensures Lookup(StackedUnder(t, u, c), q) == Lookup(Partly(l, u, p, names - {name}), q)
    {
      PartlyDirectoryAt(l, u, p, names, name, q);
    }
    SameTree(StackedUnder(t, u, c), Partly(l, u, p, names - {name}));
  }

  lemma PartlyDirectoryAt(l: Tree, u: Tree, p: Path, names: set<string>, name: string, q: Path)
    requires WellFormed(l) && WellFormed(u) && IsDirAt(u, p)
    requires name in names && IsDirAt(u, p + [name])
    ensures
      var t := WithDirectory(Partly(l, u, p, names), p + [name]);
      PartlyEntry(t, u, p + [name], {}, q) == PartlyEntry(l, u, p, names - {name}, q)
  {
    var c := p + [name];
    var s := Partly(l, u, p, names);
    var t := WithDirectory(s, c);
    UnderChild(p, name, q);
    assert Lookup(s, q) == PartlyEntry(l, u, p, names, q);
    assert Lookup(s, c) == PartlyEntry(l, u, p, names, c);
    assert !(c <= q) ==> Lookup(t, q) == Lookup(s, q);
    if c <= q {
      HiddenSplit(u, q, |p|);
      assert q[..|p|] == p;
      if c < q {
        ChildShown(l, q, p);
        assert Lookup(t, q) == (if u[p].hides then None else Lookup(l, q));
      } else {
        assert q == c;
        assert !HiddenFrom(u, c, |p| + 1);
        assert HiddenFrom(u, c, |p|) <==> u[p].hides;
      }
    }
  }

  /** Nothing outside `p` has moved. */
  ghost predicate SameOutside(at: Nodes, atL: Nodes, p: Path) {
    forall q :: !(p <= q) ==> (q in at <==> q in atL) && (q in at ==> at[q] == atL[q])
  }

  lemma StackStart(p: Path, atL: Nodes, l: Tree, atU: Nodes, u: Tree)
    requires View(atL) == Some(l) && p in atL && atL[p].kind == NodeDir
    requires View(atU) == Some(u) && p in atU && atU[p].kind == NodeDir
    ensures WellFormed(l) && WellFormed(u) && IsDirAt(l, p) && IsDirAt(u, p)
    ensures
      var drop := if atU[p].hides then atL[p].children.Keys else {};
      && Partly(l, u, p, atU[p].children.Keys) == Cut(l, p, drop)[p := Merge(EntryOf(atU[p]), Some(l[p]))]
      && SameOutside(Cut(atL, p, drop), atL, p)
      && DirNodes(Cut(atL, p, drop)) <= DirNodes(atL)
  {
    ShownWellFormed(atL, l);
    ShownWellFormed(atU, u);
    NamesShown(atL, l, p);
    NamesShown(atU, u, p);
    var drop := if atU[p].hides then atL[p].children.Keys else {};
    PartlyStart(l, u, p, atU[p].children.Keys, drop);
  }

  lemma PartlyStep(l: Tree, u: Tree, p: Path, names: set<string>, name: string)
    requires WellFormed(l) && WellFormed(u) && IsDirAt(u, p) && name in names && p + [name] in u
    ensures !u[p + [name]].Dir? ==>
      Without(Partly(l, u, p, names), p + [name])[p + [name] := u[p + [name]]] == Partly(l, u, p, names - {name})
    ensures u[p + [name]].Dir? ==>
      StackedUnder(WithDirectory(Partly(l, u, p, names), p + [name]), u, p + [name]) == Partly(l, u, p, names - {name})
  {
    if u[p + [name]].Dir? {
      PartlyDirectory(l, u, p, names, name);
    } else {
      PartlyLeaf(l, u, p, names, name);
    }
  }

  /** The lower directory takes the upper one's marks, losing its contents first under an opaque one. */
  method Absorb(lower: FsNode, upper: FsNode, ghost p: Path, ghost atL: Nodes, ghost l: Tree) returns (ghost at: Nodes)
    requires View(atL) == Some(l) && p in atL && atL[p] == lower && lower.kind == NodeDir
    requires upper.kind == NodeDir && upper != lower
    modifies lower
    ensures at == Cut(atL, p, if upper.hides then old(lower.children).Keys else {})
    ensures IsDirAt(l, p)
    ensures View(at) == Some(Cut(l, p, if upper.hides then old(lower.children).Keys else {})[p := Merge(EntryOf(upper), Some(l[p]))])
  {
    assert EntryOf(lower) == l[p];
    ghost var drop: set<string> := {};
    if upper.hides {
      drop := lower.children.Keys;
      DropChildren(lower, lower.children.Keys, p, atL, l);
    } else {
      assert Cut(atL, p, {}) == atL;
      assert Cut(l, p, {}) == l;
    }
    at := Cut(atL, p, drop);
    Mark(lower, lower.hides || upper.hides, if upper.explicit then Some(upper.info) else None, p, at, Cut(l, p, drop));
  }

  /** The merge before any child: what the loop over the children starts from. */
  method Begin(lower: FsNode, upper: FsNode, ghost p: Path, ghost atL: Nodes, ghost l: Tree, ghost atU: Nodes, ghost u: Tree)
    returns (ghost at: Nodes)
    requires View(atL) == Some(l) && View(atU) == Some(u) && lower !in DirNodes(atU)
    requires p in atL && atL[p] == lower && lower.kind == NodeDir
    requires p in atU && atU[p] == upper && upper.kind == NodeDir
    modifies lower
    ensures p in at && at[p] == lower && DirNodes(at) <= DirNodes(atL) && SameOutside(at, atL, p)
    ensures View(atU) == Some(u) && WellFormed(l) && WellFormed(u) && IsDirAt(u, p)
    ensures View(at) == Some(Partly(l, u, p, upper.children.Keys))
  {
    StackStart(p, atL, l, atU, u);
    assert upper in DirNodes(atU);
    at := Absorb(lower, upper, p, atL, l);
  }

  /** The directory at p/name to merge into, made anew if there is none. */
  method EnsureDirectory(lower: FsNode, ghost p: Path, name: string, ghost atL: Nodes, ghost l: Tree, ghost region: set<FsNode>)
    returns (n: FsNode, ghost at: Nodes, ghost region': set<FsNode>)
    requires DirNodes(atL) <= region && View(atL) == Some(l) && p in atL && atL[p] == lower && lower.kind == NodeDir
    modifies lower
    ensures p in at && at[p] == lower && p + [name] in at && at[p + [name]] == n && n.kind == NodeDir
    ensures region <= region' && (forall n :: n in region' ==> n in region || fresh(n)) && DirNodes(at) <= region' && SameOutside(at, atL, p + [name])
    ensures View(at) == Some(WithDirectory(l, p + [name]))
  {
    ChildAt(atL, l, p, name);
    at, region' := atL, region;
    if name !in lower.children || lower.children[name].kind != NodeDir {
      n := new FsNode.Directory(name in lower.children);
      assert unchanged(DirNodes(at));
      SetChild(lower, name, n, p, at, l);
      at, region' := Graft(at, p + [name], n), region + {n};
    } else {
      n := lower.children[name];
    }
  }

  /** One name of the upper directory. */
  method MergeChild(lower: FsNode, n: FsNode, ghost p: Path, name: string, ghost names: set<string>,
      ghost atL: Nodes, ghost l: Tree, ghost atU: Nodes, ghost u: Tree, ghost region: set<FsNode>)
    returns (ghost at: Nodes, ghost region': set<FsNode>)
    requires WellFormed(l) && WellFormed(u) && IsDirAt(u, p) && name in names
    requires View(atL) == Some(Partly(l, u, p, names)) && View(atU) == Some(u)
    requires DirNodes(atL) <= region && region !! DirNodes(atU)
    requires p in atL && atL[p] == lower && lower.kind == NodeDir
    requires p in atU && p + [name] in atU && atU[p + [name]] == n
    modifies region
    ensures p in at && at[p] == lower
    ensures region <= region' && (forall n :: n in region' ==> n in region || fresh(n)) && DirNodes(at) <= region' && SameOutside(at, atL, p + [name])
    ensures View(atU) == Some(u) && View(at) == Some(Partly(l, u, p, names - {name}))
    decreases Under(atU, p), 0
  {
    assert lower in DirNodes(atL);
    assert u[p + [name]] == EntryOf(n);
    PartlyStep(l, u, p, names, name);
    ghost var t := Partly(l, u, p, names);
    if n.kind != NodeDir {
      SetChild(lower, name, n, p, atL, t);
      at, region' := Graft(atL, p + [name], n), region;
    } else {
      UnderShrinks(atU, p, name);
      var d;
      d, at, region' := EnsureDirectory(lower, p, name, atL, t, region);
      at, region' := Stack(d, n, p + [name], at, WithDirectory(t, p + [name]), atU, u, region');
    }
  }

  /** overlayfs's merge of the directory `upper` onto the directory `lower`, both at `p`. */
  method Stack(lower: FsNode, upper: FsNode, ghost p: Path,
      ghost atL: Nodes, ghost l: Tree, ghost atU: Nodes, ghost u: Tree, ghost region: set<FsNode>)
    returns (ghost at: Nodes, ghost region': set<FsNode>)
    requires View(atL) == Some(l) && View(atU) == Some(u) && DirNodes(atL) <= region && region !! DirNodes(atU)
    requires p in atL && atL[p] == lower && lower.kind == NodeDir
    requires p in atU && atU[p] == upper && upper.kind == NodeDir
    modifies region
    ensures p in at && at[p] == lower
    ensures region <= region' && (forall n :: n in region' ==> n in region || fresh(n)) && DirNodes(at) <= region' && SameOutside(at, atL, p)
    ensures View(atU) == Some(u) && IsDirAt(u, p) && View(at) == Some(StackedUnder(l, u, p))
    decreases Under(atU, p), 1
  {
    assert lower in DirNodes(atL) && upper in DirNodes(atU);
    at := Begin(lower, upper, p, atL, l, atU, u);
    region' := region;
    var names := upper.children.Keys;
    while names != {}
      invariant names <= upper.children.Keys
      invariant p in at && at[p] == lower
      invariant region <= region' && (forall n :: n in region' ==> n in region || fresh(n)) && DirNodes(at) <= region' && SameOutside(at, atL, p)
      invariant View(atU) == Some(u) && View(at) == Some(Partly(l, u, p, names))
      decreases names
    {
      var name :| name in names;
      ChildAt(atU, u, p, name);
      at, region' := MergeChild(lower, upper.children[name], p, name, names, at, l, atU, u, region');
      names := names - {name};
    }
  }
}

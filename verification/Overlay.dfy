/** Layers extracted in place and stacked into one mount. */
module Overlay {
  import opened Trees
  import opened PathNames
  import opened WalkFacts
  import opened FsNodes
  import opened Resolvers
  import opened Extraction
  import opened Stacking
  import opened Layers

  /** What one layer below says of a directory made at `p`. */
  method InheritInfoFrom(root: FsNode, p: Path, ghost at: Nodes, ghost t: Tree) returns (source: Source)
    requires Shown(root, at) == Some(t) && AllPlain(p)
    ensures source == InheritFrom(t, p)
  {
    var resolved := ResolveRoot(root, Abs(p), at, t);
    if resolved.None? {
      return Fails;
    }
    ShownWellFormed(at, t);
    RootPathClear(t, Abs(p));
    var resolver := new Resolver(root);
    assert unchanged(DirNodes(at));
    var found := resolver.Lstat(resolved.value, at, t);
    if found.failed {
      return Fails;
    }
    if found.n == null {
      return Nothing;
    }
    return Gives(if found.n.kind != NodeDir then Some(ROOT_OWNED) else if found.n.explicit then Some(found.n.info) else None);
  }

  /** One step of the search: the layer at `i`, with what it decides. */
  method InheritInfoAt(lowers: seq<FsNode>, i: nat, p: Path, ghost ats: seq<Nodes>, ghost ts: seq<Tree>) returns (source: Source)
    requires AllShown(lowers, ats) == Some(ts) && AllPlain(p) && i < |lowers| == |ts|
    ensures AllShown(lowers, ats) == Some(ts)
    ensures Inherit(ts[..i + 1], p) == Decided(source, ts[..i], p)
  {
    ShownAt(lowers, ats, ts, i);
    source := InheritInfoFrom(lowers[i], p, ats[i], ts[i]);
    assert unchanged(AllDirNodes(ats));
    InheritAt(ts, i, p, source);
  }

  lemma InheritAt(ts: seq<Tree>, i: nat, p: Path, source: Source)
    requires i < |ts| && source == InheritFrom(ts[i], p)
    ensures Inherit(ts[..i + 1], p) == Decided(source, ts[..i], p)
  {
    var upTo := ts[..i + 1];
    assert |upTo| == i + 1 && upTo[i] == ts[i] && upTo[..i] == ts[..i];
    InheritStep(upTo, p, source);
  }

  /** The metadata a directory made at `p` takes from the layers below, nearest first. */
  method InheritInfo(lowers: seq<FsNode>, p: Path, ghost ats: seq<Nodes>, ghost ts: seq<Tree>) returns (info: Option<Option<DirInfo>>)
    requires AllShown(lowers, ats) == Some(ts) && AllPlain(p)
    ensures info == Inherit(ts, p)
  {
    var i, source := |lowers|, Nothing;
    assert ts[..|ts|] == ts;
    while i > 0 && source.Nothing?
      invariant 0 <= i <= |lowers| && AllShown(lowers, ats) == Some(ts)
      invariant Inherit(ts, p) == Decided(source, ts[..i], p)
    {
      i := i - 1;
      source := InheritInfoAt(lowers, i, p, ats, ts);
    }
    info := if source.Fails? then None else Some(if source.Gives? then source.info else None);
  }

  /** A new directory where nothing stands. */
  method NewChild(parent: FsNode, name: string, info: Option<DirInfo>, ghost p: Path, ghost at: Nodes, ghost t: Tree, ghost region: set<FsNode>)
    returns (n: FsNode, ghost at': Nodes, ghost region': set<FsNode>)
    requires View(at) == Some(t) && p in at && at[p] == parent && parent.kind == NodeDir && name !in parent.children
    requires DirNodes(at) <= region
    modifies parent
    ensures at' == at[p + [name] := n] && n.kind == NodeDir && View(at') == Some(t[p + [name] := Dir(false, info)])
    ensures region <= region' && (forall o :: o in region' ==> o in region || fresh(o)) && DirNodes(at') <= region'
  {
    n := new FsNode.Directory(false);
    if info.Some? {
      n.explicit, n.info := true, info.value;
    }
    assert unchanged(DirNodes(at));
    ChildAt(at, t, p, name);
    NothingBelow(at, t, p + [name]);
    SetChild(parent, name, n, p, at, t);
    at', region' := at[p + [name] := n], region + {n};
  }

  lemma NothingBelow(at: Nodes, t: Tree, c: Path)
    requires View(at) == Some(t) && c !in t
    ensures Without(at, c) == at && Without(t, c) == t
  {
    ShownWellFormed(at, t);
    assert at.Keys == t.Keys;
    forall q | c <= q
      ensures q !in t
    {
      assert q[..|c|] == c && q[..|q|] == q;
      if q in t && |c| < |q| {
        AncestorIsDir(t, q, |c|);
      }
    }
  }

  /** The directory named `seg` below `parent`, made if nothing is there. */
  method MkOne(parent: FsNode, seg: string, lowers: seq<FsNode>, q: Path,
      ghost at: Nodes, ghost t: Tree, ghost ats: seq<Nodes>, ghost ts: seq<Tree>, ghost region: set<FsNode>)
    returns (n: FsNode?, ghost at': Nodes, ghost region': set<FsNode>)
    requires View(at) == Some(t) && AllShown(lowers, ats) == Some(ts) && AllPlain(q) && q != [] && seg == Last(q)
    requires Parent(q) in at && at[Parent(q)] == parent && parent.kind == NodeDir
    requires DirNodes(at) <= region && region !! AllDirNodes(ats)
    modifies parent
    ensures AllShown(lowers, ats) == Some(ts)
    ensures n == null <==> MakeOne(t, ts, q).None?
    ensures View(at') == Some(if n == null then t else MakeOne(t, ts, q).value)
    ensures n != null ==> q in at' && at'[q] == n && n.kind == NodeDir
    ensures at'[[]] == at[[]]
    ensures region <= region' && (forall o :: o in region' ==> o in region || fresh(o)) && DirNodes(at') <= region'
  {
    at', region' := at, region;
    ghost var p := Parent(q);
    assert q == p + [seg];
    assert parent in DirNodes(at);
    ChildAt(at, t, p, seg);
    if seg in parent.children {
      n := if parent.children[seg].kind == NodeDir then parent.children[seg] else null;
    } else {
      var info := InheritInfo(lowers, q, ats, ts);
      assert unchanged(region) && unchanged(AllDirNodes(ats));
      if info.None? {
        return null, at, region;
      }
      n, at', region' := NewChild(parent, seg, info.value, p, at, t, region);
      assert unchanged(AllDirNodes(ats));
    }
  }

  /** containerd's mkparent: makes the directories of `p` that do not exist, and returns the last. */
  method MkParent(root: FsNode, lowers: seq<FsNode>, p: Path,
      ghost at: Nodes, ghost t: Tree, ghost ats: seq<Nodes>, ghost ts: seq<Tree>, ghost region: set<FsNode>)
    returns (parent: FsNode, ok: bool, ghost at': Nodes, ghost region': set<FsNode>)
    requires Shown(root, at) == Some(t) && AllShown(lowers, ats) == Some(ts) && AllPlain(p)
    requires DirNodes(at) <= region && region !! AllDirNodes(ats)
    modifies region
    ensures AllShown(lowers, ats) == Some(ts) && Shown(root, at') == Some(MakeParents(t, ts, p, 0).0)
    ensures ok == MakeParents(t, ts, p, 0).1
    ensures ok ==> p in at' && at'[p] == parent && parent.kind == NodeDir
    ensures region <= region' && (forall n :: n in region' ==> n in region || fresh(n)) && DirNodes(at') <= region'
  {
    parent, at', region' := root, at, region;
    ghost var t' := t;
    var k := 0;
    assert p[..0] == [];
    while k < |p|
      invariant 0 <= k <= |p| && AllShown(lowers, ats) == Some(ts) && Shown(root, at') == Some(t')
      invariant MakeParents(t, ts, p, 0) == MakeParents(t', ts, p, k)
      invariant p[..k] in at' && at'[p[..k]] == parent && parent.kind == NodeDir
      invariant region <= region' && (forall n :: n in region' ==> n in region || fresh(n)) && DirNodes(at') <= region'
    {
      ghost var q := p[..k + 1];
      assert Parent(q) == p[..k] && AllPlain(q) && Last(q) == p[k];
      assert parent in DirNodes(at');
      var n;
      n, at', region' := MkOne(parent, p[k], lowers, p[..k + 1], at', t', ats, ts, region');
      if n == null {
        return parent, false, at', region';
      }
      t' := MakeOne(t', ts, q).value;
      parent, k := n, k + 1;
    }
    assert p[..|p|] == p;
    ok := true;
  }

  /** The node an entry places: new, or for a hard link the very node its target names. */
  method NodeFor(root: FsNode, h: Header, ghost at: Nodes, ghost t: Tree) returns (n: FsNode?)
    requires Shown(root, at) == Some(t)
    ensures View(at) == Some(t)
    ensures n == null <==> EntryMade(t, h).None?
    ensures n != null ==> EntryOf(n) == EntryMade(t, h).value
    ensures n != null && n.kind == NodeDir ==> fresh(n) && n.children == map[]
    ensures n != null && h.flag.HardLink? ==> n in at.Values
  {
    n := null;
    if h.flag.CharDevice? {
      n := new FsNode.Leaf(if h.devmajor == 0 && h.devminor == 0 then NodeWhiteout else NodeFile, [""]);
    } else if h.flag.Directory? {
      n := new FsNode.Directory(false);
      n.explicit, n.info := true, h.info;
    } else if h.flag.SymbolicLink? {
      if h.linkname != [""] && RawLen(h.linkname) <= MAX_PATH_LEN {
        n := new FsNode.Leaf(NodeSymlink, h.linkname);
      }
    } else if h.flag.HardLink? {
      n := LinkTarget(root, h.linkname, at, t);
    } else {
      n := new FsNode.Leaf(NodeFile, [""]);
    }
    assert unchanged(DirNodes(at));
  }

  /** What a hard link to `link` shares: its directory resolved, its last component taken as it is. */
  method LinkTarget(root: FsNode, link: Raw, ghost at: Nodes, ghost t: Tree) returns (n: FsNode?)
    requires Shown(root, at) == Some(t)
    ensures View(at) == Some(t)
    ensures
      && (n == null <==> LinkEntry(t, link).None?)
      && (n != null ==> n.kind != NodeDir && n in at.Values && EntryOf(n) == LinkEntry(t, link).value)
  {
    var d := ResolveRoot(root, SplitDir(link), at, t);
    if d.None? {
      return null;
    }
    var target := Join(Abs(d.value), [SplitBase(link)]);
    NormPlain([], target);
    var resolver := new Resolver(root);
    assert unchanged(DirNodes(at));
    var r := resolver.Lstat(Norm([], target), at, t);
    n := if r.n != null && r.n.kind != NodeDir then r.n else null;
  }

  /** Whiteouts and opaque markers: what the extractor writes in the entry's place. */
  method PlaceMarker(root: FsNode, parent: FsNode, base: string, ghost p: Path, ghost at: Nodes, ghost t: Tree)
    returns (ghost at': Nodes)
    requires Shown(root, at) == Some(t) && p in at && at[p] == parent && parent.kind == NodeDir
    requires base == OPAQUE_MARKER || WHITEOUT_PREFIX <= base
    modifies parent
    ensures forall h :: Shown(root, at') == Some(PlaceEntry(t, p, base, h).0)
    ensures DirNodes(at') <= DirNodes(at)
  {
    at' := at;
    NamesShown(at, t, p);
    if base == OPAQUE_MARKER {
      if parent != root {
        Mark(parent, true, None, p, at, t);
      } else {
        assert Distinct(at, p, []);
      }
    } else {
      at' := PlaceWhiteout(root, parent, base[|WHITEOUT_PREFIX|..], p, at, t);
    }
  }

  method PlaceWhiteout(root: FsNode, parent: FsNode, victim: string, ghost p: Path, ghost at: Nodes, ghost t: Tree)
    returns (ghost at': Nodes)
    requires Shown(root, at) == Some(t) && p in at && at[p] == parent && parent.kind == NodeDir
    modifies parent
    ensures Shown(root, at') == Some(if victim != "" && p + [victim] !in t then t[p + [victim] := Whiteout] else t)
    ensures DirNodes(at') <= DirNodes(at)
  {
    at' := at;
    ChildAt(at, t, p, victim);
    if victim != "" && victim !in parent.children {
      var n := new FsNode.Leaf(NodeWhiteout, [""]);
      assert unchanged(DirNodes(at));
      NothingBelow(at, t, p + [victim]);
      SetChild(parent, victim, n, p, at, t);
      at' := at[p + [victim] := n];
    }
  }

  /** Any other entry: it replaces what held its path unless both are directories. */
  method PlaceNode(root: FsNode, parent: FsNode, base: string, h: Header,
      ghost p: Path, ghost at: Nodes, ghost t: Tree, ghost region: set<FsNode>)
    returns (ok: bool, ghost at': Nodes, ghost region': set<FsNode>)
    requires Shown(root, at) == Some(t) && p in at && at[p] == parent && parent.kind == NodeDir
    requires base != OPAQUE_MARKER && !(WHITEOUT_PREFIX <= base)
    requires DirNodes(at) <= region
    modifies region
    ensures ok == PlaceEntry(t, p, base, h).1 && Shown(root, at') == Some(PlaceEntry(t, p, base, h).0)
    ensures region <= region' && (forall n :: n in region' ==> n in region || fresh(n)) && DirNodes(at') <= region'
  {
    at', region' := at, region;
    ghost var c := p + [base];
    assert parent in DirNodes(at);
    ChildAt(at, t, p, base);
    if h.flag.GlobalHeader? {
      DropChildren(parent, {base}, p, at, t);
      CutOne(at, p, base);
      CutOne(t, p, base);
      at' := Without(at, c);
      ok := true;
    } else if h.flag.Directory? && base in parent.children && parent.children[base].kind == NodeDir {
      var existing := parent.children[base];
      assert existing in DirNodes(at);
      Mark(existing, existing.hides, Some(h.info), c, at, t);
      ok := true;
    } else {
      ok, at', region' := ReplaceNode(root, parent, base, h, p, at, t, region);
    }
  }

  method ReplaceNode(root: FsNode, parent: FsNode, base: string, h: Header,
      ghost p: Path, ghost at: Nodes, ghost t: Tree, ghost region: set<FsNode>)
    returns (ok: bool, ghost at': Nodes, ghost region': set<FsNode>)
    requires Shown(root, at) == Some(t) && p in at && at[p] == parent && parent.kind == NodeDir
    requires DirNodes(at) <= region
    modifies parent
    ensures ok == EntryMade(t, h).Some?
    ensures Shown(root, at') == Some(if ok then Without(t, p + [base])[p + [base] := EntryMade(t, h).value] else t)
    ensures region <= region' && (forall n :: n in region' ==> n in region || fresh(n)) && DirNodes(at') <= region'
  {
    at', region' := at, region;
    var n := NodeFor(root, h, at, t);
    ok := n != null;
    if ok {
      SetChild(parent, base, n, p, at, t);
      at' := Graft(at, p + [base], n);
      region' := if n.kind == NodeDir then region + {n} else region;
    }
  }

  /** One archive entry, applied to a layer's own nodes. */
  method Extract(root: FsNode, lowers: seq<FsNode>, h: Header,
      ghost at: Nodes, ghost t: Tree, ghost ats: seq<Nodes>, ghost ts: seq<Tree>, ghost region: set<FsNode>)
    returns (ok: bool, ghost at': Nodes, ghost region': set<FsNode>)
    requires Shown(root, at) == Some(t) && AllShown(lowers, ats) == Some(ts)
    requires DirNodes(at) <= region && region !! AllDirNodes(ats)
    modifies region
    ensures AllShown(lowers, ats) == Some(ts)
    ensures ok == Extracted(t, ts, h).1 && Shown(root, at') == Some(Extracted(t, ts, h).0)
    ensures region <= region' && (forall n :: n in region' ==> n in region || fresh(n)) && DirNodes(at') <= region'
  {
    at', region' := at, region;
    var name := Clean(h.name);
    var base := SplitBase(name);
    if name == ["."] || name == ["", ""] || base == ".." {
      return true, at, region;
    }
    if RawLen(name) > MAX_PATH_LEN {
      return false, at, region;
    }
    var resolved := ResolveRoot(root, SplitDir(name), at, t);
    assert unchanged(region) && unchanged(AllDirNodes(ats));
    if resolved.None? {
      return false, at, region;
    }
    ShownWellFormed(at, t);
    RootPathClear(t, SplitDir(name));
    var parent;
    parent, ok, at', region' := MkParent(root, lowers, resolved.value, at, t, ats, ts, region);
    if ok {
      assert parent in DirNodes(at');
      ghost var made := MakeParents(t, ts, resolved.value, 0).0;
      ok, at', region' := Place(root, parent, base, h, resolved.value, at', made, region');
      assert unchanged(AllDirNodes(ats));
    }
  }

  /** Places an entry in the directory its name resolved to. */
  method Place(root: FsNode, parent: FsNode, base: string, h: Header,
      ghost p: Path, ghost at: Nodes, ghost t: Tree, ghost region: set<FsNode>)
    returns (ok: bool, ghost at': Nodes, ghost region': set<FsNode>)
    requires Shown(root, at) == Some(t) && p in at && at[p] == parent && parent.kind == NodeDir
    requires DirNodes(at) <= region
    modifies region
    ensures ok == PlaceEntry(t, p, base, h).1 && Shown(root, at') == Some(PlaceEntry(t, p, base, h).0)
    ensures region <= region' && (forall n :: n in region' ==> n in region || fresh(n)) && DirNodes(at') <= region'
  {
    if base == OPAQUE_MARKER || WHITEOUT_PREFIX <= base {
      assert parent in DirNodes(at);
      at' := PlaceMarker(root, parent, base, p, at, t);
      ok, region' := true, region;
    } else {
      ok, at', region' := PlaceNode(root, parent, base, h, p, at, t, region);
    }
  }

  /** The root is a directory with no opaque mark. */
  ghost predicate RootUnmarked(t: Tree) {
    IsDirAt(t, []) && !t[[]].hides
  }

  /** A layer is a tree of its own, sharing no directory with a layer below, and its root is not opaque. */
  ghost predicate Extracting(root: FsNode, at: Nodes, tree: Tree, lowers: seq<FsNode>, lowerNodes: seq<Nodes>, lowerTrees: seq<Tree>)
    reads DirNodes(at), AllDirNodes(lowerNodes)
  {
    && Shown(root, at) == Some(tree) && AllShown(lowers, lowerNodes) == Some(lowerTrees)
    && DirNodes(at) !! AllDirNodes(lowerNodes)
    && RootUnmarked(tree)
  }

  /** An extraction in progress. */
  class Layer {
    const root: FsNode
    const lowers: seq<FsNode>
    ghost var at: Nodes
    ghost var tree: Tree
    ghost const lowerNodes: seq<Nodes>
    ghost const lowerTrees: seq<Tree>

    // The comparison with `true` keeps callers from proving each conjunct apart.
    ghost predicate Valid()
      reads this, DirNodes(at), AllDirNodes(lowerNodes)
    {
      Extracting(root, at, tree, lowers, lowerNodes, lowerTrees) == true
    }

    constructor (lowers: seq<FsNode>, ghost ats: seq<Nodes>, ghost ts: seq<Tree>)
      requires AllShown(lowers, ats) == Some(ts)
      ensures Valid() && tree == EMPTY && fresh(DirNodes(at))
      ensures this.lowers == lowers && lowerNodes == ats && lowerTrees == ts
    {
      var dir := new FsNode.Directory(false);
      root, this.lowers, lowerNodes, lowerTrees := dir, lowers, ats, ts;
      at, tree := map[[] := dir], EMPTY;
      new;
      assert unchanged(AllDirNodes(ats));
      SingleDirectory(dir);
    }

    method Become(ghost at': Nodes, ghost tree': Tree)
      requires Shown(root, at') == Some(tree') && AllShown(lowers, lowerNodes) == Some(lowerTrees)
      requires DirNodes(at') !! AllDirNodes(lowerNodes) && RootUnmarked(tree')
      modifies this
      ensures Valid() && at == at' && tree == tree'
    {
      at, tree := at', tree';
      assert unchanged(DirNodes(at')) && unchanged(AllDirNodes(lowerNodes));
    }

    method Add(h: Header) returns (ok: bool)
      requires Valid()
      modifies this, DirNodes(at)
      ensures Valid() && forall n :: n in DirNodes(at) ==> n in old(DirNodes(at)) || fresh(n)
      ensures ok == Extracted(old(tree), lowerTrees, h).1 && tree == Extracted(old(tree), lowerTrees, h).0
    {
      ghost var region := DirNodes(at);
      ShownWellFormed(at, tree);
      ExtractedWellFormed(tree, lowerTrees, h);
      ghost var at', region';
      ok, at', region' := Extract(root, lowers, h, at, tree, lowerNodes, lowerTrees, region);
      Become(at', Extracted(tree, lowerTrees, h).0);
    }
  }

  lemma SingleDirectory(dir: FsNode)
    requires dir.kind == NodeDir && dir.children == map[] && !dir.hides && !dir.explicit
    ensures DirNodes(map[[] := dir]) == {dir}
    ensures Shown(dir, map[[] := dir]) == Some(EMPTY)
  {
    var at: Nodes := map[[] := dir];
    assert at[[]] == dir && dir in DirNodes(at);
    assert EntriesOf(at) == EMPTY;
  }

  lemma FoldOneMore(ts: seq<Tree>, t: Tree)
    ensures Fold(ts + [t]) == Stacked(Fold(ts), t)
  {
    assert (ts + [t])[..|ts|] == ts;
  }

  lemma OneMoreShown(roots: seq<FsNode>, ats: seq<Nodes>, ts: seq<Tree>, root: FsNode, at: Nodes, t: Tree)
    requires AllShown(roots, ats) == Some(ts) && Shown(root, at) == Some(t)
    ensures AllShown(roots + [root], ats + [at]) == Some(ts + [t])
    ensures AllDirNodes(ats + [at]) == AllDirNodes(ats) + DirNodes(at)
  {
    forall i | 0 <= i <= |ats|
      ensures Shown((roots + [root])[i], (ats + [at])[i]) == Some((ts + [t])[i])
    {
      if i < |ats| {
        ShownAt(roots, ats, ts, i);
      }
    }
    assert AllShown(roots + [root], ats + [at]).value == ts + [t];
    forall n
      ensures n in AllDirNodes(ats + [at]) <==> n in AllDirNodes(ats) + DirNodes(at)
    {
      assert (ats + [at])[|ats|] == at;
      assert forall i :: 0 <= i < |ats| ==> (ats + [at])[i] == ats[i];
    }
  }

  /** No two of the trees share a directory. */
  ghost predicate Apart(at: Nodes, ats: seq<Nodes>) {
    && DirNodes(at) !! AllDirNodes(ats)
    && forall i, j :: 0 <= i < j < |ats| ==> DirNodes(ats[i]) !! DirNodes(ats[j])
  }

  ghost predicate AllLayers(ts: seq<Tree>) {
    forall i :: 0 <= i < |ts| ==> WellFormed(ts[i]) && RootUnmarked(ts[i])
  }

  lemma OneMoreApart(at: Nodes, at': Nodes, ats: seq<Nodes>, next: Nodes)
    requires Apart(at, ats) && DirNodes(next) !! AllDirNodes(ats)
    requires DirNodes(at') !! AllDirNodes(ats) && DirNodes(at') !! DirNodes(next)
    ensures Apart(at', ats + [next])
  {
    var more := ats + [next];
    assert forall i :: 0 <= i < |ats| ==> DirNodes(more[i]) <= AllDirNodes(ats);
    forall n
      ensures n in AllDirNodes(more) ==> n in AllDirNodes(ats) || n in DirNodes(next)
    {
    }
  }

  /** A mount's nodes and those of its layers, with the trees they show. */
  datatype Mount = Mount(at: Nodes, tree: Tree, layerNodes: seq<Nodes>, layerTrees: seq<Tree>) {
    ghost function Footprint(): set<FsNode> {
      DirNodes(at) + AllDirNodes(layerNodes)
    }

    function Next(at': Nodes, tree': Tree, layerAt: Nodes, layerTree: Tree): Mount {
      Mount(at', tree', layerNodes + [layerAt], layerTrees + [layerTree])
    }
  }

  /** The mount is the fold of its layers, each a tree of directories of its own. */
  ghost predicate Sound(m: Mount) {
    Apart(m.at, m.layerNodes) && AllLayers(m.layerTrees) && m.tree == Fold(m.layerTrees)
  }

  ghost predicate Mounted(root: FsNode, layers: seq<FsNode>, m: Mount)
    reads DirNodes(m.at), AllDirNodes(m.layerNodes)
  {
    && Sound(m)
    && Shown(root, m.at) == Some(m.tree)
    && AllShown(layers, m.layerNodes) == Some(m.layerTrees)
  }

  lemma MountedNext(root: FsNode, layers: seq<FsNode>, m: Mount, layer: FsNode, m': Mount, layerTree: Tree, layerAt: Nodes)
    requires AllShown(layers, m.layerNodes) == Some(m.layerTrees) && Apart(m.at, m.layerNodes) && AllLayers(m.layerTrees)
    requires m' == m.Next(m'.at, m'.tree, layerAt, layerTree)
    requires Shown(root, m'.at) == Some(m'.tree) && Shown(layer, layerAt) == Some(layerTree)
    requires m'.tree == Fold(m'.layerTrees) && RootUnmarked(layerTree)
    requires DirNodes(layerAt) !! AllDirNodes(m.layerNodes)
    requires DirNodes(m'.at) !! AllDirNodes(m.layerNodes) && DirNodes(m'.at) !! DirNodes(layerAt)
    ensures Mounted(root, layers + [layer], m')
    ensures m'.Footprint() == DirNodes(m'.at) + AllDirNodes(m.layerNodes) + DirNodes(layerAt)
  {
    OneMoreApart(m.at, m'.at, m.layerNodes, layerAt);
    ShownWellFormed(layerAt, layerTree);
    assert AllLayers(m'.layerTrees);
    OneMoreShown(layers, m.layerNodes, m.layerTrees, layer, layerAt, layerTree);
  }

  /** The stacking step of `FS.Apply`, on the nodes. */
  method StackLayer(root: FsNode, layers: seq<FsNode>, ghost m: Mount, layer: FsNode, ghost layerAt: Nodes, ghost layerTree: Tree)
    returns (ghost m': Mount)
    requires Mounted(root, layers, m)
    requires Shown(layer, layerAt) == Some(layerTree) && RootUnmarked(layerTree)
    requires DirNodes(layerAt) !! m.Footprint()
    modifies DirNodes(m.at)
    ensures Mounted(root, layers + [layer], m') == true && m' == m.Next(m'.at, m'.tree, layerAt, layerTree)
    ensures m'.Footprint() == DirNodes(m'.at) + AllDirNodes(m.layerNodes) + DirNodes(layerAt)
    ensures forall n :: n in DirNodes(m'.at) ==> n in DirNodes(m.at) || fresh(n)
  {
    ghost var at', region' := Stack(root, layer, [], m.at, m.tree, layerAt, layerTree, DirNodes(m.at));
    StackedUnderRoot(m.tree, layerTree);
    FoldOneMore(m.layerTrees, layerTree);
    assert unchanged(AllDirNodes(m.layerNodes));
    m' := m.Next(at', StackedUnder(m.tree, layerTree, []), layerAt, layerTree);
    MountedNext(root, layers, m, layer, m', layerTree, layerAt);
  }

  /** Layers stacked in turn, and the mount they make. */
  class FS {
    const root: FsNode
    var layers: seq<FsNode>
    ghost var mount: Mount

    ghost predicate Valid()
      reads this, DirNodes(mount.at), AllDirNodes(mount.layerNodes)
    {
      Mounted(root, layers, mount) == true
    }

    constructor ()
      ensures Valid() && mount.layerTrees == [] && fresh(mount.Footprint())
    {
      var dir := new FsNode.Directory(false);
      root, layers := dir, [];
      mount := Mount(map[[] := dir], EMPTY, [], []);
      new;
      SingleDirectory(dir);
      assert AllShown(layers, mount.layerNodes).value == [];
    }

    method NewLayer() returns (l: Layer)
      requires Valid()
      ensures Valid() && l.Valid() && fresh(l) && l.tree == EMPTY
      ensures l.lowerTrees == mount.layerTrees && l.lowerNodes == mount.layerNodes && fresh(DirNodes(l.at))
    {
      l := new Layer(layers, mount.layerNodes, mount.layerTrees);
      assert unchanged(mount.Footprint());
    }

    /** Stacks a layer on the mount, opened at any time. The layers already applied, and this one, stay as they are. */
    method Apply(l: Layer)
      requires Valid() && l.Valid()
      requires DirNodes(l.at) !! mount.Footprint()
      modifies this, DirNodes(mount.at)
      ensures Valid()
      ensures layers == old(layers) + [l.root]
      ensures mount.layerNodes == old(mount.layerNodes) + [l.at] && mount.layerTrees == old(mount.layerTrees) + [l.tree]
      ensures fresh(DirNodes(mount.at) - old(DirNodes(mount.at)))
    {
      ghost var m' := StackLayer(root, layers, mount, l.root, l.at, l.tree);
      Adopt(l.root, m');
    }

    method Adopt(layer: FsNode, ghost m: Mount)
      requires Mounted(root, layers + [layer], m)
      modifies this
      ensures Valid() && layers == old(layers) + [layer] && mount == m
    {
      layers, mount := layers + [layer], m;
      assert unchanged(DirNodes(m.at)) && unchanged(AllDirNodes(m.layerNodes));
    }
  }
}

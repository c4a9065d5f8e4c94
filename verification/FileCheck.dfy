/** The whole file-collision check, from archive headers to verdict. */
module FileCheck {
  import opened Trees
  import opened Layers
  import opened FsNodes
  import opened Extraction
  import opened Overlay
  import opened Inventory
  import opened Ownership
  import opened Damage
  import opened Collisions

  /** A kit's reference and the archive headers of its layers. */
  datatype KitInventory = KitInventory(reference: string, layers: seq<seq<Header>>)

  datatype Verdict =
    | Clear
    | Unextractable(reference: string)
    | Collides(path: Path, lower: string, upper: string)

  /** The trees of a kit's layers, each extracted over those before it. */
  ghost function LayersOf(layers: seq<seq<Header>>): Option<seq<Tree>> {
    if layers == [] then Some([])
    else match LayersOf(layers[..|layers| - 1])
      case None => None
      case Some(ts) =>
        match LayerTree(EMPTY, ts, layers[|layers| - 1])
        case None => None
        case Some(t) => Some(ts + [t])
  }

  ghost predicate Extracts(kit: KitInventory) {
    LayersOf(kit.layers).Some?
  }

  /** A kit's own mount. */
  ghost function KitTree(kit: KitInventory): Tree
    requires Extracts(kit)
  {
    Fold(LayersOf(kit.layers).value)
  }

  ghost function KitTrees(kits: seq<KitInventory>): (trees: seq<Tree>)
    requires forall i :: 0 <= i < |kits| ==> Extracts(kits[i])
    ensures |trees| == |kits| && forall i :: 0 <= i < |kits| ==> trees[i] == KitTree(kits[i])
  {
    seq(|kits|, i requires 0 <= i < |kits| => KitTree(kits[i]))
  }

  lemma LayersOfStep(layers: seq<seq<Header>>, i: nat)
    requires i < |layers|
    ensures LayersOf(layers[..i + 1]) ==
      match LayersOf(layers[..i])
      case None => None
      case Some(ts) =>
        (match LayerTree(EMPTY, ts, layers[i])
         case None => None
         case Some(t) => Some(ts + [t]))
  {
    assert layers[..i + 1][..i] == layers[..i];
  }

  lemma {:induction false} LayersOfPrefix(layers: seq<seq<Header>>, i: nat)
    requires i <= |layers| && LayersOf(layers).Some?
    ensures LayersOf(layers[..i]).Some?
    decreases |layers|
  {
    if i == |layers| {
      assert layers[..i] == layers;
    } else {
      LayersOfPrefix(layers[..|layers| - 1], i);
      assert layers[..|layers| - 1][..i] == layers[..i];
    }
  }

  /** One layer's headers, in archive order, up to the first the extractor refuses. */
  method FillLayer(l: Layer, headers: seq<Header>) returns (ok: bool)
    requires l.Valid()
    modifies l, DirNodes(l.at)
    ensures l.Valid() && forall n :: n in DirNodes(l.at) ==> n in old(DirNodes(l.at)) || fresh(n)
    ensures ok <==> LayerTree(old(l.tree), l.lowerTrees, headers).Some?
    ensures ok ==> l.tree == LayerTree(old(l.tree), l.lowerTrees, headers).value
  {
    var k := 0;
    while k < |headers|
      invariant 0 <= k <= |headers| && l.Valid()
      invariant forall n :: n in DirNodes(l.at) ==> n in old(DirNodes(l.at)) || fresh(n)
      invariant LayerTree(old(l.tree), l.lowerTrees, headers) == LayerTree(l.tree, l.lowerTrees, headers[k..])
    {
      assert headers[k..][0] == headers[k] && headers[k..][1..] == headers[k + 1..];
      ok := l.Add(headers[k]);
      if !ok {
        return;
      }
      k := k + 1;
    }
    ok := true;
  }

  /** Extracts the next layer of a kit. */
  method NextLayer(fs: FS, headers: seq<Header>) returns (l: Layer, ok: bool)
    requires fs.Valid()
    ensures fs.Valid() && l.Valid() && l.lowerNodes == fs.mount.layerNodes && fresh(l)
    ensures forall n :: n in DirNodes(l.at) ==> fresh(n)
    ensures ok <==> LayerTree(EMPTY, fs.mount.layerTrees, headers).Some?
    ensures ok ==> l.tree == LayerTree(EMPTY, fs.mount.layerTrees, headers).value
  {
    l := fs.NewLayer();
    ok := FillLayer(l, headers);
    assert unchanged(fs.mount.Footprint());
  }

  /** Extracts and stacks the next layer of a kit. */
  method AddLayer(fs: FS, headers: seq<Header>) returns (ok: bool)
    requires fs.Valid()
    modifies fs, DirNodes(fs.mount.at)
    ensures fs.Valid() && forall n :: n in DirNodes(fs.mount.at) ==> n in old(DirNodes(fs.mount.at)) || fresh(n)
    ensures ok <==> LayerTree(EMPTY, old(fs.mount.layerTrees), headers).Some?
    ensures ok ==> fs.mount.layerTrees == old(fs.mount.layerTrees) + [LayerTree(EMPTY, old(fs.mount.layerTrees), headers).value]
  {
    var l;
    l, ok := NextLayer(fs, headers);
    if ok {
      assert DirNodes(l.at) !! fs.mount.Footprint();
      fs.Apply(l);
    }
  }

  /** A kit's own mount, its layers extracted and stacked in turn. */
  method BuildKit(layers: seq<seq<Header>>) returns (fs: FS, ok: bool)
    ensures fresh(fs) && fs.Valid()
    ensures ok <==> LayersOf(layers).Some?
    ensures ok ==> fs.mount.tree == Fold(LayersOf(layers).value)
  {
    fs := new FS();
    ok := true;
    var i := 0;
    while i < |layers| && ok
      invariant 0 <= i <= |layers| && fs.Valid() && fresh(fs) && forall n :: n in DirNodes(fs.mount.at) ==> fresh(n)
      invariant ok <==> LayersOf(layers[..i]).Some?
      invariant ok ==> LayersOf(layers[..i]).value == fs.mount.layerTrees
    {
      LayersOfStep(layers, i);
      ok := AddLayer(fs, layers[i]);
      i := i + 1;
    }
    if ok {
      assert layers[..i] == layers;
    } else if LayersOf(layers).Some? {
      LayersOfPrefix(layers, i);
    }
  }

  /** What one kit's visit needs of its mount. */
  method ReportKit(layers: seq<seq<Header>>) returns (entries: seq<WalkEntry>, ok: bool, ghost t: Tree, ghost paths: seq<Path>)
    ensures ok <==> LayersOf(layers).Some?
    ensures ok ==> t == Fold(LayersOf(layers).value) && WellFormed(t)
    ensures ok ==> Covering(t, [], paths) && Stepwise(paths) && paths != [] && paths[0] == [] && entries == Report(t, paths)
  {
    var fs;
    fs, ok := BuildKit(layers);
    entries, t, paths := [], fs.mount.tree, [];
    if ok {
      ShownWellFormed(fs.mount.at, t);
      entries := Walk(fs.root, "", 0, [], fs.mount.at, t);
      paths := Preorder(t, []);
      PreorderCovers(t, []);
      PreorderStepwise(t, []);
    }
  }

  /** `upper` damages a path that `lower` contributes. */
  ghost predicate Injures(upper: Tree, lower: Tree, p: Path) {
    Contributed(lower, p) && Damages(upper, lower, p)
  }

  /** Judges one kit against those before it, then claims its paths. */
  method CheckKit(kit: KitInventory, owners: OwnershipNode, ghost nodes: Index, ghost trees: seq<Tree>, ghost refs: seq<string>)
    returns (verdict: Verdict, ghost nodes': Index)
    requires RootOf(nodes) == Some(owners) && Claimed(nodes, trees, refs) && kit.reference != ""
    modifies nodes.Values
    ensures verdict.Unextractable? <==> !Extracts(kit)
    ensures verdict.Unextractable? ==> verdict.reference == kit.reference
    ensures verdict.Clear? ==> forall i :: 0 <= i < |trees| ==> Harmless(KitTree(kit), trees[i])
    ensures verdict.Clear? ==> RootOf(nodes') == Some(owners)
    ensures verdict.Clear? ==> Claimed(nodes', trees + [KitTree(kit)], refs + [kit.reference])
    ensures verdict.Clear? ==> forall q :: q in nodes' ==> fresh(nodes'[q]) || (q in nodes && nodes'[q] == nodes[q])
    ensures verdict.Collides? ==> verdict.upper == kit.reference
    ensures verdict.Collides? ==>
      exists i :: 0 <= i < |trees| && refs[i] == verdict.lower && Injures(KitTree(kit), trees[i], verdict.path)
  {
    nodes' := nodes;
    var entries, ok;
    ghost var t, paths, done;
    entries, ok, t, paths := ReportKit(kit.layers);
    assert unchanged(nodes.Values);
    if !ok {
      return Unextractable(kit.reference), nodes;
    }
    var victim := FindVictim(entries, owners, t, paths, nodes);
    assert unchanged(nodes.Values);
    if victim.Some? {
      VictimIsDamaged(nodes, trees, refs, t, victim.value.0, victim.value.1);
      ghost var i :| 0 <= i < |trees| && refs[i] == victim.value.1
        && Contributed(trees[i], victim.value.0) && Damages(t, trees[i], victim.value.0);
      assert Injures(t, trees[i], victim.value.0);
      return Collides(victim.value.0, victim.value.1, kit.reference), nodes;
    }
    forall i | 0 <= i < |trees| ensures Harmless(t, trees[i]) { InoffensiveIsHarmless(nodes, trees, refs, t, i); }
    nodes', done := ClaimAll(entries, owners, kit.reference, t, paths, nodes);
    GrewClaimed(nodes, nodes', trees, refs, t, kit.reference, done);
    verdict := Clear;
  }

  /** What the check is for: every kit extracts, and none damages what an earlier one contributes. */
  ghost predicate Passes(kits: seq<KitInventory>) {
    (forall i :: 0 <= i < |kits| ==> Extracts(kits[i])) && Compatible(KitTrees(kits))
  }

  /** The kit at `j` damages the path `p` that the one at `i` contributes. */
  ghost predicate InjuresAt(kits: seq<KitInventory>, i: nat, j: nat, p: Path)
    requires i < j < |kits|
  {
    Extracts(kits[i]) && Extracts(kits[j]) && Injures(KitTree(kits[j]), KitTree(kits[i]), p)
  }

  /** A verdict is right: clear exactly when the set passes, and a refusal names a real cause. */
  ghost predicate Justified(kits: seq<KitInventory>, verdict: Verdict) {
    match verdict
    case Clear => Passes(kits)
    case Unextractable(reference) =>
      !Passes(kits) && exists i :: 0 <= i < |kits| && kits[i].reference == reference && !Extracts(kits[i])
    case Collides(path, lower, upper) =>
      && !Passes(kits)
      && exists i, j :: 0 <= i < j < |kits| && kits[i].reference == lower && kits[j].reference == upper && InjuresAt(kits, i, j, path)
  }

  lemma EmptyIndex(owners: OwnershipNode)
    requires owners.parent == null && owners.kit == "" && owners.children == map[] && owners.descendant == null
    ensures RootOf(map[[] := owners]) == Some(owners)
    ensures Claimed(map[[] := owners], [], [])
  {
    var nodes: Index := map[[] := owners];
    forall p ensures Foremost(HeldBy(nodes), p) {}
  }

  /** The kits before `k`, all found compatible. */
  ghost predicate SoFar(kits: seq<KitInventory>, k: nat, trees: seq<Tree>, refs: seq<string>) {
    && k == |trees| == |refs| <= |kits| && Compatible(trees)
    && forall i :: 0 <= i < k ==> Extracts(kits[i]) && trees[i] == KitTree(kits[i]) && refs[i] == kits[i].reference
  }

  lemma SoFarStep(kits: seq<KitInventory>, k: nat, trees: seq<Tree>, refs: seq<string>)
    requires SoFar(kits, k, trees, refs) && k < |kits| && Extracts(kits[k])
    requires forall i :: 0 <= i < k ==> Harmless(KitTree(kits[k]), trees[i])
    ensures SoFar(kits, k + 1, trees + [KitTree(kits[k])], refs + [kits[k].reference])
  {
  }

  /** The first kit refused decides the verdict. */
  lemma RefusalJustified(kits: seq<KitInventory>, k: nat, trees: seq<Tree>, refs: seq<string>, verdict: Verdict)
    requires SoFar(kits, k, trees, refs) && k < |kits| && !verdict.Clear?
    requires verdict.Unextractable? ==> !Extracts(kits[k]) && verdict.reference == kits[k].reference
    requires verdict.Collides? ==> Extracts(kits[k]) && verdict.upper == kits[k].reference
    requires verdict.Collides? ==>
      exists i :: 0 <= i < |trees| && refs[i] == verdict.lower && Injures(KitTree(kits[k]), trees[i], verdict.path)
    ensures Justified(kits, verdict)
  {
    if verdict.Collides? {
      var i :| 0 <= i < |trees| && refs[i] == verdict.lower && Injures(KitTree(kits[k]), trees[i], verdict.path);
      assert InjuresAt(kits, i, k, verdict.path);
      assert !Harmless(KitTree(kits[k]), KitTree(kits[i]));
    }
  }

  lemma ClearJustified(kits: seq<KitInventory>, trees: seq<Tree>, refs: seq<string>)
    requires SoFar(kits, |kits|, trees, refs)
    ensures Justified(kits, Clear)
  {
    assert trees == KitTrees(kits);
  }

  /** Checks a set of kits in composition order. */
  method CheckFileCollisions(kits: seq<KitInventory>) returns (verdict: Verdict)
    requires forall i :: 0 <= i < |kits| ==> kits[i].reference != ""
    ensures Justified(kits, verdict)
  {
    var owners := new OwnershipNode("", null, "", false);
    ghost var nodes: Index, trees: seq<Tree>, refs: seq<string> := map[[] := owners], [], [];
    EmptyIndex(owners);
    var k := 0;
    while k < |kits|
      invariant 0 <= k <= |kits| && RootOf(nodes) == Some(owners) && forall q :: q in nodes ==> fresh(nodes[q])
      invariant Claimed(nodes, trees, refs) && SoFar(kits, k, trees, refs)
    {
      ghost var nodes';
      verdict, nodes' := CheckKit(kits[k], owners, nodes, trees, refs);
      if !verdict.Clear? {
        RefusalJustified(kits, k, trees, refs, verdict);
        return;
      }
      SoFarStep(kits, k, trees, refs);
      nodes, trees, refs := nodes', trees + [KitTree(kits[k])], refs + [kits[k].reference];
      k := k + 1;
    }
    ClearJustified(kits, trees, refs);
    verdict := Clear;
  }
}

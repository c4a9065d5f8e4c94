/** Visiting a mount in preorder, children by name. */
module Inventory {
  import opened Trees
  import opened Strings
  import opened FsNodes

  /** What a visit reports: the node's own name, not its path. */
  datatype WalkEntry = WalkEntry(name: string, depth: nat, directory: bool, whiteout: bool, hides: bool)

  function EntryFor(p: Path, e: Entry): WalkEntry {
    WalkEntry(if p == [] then "" else Last(p), |p|, e.Dir?, e.Whiteout?, e.Dir? && e.hides)
  }

  ghost function ChildNames(t: Tree, p: Path): set<string> {
    set q | q in t && q != [] && Parent(q) == p :: Last(q)
  }

  lemma ChildNamesIff(t: Tree, p: Path, name: string)
    ensures name in ChildNames(t, p) <==> p + [name] in t
  {
    var c := p + [name];
    assert Parent(c) == p && Last(c) == name;
    if name in ChildNames(t, p) {
      var q :| q in t && q != [] && Parent(q) == p && Last(q) == name;
      assert q == p + [name];
    }
  }

  /** The paths at or below `p`, each directory before what is in it. */
  ghost function Preorder(t: Tree, p: Path): seq<Path>
    requires p in t
    decreases Under(t, p), 1, 0
  {
    if t[p].Dir? then
      var names := Sorted(ChildNames(t, p));
      assert forall x :: x in names ==> p + [x] in t by {
        forall x | x in names ensures p + [x] in t { ChildNamesIff(t, p, x); }
      }
      [p] + Siblings(t, p, names)
    else [p]
  }

  ghost function Siblings(t: Tree, p: Path, names: seq<string>): seq<Path>
    requires p in t && forall x :: x in names ==> p + [x] in t
    decreases Under(t, p), 0, |names|
  {
    if names == [] then []
    else
      UnderShrinks(t, p, names[0]);
      Preorder(t, p + [names[0]]) + Siblings(t, p, names[1..])
  }

  ghost predicate Covering(t: Tree, p: Path, paths: seq<Path>) {
    forall q :: q in paths <==> q in t && p <= q
  }

  /** A path below `p` goes through one of its children. */
  lemma ChildOnTheWay(t: Tree, p: Path, q: Path)
    requires WellFormed(t) && q in t && p < q
    ensures IsDirAt(t, p) && p + [q[|p|]] <= q && p + [q[|p|]] in t
  {
    AncestorIsDir(t, q, |p|);
    assert q[..|p|] == p && q[..|p| + 1] == p + [q[|p|]];
    if |p| + 1 < |q| {
      AncestorIsDir(t, q, |p| + 1);
    } else {
      assert q[..|q|] == q;
    }
  }

  lemma AboveChild(p: Path, x: string, q: Path)
    requires p + [x] <= q
    ensures p < q
  {
    assert p == (p + [x])[..|p|] == q[..|p|];
  }

  lemma {:induction false} PreorderCovers(t: Tree, p: Path)
    requires WellFormed(t) && p in t
    ensures Covering(t, p, Preorder(t, p))
    ensures Preorder(t, p) != [] && Preorder(t, p)[0] == p
    decreases Under(t, p), 1, 0
  {
    var names := if t[p].Dir? then Sorted(ChildNames(t, p)) else [];
    forall x ensures x in names <==> t[p].Dir? && p + [x] in t { ChildNamesIff(t, p, x); }
    SiblingsCover(t, p, names);
    var below := Siblings(t, p, names);
    assert Preorder(t, p) == [p] + below;
    forall q
      ensures q in [p] + below <==> q in t && p <= q
    {
      assert q in [p] + below <==> q == p || q in below;
      assert p <= q && q != p ==> p < q;
      if q in t && p < q {
        ChildOnTheWay(t, p, q);
        assert q[|p|] in names;
      }
      if q in below {
        var x :| x in names && q in t && p + [x] <= q;
        AboveChild(p, x, q);
      }
    }
  }

  lemma {:induction false} SiblingsCover(t: Tree, p: Path, names: seq<string>)
    requires WellFormed(t) && p in t && forall x :: x in names ==> p + [x] in t
    ensures forall q :: q in Siblings(t, p, names) <==> exists x :: x in names && q in t && p + [x] <= q
    decreases Under(t, p), 0, |names|
  {
    if names != [] {
      var x, rest := names[0], names[1..];
      UnderShrinks(t, p, x);
      PreorderCovers(t, p + [x]);
      SiblingsCover(t, p, rest);
      assert forall y :: y in names <==> y == x || y in rest;
      forall q
        ensures q in Siblings(t, p, names) <==> exists y :: y in names && q in t && p + [y] <= q
      {
        assert q in Siblings(t, p, names) <==> q in Preorder(t, p + [x]) || q in Siblings(t, p, rest);
      }
    }
  }

  /** Each path hangs from one on the way to the path visited just before. */
  ghost predicate Stepwise(paths: seq<Path>) {
    forall i :: 0 < i < |paths| ==> paths[i] != [] && Parent(paths[i]) <= paths[i - 1]
  }

  lemma StepwiseAppend(a: seq<Path>, b: seq<Path>)
    requires Stepwise(a) && Stepwise(b) && a != []
    requires b != [] ==> b[0] != [] && Parent(b[0]) <= a[|a| - 1]
    ensures Stepwise(a + b)
  {
    var c := a + b;
    forall i | 0 < i < |c|
      ensures c[i] != [] && Parent(c[i]) <= c[i - 1]
    {
      if i < |a| {
        assert c[i] == a[i] && c[i - 1] == a[i - 1];
      } else if i == |a| {
        assert c[i] == b[0] && c[i - 1] == a[|a| - 1];
      } else {
        assert c[i] == b[i - |a|] && c[i - 1] == b[i - 1 - |a|];
      }
    }
  }

  lemma {:induction false} PreorderStepwise(t: Tree, p: Path)
    requires WellFormed(t) && p in t
    ensures Stepwise(Preorder(t, p))
    decreases Under(t, p), 1, 0
  {
    if t[p].Dir? {
      var names := Sorted(ChildNames(t, p));
      forall x ensures x in names <==> p + [x] in t { ChildNamesIff(t, p, x); }
      SiblingsStepwise(t, p, names);
      StepwiseAppend([p], Siblings(t, p, names));
    }
  }

  lemma {:induction false} SiblingsStepwise(t: Tree, p: Path, names: seq<string>)
    requires WellFormed(t) && p in t && forall x :: x in names ==> p + [x] in t
    ensures Stepwise(Siblings(t, p, names))
    ensures Siblings(t, p, names) != [] ==> Siblings(t, p, names)[0] != [] && Parent(Siblings(t, p, names)[0]) == p
    decreases Under(t, p), 0, |names|
  {
    if names != [] {
      var x, rest := names[0], names[1..];
      UnderShrinks(t, p, x);
      var a, b := Preorder(t, p + [x]), Siblings(t, p, rest);
      PreorderStepwise(t, p + [x]);
      PreorderCovers(t, p + [x]);
      SiblingsStepwise(t, p, rest);
      assert Parent(p + [x]) == p;
      assert a[|a| - 1] in a;
      AboveChild(p, x, a[|a| - 1]);
      StepwiseAppend(a, b);
    }
  }

  /** A directory comes before what is in it, and names in their order. */
  ghost predicate Earlier(p: Path, q: Path) {
    p < q || exists k :: ForksAt(p, q, k)
  }

  ghost predicate ForksAt(p: Path, q: Path, k: nat) {
    k < |p| && k < |q| && p[..k] == q[..k] && Less(p[k], q[k])
  }

  ghost predicate InOrder(paths: seq<Path>) {
    forall i, j :: 0 <= i < j < |paths| ==> Earlier(paths[i], paths[j])
  }

  lemma InOrderAppend(a: seq<Path>, b: seq<Path>)
    requires InOrder(a) && InOrder(b) && forall p, q :: p in a && q in b ==> Earlier(p, q)
    ensures InOrder(a + b)
  {
    var c := a + b;
    forall i, j | 0 <= i < j < |c| ensures Earlier(c[i], c[j]) {
      assert i < |a| ==> c[i] in a;
      assert j >= |a| ==> c[j] in b;
    }
  }

  lemma ForkBelow(p: Path, x: string, y: string, q: Path, r: Path)
    requires p + [x] <= q && p + [y] <= r && Less(x, y)
    ensures Earlier(q, r)
  {
    assert q[..|p|] == p == r[..|p|] && q[|p|] == x && r[|p|] == y;
    assert ForksAt(q, r, |p|);
  }

  /** The visit goes through the paths in order. */
  lemma {:induction false} PreorderInOrder(t: Tree, p: Path)
    requires WellFormed(t) && p in t
    ensures InOrder(Preorder(t, p))
    decreases Under(t, p), 1, 0
  {
    if t[p].Dir? {
      var names := Sorted(ChildNames(t, p));
      forall x ensures x in names <==> p + [x] in t { ChildNamesIff(t, p, x); }
      SiblingsInOrder(t, p, names);
      SiblingsCover(t, p, names);
      var below := Siblings(t, p, names);
      forall q | q in below ensures p < q {
        var x :| x in names && q in t && p + [x] <= q;
        AboveChild(p, x, q);
      }
      InOrderAppend([p], below);
    }
  }

  lemma {:induction false} SiblingsInOrder(t: Tree, p: Path, names: seq<string>)
    requires WellFormed(t) && p in t && Ascending(names) && forall x :: x in names ==> p + [x] in t
    ensures InOrder(Siblings(t, p, names))
    decreases Under(t, p), 0, |names|
  {
    if names != [] {
      var x, rest := names[0], names[1..];
      UnderShrinks(t, p, x);
      PreorderInOrder(t, p + [x]);
      PreorderCovers(t, p + [x]);
      SiblingsInOrder(t, p, rest);
      SiblingsCover(t, p, rest);
      forall q, r | q in Preorder(t, p + [x]) && r in Siblings(t, p, rest) ensures Earlier(q, r) {
        var y :| y in rest && r in t && p + [y] <= r;
        ForkBelow(p, x, y, q, r);
      }
      InOrderAppend(Preorder(t, p + [x]), Siblings(t, p, rest));
    }
  }

  /** The entries a visit of `paths` reports. */
  ghost function Report(t: Tree, paths: seq<Path>): (r: seq<WalkEntry>)
    requires forall q :: q in paths ==> q in t
    ensures |r| == |paths|
  {
    seq(|paths|, i requires 0 <= i < |paths| => EntryFor(paths[i], t[paths[i]]))
  }

  lemma ReportAppend(t: Tree, a: seq<Path>, b: seq<Path>)
    requires forall q :: q in a + b ==> q in t
    ensures (forall q :: q in a ==> q in t) && (forall q :: q in b ==> q in t)
    ensures Report(t, a + b) == Report(t, a) + Report(t, b)
  {
    forall q | q in a || q in b ensures q in a + b {}
  }

  lemma NamesOfNode(at: Nodes, t: Tree, p: Path)
    requires View(at) == Some(t) && p in at && at[p].kind == NodeDir
    ensures ChildNames(t, p) == at[p].children.Keys
  {
    NamesShown(at, t, p);
    forall x ensures x in ChildNames(t, p) <==> x in at[p].children { ChildNamesIff(t, p, x); }
  }

  lemma SiblingsOfNode(at: Nodes, t: Tree, p: Path)
    requires View(at) == Some(t) && p in at && at[p].kind == NodeDir
    ensures IsDirAt(t, p) && WellFormed(t) && ChildNames(t, p) == at[p].children.Keys
    ensures forall x :: x in Sorted(at[p].children.Keys) ==> p + [x] in t
  {
    ShownWellFormed(at, t);
    NamesOfNode(at, t, p);
    NamesShown(at, t, p);
    forall x | x in Sorted(at[p].children.Keys) ensures p + [x] in t { ChildNamesIff(t, p, x); }
  }

  lemma VisitDirectory(at: Nodes, t: Tree, p: Path)
    requires View(at) == Some(t) && p in at && at[p].kind == NodeDir
    ensures p in t && (forall x :: x in Sorted(at[p].children.Keys) ==> p + [x] in t)
    ensures forall q :: q in Preorder(t, p) ==> q in t
    ensures forall q :: q in Siblings(t, p, Sorted(at[p].children.Keys)) ==> q in t
    ensures Report(t, Preorder(t, p)) == [EntryFor(p, t[p])] + Report(t, Siblings(t, p, Sorted(at[p].children.Keys)))
  {
    SiblingsOfNode(at, t, p);
    PreorderCovers(t, p);
    ReportAppend(t, [p], Siblings(t, p, Sorted(at[p].children.Keys)));
  }

  lemma VisitLeaf(at: Nodes, t: Tree, p: Path)
    requires View(at) == Some(t) && p in at && at[p].kind != NodeDir
    ensures p in t && (forall q :: q in Preorder(t, p) ==> q in t)
    ensures Report(t, Preorder(t, p)) == [EntryFor(p, t[p])]
  {
  }

  /** Visits a directory or leaf and everything below it. */
  method Walk(n: FsNode, name: string, depth: nat, ghost p: Path, ghost at: Nodes, ghost t: Tree)
    returns (entries: seq<WalkEntry>)
    requires View(at) == Some(t) && p in at && at[p] == n && depth == |p| && name == (if p == [] then "" else Last(p))
    ensures View(at) == Some(t)
    ensures p in t && (forall q :: q in Preorder(t, p) ==> q in t) && entries == Report(t, Preorder(t, p))
    decreases Under(t, p), 1, 0
  {
    entries := [WalkEntry(name, depth, n.kind == NodeDir, n.kind == NodeWhiteout, n.kind == NodeDir && n.hides)];
    assert t[p] == EntryOf(n);
    if n.kind == NodeDir {
      VisitDirectory(at, t, p);
      var names := SortNames(n.children.Keys);
      assert unchanged(DirNodes(at));
      var rest := WalkNames(n, names, depth, p, at, t);
      entries := entries + rest;
    } else {
      VisitLeaf(at, t, p);
    }
  }

  method WalkNames(n: FsNode, names: seq<string>, depth: nat, ghost p: Path, ghost at: Nodes, ghost t: Tree)
    returns (entries: seq<WalkEntry>)
    requires View(at) == Some(t) && p in at && at[p] == n && n.kind == NodeDir && depth == |p|
    requires p in t && forall x :: x in names ==> p + [x] in t
    ensures View(at) == Some(t)
    ensures (forall q :: q in Siblings(t, p, names) ==> q in t) && entries == Report(t, Siblings(t, p, names))
    decreases Under(t, p), 0, |names|
  {
    ShownWellFormed(at, t);
    SiblingsCover(t, p, names);
    if names == [] {
      return [];
    }
    var x := names[0];
    UnderShrinks(t, p, x);
    ChildAt(at, t, p, x);
    assert Last(p + [x]) == x;
    var first := Walk(n.children[x], x, depth + 1, p + [x], at, t);
    var rest := WalkNames(n, names[1..], depth, p, at, t);
    ReportAppend(t, Preorder(t, p + [x]), Siblings(t, p, names[1..]));
    entries := first + rest;
  }
}

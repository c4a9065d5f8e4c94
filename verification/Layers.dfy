/** Any number of layers: the folded mount, and the lookup it agrees with. */
module Layers {
  import opened Trees

  /** The mount of `layers`, lowest first. */
  ghost function Fold(layers: seq<Tree>): Tree {
    if layers == [] then EMPTY else Stacked(Fold(layers[..|layers| - 1]), layers[|layers| - 1])
  }

  ghost predicate AllWellFormed(layers: seq<Tree>) {
    forall i :: 0 <= i < |layers| ==> WellFormed(layers[i])
  }

  lemma {:induction false} FoldWellFormed(layers: seq<Tree>)
    requires AllWellFormed(layers)
    ensures WellFormed(Fold(layers))
  {
    if layers != [] {
      FoldWellFormed(layers[..|layers| - 1]);
      StackedWellFormed(Fold(layers[..|layers| - 1]), layers[|layers| - 1]);
    }
  }

  /** No layer above `i` covers a proper ancestor of `p`. */
  ghost predicate Reaches(layers: seq<Tree>, p: Path, i: nat) {
    forall j :: i < j < |layers| ==> !Hidden(layers[j], p)
  }

  /** Looking `p` up from the top finds it in layer `i`. */
  ghost predicate FoundIn(layers: seq<Tree>, p: Path, i: nat) {
    && i < |layers| && p in layers[i] && Reaches(layers, p, i)
    && forall j :: i < j < |layers| ==> p !in layers[j]
  }

  predicate SameKind(d: Entry, e: Entry) {
    match d
    case Dir(_, _) => e.Dir?
    case _ => d == e
  }

  /** Layer `i` makes the directory shown at `p` opaque. */
  ghost predicate Blocks(layers: seq<Tree>, p: Path, i: nat) {
    i < |layers| && Reaches(layers, p, i) && Covers(layers[i], p)
  }

  /** The mount shows at `p` what the top-down lookup finds, opaque mark included. */
  ghost predicate Agrees(t: Tree, layers: seq<Tree>, p: Path) {
    && (p in t <==> exists i: nat :: FoundIn(layers, p, i))
    && (forall i: nat :: FoundIn(layers, p, i) ==> p in t && SameKind(t[p], layers[i][p]))
    && (p in t && t[p].Dir? ==> (t[p].hides <==> exists i: nat :: Blocks(layers, p, i)))
  }

  lemma LookupBelow(below: seq<Tree>, top: Tree, p: Path, i: nat)
    requires i < |below|
    ensures FoundIn(below + [top], p, i) <==> FoundIn(below, p, i) && !Hidden(top, p) && p !in top
    ensures Blocks(below + [top], p, i) <==> Blocks(below, p, i) && !Hidden(top, p)
  {
    var layers := below + [top];
    assert layers[|below|] == top;
    assert forall j :: 0 <= j < |below| ==> layers[j] == below[j];
  }

  lemma LookupTop(below: seq<Tree>, top: Tree, p: Path)
    ensures FoundIn(below + [top], p, |below|) <==> p in top
    ensures Blocks(below + [top], p, |below|) <==> Covers(top, p)
  {
  }

  /** Unfolding both existentials of the lookup by one layer. */
  lemma LookupStep(below: seq<Tree>, top: Tree, p: Path)
    ensures forall i: nat :: FoundIn(below + [top], p, i) <==>
      if i == |below| then p in top else FoundIn(below, p, i) && !Hidden(top, p) && p !in top
    ensures forall i: nat :: Blocks(below + [top], p, i) <==>
      if i == |below| then Covers(top, p) else Blocks(below, p, i) && !Hidden(top, p)
  {
    LookupTop(below, top, p);
    forall i: nat | i < |below|
      ensures FoundIn(below + [top], p, i) <==> FoundIn(below, p, i) && !Hidden(top, p) && p !in top
      ensures Blocks(below + [top], p, i) <==> Blocks(below, p, i) && !Hidden(top, p)
    {
      LookupBelow(below, top, p, i);
    }
  }

  lemma AgreesStep(t: Tree, below: seq<Tree>, top: Tree, p: Path)
    requires Agrees(t, below, p)
    ensures Agrees(Stacked(t, top), below + [top], p)
  {
    var s, layers, n := Stacked(t, top), below + [top], |below|;
    LookupStep(below, top, p);
    assert p in s <==> p in top || (p in t && !Hidden(top, p));
    if p in top {
      assert FoundIn(layers, p, n);
    } else if p in t && !Hidden(top, p) {
      var i: nat :| FoundIn(below, p, i);
      assert FoundIn(layers, p, i);
      assert s[p] == t[p];
    }
    if p in s && s[p].Dir? {
      HidesStep(t, below, top, p);
    }
  }

  lemma HidesStep(t: Tree, below: seq<Tree>, top: Tree, p: Path)
    requires Agrees(t, below, p)
    requires p in Stacked(t, top) && Stacked(t, top)[p].Dir?
    ensures Stacked(t, top)[p].hides <==> exists i: nat :: Blocks(below + [top], p, i)
  {
    var s, layers, n := Stacked(t, top), below + [top], |below|;
    LookupStep(below, top, p);
    if Covers(top, p) {
      assert Blocks(layers, p, n);
    } else if Hidden(top, p) {
    } else if p in t && !t[p].Dir? {
      var i: nat :| FoundIn(below, p, i);
      assert Blocks(layers, p, i);
    } else if p in t && t[p].hides {
      var i: nat :| Blocks(below, p, i);
      assert Blocks(layers, p, i);
    } else if p in t {
      assert s[p].hides == t[p].hides;
    } else {
      forall i: nat
        ensures !Blocks(below, p, i)
      {
        NotShownNotBlocked(t, below, p, i);
      }
    }
  }

  /** A layer the lookup can still see blocks only where something is shown. */
  lemma NotShownNotBlocked(t: Tree, below: seq<Tree>, p: Path, i: nat)
    requires Agrees(t, below, p) && p !in t
    ensures !Blocks(below, p, i)
  {
    if Blocks(below, p, i) {
      assert !FoundIn(below, p, i);
      var j :| i < j < |below| && p in below[j];
      TopmostFound(below, p, j);
    }
  }

  lemma {:induction false} TopmostFound(layers: seq<Tree>, p: Path, j: nat)
    requires j < |layers| && p in layers[j] && Reaches(layers, p, j)
    ensures exists i: nat :: j <= i && FoundIn(layers, p, i)
    decreases |layers| - j
  {
    if exists i :: j < i < |layers| && p in layers[i] {
      var i :| j < i < |layers| && p in layers[i];
      TopmostFound(layers, p, i);
    } else {
      assert FoundIn(layers, p, j);
    }
  }

  /** Whether the mount has `p`, and as what, is the top-down lookup's answer. */
  lemma {:induction false} FoldIsLookup(layers: seq<Tree>, p: Path)
    requires AllWellFormed(layers) && layers != []
    ensures Agrees(Fold(layers), layers, p)
  {
    var below, top := layers[..|layers| - 1], layers[|layers| - 1];
    assert layers == below + [top];
    if below == [] {
      OneLayer(top, p);
    } else {
      FoldIsLookup(below, p);
      AgreesStep(Fold(below), below, top, p);
    }
  }

  lemma OneLayer(t: Tree, p: Path)
    requires WellFormed(t)
    ensures Agrees(Stacked(EMPTY, t), [t], p)
  {
    LookupStep([], t, p);
    assert [] + [t] == [t];
    var s := Stacked(EMPTY, t);
    assert p in EMPTY ==> p == [];
    assert p in s <==> p in t;
    if p in t {
      assert FoundIn([t], p, 0);
      assert p in EMPTY ==> EMPTY[p] == Dir(false, None);
      assert Covers(t, p) ==> Blocks([t], p, 0);
    }
  }

  /** Owners and modes never decide what else a mount shows. */
  lemma EraseStacked(a: Tree, b: Tree)
    ensures Erase(Stacked(a, b)) == Stacked(Erase(a), Erase(b))
  {
    var x, y := Erase(Stacked(a, b)), Stacked(Erase(a), Erase(b));
    forall p: Path
      ensures p in x <==> p in y
      ensures p in x && p in y ==> x[p] == y[p]
    {
      assert forall k: nat :: k < |p| ==> (Covers(b, p[..k]) <==> Covers(Erase(b), p[..k]));
      assert HiddenFrom(b, p, 0) <==> HiddenFrom(Erase(b), p, 0);
    }
  }

  lemma StackedOnEmpty(a: Tree)
    requires WellFormed(a)
    ensures Erase(Stacked(a, EMPTY)) == Erase(a)
  {
    forall p: Path
      ensures p in Stacked(a, EMPTY) <==> p in a
      ensures p in a && p in Stacked(a, EMPTY) ==> EraseEntry(Stacked(a, EMPTY)[p]) == EraseEntry(a[p])
    {
      assert !Hidden(EMPTY, p);
    }
    assert Erase(Stacked(a, EMPTY)).Keys == Erase(a).Keys;
  }

  /** Folding some layers on their own and mounting the result is mounting them one by one. */
  lemma {:induction false} FoldAppend(xs: seq<Tree>, ys: seq<Tree>)
    requires AllWellFormed(xs) && AllWellFormed(ys)
    ensures Erase(Fold(xs + ys)) == Erase(Stacked(Fold(xs), Fold(ys)))
  {
    FoldWellFormed(xs);
    if ys == [] {
      assert xs + ys == xs;
      StackedOnEmpty(Fold(xs));
    } else {
      var init, top := ys[..|ys| - 1], ys[|ys| - 1];
      assert (xs + ys)[..|xs + ys| - 1] == xs + init;
      FoldAppend(xs, init);
      FoldWellFormed(init);
      EraseStacked(Fold(xs + init), top);
      EraseStacked(Stacked(Fold(xs), Fold(init)), top);
      StackAssociative(Fold(xs), Fold(init), top);
    }
  }

  function Concat<T>(xss: seq<seq<T>>): seq<T> {
    if xss == [] then [] else Concat(xss[..|xss| - 1]) + xss[|xss| - 1]
  }

  ghost function Folds(kits: seq<seq<Tree>>): seq<Tree> {
    seq(|kits|, i requires 0 <= i < |kits| => Fold(kits[i]))
  }

  /** The fold of the kits' mounts adds the last kit's mount. */
  lemma FoldsLast(kits: seq<seq<Tree>>)
    requires kits != []
    ensures Fold(Folds(kits)) == Stacked(Fold(Folds(kits[..|kits| - 1])), Fold(kits[|kits| - 1]))
  {
    assert Folds(kits)[..|kits| - 1] == Folds(kits[..|kits| - 1]);
  }

  /** Kits folded each on its own, then mounted, are all their layers mounted in turn. */
  lemma {:induction false} FoldOfFolds(kits: seq<seq<Tree>>)
    requires forall i :: 0 <= i < |kits| ==> AllWellFormed(kits[i])
    ensures AllWellFormed(Concat(kits))
    ensures Erase(Fold(Concat(kits))) == Erase(Fold(Folds(kits)))
  {
    if kits != [] {
      var init, kit := kits[..|kits| - 1], kits[|kits| - 1];
      FoldOfFolds(init);
      FoldAppend(Concat(init), kit);
      FoldsLast(kits);
      EraseStacked(Fold(Concat(init)), Fold(kit));
      EraseStacked(Fold(Folds(init)), Fold(kit));
    }
  }
}

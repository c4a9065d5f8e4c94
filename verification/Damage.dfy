/** When one kit damages another, and what a mount of kits that do not shows. */
module Damage {
  import opened Trees
  import opened Layers

  /** A kit contributes the paths it puts something at; a deletion claims nothing. */
  ghost predicate Contributed(t: Tree, p: Path) {
    p != [] && p in t && !t[p].Whiteout?
  }

  /** `upper` replaces, deletes or hides what `lower` has at `p`. */
  ghost predicate Damages(upper: Tree, lower: Tree, p: Path)
    requires p in lower
  {
    (p in upper && !(upper[p].Dir? && lower[p].Dir?)) || Hidden(upper, p)
  }

  ghost predicate Harmless(upper: Tree, lower: Tree) {
    forall p :: Contributed(lower, p) ==> !Damages(upper, lower, p)
  }

  /** No kit damages one below it. */
  ghost predicate Compatible(kits: seq<Tree>) {
    forall i, j :: 0 <= i < j < |kits| ==> Harmless(kits[j], kits[i])
  }

  /** Compatible kits all show what they contribute, each as its own kind. */
  lemma {:induction false} CompatibleExposes(kits: seq<Tree>, i: nat, p: Path)
    requires AllWellFormed(kits) && Compatible(kits) && i < |kits| && Contributed(kits[i], p)
    ensures p in Fold(kits) && SameKind(Fold(kits)[p], kits[i][p])
  {
    FoldIsLookup(kits, p);
    assert Reaches(kits, p, i) by {
      forall j | i < j < |kits| ensures !Hidden(kits[j], p) {
        assert Harmless(kits[j], kits[i]);
        assert !Damages(kits[j], kits[i], p);
      }
    }
    TopmostFound(kits, p, i);
    var k: nat :| i <= k && FoundIn(kits, p, k);
    if i < k {
      assert Harmless(kits[k], kits[i]);
      assert !Damages(kits[k], kits[i], p);
    }
  }

  /** The same for the mount of every layer of every kit, one by one. */
  lemma CompatibleKitsExpose(kits: seq<seq<Tree>>, i: nat, p: Path)
    requires forall k :: 0 <= k < |kits| ==> AllWellFormed(kits[k])
    requires Compatible(Folds(kits)) && i < |kits| && Contributed(Fold(kits[i]), p)
    ensures p in Fold(Concat(kits)) && SameKind(Fold(Concat(kits))[p], Fold(kits[i])[p])
  {
    forall k | 0 <= k < |kits| ensures WellFormed(Folds(kits)[k]) { FoldWellFormed(kits[k]); }
    CompatibleExposes(Folds(kits), i, p);
    FoldOfFolds(kits);
    var a, b := Fold(Concat(kits)), Fold(Folds(kits));
    assert p in Erase(b);
    assert p in Erase(a) && Erase(a)[p] == Erase(b)[p];
  }

  /** A kit that only adds: no deletion, and no directory that hides another's. */
  ghost predicate OnlyAdds(t: Tree) {
    forall p :: p in t ==> !t[p].Whiteout? && !(t[p].Dir? && t[p].hides)
  }

  lemma AddingHarms(upper: Tree, lower: Tree)
    requires WellFormed(upper) && WellFormed(lower) && OnlyAdds(upper) && OnlyAdds(lower)
    ensures Harmless(upper, lower) <==> forall p :: p in lower && p in upper ==> lower[p].Dir? && upper[p].Dir?
  {
    if Harmless(upper, lower) {
      forall p | p in lower && p in upper ensures lower[p].Dir? && upper[p].Dir? {
        assert IsDirAt(lower, []) && IsDirAt(upper, []);
        assert p != [] ==> Contributed(lower, p);
      }
    } else {
      var p :| Contributed(lower, p) && Damages(upper, lower, p);
      if Hidden(upper, p) {
        var k: nat :| k < |p| && Covers(upper, p[..k]);
        AncestorIsDir(lower, p, k);
      }
    }
  }

  /** Kits that only add are compatible exactly when all they share is directories. */
  lemma SharingDirectories(kits: seq<Tree>)
    requires AllWellFormed(kits) && forall i :: 0 <= i < |kits| ==> OnlyAdds(kits[i])
    ensures Compatible(kits) <==>
      forall i, j, p :: 0 <= i < j < |kits| && p in kits[i] && p in kits[j] ==> kits[i][p].Dir? && kits[j][p].Dir?
  {
    forall i, j | 0 <= i < j < |kits|
      ensures Harmless(kits[j], kits[i]) <==> forall p :: p in kits[i] && p in kits[j] ==> kits[i][p].Dir? && kits[j][p].Dir?
    {
      AddingHarms(kits[j], kits[i]);
    }
  }
}

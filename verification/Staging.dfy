/** Merging some kits and then the result with the rest is merging them all at once. */
module Staging {
  import opened Trees
  import opened Constraints
  import opened Kits
  import opened Merging
  import opened Flattening

  lemma {:induction false} AllOffersSplit(a: seq<Kit>, b: seq<Kit>)
    ensures AllOffers(a + b) == AllOffers(a) + AllOffers(b)
    decreases |b|
  {
    if b == [] {
      assert a + b == a;
    } else {
      var k := b[|b| - 1];
      AllOffersSplit(a, b[..|b| - 1]);
      Appended(a, b);
      Associates(AllOffers(a), AllOffers(b[..|b| - 1]), OffersOf(k, |k.offers|));
    }
  }

  lemma {:induction false} AllConflictsSplit(a: seq<Kit>, b: seq<Kit>)
    ensures AllConflicts(a + b) == AllConflicts(a) + AllConflicts(b)
    decreases |b|
  {
    if b == [] {
      assert a + b == a;
    } else {
      AllConflictsSplit(a, b[..|b| - 1]);
      Appended(a, b);
      Associates(AllConflicts(a), AllConflicts(b[..|b| - 1]), b[|b| - 1].conflicts);
    }
  }

  lemma {:induction false} AllUnansweredSplit(all: set<Kit>, a: seq<Kit>, b: seq<Kit>, of: Relations)
    ensures AllUnanswered(all, a + b, of) == AllUnanswered(all, a, of) + AllUnanswered(all, b, of)
    decreases |b|
  {
    if b == [] {
      assert a + b == a;
    } else {
      var k := b[|b| - 1];
      AllUnansweredSplit(all, a, b[..|b| - 1], of);
      Appended(a, b);
      Associates(AllUnanswered(all, a, of), AllUnanswered(all, b[..|b| - 1], of), Unanswered(all, k.reference, Entries(k, of)));
    }
  }

  lemma {:induction false} UnversionedOffers(m: Kit, n: nat)
    requires n <= |m.offers| && m.version == ""
    ensures OffersOf(m, n) == m.offers[..n]
  {
    if n > 0 {
      UnversionedOffers(m, n - 1);
    } else {
      assert m.offers[..0] == [];
    }
  }

  lemma OneMerged(m: Kit, kits: seq<Kit>)
    requires m.version == ""
    ensures AllOffers([m] + kits) == m.offers + AllOffers(kits)
    ensures AllConflicts([m] + kits) == m.conflicts + AllConflicts(kits)
  {
    AllOffersSplit([m], kits);
    AllConflictsSplit([m], kits);
    UnversionedOffers(m, |m.offers|);
    assert [m][..0] == [] && m.offers[..|m.offers|] == m.offers;
    assert AllOffers([m]) == AllOffers([]) + OffersOf(m, |m.offers|);
    assert AllConflicts([m]) == AllConflicts([]) + m.conflicts;
  }

  /** The two sets answer the same asks of each kit but in one respect: the rest of the kits. */
  ghost predicate MoreAnswers(narrow: set<Kit>, wide: set<Kit>, rest: set<Kit>, self: string, ask: Require) {
    AnsweredByOther(wide, ask, self) <==> AnsweredByOther(narrow, ask, self) || exists k :: k in rest && Answers(k, ask)
  }

  lemma KeptTwice(narrow: set<Kit>, wide: set<Kit>, rest: set<Kit>, self: string, merged: string, r: Relation)
    requires MoreAnswers(narrow, wide, rest, self, r.ask) && forall k :: k in rest ==> k.reference != merged
    ensures Kept(wide, self, r) == if AnsweredByOther(narrow, r.ask, self) then [] else Kept(rest, merged, r)
  {
    if k :| k in rest && Answers(k, r.ask) {
      assert AnsweredByOther(rest, r.ask, merged);
    }
  }

  /** Dropping what the first kits answer and then what the rest do is dropping both at once. */
  lemma {:induction false} UnansweredTwice(narrow: set<Kit>, wide: set<Kit>, rest: set<Kit>, self: string, merged: string, entries: seq<Relation>)
    requires forall r :: r in entries ==> MoreAnswers(narrow, wide, rest, self, r.ask)
    requires forall k :: k in rest ==> k.reference != merged
    ensures Unanswered(wide, self, entries) == Unanswered(rest, merged, Unanswered(narrow, self, entries))
    decreases |entries|
  {
    if entries != [] {
      var init, last := entries[..|entries| - 1], entries[|entries| - 1];
      UnansweredTwice(narrow, wide, rest, self, merged, init);
      assert last in entries;
      KeptTwice(narrow, wide, rest, self, merged, last);
      var kept := Unanswered(narrow, self, init);
      assert kept + [] == kept;
      UnansweredOneMore(rest, merged, kept, last);
    }
  }

  lemma UnansweredOneMore(all: set<Kit>, self: string, entries: seq<Relation>, r: Relation)
    ensures Unanswered(all, self, entries + [r]) == Unanswered(all, self, entries) + Kept(all, self, r)
  {
    assert (entries + [r])[..|entries|] == entries;
  }

  lemma {:induction false} UnansweredSplit(all: set<Kit>, self: string, a: seq<Relation>, b: seq<Relation>)
    ensures Unanswered(all, self, a + b) == Unanswered(all, self, a) + Unanswered(all, self, b)
    decreases |b|
  {
    if b == [] {
      assert a + b == a;
    } else {
      UnansweredSplit(all, self, a, b[..|b| - 1]);
      Appended(a, b);
      Associates(Unanswered(all, self, a), Unanswered(all, self, b[..|b| - 1]), Kept(all, self, b[|b| - 1]));
    }
  }

  /** What is dropped depends on the entry alone, so repeats can go before or after. */
  lemma {:induction false} UnansweredDedup(all: set<Kit>, self: string, entries: seq<Relation>)
    ensures Dedup(Unanswered(all, self, entries)) == Unanswered(all, self, Dedup(entries))
    decreases |entries|
  {
    if entries != [] {
      var init, last := entries[..|entries| - 1], entries[|entries| - 1];
      var kept := Unanswered(all, self, init);
      UnansweredDedup(all, self, init);
      if AnsweredByOther(all, last.ask, self) {
        NothingAdded(kept);
      } else {
        InUnanswered(all, self, init, last);
        DedupOneMore(kept, last);
      }
      if last in init {
        NothingAdded(Dedup(init));
        NothingAdded(Dedup(kept));
      } else {
        UnansweredOneMore(all, self, Dedup(init), last);
        NothingAdded(Unanswered(all, self, Dedup(init)));
      }
    }
  }

  lemma NothingAdded<T>(s: seq<T>)
    ensures s + [] == s
  {
  }

  /** The kits of the first stage, the merge of them, and the kits of the second. */
  ghost predicate Stages(first: seq<Kit>, m: Kit, second: seq<Kit>) {
    && Merges(first, m) && m.version == ""
    && (forall a, b :: a in first && b in second ==> a.reference != b.reference)
    && forall b :: b in second ==> b.reference != m.reference
  }

  lemma FirstStageAnswers(first: seq<Kit>, m: Kit, second: seq<Kit>, k: Kit, ask: Require)
    requires Stages(first, m, second) && k in first
    ensures MoreAnswers(Members(first), Members(first + second), Members(second), k.reference, ask)
  {
    var wide := Members(first + second);
    assert wide == Members(first) + Members(second);
    if AnsweredByOther(wide, ask, k.reference) {
      var l :| l in wide && l.reference != k.reference && Answers(l, ask);
      assert l in Members(first) || l in Members(second);
    }
    if exists l :: l in Members(second) && Answers(l, ask) {
      var l :| l in Members(second) && Answers(l, ask);
      assert l in wide && l.reference != k.reference;
    }
  }

  lemma SecondStageAnswers(first: seq<Kit>, m: Kit, second: seq<Kit>, k: Kit, ask: Require)
    requires Stages(first, m, second) && k in second
    ensures AnsweredByOther(Members(first + second), ask, k.reference) <==> AnsweredByOther(Members([m] + second), ask, k.reference)
  {
    MergedAnswers(first, m, ask);
    var wide, staged := Members(first + second), Members([m] + second);
    if AnsweredByOther(wide, ask, k.reference) {
      var l :| l in wide && l.reference != k.reference && Answers(l, ask);
      assert l in first || l in second;
      assert (if l in second then l else m) in staged;
    }
    if AnsweredByOther(staged, ask, k.reference) {
      var l :| l in staged && l.reference != k.reference && Answers(l, ask);
      if l !in second {
        var f :| f in first && Answers(f, ask);
        assert f in wide;
      } else {
        assert l in wide;
      }
    }
  }

  lemma {:induction false} FirstStageEntries(first: seq<Kit>, m: Kit, second: seq<Kit>, kits: seq<Kit>, of: Relations)
    requires Stages(first, m, second) && forall k :: k in kits ==> k in first
    ensures AllUnanswered(Members(first + second), kits, of) ==
      Unanswered(Members(second), m.reference, AllUnanswered(Members(first), kits, of))
    decreases |kits|
  {
    if kits != [] {
      var init, k := kits[..|kits| - 1], kits[|kits| - 1];
      FirstStageEntries(first, m, second, init, of);
      assert k in kits;
      forall r | r in Entries(k, of)
        ensures MoreAnswers(Members(first), Members(first + second), Members(second), k.reference, r.ask)
      {
        FirstStageAnswers(first, m, second, k, r.ask);
      }
      UnansweredTwice(Members(first), Members(first + second), Members(second), k.reference, m.reference, Entries(k, of));
      UnansweredSplit(Members(second), m.reference, AllUnanswered(Members(first), init, of),
                      Unanswered(Members(first), k.reference, Entries(k, of)));
    }
  }

  /** Sets that answer the same asks leave the same entries. */
  lemma {:induction false} SameUnanswered(a: set<Kit>, b: set<Kit>, self: string, entries: seq<Relation>)
    requires forall r :: r in entries ==> (AnsweredByOther(a, r.ask, self) <==> AnsweredByOther(b, r.ask, self))
    ensures Unanswered(a, self, entries) == Unanswered(b, self, entries)
    decreases |entries|
  {
    if entries != [] {
      assert entries[|entries| - 1] in entries;
      SameUnanswered(a, b, self, entries[..|entries| - 1]);
    }
  }

  lemma {:induction false} SecondStageEntries(first: seq<Kit>, m: Kit, second: seq<Kit>, kits: seq<Kit>, of: Relations)
    requires Stages(first, m, second) && forall k :: k in kits ==> k in second
    ensures AllUnanswered(Members(first + second), kits, of) == AllUnanswered(Members([m] + second), kits, of)
    decreases |kits|
  {
    if kits != [] {
      var init, k := kits[..|kits| - 1], kits[|kits| - 1];
      SecondStageEntries(first, m, second, init, of);
      assert k in kits;
      forall r | r in Entries(k, of)
        ensures AnsweredByOther(Members(first + second), r.ask, k.reference) <==> AnsweredByOther(Members([m] + second), r.ask, k.reference)
      {
        SecondStageAnswers(first, m, second, k, r.ask);
      }
      SameUnanswered(Members(first + second), Members([m] + second), k.reference, Entries(k, of));
    }
  }

  lemma MergedEntriesInSecond(first: seq<Kit>, m: Kit, second: seq<Kit>, entries: seq<Relation>)
    requires Stages(first, m, second)
    ensures Unanswered(Members([m] + second), m.reference, entries) == Unanswered(Members(second), m.reference, entries)
  {
    forall r | r in entries
      ensures AnsweredByOther(Members([m] + second), r.ask, m.reference) <==> AnsweredByOther(Members(second), r.ask, m.reference)
    {
      if AnsweredByOther(Members(second), r.ask, m.reference) {
        var k :| k in Members(second) && k.reference != m.reference && Answers(k, r.ask);
        assert k in Members([m] + second);
      }
    }
    SameUnanswered(Members([m] + second), Members(second), m.reference, entries);
  }

  lemma OneUnanswered(all: set<Kit>, m: Kit, of: Relations)
    ensures AllUnanswered(all, [m], of) == Unanswered(all, m.reference, Entries(m, of))
  {
    assert [m][..0] == [];
    assert AllUnanswered(all, [m], of) == AllUnanswered(all, [], of) + Unanswered(all, m.reference, Entries(m, of));
  }

  /** The merged kit comes first, with what it keeps of its own. */
  lemma StagedList(all: set<Kit>, m: Kit, second: seq<Kit>, of: Relations)
    ensures AllUnanswered(all, [m] + second, of) == Unanswered(all, m.reference, Entries(m, of)) + AllUnanswered(all, second, of)
  {
    AllUnansweredSplit(all, [m], second, of);
    OneUnanswered(all, m, of);
  }

  lemma StagedEntries(first: seq<Kit>, m: Kit, second: seq<Kit>, of: Relations)
    requires Stages(first, m, second)
    ensures Dedup(AllUnanswered(Members([m] + second), [m] + second, of)) ==
      Dedup(AllUnanswered(Members(first + second), first + second, of))
  {
    var wide, staged := Members(first + second), Members([m] + second);
    var a, b := AllUnanswered(wide, first, of), AllUnanswered(wide, second, of);
    var own := Unanswered(staged, m.reference, Entries(m, of));
    assert own == Dedup(a) by {
      FirstStageEntries(first, m, second, first, of);
      MergedEntriesInSecond(first, m, second, Entries(m, of));
      UnansweredDedup(Members(second), m.reference, AllUnanswered(Members(first), first, of));
    }
    SecondStageEntries(first, m, second, second, of);
    AllUnansweredSplit(wide, first, second, of);
    StagedList(staged, m, second, of);
    DedupFirst(a, b);
  }

  lemma StagedRole(first: seq<Kit>, m: Kit, second: seq<Kit>)
    requires DerivedRole(first) == Some(m.role)
    ensures DerivedRole([m] + second) == DerivedRole(first + second)
  {
    RolesIn(first, second);
    RolesIn([m], second);
    RoleRead(first);
    RoleRead([m]);
    RoleRead(first + second);
    RoleRead([m] + second);
    assert [m][0] == m;
  }

  lemma RoleRead(kits: seq<Kit>)
    ensures DerivedRole(kits) ==
      if Has(kits, Unmerged) || HasTwoWorkloads(kits) then None else if Has(kits, Workload) then Some(Workload) else Some(Mixin)
  {
  }

  ghost predicate Has(kits: seq<Kit>, role: Role) {
    exists i :: 0 <= i < |kits| && kits[i].role == role
  }

  ghost predicate HasTwoWorkloads(kits: seq<Kit>) {
    exists i, j :: 0 <= i < j < |kits| && kits[i].role.Workload? && kits[j].role.Workload?
  }

  lemma RolesIn(a: seq<Kit>, b: seq<Kit>)
    ensures forall role :: Has(a + b, role) <==> Has(a, role) || Has(b, role)
    ensures HasTwoWorkloads(a + b) <==> HasTwoWorkloads(a) || HasTwoWorkloads(b) || (Has(a, Workload) && Has(b, Workload))
  {
    var c := a + b;
    assert forall i :: 0 <= i < |b| ==> c[|a| + i] == b[i];
    assert forall i :: 0 <= i < |a| ==> c[i] == a[i];
    forall role ensures Has(c, role) <==> Has(a, role) || Has(b, role) {
      if Has(c, role) {
        var i :| 0 <= i < |c| && c[i].role == role;
        assert i < |a| || b[i - |a|].role == role;
      }
      if Has(b, role) {
        var i :| 0 <= i < |b| && b[i].role == role;
        assert c[|a| + i].role == role;
      }
      if Has(a, role) {
        var i :| 0 <= i < |a| && a[i].role == role;
        assert c[i].role == role;
      }
    }
    if HasTwoWorkloads(c) {
      var i, j :| 0 <= i < j < |c| && c[i].role.Workload? && c[j].role.Workload?;
      if i >= |a| {
        assert b[i - |a|].role.Workload? && b[j - |a|].role.Workload?;
      } else if j >= |a| {
        assert a[i].role == Workload && b[j - |a|].role == Workload;
      }
    }
    if HasTwoWorkloads(b) {
      var i, j :| 0 <= i < j < |b| && b[i].role.Workload? && b[j].role.Workload?;
      assert c[|a| + i].role.Workload? && c[|a| + j].role.Workload?;
    }
    if Has(a, Workload) && Has(b, Workload) {
      var i :| 0 <= i < |a| && a[i].role == Workload;
      var j :| 0 <= j < |b| && b[j].role == Workload;
      assert c[i].role.Workload? && c[|a| + j].role.Workload?;
    }
  }

  /** Any merge of the staged contributions is a merge of them all, and the other way round. */
  lemma StagedMergeIsMerge(first: seq<Kit>, m: Kit, second: seq<Kit>, whole: Kit)
    requires Stages(first, m, second)
    ensures Merges([m] + second, whole) <==> Merges(first + second, whole)
  {
    StagedRole(first, m, second);
    OneMerged(m, second);
    AllOffersSplit(first, second);
    AllConflictsSplit(first, second);
    DedupFirst(AllOffers(first), AllOffers(second));
    DedupFirst(AllConflicts(first), AllConflicts(second));
    StagedEntries(first, m, second, Requires);
    StagedEntries(first, m, second, Integrations);
  }
}

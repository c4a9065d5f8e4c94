/** What a merged kit means to the kits around it. */
module Flattening {
  import opened Constraints
  import opened Kits
  import opened Resolving
  import opened Merging

  // The merged kit offers what its parts offered

  lemma {:induction false} InOffersOf(k: Kit, n: nat, p: Provide)
    requires n <= |k.offers|
    ensures p in OffersOf(k, n) <==> exists i :: 0 <= i < n && p == Materialize(k.offers[i], k.version)
  {
    if n > 0 {
      InOffersOf(k, n - 1, p);
      assert p in OffersOf(k, n) <==> p in OffersOf(k, n - 1) || p == Materialize(k.offers[n - 1], k.version);
    }
  }

  lemma {:induction false} InAllOffers(kits: seq<Kit>, p: Provide)
    ensures p in AllOffers(kits) <==> exists k :: k in kits && Offers(k, p)
  {
    if kits != [] {
      var rest, k := kits[..|kits| - 1], kits[|kits| - 1];
      InAllOffers(rest, p);
      InOffersOf(k, |k.offers|, p);
      assert kits == rest + [k];
      assert Offers(k, p) <==> exists i :: 0 <= i < |k.offers| && p == Materialize(k.offers[i], k.version);
    }
  }

  /** Every offer of the set states a version. */
  ghost predicate Versioned(kits: seq<Kit>) {
    forall k, p :: k in kits && Offers(k, p) ==> p.version != ""
  }

  lemma MergedOffers(kits: seq<Kit>, m: Kit, p: Provide)
    requires m.offers == Dedup(AllOffers(kits)) && (m.version == "" || Versioned(kits))
    ensures Offers(m, p) <==> exists k :: k in kits && Offers(k, p)
  {
    forall q | q in m.offers ensures Materialize(q, m.version) == q {
      InDedup(AllOffers(kits), q);
      InAllOffers(kits, q);
    }
    InDedup(AllOffers(kits), p);
    InAllOffers(kits, p);
    if exists k :: k in kits && Offers(k, p) {
      assert p in m.offers && p == Materialize(p, m.version);
    }
  }

  lemma MergedAnswers(kits: seq<Kit>, m: Kit, ask: Require)
    requires m.offers == Dedup(AllOffers(kits)) && (m.version == "" || Versioned(kits))
    ensures Answers(m, ask) <==> exists k :: k in kits && Answers(k, ask)
  {
    if Answers(m, ask) {
      var p :| Offers(m, p) && Satisfies(p, ask);
      MergedOffers(kits, m, p);
      var k :| k in kits && Offers(k, p);
      assert Answers(k, ask);
    }
    forall k | k in kits && Answers(k, ask) ensures Answers(m, ask) {
      var p :| Offers(k, p) && Satisfies(p, ask);
      MergedOffers(kits, m, p);
    }
  }

  lemma MergedNames(kits: seq<Kit>, m: Kit, name: string)
    requires m.offers == Dedup(AllOffers(kits)) && (m.version == "" || Versioned(kits))
    ensures OffersName(m, name) <==> exists k :: k in kits && OffersName(k, name)
  {
    if OffersName(m, name) {
      var p :| Offers(m, p) && p.name == name;
      MergedOffers(kits, m, p);
      var k :| k in kits && Offers(k, p);
      assert OffersName(k, name);
    }
    forall k | k in kits && OffersName(k, name) ensures OffersName(m, name) {
      var p :| Offers(k, p) && p.name == name;
      MergedOffers(kits, m, p);
    }
  }

  // It asks what none of its parts answered

  lemma {:induction false} InUnanswered(all: set<Kit>, self: string, entries: seq<Relation>, r: Relation)
    ensures r in Unanswered(all, self, entries) <==> r in entries && !AnsweredByOther(all, r.ask, self)
    decreases |entries|
  {
    if entries != [] {
      var rest := entries[..|entries| - 1];
      InUnanswered(all, self, rest, r);
      assert entries == rest + [entries[|entries| - 1]];
    }
  }

  lemma {:induction false} InAllUnanswered(all: set<Kit>, kits: seq<Kit>, of: Relations, r: Relation)
    ensures r in AllUnanswered(all, kits, of) <==>
      exists k :: k in kits && r in Entries(k, of) && !AnsweredByOther(all, r.ask, k.reference)
    decreases |kits|
  {
    if kits != [] {
      var rest, k := kits[..|kits| - 1], kits[|kits| - 1];
      InAllUnanswered(all, rest, of, r);
      InUnanswered(all, k.reference, Entries(k, of), r);
      assert kits == rest + [k];
    }
  }

  lemma MergedEntries(kits: seq<Kit>, m: Kit, of: Relations, r: Relation)
    requires Merges(kits, m)
    ensures r in Entries(m, of) <==>
      exists k :: k in kits && r in Entries(k, of) && !AnsweredByOther(Members(kits), r.ask, k.reference)
  {
    InDedup(AllUnanswered(Members(kits), kits, of), r);
    InAllUnanswered(Members(kits), kits, of, r);
  }

  lemma {:induction false} InAllConflicts(kits: seq<Kit>, c: Exclusion)
    ensures c in AllConflicts(kits) <==> exists k :: k in kits && c in k.conflicts
    decreases |kits|
  {
    if kits != [] {
      var rest, k := kits[..|kits| - 1], kits[|kits| - 1];
      InAllConflicts(rest, c);
      assert kits == rest + [k];
    }
  }

  lemma MergedConflicts(kits: seq<Kit>, m: Kit, c: Exclusion)
    requires Merges(kits, m)
    ensures c in m.conflicts <==> exists k :: k in kits && c in k.conflicts
  {
    InDedup(AllConflicts(kits), c);
    InAllConflicts(kits, c);
  }

  // The verdict around it

  /** A merge and the kits outside it, none sharing a reference with another. */
  ghost predicate Around(kits: seq<Kit>, m: Kit, outside: set<Kit>) {
    && Merges(kits, m) && (m.version == "" || Versioned(kits)) && Distinct(Members(kits)) && Distinct(outside)
    && (forall k, x :: k in kits && x in outside ==> k.reference != x.reference)
    && forall x :: x in outside ==> x.reference != m.reference
  }

  lemma AnsweredAlike(kits: seq<Kit>, m: Kit, outside: set<Kit>, x: Kit, ask: Require)
    requires Around(kits, m, outside) && x in outside
    ensures AnsweredByOther(Members(kits) + outside, ask, x.reference) <==> AnsweredByOther({m} + outside, ask, x.reference)
  {
    MergedAnswers(kits, m, ask);
    if AnsweredByOther(Members(kits) + outside, ask, x.reference) {
      var k :| k in Members(kits) + outside && k.reference != x.reference && Answers(k, ask);
      assert (if k in outside then k else m) in {m} + outside;
    }
    if AnsweredByOther({m} + outside, ask, x.reference) {
      var k :| k in {m} + outside && k.reference != x.reference && Answers(k, ask);
      if k !in outside {
        var l :| l in kits && Answers(l, ask);
        assert l in Members(kits) + outside;
      } else {
        assert k in Members(kits) + outside;
      }
    }
  }

  lemma NamedAlike(kits: seq<Kit>, m: Kit, outside: set<Kit>, x: Kit, name: string)
    requires Around(kits, m, outside) && x in outside
    ensures OfferedByOther(Members(kits) + outside, name, x.reference) <==> OfferedByOther({m} + outside, name, x.reference)
  {
    MergedNames(kits, m, name);
    if OfferedByOther(Members(kits) + outside, name, x.reference) {
      var k :| k in Members(kits) + outside && k.reference != x.reference && OffersName(k, name);
      assert (if k in outside then k else m) in {m} + outside;
    }
    if OfferedByOther({m} + outside, name, x.reference) {
      var k :| k in {m} + outside && k.reference != x.reference && OffersName(k, name);
      if k !in outside {
        var l :| l in kits && OffersName(l, name);
        assert l in Members(kits) + outside;
      } else {
        assert k in Members(kits) + outside;
      }
    }
  }

  /** To a kit of the set, others are the rest of the set and the kits outside. */
  lemma AnsweredInside(kits: seq<Kit>, m: Kit, outside: set<Kit>, k: Kit, ask: Require)
    requires Around(kits, m, outside) && k in kits
    ensures AnsweredByOther(Members(kits) + outside, ask, k.reference) <==>
      AnsweredByOther(Members(kits), ask, k.reference) || AnsweredByOther({m} + outside, ask, m.reference)
  {
    if AnsweredByOther(Members(kits) + outside, ask, k.reference) {
      var l :| l in Members(kits) + outside && l.reference != k.reference && Answers(l, ask);
      assert l in Members(kits) || l in {m} + outside;
    }
    if AnsweredByOther(Members(kits), ask, k.reference) {
      var l :| l in Members(kits) && l.reference != k.reference && Answers(l, ask);
      assert l in Members(kits) + outside;
    }
    if AnsweredByOther({m} + outside, ask, m.reference) {
      var l :| l in {m} + outside && l.reference != m.reference && Answers(l, ask);
      assert l in Members(kits) + outside && l.reference != k.reference;
    }
  }

  lemma NamedInside(kits: seq<Kit>, m: Kit, outside: set<Kit>, k: Kit, name: string)
    requires Around(kits, m, outside) && k in kits
    ensures OfferedByOther(Members(kits) + outside, name, k.reference) <==>
      OfferedByOther(Members(kits), name, k.reference) || OfferedByOther({m} + outside, name, m.reference)
  {
    if OfferedByOther(Members(kits) + outside, name, k.reference) {
      var l :| l in Members(kits) + outside && l.reference != k.reference && OffersName(l, name);
      assert l in Members(kits) || l in {m} + outside;
    }
    if OfferedByOther(Members(kits), name, k.reference) {
      var l :| l in Members(kits) && l.reference != k.reference && OffersName(l, name);
      assert l in Members(kits) + outside;
    }
    if OfferedByOther({m} + outside, name, m.reference) {
      var l :| l in {m} + outside && l.reference != m.reference && OffersName(l, name);
      assert l in Members(kits) + outside && l.reference != k.reference;
    }
  }

  lemma RequiresKept(kits: seq<Kit>, m: Kit, outside: set<Kit>)
    requires Around(kits, m, outside)
    ensures RequiresMet(Members(kits) + outside) <==> RequiresMet({m} + outside)
  {
    var before, after := Members(kits) + outside, {m} + outside;
    if RequiresMet(before) {
      forall x, r | x in after && r in x.asks ensures AnsweredByOther(after, r.ask, x.reference) {
        if x in outside {
          AnsweredAlike(kits, m, outside, x, r.ask);
          assert x in before;
        } else {
          MergedEntries(kits, m, Requires, r);
          var k :| k in kits && r in Entries(k, Requires) && !AnsweredByOther(Members(kits), r.ask, k.reference);
          AnsweredInside(kits, m, outside, k, r.ask);
          assert k in before;
        }
      }
    }
    if RequiresMet(after) {
      forall x, r | x in before && r in x.asks ensures AnsweredByOther(before, r.ask, x.reference) {
        if x in outside {
          AnsweredAlike(kits, m, outside, x, r.ask);
          assert x in after;
        } else {
          AnsweredInside(kits, m, outside, x, r.ask);
          MergedEntries(kits, m, Requires, r);
          assert m in after && (r in Entries(m, Requires) ==> r in m.asks);
        }
      }
    }
  }

  lemma IntegratesKept(kits: seq<Kit>, m: Kit, outside: set<Kit>)
    requires Around(kits, m, outside) && IntegratesMet(Members(kits))
    ensures IntegratesMet(Members(kits) + outside) <==> IntegratesMet({m} + outside)
  {
    var before, after := Members(kits) + outside, {m} + outside;
    if IntegratesMet(before) {
      forall x, r | x in after && r in x.integrates && OfferedByOther(after, r.ask.name, x.reference)
        ensures AnsweredByOther(after, r.ask, x.reference)
      {
        if x in outside {
          AnsweredAlike(kits, m, outside, x, r.ask);
          NamedAlike(kits, m, outside, x, r.ask.name);
          assert x in before;
        } else {
          MergedEntries(kits, m, Integrations, r);
          var k :| k in kits && r in Entries(k, Integrations) && !AnsweredByOther(Members(kits), r.ask, k.reference);
          AnsweredInside(kits, m, outside, k, r.ask);
          NamedInside(kits, m, outside, k, r.ask.name);
          assert k in before;
        }
      }
    }
    if IntegratesMet(after) {
      forall x, r | x in before && r in x.integrates && OfferedByOther(before, r.ask.name, x.reference)
        ensures AnsweredByOther(before, r.ask, x.reference)
      {
        if x in outside {
          AnsweredAlike(kits, m, outside, x, r.ask);
          NamedAlike(kits, m, outside, x, r.ask.name);
          assert x in after;
        } else {
          AnsweredInside(kits, m, outside, x, r.ask);
          NamedInside(kits, m, outside, x, r.ask.name);
          MergedEntries(kits, m, Integrations, r);
          assert m in after && (r in Entries(m, Integrations) ==> r in m.integrates);
          assert x in Members(kits);
        }
      }
    }
  }

  lemma ConflictsKept(kits: seq<Kit>, m: Kit, outside: set<Kit>)
    requires Around(kits, m, outside) && ConflictFree(Members(kits))
    ensures ConflictFree(Members(kits) + outside) <==> ConflictFree({m} + outside)
  {
    var before, after := Members(kits) + outside, {m} + outside;
    if ConflictFree(before) {
      forall x, c | x in after && c in x.conflicts ensures !OfferedByOther(after, c.name, x.reference) {
        if x in outside {
          NamedAlike(kits, m, outside, x, c.name);
          assert x in before;
        } else {
          MergedConflicts(kits, m, c);
          var k :| k in kits && c in k.conflicts;
          NamedInside(kits, m, outside, k, c.name);
          assert k in before;
        }
      }
    }
    if ConflictFree(after) {
      forall x, c | x in before && c in x.conflicts ensures !OfferedByOther(before, c.name, x.reference) {
        if x in outside {
          NamedAlike(kits, m, outside, x, c.name);
          assert x in after;
        } else {
          NamedInside(kits, m, outside, x, c.name);
          MergedConflicts(kits, m, c);
          assert m in after && x in Members(kits);
        }
      }
    }
  }

  lemma OwnersKept(kits: seq<Kit>, m: Kit, outside: set<Kit>)
    requires Around(kits, m, outside) && OneOwner(Members(kits))
    ensures OneOwner(Members(kits) + outside) <==> OneOwner({m} + outside)
  {
    var before, after := Members(kits) + outside, {m} + outside;
    if OneOwner(before) {
      forall a, b, name | a in after && b in after && OffersName(a, name) && OffersName(b, name) ensures a == b {
        MergedNames(kits, m, name);
        if a in outside && b in outside {
          assert a in before && b in before;
        }
      }
    }
    if OneOwner(after) {
      forall a, b, name | a in before && b in before && OffersName(a, name) && OffersName(b, name) ensures a == b {
        MergedNames(kits, m, name);
        if a in outside || b in outside {
          assert (if a in outside then a else m) in after && (if b in outside then b else m) in after;
          assert (if a in outside then a else m) == (if b in outside then b else m);
        } else {
          assert a in Members(kits) && b in Members(kits);
        }
      }
    }
  }

  lemma {:induction false} WorkloadKept(kits: seq<Kit>, m: Kit, outside: set<Kit>, partial: bool)
    requires Around(kits, m, outside)
    ensures OneWorkload(Members(kits) + outside, partial) <==> OneWorkload({m} + outside, partial)
  {
    var before, after := Members(kits) + outside, {m} + outside;
    forall a, b | a in kits && b in kits && a.role.Workload? && b.role.Workload? ensures a == b {
      var i :| 0 <= i < |kits| && kits[i] == a;
      var j :| 0 <= j < |kits| && kits[j] == b;
    }
    assert m.role.Workload? <==> exists k :: k in kits && k.role.Workload?;
    if OneWorkload(before, partial) {
      forall a, b | a in after && b in after && a.role.Workload? && b.role.Workload? ensures a == b {
        if a !in outside || b !in outside {
          var k :| k in kits && k.role.Workload?;
          assert k in before;
          assert (if a in outside then a else k) in before && (if b in outside then b else k) in before;
        } else {
          assert a in before && b in before;
        }
      }
      if !partial {
        var k :| k in before && k.role.Workload?;
        assert (if k in outside then k else m) in after;
      }
    }
    if OneWorkload(after, partial) {
      forall a, b | a in before && b in before && a.role.Workload? && b.role.Workload? ensures a == b {
        assert (if a in outside then a else m) in after && (if b in outside then b else m) in after;
      }
      if !partial {
        var x :| x in after && x.role.Workload?;
        if x in outside {
          assert x in before;
        } else {
          var k :| k in kits && k.role.Workload?;
          assert k in before;
        }
      }
    }
  }

  /** The kits around a merge are judged as they would be around its parts. */
  lemma FlatteningKeepsVerdict(kits: seq<Kit>, m: Kit, outside: set<Kit>, partial: bool)
    requires Around(kits, m, outside)
    requires OneOwner(Members(kits)) && IntegratesMet(Members(kits)) && ConflictFree(Members(kits))
    ensures Coherent(Members(kits) + outside, partial) <==> Coherent({m} + outside, partial)
  {
    WorkloadKept(kits, m, outside, partial);
    OwnersKept(kits, m, outside);
    RequiresKept(kits, m, outside);
    IntegratesKept(kits, m, outside);
    ConflictsKept(kits, m, outside);
  }
}

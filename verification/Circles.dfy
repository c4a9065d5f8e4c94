/** What flattening does to composition order: exactly which kits outside a set end up in a circle with its merge. */
module Circles {
  import opened Trees
  import opened Graphs
  import opened Constraints
  import opened Kits
  import opened Resolving
  import opened Merging
  import opened Flattening

  // What the merge needs, and what needs it

  /** `b` needs `x` for something no other kit of the set answers. */
  ghost predicate NeedsOutside(kits: seq<Kit>, b: Kit, x: Kit) {
    && b.reference != x.reference
    && exists r :: (r in b.asks || r in b.integrates) && Answers(x, r.ask) && !AnsweredByOther(Members(kits), r.ask, b.reference)
  }

  lemma MergedNeeds(kits: seq<Kit>, m: Kit, outside: set<Kit>, x: Kit)
    requires Around(kits, m, outside) && x in outside
    ensures Needs(m, x) <==> exists b :: b in kits && NeedsOutside(kits, b, x)
  {
    if Needs(m, x) {
      var r :| (r in m.asks || r in m.integrates) && Answers(x, r.ask);
      var of := if r in m.asks then Requires else Integrations;
      assert r in Entries(m, of);
      MergedEntries(kits, m, of, r);
      var b :| b in kits && r in Entries(b, of) && !AnsweredByOther(Members(kits), r.ask, b.reference);
      assert NeedsOutside(kits, b, x);
    }
    if b :| b in kits && NeedsOutside(kits, b, x) {
      var r :| (r in b.asks || r in b.integrates) && Answers(x, r.ask) && !AnsweredByOther(Members(kits), r.ask, b.reference);
      var of := if r in b.asks then Requires else Integrations;
      assert r in Entries(b, of);
      MergedEntries(kits, m, of, r);
    }
  }

  lemma NeedsMerged(kits: seq<Kit>, m: Kit, outside: set<Kit>, x: Kit)
    requires Around(kits, m, outside) && x in outside
    ensures Needs(x, m) <==> exists a :: a in kits && Needs(x, a)
  {
    if Needs(x, m) {
      var r :| (r in x.asks || r in x.integrates) && Answers(m, r.ask);
      MergedAnswers(kits, m, r.ask);
      var a :| a in kits && Answers(a, r.ask);
      assert Needs(x, a);
    }
    if a :| a in kits && Needs(x, a) {
      var r :| (r in x.asks || r in x.integrates) && Answers(a, r.ask);
      MergedAnswers(kits, m, r.ask);
    }
  }

  // When the merge is in a circle

  /** A walk over kits outside that a part needs at one end and that needs a part at the other. */
  ghost predicate Threads(kits: seq<Kit>, outside: set<Kit>, p: seq<Kit>) {
    && p != [] && (forall x :: x in p ==> x in outside) && Walk(DependencyGraph(outside), p)
    && (exists b :: b in kits && NeedsOutside(kits, b, p[0]))
    && exists a :: a in kits && Needs(p[|p| - 1], a)
  }

  /** A walk over some of the kits of one set is a walk over them in any other that has them. */
  lemma WalkElsewhere(kits: set<Kit>, others: set<Kit>, p: seq<Kit>)
    requires Walk(DependencyGraph(kits), p) && (forall x :: x in p ==> x in others)
    ensures Walk(DependencyGraph(others), p)
  {
    forall i | 0 <= i < |p| - 1 ensures StepAt(DependencyGraph(others), p, i) {
      assert StepAt(DependencyGraph(kits), p, i);
    }
  }

  lemma CycleElsewhere(kits: set<Kit>, others: set<Kit>)
    requires Cyclic(DependencyGraph(kits)) && kits <= others
    ensures Cyclic(DependencyGraph(others))
  {
    var p :| Cycle(DependencyGraph(kits), p);
    forall x | x in p ensures x in others {
      WalkStays(kits, p, x);
    }
    WalkElsewhere(kits, others, p);
    assert Cycle(DependencyGraph(others), p);
  }

  lemma WalkStays(kits: set<Kit>, p: seq<Kit>, x: Kit)
    requires |p| >= 2 && Walk(DependencyGraph(kits), p) && x in p
    ensures x in kits
  {
    var i :| 0 <= i < |p| && p[i] == x;
    assert StepAt(DependencyGraph(kits), p, if i == 0 then 0 else i - 1);
  }

  lemma NeedIsStep(kits: set<Kit>, k: Kit, d: Kit)
    requires k in kits && d in kits
    ensures k in DependencyGraph(kits).needs && (Needs(k, d) <==> d in DependencyGraph(kits).needs[k])
  {
  }

  /** A walk from a node that is entered from `m` and left for it closes a cycle. */
  lemma ClosesCycle<T(!new)>(g: Graph<T>, m: T, p: seq<T>)
    requires p != [] && Walk(g, p) && m in g.needs && p[0] in g.needs[m] && p[|p| - 1] in g.needs && m in g.needs[p[|p| - 1]]
    ensures Cyclic(g)
  {
    var c := [m] + p + [m];
    forall i | 0 <= i < |c| - 1 ensures StepAt(g, c, i) {
      if 0 < i < |p| {
        assert StepAt(g, p, i - 1);
      }
    }
    assert Cycle(g, c);
  }

  lemma ThreadCloses(kits: seq<Kit>, m: Kit, outside: set<Kit>, p: seq<Kit>)
    requires Around(kits, m, outside) && Threads(kits, outside, p)
    ensures Cyclic(DependencyGraph({m} + outside))
  {
    var first, last := p[0], p[|p| - 1];
    assert first in p && last in p;
    MergedNeeds(kits, m, outside, first);
    NeedsMerged(kits, m, outside, last);
    NeedIsStep({m} + outside, m, first);
    NeedIsStep({m} + outside, last, m);
    WalkElsewhere(outside, {m} + outside, p);
    ClosesCycle(DependencyGraph({m} + outside), m, p);
  }

  /** A walk that begins and ends in one set of nodes and goes through another has a run in the other between two of the first. */
  lemma RunBetween<T(!new)>(g: Graph<T>, inner: set<T>, outside: set<T>, c: seq<T>, k: nat) returns (b: T, p: seq<T>, a: T)
    requires Walk(g, c) && k < |c| && c[k] in outside && inner !! outside && (forall x :: x in c ==> x in inner + outside)
    requires c[0] in inner && c[|c| - 1] in inner
    ensures p != [] && Walk(g, p) && (forall x :: x in p ==> x in outside) && b in inner && a in inner
    ensures b in g.needs && p[0] in g.needs[b] && p[|p| - 1] in g.needs && a in g.needs[p[|p| - 1]]
  {
    var i, j := k, k;
    while c[i - 1] !in inner
      invariant 0 < i <= k && forall n :: i <= n <= k ==> c[n] in outside
      decreases i
    {
      assert c[i - 1] in c;
      i := i - 1;
    }
    while c[j] !in inner
      invariant k <= j < |c| && forall n :: i <= n < j ==> c[n] in outside
      decreases |c| - j
    {
      assert c[j] in c;
      j := j + 1;
    }
    b, p, a := c[i - 1], c[i..j], c[j];
    assert StepAt(g, c, i - 1) && StepAt(g, c, j - 1);
    forall n | 0 <= n < |p| - 1 ensures StepAt(g, p, n) {
      assert StepAt(g, c, i + n);
    }
  }

  /** A cycle walked from another of its nodes. */
  lemma Rotated<T(!new)>(g: Graph<T>, c: seq<T>, k: nat) returns (r: seq<T>)
    requires Cycle(g, c) && k < |c|
    ensures Cycle(g, r) && r[0] == c[k] && forall x :: x in r <==> x in c
  {
    var n := |c| - 1;
    var s := if k == n then 0 else k;
    r := c[s..n] + c[..s + 1];
    forall i | 0 <= i < |r| - 1 ensures StepAt(g, r, i) {
      assert StepAt(g, c, if i < n - s then s + i else i - (n - s));
    }
    forall x | x in c ensures x in r {
      var i :| 0 <= i < |c| && c[i] == x;
      assert if i < s then r[n - s + i] == x else if i < n then r[i - s] == x else r[n - s] == x;
    }
  }

  lemma MergeThreaded(kits: seq<Kit>, m: Kit, outside: set<Kit>, p: seq<Kit>)
    requires Around(kits, m, outside) && p != [] && (forall x :: x in p ==> x in outside)
    requires Walk(DependencyGraph({m} + outside), p) && Needs(m, p[0]) && Needs(p[|p| - 1], m)
    ensures Threads(kits, outside, p)
  {
    assert p[0] in p && p[|p| - 1] in p;
    WalkElsewhere({m} + outside, outside, p);
    MergedNeeds(kits, m, outside, p[0]);
    NeedsMerged(kits, m, outside, p[|p| - 1]);
  }

  lemma MergeCircled(kits: seq<Kit>, m: Kit, outside: set<Kit>, c: seq<Kit>, k: nat)
    requires Around(kits, m, outside) && Cycle(DependencyGraph({m} + outside), c) && k < |c| && c[k] == m
    ensures exists p :: Threads(kits, outside, p)
  {
    var g := DependencyGraph({m} + outside);
    var r := Rotated(g, c, k);
    forall x | x in r ensures x in {m} + outside { WalkStays({m} + outside, r, x); }
    assert StepAt(g, r, 0) && r[1] in r;
    var b, p, a := RunBetween(g, {m}, outside, r, 1);
    MergeThreaded(kits, m, outside, p);
  }

  lemma CircleThreads(kits: seq<Kit>, m: Kit, outside: set<Kit>, c: seq<Kit>)
    requires Around(kits, m, outside) && Cycle(DependencyGraph({m} + outside), c)
    ensures Cyclic(DependencyGraph(outside)) || exists p :: Threads(kits, outside, p)
  {
    forall x | x in c ensures x in {m} + outside { WalkStays({m} + outside, c, x); }
    if k :| 0 <= k < |c| && c[k] == m {
      MergeCircled(kits, m, outside, c, k);
    } else {
      WalkElsewhere({m} + outside, outside, c);
      assert Cycle(DependencyGraph(outside), c);
    }
  }

  /** The merge is in a circle exactly when the kits outside are, or thread the set. */
  lemma FlatteningCircles(kits: seq<Kit>, m: Kit, outside: set<Kit>)
    requires Around(kits, m, outside)
    ensures Cyclic(DependencyGraph({m} + outside)) <==> Cyclic(DependencyGraph(outside)) || exists p :: Threads(kits, outside, p)
  {
    if Cyclic(DependencyGraph({m} + outside)) {
      var c :| Cycle(DependencyGraph({m} + outside), c);
      CircleThreads(kits, m, outside, c);
    } else if Cyclic(DependencyGraph(outside)) {
      CycleElsewhere(outside, {m} + outside);
    } else if p :| Threads(kits, outside, p) {
      ThreadCloses(kits, m, outside, p);
    }
  }

  /** Kits that can be ordered around the parts can be ordered around their merge exactly when none of them thread the set. */
  lemma FlatteningKeepsOrder(kits: seq<Kit>, m: Kit, outside: set<Kit>)
    requires Around(kits, m, outside) && !Cyclic(DependencyGraph(Members(kits) + outside))
    ensures !Cyclic(DependencyGraph({m} + outside)) <==> forall p :: !Threads(kits, outside, p)
  {
    FlatteningCircles(kits, m, outside);
    if Cyclic(DependencyGraph(outside)) {
      CycleElsewhere(outside, Members(kits) + outside);
    }
  }

  lemma OneOwnerAnswers(kits: set<Kit>, a: Kit, b: Kit, ask: Require)
    requires OneOwner(kits) && a in kits && b in kits && Answers(a, ask) && Answers(b, ask)
    ensures a == b
  {
    AnswersName(a, ask);
    AnswersName(b, ask);
  }

  lemma NeedIsOutside(kits: seq<Kit>, m: Kit, outside: set<Kit>, b: Kit, x: Kit)
    requires Around(kits, m, outside) && OneOwner(Members(kits) + outside) && b in kits && x in outside && Needs(b, x)
    ensures NeedsOutside(kits, b, x)
  {
    var r :| (r in b.asks || r in b.integrates) && Answers(x, r.ask);
    forall k | k in Members(kits) && k.reference != b.reference ensures !Answers(k, r.ask) {
      if Answers(k, r.ask) {
        OneOwnerAnswers(Members(kits) + outside, k, x, r.ask);
        assert false;
      }
    }
  }

  /** The other way, flattening hides no circle but one among the parts themselves. */
  lemma FlatteningHidesOnlyInner(kits: seq<Kit>, m: Kit, outside: set<Kit>)
    requires Around(kits, m, outside) && OneOwner(Members(kits) + outside)
    requires Cyclic(DependencyGraph(Members(kits) + outside))
    ensures Cyclic(DependencyGraph(Members(kits))) || Cyclic(DependencyGraph({m} + outside))
  {
    var inner := Members(kits);
    var g := DependencyGraph(inner + outside);
    var c :| Cycle(g, c);
    forall x | x in c ensures x in inner + outside { WalkStays(inner + outside, c, x); }
    FlatteningCircles(kits, m, outside);
    if k :| 0 <= k < |c| && c[k] in inner {
      var r := Rotated(g, c, k);
      if n :| 0 <= n < |r| && r[n] in outside {
        var b, p, a := RunBetween(g, inner, outside, r, n);
        assert p[0] in p && p[|p| - 1] in p;
        NeedIsOutside(kits, m, outside, b, p[0]);
        WalkElsewhere(inner + outside, outside, p);
        assert Threads(kits, outside, p);
      } else {
        forall x | x in r ensures x in inner {}
        WalkElsewhere(inner + outside, inner, r);
        assert Cycle(DependencyGraph(inner), r);
      }
    } else {
      WalkElsewhere(inner + outside, outside, c);
      assert Cycle(DependencyGraph(outside), c);
    }
  }

  // A set that can be ordered around a kit its merge cannot

  /** Offers `provided` and asks for `required`, if they name anything. */
  function Plain(reference: string, provided: string, required: string): Kit {
    Kit(reference, Mixin, "", if provided == "" then [] else [Provide(provided, "")],
        if required == "" then [] else [Relation(required, Require(required, []))], [], [])
  }

  lemma PlainNeeds(k: Kit, d: Kit, r: string, p: string, q: string, r': string, p': string, q': string)
    requires k == Plain(r, p, q) && d == Plain(r', p', q')
    ensures Needs(k, d) <==> r != r' && q != "" && p' == q
    ensures Answers(d, Require(q, [])) <==> p' != "" && p' == q
  {
    var ask := Require(q, []);
    if p' != "" && p' == q {
      var offer := Provide(p', "");
      assert offer in d.offers && offer == Materialize(offer, "");
      assert Offers(d, offer) && Satisfies(offer, ask);
      if q != "" {
        assert Relation(q, ask) in k.asks;
      }
    }
  }

  lemma PlainUnanswered(all: set<Kit>, a: Kit, b: Kit, r: Relation)
    requires a.asks == [r] && b.asks == [] && a.integrates == [] && b.integrates == [] && !AnsweredByOther(all, r.ask, a.reference)
    ensures AllUnanswered(all, [a, b], Requires) == [r] && AllUnanswered(all, [a, b], Integrations) == []
  {
    assert [a, b][..1] == [a] && [a][..0] == [] && [r][..0] == [];
    assert Unanswered(all, a.reference, [r]) == [] + Kept(all, a.reference, r);
    assert AllUnanswered(all, [a], Requires) == [] + Unanswered(all, a.reference, [r]);
    assert AllUnanswered(all, [a, b], Requires) == AllUnanswered(all, [a], Requires) + [];
    assert AllUnanswered(all, [a], Integrations) == [];
  }

  lemma PlainOffers(a: Kit, b: Kit, p: Provide)
    requires a.offers == [] && b.offers == [p] && b.version == "" && a.conflicts == [] && b.conflicts == []
    ensures AllOffers([a, b]) == [p] && AllConflicts([a, b]) == []
  {
    var both, one := [a, b], [a];
    assert both[..1] == one && one[..0] == [] && OffersOf(b, 0) == [];
    assert OffersOf(b, 1) == [] + [p] && OffersOf(a, 0) == [];
    assert AllOffers(one) == AllOffers([]) + [] && AllConflicts(one) == AllConflicts([]) + [];
    assert AllOffers(both) == AllOffers(one) + OffersOf(b, 1) && AllConflicts(both) == AllConflicts(one) + [];
  }

  lemma DedupOne<T>(x: T)
    ensures Dedup([x]) == [x] && Dedup<T>([]) == []
  {
    assert [x][..0] == [];
  }

  lemma PlainRole(a: Kit, b: Kit)
    requires a.role.Mixin? && b.role.Mixin?
    ensures DerivedRole([a, b]) == Some(Mixin)
  {
  }

  lemma PlainMerge(a: Kit, b: Kit, m: Kit, p: string, q: string)
    requires a == Plain(a.reference, "", q) && b == Plain(b.reference, p, "") && m == Plain(m.reference, p, q)
    requires p != "" && q != "" && p != q && a.reference != b.reference
    ensures Merges([a, b], m)
  {
    var kits, r := [a, b], Relation(q, Require(q, []));
    PlainNeeds(a, b, a.reference, "", q, b.reference, p, "");
    assert !AnsweredByOther(Members(kits), r.ask, a.reference) by {
      forall k | k in Members(kits) && k.reference != a.reference ensures !Answers(k, r.ask) {
        assert k == b;
      }
    }
    PlainUnanswered(Members(kits), a, b, r);
    PlainOffers(a, b, Provide(p, ""));
    DedupOne(Provide(p, ""));
    DedupOne(r);
    PlainRole(a, b);
    assert m.conflicts == [];
  }

  lemma PlainOrder(a: Kit, b: Kit, x: Kit, p: string, q: string)
    requires a == Plain(a.reference, "", q) && b == Plain(b.reference, p, "") && x == Plain(x.reference, q, p)
    requires p != "" && q != "" && p != q
    ensures !Cyclic(DependencyGraph({a, b, x}))
  {
    var g, out := DependencyGraph({a, b, x}), [b, x, a];
    PlainNeeds(a, a, a.reference, "", q, a.reference, "", q);
    PlainNeeds(x, a, x.reference, q, p, a.reference, "", q);
    assert g.needs[b] == {} && g.needs[x] <= {b} && g.needs[a] <= {b, x};
    assert out[..1] == [b] && out[..2] == [b, x];
    assert Topological(g, out);
    CyclicHasNoOrder(g, out);
  }

  lemma PlainCircle(m: Kit, x: Kit, p: string, q: string)
    requires m == Plain(m.reference, p, q) && x == Plain(x.reference, q, p) && p != "" && q != "" && x.reference != m.reference
    ensures Cyclic(DependencyGraph({m} + {x}))
  {
    PlainNeeds(m, x, m.reference, p, q, x.reference, q, p);
    PlainNeeds(x, m, x.reference, q, p, m.reference, p, q);
    NeedIsStep({m} + {x}, m, x);
    NeedIsStep({m} + {x}, x, m);
    ClosesCycle(DependencyGraph({m} + {x}), m, [x]);
  }

  lemma PlainAround(a: Kit, b: Kit, m: Kit, x: Kit)
    requires Merges([a, b], m) && m.version == "" && a.reference != b.reference
    requires x.reference !in {a.reference, b.reference, m.reference}
    ensures Around([a, b], m, {x}) && Members([a, b]) + {x} == {a, b, x}
  {
    assert Members([a, b]) == {a, b};
  }

  /** One part needs a kit outside, that kit needs another part: ordered so, and a circle once the parts are merged. */
  lemma OrderLost(a: Kit, b: Kit, m: Kit, x: Kit, p: string, q: string)
    requires a == Plain(a.reference, "", q) && b == Plain(b.reference, p, "")
    requires m == Plain(m.reference, p, q) && x == Plain(x.reference, q, p)
    requires p != "" && q != "" && p != q && a.reference != b.reference && x.reference !in {a.reference, b.reference, m.reference}
    ensures Around([a, b], m, {x})
    ensures !Cyclic(DependencyGraph(Members([a, b]) + {x})) && Cyclic(DependencyGraph({m} + {x}))
  {
    PlainMerge(a, b, m, p, q);
    PlainOrder(a, b, x, p, q);
    PlainCircle(m, x, p, q);
    PlainAround(a, b, m, x);
  }
}

/** What the rules of a coherent set say of the kits' own fields. */
module Rules {
  import opened Strings
  import opened Graphs
  import opened Constraints
  import opened Kits
  import opened Resolving

  /** The version an offer has: its own, or its kit's where it states none. */
  function VersionOf(k: Kit, p: Provide): string {
    if p.version != "" then p.version else k.version
  }

  predicate Names(k: Kit, name: string) {
    exists p :: p in k.offers && p.name == name
  }

  /** Some offer has the name, and a version that meets all that is asked of one. */
  predicate Meets(k: Kit, ask: Require) {
    exists p :: p in k.offers && p.name == ask.name &&
      (ask.constraints == [] || (VersionOf(k, p) != "" && HoldsAll(VersionOf(k, p), ask.constraints)))
  }

  /** A bare provide takes its kit's version; one that states its own keeps it. */
  lemma OffersInFields(k: Kit, q: Provide)
    ensures Offers(k, q) <==>
      exists p :: p in k.offers && p.name == q.name && q.version == if p.version != "" then p.version else k.version
  {
    if Offers(k, q) {
      var p :| p in k.offers && q == Materialize(p, k.version);
      assert p.name == q.name && q.version == if p.version != "" then p.version else k.version;
    }
    if p :| p in k.offers && p.name == q.name && q.version == if p.version != "" then p.version else k.version {
      assert q == Materialize(p, k.version);
    }
  }

  lemma NamesInFields(k: Kit, name: string)
    ensures OffersName(k, name) <==> Names(k, name)
  {
    if OffersName(k, name) {
      var q :| Offers(k, q) && q.name == name;
      OffersInFields(k, q);
    }
    if p :| p in k.offers && p.name == name {
      OffersInFields(k, Provide(name, VersionOf(k, p)));
    }
  }

  /** So a bare provide answers an ask exactly when its kit's version meets it. */
  lemma AnswersInFields(k: Kit, ask: Require)
    ensures Answers(k, ask) <==> Meets(k, ask)
  {
    if Answers(k, ask) {
      var q :| Offers(k, q) && Satisfies(q, ask);
      OffersInFields(k, q);
      var p :| p in k.offers && p.name == q.name && q.version == if p.version != "" then p.version else k.version;
    }
    if Meets(k, ask) {
      var p :| p in k.offers && p.name == ask.name && (ask.constraints == [] || (VersionOf(k, p) != "" && HoldsAll(VersionOf(k, p), ask.constraints)));
      var q := Provide(p.name, VersionOf(k, p));
      OffersInFields(k, q);
      assert Satisfies(q, ask);
    }
  }

  // Two kits

  ghost predicate OneWorkloadOf(a: Kit, b: Kit, partial: bool) {
    !(a.role.Workload? && b.role.Workload?) && (partial || a.role.Workload? || b.role.Workload?)
  }

  /** What `a` asks of `b`: all it requires, what it integrates if `b` offers the name at all, and none of what it conflicts with. */
  ghost predicate Suits(a: Kit, b: Kit) {
    && (forall r :: r in a.asks ==> Meets(b, r.ask))
    && (forall r :: r in a.integrates && Names(b, r.ask.name) ==> Meets(b, r.ask))
    && (forall c :: c in a.conflicts ==> !Names(b, c.name))
  }

  lemma OtherOfTwo(a: Kit, b: Kit, ask: Require, name: string)
    requires a.reference != b.reference
    ensures AnsweredByOther({a, b}, ask, a.reference) <==> Meets(b, ask)
    ensures OfferedByOther({a, b}, name, a.reference) <==> Names(b, name)
  {
    AnswersInFields(b, ask);
    NamesInFields(b, name);
    assert b in {a, b};
  }

  lemma SuitsFirst(a: Kit, b: Kit)
    requires a.reference != b.reference
    ensures Suits(a, b) <==>
      && (forall r :: r in a.asks ==> AnsweredByOther({a, b}, r.ask, a.reference))
      && (forall r :: r in a.integrates && OfferedByOther({a, b}, r.ask.name, a.reference) ==> AnsweredByOther({a, b}, r.ask, a.reference))
      && (forall c :: c in a.conflicts ==> !OfferedByOther({a, b}, c.name, a.reference))
  {
    forall r: Relation
      ensures AnsweredByOther({a, b}, r.ask, a.reference) <==> Meets(b, r.ask)
      ensures OfferedByOther({a, b}, r.ask.name, a.reference) <==> Names(b, r.ask.name)
    {
      OtherOfTwo(a, b, r.ask, r.ask.name);
    }
    forall c: Exclusion ensures OfferedByOther({a, b}, c.name, a.reference) <==> Names(b, c.name) {
      OtherOfTwo(a, b, Require("", []), c.name);
    }
  }

  /** No kit answers itself: two are coherent when each has what it asks from the other, they share no name, and one at most is a workload. */
  lemma CoherentPair(a: Kit, b: Kit, partial: bool)
    requires a.reference != b.reference
    ensures Coherent({a, b}, partial) <==>
      OneWorkloadOf(a, b, partial) && (forall name :: !(Names(a, name) && Names(b, name))) && Suits(a, b) && Suits(b, a)
  {
    var kits := {a, b};
    assert {b, a} == kits;
    SuitsFirst(a, b);
    SuitsFirst(b, a);
    PairWorkload(a, b, partial);
    PairOwners(a, b);
    assert RequiresMet(kits) && IntegratesMet(kits) && ConflictFree(kits) <==> Suits(a, b) && Suits(b, a) by {
      assert a in kits && b in kits;
    }
  }

  lemma PairWorkload(a: Kit, b: Kit, partial: bool)
    requires a.reference != b.reference
    ensures OneWorkload({a, b}, partial) <==> OneWorkloadOf(a, b, partial)
  {
    assert a in {a, b} && b in {a, b};
  }

  lemma PairOwners(a: Kit, b: Kit)
    requires a.reference != b.reference
    ensures OneOwner({a, b}) <==> forall name :: !(Names(a, name) && Names(b, name))
  {
    assert a in {a, b} && b in {a, b};
    forall name ensures (OffersName(a, name) <==> Names(a, name)) && (OffersName(b, name) <==> Names(b, name)) {
      NamesInFields(a, name);
      NamesInFields(b, name);
    }
  }

  /** A set without a workload is refused exactly when a whole sandbox was asked for. */
  lemma NoWorkload(kits: set<Kit>, partial: bool)
    requires forall k :: k in kits ==> !k.role.Workload?
    ensures OneWorkload(kits, partial) <==> partial
  {
  }

  // The order

  /** What answers a kit comes before it. */
  lemma AnswerComesFirst(kits: set<Kit>, out: seq<Kit>, i: nat, a: Kit, r: Relation)
    requires LeastTopological(DependencyGraph(kits), ByReference, out) && i < |out| && a in kits && a.reference != out[i].reference
    requires (r in out[i].asks || r in out[i].integrates) && Meets(a, r.ask)
    ensures a in out[..i]
  {
    AnswersInFields(a, r.ask);
    assert out[i] in out && Needs(out[i], a);
  }

  /** Of the kits whose answers are all placed, the one with the least reference is placed next. */
  lemma LesserComesFirst(kits: set<Kit>, out: seq<Kit>, i: nat, k: Kit)
    requires Distinct(kits) && LeastTopological(DependencyGraph(kits), ByReference, out) && i < |out|
    requires k in kits && k !in out[..i] && forall d :: d in kits && Needs(k, d) ==> d in out[..i]
    ensures k == out[i] || Less(out[i].reference, k.reference)
  {
    ByReferenceTotal(kits);
    LeastTakesLeast(DependencyGraph(kits), ByReference, out, i, k);
  }
}

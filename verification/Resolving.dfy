/** Whether a set of kits is coherent, and the one order it composes in. */
module Resolving {
  import opened Trees
  import opened Strings
  import opened Graphs
  import opened Constraints
  import opened Kits

  // Coherence, as statements about the set

  ghost predicate RequiresMet(kits: set<Kit>) {
    forall k, r :: k in kits && r in k.asks ==> AnsweredByOther(kits, r.ask, k.reference)
  }

  /** Where a provider of the name is present, some provider meets the entry. */
  ghost predicate IntegratesMet(kits: set<Kit>) {
    forall k, r :: k in kits && r in k.integrates && OfferedByOther(kits, r.ask.name, k.reference) ==>
      AnsweredByOther(kits, r.ask, k.reference)
  }

  ghost predicate ConflictFree(kits: set<Kit>) {
    forall k, c :: k in kits && c in k.conflicts ==> !OfferedByOther(kits, c.name, k.reference)
  }

  ghost predicate OneWorkload(kits: set<Kit>, partial: bool) {
    && (forall a, b :: a in kits && b in kits && a.role.Workload? && b.role.Workload? ==> a == b)
    && (partial || exists k :: k in kits && k.role.Workload?)
  }

  ghost predicate Coherent(kits: set<Kit>, partial: bool) {
    OneWorkload(kits, partial) && OneOwner(kits) && RequiresMet(kits) && IntegratesMet(kits) && ConflictFree(kits)
  }

  // The checks

  method CheckOneWorkload(kits: seq<Kit>, partial: bool) returns (workload: Option<Kit>, problems: nat)
    requires DistinctReferences(kits)
    ensures problems == 0 <==> OneWorkload(Members(kits), partial)
    ensures problems == 0 && workload.None? ==> forall k :: k in kits ==> !k.role.Workload?
    ensures workload.Some? ==> workload.value in kits && workload.value.role.Workload?
  {
    workload, problems := None, 0;
    for i := 0 to |kits|
      invariant workload.Some? ==> workload.value in kits[..i] && workload.value.role.Workload?
      invariant workload.None? ==> problems == 0 && forall j :: 0 <= j < i ==> !kits[j].role.Workload?
      invariant problems == 0 <==>
        forall a, b :: a in kits[..i] && b in kits[..i] && a.role.Workload? && b.role.Workload? ==> a == b
    {
      var u := kits[i];
      assert kits[..i + 1] == kits[..i] + [u];
      if u.role.Workload? {
        if workload.Some? {
          problems := problems + 1;
          assert workload.value != u;
        } else {
          workload := Some(u);
        }
      }
    }
    assert kits[..|kits|] == kits;
    if workload.None? && !partial {
      problems := problems + 1;
    }
  }

  method CheckRequires(kits: seq<Kit>, index: Index) returns (problems: nat)
    requires Indexes(index, kits)
    ensures problems == 0 <==> RequiresMet(Members(kits))
  {
    problems := 0;
    for i := 0 to |kits|
      invariant problems == 0 <==>
        forall k, r :: k in kits[..i] && r in k.asks ==> AnsweredByOther(Members(kits), r.ask, k.reference)
    {
      var u := kits[i];
      assert kits[..i + 1] == kits[..i] + [u];
      var unmet := CountUnmet(kits, index, u);
      problems := problems + unmet;
    }
    assert kits[..|kits|] == kits;
  }

  method CountUnmet(kits: seq<Kit>, index: Index, u: Kit) returns (problems: nat)
    requires Indexes(index, kits)
    ensures problems == 0 <==> forall r :: r in u.asks ==> AnsweredByOther(Members(kits), r.ask, u.reference)
  {
    problems := 0;
    for j := 0 to |u.asks|
      invariant problems == 0 <==> forall m :: 0 <= m < j ==> AnsweredByOther(Members(kits), u.asks[m].ask, u.reference)
    {
      var ask := u.asks[j].ask;
      AnswerIs(kits, ask, u.reference);
      if FirstAnswer(Listing(index, ask.name), ask, u.reference).None? {
        problems := problems + 1;
      }
    }
  }

  lemma AnswerIs(kits: seq<Kit>, ask: Require, self: string)
    ensures FirstAnswer(AllUnder(kits, ask.name), ask, self).Some? <==> AnsweredByOther(Members(kits), ask, self)
  {
    FirstAnswerDecides(kits, ask, self);
  }

  function Others(found: seq<Owned>, self: string): seq<Owned> {
    if found == [] then []
    else (if found[0].owner.reference != self then [found[0]] else []) + Others(found[1..], self)
  }

  lemma {:induction false} OthersFound(found: seq<Owned>, self: string)
    ensures Others(found, self) == [] <==> forall o :: o in found ==> o.owner.reference == self
    decreases |found|
  {
    if found != [] {
      OthersFound(found[1..], self);
      assert found == [found[0]] + found[1..];
    }
  }

  ghost predicate Integrates(kits: set<Kit>, ask: Require, self: string) {
    OfferedByOther(kits, ask.name, self) ==> AnsweredByOther(kits, ask, self)
  }

  method CheckIntegrates(kits: seq<Kit>, index: Index) returns (problems: nat)
    requires Indexes(index, kits)
    ensures problems == 0 <==> IntegratesMet(Members(kits))
  {
    problems := 0;
    for i := 0 to |kits|
      invariant problems == 0 <==>
        forall k, r :: k in kits[..i] && r in k.integrates ==> Integrates(Members(kits), r.ask, k.reference)
    {
      var u := kits[i];
      assert kits[..i + 1] == kits[..i] + [u];
      var violated := CountViolated(kits, index, u);
      problems := problems + violated;
    }
    assert kits[..|kits|] == kits;
  }

  method Violated(kits: seq<Kit>, index: Index, u: Kit, ask: Require) returns (violated: bool)
    requires Indexes(index, kits)
    ensures violated <==> !Integrates(Members(kits), ask, u.reference)
  {
    var found := Listing(index, ask.name);
    OtherListed(kits, ask.name, u.reference);
    OthersFound(found, u.reference);
    AnswerIs(kits, ask, u.reference);
    violated := Others(found, u.reference) != [] && FirstAnswer(found, ask, u.reference).None?;
  }

  method CountViolated(kits: seq<Kit>, index: Index, u: Kit) returns (problems: nat)
    requires Indexes(index, kits)
    ensures problems == 0 <==> forall r :: r in u.integrates ==> Integrates(Members(kits), r.ask, u.reference)
  {
    problems := 0;
    for j := 0 to |u.integrates|
      invariant problems == 0 <==> forall m :: 0 <= m < j ==> Integrates(Members(kits), u.integrates[m].ask, u.reference)
    {
      var violated := Violated(kits, index, u, u.integrates[j].ask);
      if violated {
        problems := problems + 1;
      }
    }
  }

  method CheckConflicts(kits: seq<Kit>, index: Index) returns (problems: nat)
    requires Indexes(index, kits)
    ensures problems == 0 <==> ConflictFree(Members(kits))
  {
    problems := 0;
    for i := 0 to |kits|
      invariant problems == 0 <==>
        forall k, c :: k in kits[..i] && c in k.conflicts ==> !OfferedByOther(Members(kits), c.name, k.reference)
    {
      var u := kits[i];
      assert kits[..i + 1] == kits[..i] + [u];
      var clashes := CountClashes(kits, index, u);
      problems := problems + clashes;
    }
    assert kits[..|kits|] == kits;
  }

  method CountClashes(kits: seq<Kit>, index: Index, u: Kit) returns (problems: nat)
    requires Indexes(index, kits)
    ensures problems == 0 <==> forall c :: c in u.conflicts ==> !OfferedByOther(Members(kits), c.name, u.reference)
  {
    problems := 0;
    for j := 0 to |u.conflicts|
      invariant problems == 0 <==> forall m :: 0 <= m < j ==> !OfferedByOther(Members(kits), u.conflicts[m].name, u.reference)
    {
      var name := u.conflicts[j].name;
      OtherListed(kits, name, u.reference);
      var found := Listing(index, name);
      OthersFound(found, u.reference);
      problems := problems + |Others(found, u.reference)|;
    }
  }

  ghost predicate OneOwnerUnder(kits: set<Kit>, name: string) {
    forall a, b :: a in kits && b in kits && OffersName(a, name) && OffersName(b, name) ==> a == b
  }

  function Owners(found: seq<Owned>): set<Kit> {
    set o | o in found :: o.owner
  }

  lemma OwnersDecide(kits: seq<Kit>, name: string)
    ensures |Owners(AllUnder(kits, name))| <= 1 <==> OneOwnerUnder(Members(kits), name)
  {
    var found := AllUnder(kits, name);
    var owners := Owners(found);
    forall k ensures k in owners <==> k in kits && OffersName(k, name) {
      if k in owners {
        var o :| o in found && o.owner == k;
        InAllUnder(kits, name, o);
      }
      if k in kits && OffersName(k, name) {
        var p :| Offers(k, p) && p.name == name;
        InAllUnder(kits, name, Owned(k, p));
        assert Owned(k, p).owner == k;
      }
    }
    AtMostOne(owners);
  }

  lemma AtMostOne<T(!new)>(s: set<T>)
    ensures |s| <= 1 <==> forall a, b :: a in s && b in s ==> a == b
  {
    if s != {} {
      var x :| x in s;
      if forall a, b :: a in s && b in s ==> a == b {
        assert s == {x};
      }
      if |s| <= 1 {
        assert |s - {x}| == |s| - 1;
        forall a | a in s ensures a == x {
          assert a !in s - {x};
        }
      }
    }
  }

  lemma OneOwnerByName(kits: set<Kit>)
    ensures OneOwner(kits) <==> forall name :: OneOwnerUnder(kits, name)
  {
    if forall name :: OneOwnerUnder(kits, name) {
      forall a, b, name | a in kits && b in kits && OffersName(a, name) && OffersName(b, name) ensures a == b {
        assert OneOwnerUnder(kits, name);
      }
    }
  }

  method CheckOneProviderPerName(kits: seq<Kit>, index: Index) returns (problems: nat)
    requires Indexes(index, kits)
    ensures problems == 0 <==> OneOwner(Members(kits))
  {
    problems := 0;
    var names := index.Keys;
    while names != {}
      invariant names <= index.Keys
      invariant problems == 0 <==> forall name :: name in index && name !in names ==> OneOwnerUnder(Members(kits), name)
      decreases names
    {
      var name :| name in names;
      OwnersDecide(kits, name);
      assert Listing(index, name) == AllUnder(kits, name);
      if |Owners(index[name])| > 1 {
        problems := problems + 1;
      }
      names := names - {name};
    }
    forall name | name !in index ensures OneOwnerUnder(Members(kits), name) {
      OwnersDecide(kits, name);
      assert Listing(index, name) == AllUnder(kits, name);
    }
    OneOwnerByName(Members(kits));
  }

  // The order

  /** `d` answers a relation of `k`: it composes first. */
  ghost predicate Needs(k: Kit, d: Kit) {
    d.reference != k.reference && exists r :: (r in k.asks || r in k.integrates) && Answers(d, r.ask)
  }

  ghost function DependencyGraph(kits: set<Kit>): (g: Graph<Kit>)
    ensures g.Valid() && g.nodes == kits
  {
    Graph(kits, map k | k in kits :: set d | d in kits && Needs(k, d))
  }

  predicate ByReference(a: Kit, b: Kit) {
    Less(a.reference, b.reference)
  }

  lemma ByReferenceTotal(kits: set<Kit>)
    requires Distinct(kits)
    ensures StrictTotal(ByReference, kits)
  {
    forall a, b | a in kits && b in kits ensures a == b || ByReference(a, b) || ByReference(b, a) {
      LessTotal(a.reference, b.reference);
    }
    forall a, b | a in kits && b in kits && ByReference(a, b) ensures a != b && !ByReference(b, a) {
      LessAsymmetric(a.reference, b.reference);
    }
    forall a, b, c | a in kits && b in kits && c in kits && ByReference(a, b) && ByReference(b, c) ensures ByReference(a, c) {
      LessTransitive(a.reference, b.reference, c.reference);
    }
  }

  lemma OnlyAnswer(kits: seq<Kit>, ask: Require, self: string, d: Kit)
    requires OneOwner(Members(kits)) && d in kits
    ensures FirstAnswer(AllUnder(kits, ask.name), ask, self) == Some(d) <==> d.reference != self && Answers(d, ask)
  {
    var first := FirstAnswer(AllUnder(kits, ask.name), ask, self);
    FirstAnswerDecides(kits, ask, self);
    if first.Some? {
      AnswersName(first.value, ask);
    }
    if Answers(d, ask) {
      AnswersName(d, ask);
    }
  }

  lemma AnswersName(k: Kit, ask: Require)
    requires Answers(k, ask)
    ensures OffersName(k, ask.name)
  {
    var p :| Offers(k, p) && Satisfies(p, ask);
  }

  /** The kits that answer `u`'s relations, one search each. */
  method FindNeeds(kits: seq<Kit>, index: Index, u: Kit) returns (found: seq<Kit>)
    requires Indexes(index, kits) && OneOwner(Members(kits))
    ensures forall d :: d in found <==> d in kits && Needs(u, d)
  {
    found := [];
    var entries := u.asks + u.integrates;
    for j := 0 to |entries|
      invariant forall d :: d in found <==> d in kits && exists i :: 0 <= i < j && d.reference != u.reference && Answers(d, entries[i].ask)
    {
      var ask := entries[j].ask;
      var p := FirstAnswer(Listing(index, ask.name), ask, u.reference);
      FirstAnswerDecides(kits, ask, u.reference);
      forall d | d in kits ensures p == Some(d) <==> d.reference != u.reference && Answers(d, ask) {
        OnlyAnswer(kits, ask, u.reference, d);
      }
      if p.Some? {
        found := found + [p.value];
      }
    }
    forall d ensures d in found <==> d in kits && Needs(u, d) {
      if Needs(u, d) {
        var r :| (r in u.asks || r in u.integrates) && Answers(d, r.ask);
        assert r in entries;
      }
      assert forall i :: 0 <= i < |entries| ==> entries[i] in u.asks || entries[i] in u.integrates;
    }
  }

  method Order(kits: seq<Kit>, index: Index) returns (ordered: Option<seq<Kit>>)
    requires DistinctReferences(kits) && Indexes(index, kits) && OneOwner(Members(kits))
    ensures ordered.None? <==> Cyclic(DependencyGraph(Members(kits)))
    ensures ordered.Some? ==> LeastTopological(DependencyGraph(Members(kits)), ByReference, ordered.value)
  {
    ghost var g := DependencyGraph(Members(kits));
    var found: seq<seq<Kit>> := [];
    for i := 0 to |kits|
      invariant |found| == i && forall j :: 0 <= j < i ==> NeedsListed(g, kits[j], found[j])
    {
      var needs := FindNeeds(kits, index, kits[i]);
      found := found + [needs];
    }
    DistinctMembers(kits);
    ByReferenceTotal(Members(kits));
    ordered := TopologicalSort(g, ByReference, kits, found);
  }

  // Resolution

  datatype Resolution =
    | Empty
    | Incoherent(problems: nat)
    | Circular
    | Resolved(workload: Option<Kit>, mixins: seq<Kit>, topological: seq<Kit>)

  function Except(s: seq<Kit>, k: Option<Kit>): seq<Kit> {
    if s == [] then []
    else Except(s[..|s| - 1], k) + (if k == Some(s[|s| - 1]) then [] else [s[|s| - 1]])
  }

  /** The resolution is right for the set. */
  ghost predicate Resolves(kits: set<Kit>, partial: bool, r: Resolution) {
    match r
    case Empty => kits == {}
    case Incoherent(_) => kits != {} && !Coherent(kits, partial)
    case Circular => kits != {} && Coherent(kits, partial) && Cyclic(DependencyGraph(kits))
    case Resolved(workload, mixins, topological) =>
      && kits != {} && Coherent(kits, partial) && LeastTopological(DependencyGraph(kits), ByReference, topological)
      && (forall k :: k in kits && k.role.Workload? <==> workload == Some(k))
      && mixins == Except(topological, workload)
  }

  method Dependencies(kits: seq<Kit>, partial: bool) returns (r: Resolution)
    requires DistinctReferences(kits)
    ensures Resolves(Members(kits), partial, r)
  {
    if kits == [] {
      return Empty;
    }
    assert kits[0] in Members(kits);
    var workload, problems := CheckOneWorkload(kits, partial);
    var index := IndexOffers(kits);
    var more := CheckOneProviderPerName(kits, index);
    problems := problems + more;
    more := CheckRequires(kits, index);
    problems := problems + more;
    more := CheckIntegrates(kits, index);
    problems := problems + more;
    more := CheckConflicts(kits, index);
    problems := problems + more;
    if problems > 0 {
      return Incoherent(problems);
    }
    var ordered := Order(kits, index);
    if ordered.None? {
      return Circular;
    }
    var mixins := [];
    for i := 0 to |ordered.value|
      invariant mixins == Except(ordered.value[..i], workload)
    {
      assert ordered.value[..i + 1][..i] == ordered.value[..i];
      if workload != Some(ordered.value[i]) {
        mixins := mixins + [ordered.value[i]];
      }
    }
    assert ordered.value[..|ordered.value|] == ordered.value;
    r := Resolved(workload, mixins, ordered.value);
  }

  /** The resolution is a function of the set: the order its kits are listed in changes nothing but the count of problems. */
  lemma ResolutionIsOfTheSet(kits: set<Kit>, partial: bool, a: Resolution, b: Resolution)
    requires Distinct(kits) && Resolves(kits, partial, a) && Resolves(kits, partial, b)
    ensures a == b || (a.Incoherent? && b.Incoherent?)
  {
    var g := DependencyGraph(kits);
    if a.Resolved? {
      CyclicHasNoOrder(g, a.topological);
    }
    if b.Resolved? {
      CyclicHasNoOrder(g, b.topological);
    }
    if a.Resolved? && b.Resolved? {
      ByReferenceTotal(kits);
      LeastIsUnique(g, ByReference, a.topological, b.topological);
      if a.workload.Some? {
        assert a.workload.value in kits;
      }
    }
  }
}

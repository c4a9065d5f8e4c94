/** Kits, what they offer and ask of each other, and the index of who offers what. */
module Kits {
  import opened Trees
  import opened Constraints

  /** A relation as written, and what it parses to. */
  datatype Relation = Relation(text: string, ask: Require)

  /** A capability name a kit will not compose with, as written and normalized. */
  datatype Exclusion = Exclusion(text: string, name: string)

  datatype Role = Workload | Mixin | Unmerged

  /** `version` is the one the kit's bare offers take: its reference's if that has one, or else its descriptor's. */
  datatype Kit = Kit(reference: string, role: Role, version: string, offers: seq<Provide>,
    asks: seq<Relation>, integrates: seq<Relation>, conflicts: seq<Exclusion>)

  datatype Owned = Owned(owner: Kit, offer: Provide)

  /** An offer with its version filled in. */
  function Materialize(p: Provide, version: string): Provide {
    if p.version == "" && version != "" then Provide(p.name, version) else p
  }

  ghost predicate DistinctReferences(kits: seq<Kit>) {
    forall i, j :: 0 <= i < j < |kits| ==> kits[i].reference != kits[j].reference
  }

  ghost predicate Distinct(kits: set<Kit>) {
    forall a, b :: a in kits && b in kits && a.reference == b.reference ==> a == b
  }

  ghost function Members(kits: seq<Kit>): set<Kit> {
    set k | k in kits
  }

  lemma DistinctMembers(kits: seq<Kit>)
    requires DistinctReferences(kits)
    ensures Distinct(Members(kits))
  {
    forall a, b | a in kits && b in kits && a.reference == b.reference ensures a == b {
      var i :| 0 <= i < |kits| && kits[i] == a;
      var j :| 0 <= j < |kits| && kits[j] == b;
      assert i == j;
    }
  }

  // What the kits offer, as relations on the set of them

  ghost predicate Offers(k: Kit, p: Provide) {
    exists q :: q in k.offers && p == Materialize(q, k.version)
  }

  ghost predicate OffersName(k: Kit, name: string) {
    exists p :: Offers(k, p) && p.name == name
  }

  ghost predicate Answers(k: Kit, ask: Require) {
    exists p :: Offers(k, p) && Satisfies(p, ask)
  }

  /** Some kit of the set but `self` satisfies the ask: a kit never answers itself. */
  ghost predicate AnsweredByOther(kits: set<Kit>, ask: Require, self: string) {
    exists k :: k in kits && k.reference != self && Answers(k, ask)
  }

  ghost predicate OfferedByOther(kits: set<Kit>, name: string, self: string) {
    exists k :: k in kits && k.reference != self && OffersName(k, name)
  }

  /** No capability name has two owners. */
  ghost predicate OneOwner(kits: set<Kit>) {
    forall a, b, name :: a in kits && b in kits && OffersName(a, name) && OffersName(b, name) ==> a == b
  }

  // The index

  function OffersUnder(k: Kit, n: nat, name: string): seq<Owned>
    requires n <= |k.offers|
  {
    if n == 0 then []
    else
      var p := Materialize(k.offers[n - 1], k.version);
      OffersUnder(k, n - 1, name) + (if p.name == name then [Owned(k, p)] else [])
  }

  function AllUnder(kits: seq<Kit>, name: string): seq<Owned> {
    if kits == [] then []
    else
      var k := kits[|kits| - 1];
      AllUnder(kits[..|kits| - 1], name) + OffersUnder(k, |k.offers|, name)
  }

  type Index = map<string, seq<Owned>>

  function Listing(index: Index, name: string): seq<Owned> {
    if name in index then index[name] else []
  }

  ghost predicate Indexes(index: Index, kits: seq<Kit>) {
    forall name :: Listing(index, name) == AllUnder(kits, name)
  }

  lemma {:induction false} InOffersUnder(k: Kit, n: nat, name: string, o: Owned)
    requires n <= |k.offers|
    ensures o in OffersUnder(k, n, name) <==>
      o.owner == k && o.offer.name == name && exists i :: 0 <= i < n && o.offer == Materialize(k.offers[i], k.version)
  {
    if n > 0 {
      InOffersUnder(k, n - 1, name, o);
      var last := Owned(k, Materialize(k.offers[n - 1], k.version));
      assert o in OffersUnder(k, n, name) <==> o in OffersUnder(k, n - 1, name) || (o == last && o.offer.name == name);
    }
  }

  /** The index holds every offer, under its name, with its owner. */
  lemma {:induction false} InAllUnder(kits: seq<Kit>, name: string, o: Owned)
    ensures o in AllUnder(kits, name) <==> o.owner in kits && o.offer.name == name && Offers(o.owner, o.offer)
  {
    if kits != [] {
      var n, k := |kits| - 1, kits[|kits| - 1];
      InAllUnder(kits[..n], name, o);
      InOffersUnder(k, |k.offers|, name, o);
      assert kits == kits[..n] + [k];
      assert Offers(k, o.offer) <==> exists i :: 0 <= i < |k.offers| && o.offer == Materialize(k.offers[i], k.version);
    }
  }

  /** The index with the first `n` offers of `k` added after what it held. */
  ghost predicate Adds(before: Index, after: Index, k: Kit, n: nat)
    requires n <= |k.offers|
  {
    forall name :: Listing(after, name) == Listing(before, name) + OffersUnder(k, n, name)
  }

  lemma AddsOneMore(before: Index, was: Index, k: Kit, j: nat, p: Provide, name: string)
    requires j < |k.offers| && Adds(before, was, k, j) && p == Materialize(k.offers[j], k.version)
    ensures Listing(was[p.name := Listing(was, p.name) + [Owned(k, p)]], name) == Listing(before, name) + OffersUnder(k, j + 1, name)
  {
    assert Listing(was, name) == Listing(before, name) + OffersUnder(k, j, name);
    var x := [Owned(k, p)];
    assert (Listing(before, name) + OffersUnder(k, j, name)) + x == Listing(before, name) + (OffersUnder(k, j, name) + x);
  }

  method IndexKit(k: Kit, before: Index) returns (index: Index)
    ensures Adds(before, index, k, |k.offers|)
  {
    index := before;
    for j := 0 to |k.offers|
      invariant Adds(before, index, k, j)
    {
      var p := Materialize(k.offers[j], k.version);
      forall name { AddsOneMore(before, index, k, j, p, name); }
      index := index[p.name := Listing(index, p.name) + [Owned(k, p)]];
    }
  }

  method IndexOffers(kits: seq<Kit>) returns (index: Index)
    ensures Indexes(index, kits)
  {
    index := map[];
    for i := 0 to |kits|
      invariant Indexes(index, kits[..i])
    {
      assert kits[..i + 1][..i] == kits[..i];
      index := IndexKit(kits[i], index);
    }
    assert kits[..|kits|] == kits;
  }

  /** The first other kit whose offer satisfies the ask. */
  function FirstAnswer(found: seq<Owned>, ask: Require, self: string): Option<Kit> {
    if found == [] then None
    else if found[0].owner.reference != self && Satisfies(found[0].offer, ask) then Some(found[0].owner)
    else FirstAnswer(found[1..], ask, self)
  }

  lemma {:induction false} FirstAnswerFound(found: seq<Owned>, ask: Require, self: string)
    ensures match FirstAnswer(found, ask, self)
            case None => forall o :: o in found ==> o.owner.reference == self || !Satisfies(o.offer, ask)
            case Some(k) => k.reference != self && exists o :: o in found && o.owner == k && Satisfies(o.offer, ask)
    decreases |found|
  {
    if found != [] {
      FirstAnswerFound(found[1..], ask, self);
      assert found == [found[0]] + found[1..];
    }
  }

  /** What the search through the index means for the set. */
  lemma FirstAnswerDecides(kits: seq<Kit>, ask: Require, self: string)
    ensures match FirstAnswer(AllUnder(kits, ask.name), ask, self)
            case None => !AnsweredByOther(Members(kits), ask, self)
            case Some(k) => k in kits && k.reference != self && Answers(k, ask)
  {
    var found := AllUnder(kits, ask.name);
    FirstAnswerFound(found, ask, self);
    match FirstAnswer(found, ask, self)
    case Some(k) =>
      var o :| o in found && o.owner == k && Satisfies(o.offer, ask);
      InAllUnder(kits, ask.name, o);
    case None =>
      forall k, p | k in kits && k.reference != self && Offers(k, p) ensures !Satisfies(p, ask) {
        if p.name == ask.name {
          InAllUnder(kits, ask.name, Owned(k, p));
        }
      }
  }

  /** Whether another kit is listed under the name. */
  lemma OtherListed(kits: seq<Kit>, name: string, self: string)
    ensures OfferedByOther(Members(kits), name, self) <==> exists o :: o in AllUnder(kits, name) && o.owner.reference != self
  {
    if OfferedByOther(Members(kits), name, self) {
      var k :| k in Members(kits) && k.reference != self && OffersName(k, name);
      var p :| Offers(k, p) && p.name == name;
      InAllUnder(kits, name, Owned(k, p));
      assert Owned(k, p) in AllUnder(kits, name);
    }
    forall o | o in AllUnder(kits, name) && o.owner.reference != self ensures OfferedByOther(Members(kits), name, self) {
      InAllUnder(kits, name, o);
    }
  }
}

/** The order a set's own declarations and its kits are merged in. */
module Contributions {
  import opened Trees
  import opened Graphs
  import opened Constraints
  import opened Kits
  import opened Resolving

  function UpTo(n: nat): (s: seq<nat>)
    ensures |s| == n && forall i :: 0 <= i < n ==> s[i] == i
  {
    seq(n, i => i)
  }

  lemma InUpTo(n: nat)
    ensures forall i: nat :: i in UpTo(n) <==> i < n
  {
    forall i: nat | i < n ensures i in UpTo(n) {
      assert UpTo(n)[i] == i;
    }
  }

  ghost function IndexGraph(all: seq<Kit>): (g: Graph<nat>)
    ensures g.Valid() && forall i: nat :: i in g.nodes <==> i < |all|
  {
    InUpTo(|all|);
    var nodes := set i | i in UpTo(|all|);
    Graph(nodes, map i | i in nodes :: set j | j in nodes && Needs(all[i], all[j]))
  }

  predicate ByIndex(i: nat, j: nat) {
    i < j
  }

  /** Where each contribution stands, by its reference. */
  ghost predicate Places(index: map<string, nat>, all: seq<Kit>) {
    forall i :: 0 <= i < |all| ==> all[i].reference in index && index[all[i].reference] == i
  }

  method IndexReferences(all: seq<Kit>) returns (index: map<string, nat>)
    requires DistinctReferences(all)
    ensures Places(index, all)
  {
    index := map[];
    for i := 0 to |all|
      invariant forall j :: 0 <= j < i ==> all[j].reference in index && index[all[j].reference] == j
    {
      index := index[all[i].reference := i];
    }
  }

  /** The contributions other than its own that one entry is answered by. */
  method FindOwners(all: seq<Kit>, index: map<string, nat>, owned: seq<Owned>, ask: Require, c: Kit) returns (found: seq<nat>)
    requires DistinctReferences(all) && Places(index, all) && owned == AllUnder(all, ask.name)
    ensures forall j: nat :: j in found <==> j < |all| && all[j].reference != c.reference && Answers(all[j], ask)
  {
    found := [];
    for n := 0 to |owned|
      invariant forall j: nat :: j in found <==>
        j < |all| && all[j].reference != c.reference && exists m :: 0 <= m < n && owned[m].owner == all[j] && Satisfies(owned[m].offer, ask)
    {
      var o := owned[n];
      assert o in owned;
      InAllUnder(all, ask.name, o);
      ghost var at :| 0 <= at < |all| && all[at] == o.owner;
      if o.owner.reference != c.reference && Satisfies(o.offer, ask) {
        found := found + [index[o.owner.reference]];
      }
    }
    forall j: nat | j < |all| && all[j].reference != c.reference
      ensures Answers(all[j], ask) <==> exists m :: 0 <= m < |owned| && owned[m].owner == all[j] && Satisfies(owned[m].offer, ask)
    {
      OwnerListed(all, owned, ask, j);
    }
  }

  lemma OwnerListed(all: seq<Kit>, owned: seq<Owned>, ask: Require, j: nat)
    requires j < |all| && owned == AllUnder(all, ask.name)
    ensures Answers(all[j], ask) <==> exists m :: 0 <= m < |owned| && owned[m].owner == all[j] && Satisfies(owned[m].offer, ask)
  {
    if Answers(all[j], ask) {
      var p :| Offers(all[j], p) && Satisfies(p, ask);
      InAllUnder(all, ask.name, Owned(all[j], p));
      var m :| 0 <= m < |owned| && owned[m] == Owned(all[j], p);
    }
    forall m | 0 <= m < |owned| && owned[m].owner == all[j] && Satisfies(owned[m].offer, ask) ensures Answers(all[j], ask) {
      assert owned[m] in owned;
      InAllUnder(all, ask.name, owned[m]);
    }
  }

  method FindEdges(all: seq<Kit>, index: map<string, nat>, owned: Index, c: Kit) returns (found: seq<nat>)
    requires DistinctReferences(all) && Places(index, all) && Indexes(owned, all)
    ensures forall j: nat :: j in found <==> j < |all| && Needs(c, all[j])
  {
    found := [];
    var entries := c.asks + c.integrates;
    for n := 0 to |entries|
      invariant forall j: nat :: j in found <==>
        j < |all| && exists m :: 0 <= m < n && all[j].reference != c.reference && Answers(all[j], entries[m].ask)
    {
      var ask := entries[n].ask;
      var more := FindOwners(all, index, Listing(owned, ask.name), ask, c);
      found := found + more;
    }
    forall j: nat | j < |all|
      ensures Needs(c, all[j]) <==> exists m :: 0 <= m < |entries| && all[j].reference != c.reference && Answers(all[j], entries[m].ask)
    {
      NeededByEntry(c, all[j]);
    }
  }

  lemma NeededByEntry(c: Kit, d: Kit)
    ensures var entries := c.asks + c.integrates;
            Needs(c, d) <==> exists m :: 0 <= m < |entries| && d.reference != c.reference && Answers(d, entries[m].ask)
  {
    var entries := c.asks + c.integrates;
    if Needs(c, d) {
      var r :| (r in c.asks || r in c.integrates) && Answers(d, r.ask);
      assert r in entries;
    }
    assert forall m :: 0 <= m < |entries| ==> entries[m] in c.asks || entries[m] in c.integrates;
  }

  function Picked(all: seq<Kit>, order: seq<nat>): seq<Kit>
    requires forall i :: i in order ==> i < |all|
  {
    seq(|order|, k requires 0 <= k < |order| => assert order[k] in order; all[order[k]])
  }

  /** Nothing here needs what comes after it. */
  ghost predicate InOrder(all: seq<Kit>) {
    forall i, j :: 0 <= i < |all| && 0 <= j < |all| && Needs(all[i], all[j]) ==> j < i
  }

  /** Contributions that arrive in order already have it as their least one. */
  lemma AlreadyOrdered(all: seq<Kit>)
    requires InOrder(all)
    ensures LeastTopological(IndexGraph(all), ByIndex, UpTo(|all|))
  {
    var g, out := IndexGraph(all), UpTo(|all|);
    forall k | 0 <= k < |out| ensures TakenLeast(g, ByIndex, out, k) {
      assert forall d :: d in g.needs[out[k]] ==> d < k && out[..k][d] == d;
      forall v: nat | Ready(g, out[..k], v) ensures v == k || k < v {
        assert forall w: nat :: w < k ==> out[..k][w] == w;
      }
    }
    GreedyNoRepeats(g, ByIndex, out);
    CountNoRepeats(out, g.nodes);
    forall u | u in g.nodes ensures u in out {
      assert out[u] == u;
    }
    GreedyIsLeast(g, ByIndex, out);
  }

  lemma IndexesDescribed(all: seq<Kit>, found: seq<seq<nat>>)
    requires |found| == |all| && forall j :: 0 <= j < |all| ==> NeedsListed(IndexGraph(all), j, found[j])
    ensures Describes(IndexGraph(all), UpTo(|all|), found) && StrictTotal(ByIndex, IndexGraph(all).nodes)
  {
    InUpTo(|all|);
  }

  /** The least order of the set and its kits; kits already in order, none needing the set, keep it with the set last. */
  method OrderContributions(own: Kit, kits: seq<Kit>) returns (out: Option<seq<Kit>>)
    requires DistinctReferences(kits + [own])
    ensures out.None? <==> Cyclic(IndexGraph(kits + [own]))
    ensures out.Some? ==> exists order ::
      && LeastTopological(IndexGraph(kits + [own]), ByIndex, order)
      && (forall i :: i in order ==> i < |kits| + 1) && out.value == Picked(kits + [own], order)
    ensures InOrder(kits + [own]) ==> out == Some(kits + [own])
  {
    var all := kits + [own];
    ghost var g := IndexGraph(all);
    var owned := IndexOffers(all);
    var index := IndexReferences(all);
    var found: seq<seq<nat>> := [];
    for i := 0 to |all|
      invariant |found| == i && forall j :: 0 <= j < i ==> NeedsListed(g, j, found[j])
    {
      var edges := FindEdges(all, index, owned, all[i]);
      found := found + [edges];
    }
    IndexesDescribed(all, found);
    var order := TopologicalSort(g, ByIndex, UpTo(|all|), found);
    if InOrder(all) {
      AlreadyOrdered(all);
      CyclicHasNoOrder(g, UpTo(|all|));
      LeastIsUnique(g, ByIndex, order.value, UpTo(|all|));
      assert Picked(all, UpTo(|all|)) == all;
    }
    if order.None? {
      return None;
    }
    out := Some(Picked(all, order.value));
  }
}

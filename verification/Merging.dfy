/** Folding a set of kits into one: what the merged kit offers and asks. */
module Merging {
  import opened Trees
  import opened Constraints
  import opened Kits

  /** The first occurrence of each element. */
  function Dedup<T(==)>(s: seq<T>): seq<T> {
    if s == [] then []
    else
      var last := s[|s| - 1];
      Dedup(s[..|s| - 1]) + (if last in s[..|s| - 1] then [] else [last])
  }

  lemma {:induction false} InDedup<T>(s: seq<T>, x: T)
    ensures x in Dedup(s) <==> x in s
    decreases |s|
  {
    if s != [] {
      InDedup(s[..|s| - 1], x);
      assert s == s[..|s| - 1] + [s[|s| - 1]];
    }
  }

  /** The last of an appended sequence is the last of the sequence. */
  lemma Appended<T>(a: seq<T>, b: seq<T>)
    requires b != []
    ensures a + b != [] && (a + b)[|a + b| - 1] == b[|b| - 1]
    ensures (a + b)[..|a + b| - 1] == a + b[..|b| - 1]
  {
  }

  lemma Associates<T>(a: seq<T>, b: seq<T>, c: seq<T>)
    ensures (a + b) + c == a + (b + c)
  {
  }

  lemma DedupOneMore<T>(s: seq<T>, x: T)
    ensures Dedup(s + [x]) == Dedup(s) + (if x in s then [] else [x])
  {
    assert (s + [x])[..|s|] == s;
  }

  /** Removing repeats early changes nothing later. */
  lemma {:induction false} DedupFirst<T>(a: seq<T>, b: seq<T>)
    ensures Dedup(Dedup(a) + b) == Dedup(a + b)
    decreases |b|
  {
    if b == [] {
      assert a + b == a && Dedup(a) + b == Dedup(a);
      DedupTwice(a);
    } else {
      var rest, x := b[..|b| - 1], b[|b| - 1];
      DedupFirst(a, rest);
      assert a + b == (a + rest) + [x] && Dedup(a) + b == (Dedup(a) + rest) + [x];
      DedupOneMore(a + rest, x);
      DedupOneMore(Dedup(a) + rest, x);
      InDedup(a, x);
    }
  }

  lemma {:induction false} DedupTwice<T>(a: seq<T>)
    ensures Dedup(Dedup(a)) == Dedup(a)
    decreases |a|
  {
    if a != [] {
      var rest, x := a[..|a| - 1], a[|a| - 1];
      DedupTwice(rest);
      InDedup(rest, x);
      if x !in rest {
        DedupOneMore(Dedup(rest), x);
      } else {
        assert Dedup(a) == Dedup(rest);
      }
    }
  }

  /** What is mentioned later comes later. */
  lemma {:induction false} DedupGrows<T>(a: seq<T>, b: seq<T>)
    ensures Dedup(a) <= Dedup(a + b)
    decreases |b|
  {
    if b == [] {
      assert a + b == a;
    } else {
      DedupGrows(a, b[..|b| - 1]);
      assert a + b == (a + b[..|b| - 1]) + [b[|b| - 1]];
      DedupOneMore(a + b[..|b| - 1], b[|b| - 1]);
    }
  }

  lemma {:induction false} DedupOnce<T(!new)>(s: seq<T>)
    ensures forall i, j :: 0 <= i < j < |Dedup(s)| ==> Dedup(s)[i] != Dedup(s)[j]
    decreases |s|
  {
    if s != [] {
      var init := s[..|s| - 1];
      DedupOnce(init);
      forall x ensures x in Dedup(init) <==> x in init {
        InDedup(init, x);
      }
    }
  }

  // What a merge keeps

  datatype Relations = Requires | Integrations

  function Entries(k: Kit, of: Relations): seq<Relation> {
    if of.Requires? then k.asks else k.integrates
  }

  function OffersOf(k: Kit, n: nat): (s: seq<Provide>)
    requires n <= |k.offers|
  {
    if n == 0 then [] else OffersOf(k, n - 1) + [Materialize(k.offers[n - 1], k.version)]
  }

  function AllOffers(kits: seq<Kit>): seq<Provide> {
    if kits == [] then []
    else
      var k := kits[|kits| - 1];
      AllOffers(kits[..|kits| - 1]) + OffersOf(k, |k.offers|)
  }

  function AllConflicts(kits: seq<Kit>): seq<Exclusion> {
    if kits == [] then [] else AllConflicts(kits[..|kits| - 1]) + kits[|kits| - 1].conflicts
  }

  ghost function Kept(all: set<Kit>, self: string, r: Relation): seq<Relation> {
    if AnsweredByOther(all, r.ask, self) then [] else [r]
  }

  /** The entries of `self` that no other of the kits answers. */
  ghost function Unanswered(all: set<Kit>, self: string, entries: seq<Relation>): seq<Relation> {
    if entries == [] then []
    else Unanswered(all, self, entries[..|entries| - 1]) + Kept(all, self, entries[|entries| - 1])
  }

  ghost function AllUnanswered(all: set<Kit>, kits: seq<Kit>, of: Relations): seq<Relation> {
    if kits == [] then []
    else
      var k := kits[|kits| - 1];
      AllUnanswered(all, kits[..|kits| - 1], of) + Unanswered(all, k.reference, Entries(k, of))
  }

  /** One workload makes a workload, none a mixin; two, or a set not yet merged, make nothing. */
  ghost function DerivedRole(kits: seq<Kit>): Option<Role> {
    if exists i :: 0 <= i < |kits| && kits[i].role.Unmerged? then None
    else if exists i, j :: 0 <= i < j < |kits| && kits[i].role.Workload? && kits[j].role.Workload? then None
    else if exists i :: 0 <= i < |kits| && kits[i].role.Workload? then Some(Workload)
    else Some(Mixin)
  }

  /** `m` is the merge of the kits, whatever it is called and published as. */
  ghost predicate Merges(kits: seq<Kit>, m: Kit) {
    && DerivedRole(kits) == Some(m.role)
    && m.offers == Dedup(AllOffers(kits))
    && m.asks == Dedup(AllUnanswered(Members(kits), kits, Requires))
    && m.integrates == Dedup(AllUnanswered(Members(kits), kits, Integrations))
    && m.conflicts == Dedup(AllConflicts(kits))
  }

  // The order of what is kept

  lemma {:induction false} OffersInOrder(k: Kit, n: nat, i: nat)
    requires i < n <= |k.offers|
    ensures |OffersOf(k, n)| == n && OffersOf(k, n)[i].name == k.offers[i].name
    decreases n
  {
    if n == 1 {
      assert OffersOf(k, 0) == [];
    } else if i < n - 1 {
      OffersInOrder(k, n - 1, i);
    } else {
      OffersInOrder(k, n - 1, 0);
    }
  }

  lemma {:induction false} AllGrow(a: seq<Kit>, b: seq<Kit>)
    ensures AllOffers(a) <= AllOffers(a + b) && AllConflicts(a) <= AllConflicts(a + b)
    decreases |b|
  {
    if b == [] {
      assert a + b == a;
    } else {
      AllGrow(a, b[..|b| - 1]);
      Appended(a, b);
    }
  }

  lemma {:induction false} KeptGrows(all: set<Kit>, a: seq<Kit>, b: seq<Kit>, of: Relations)
    ensures AllUnanswered(all, a, of) <= AllUnanswered(all, a + b, of)
    decreases |b|
  {
    if b == [] {
      assert a + b == a;
    } else {
      KeptGrows(all, a, b[..|b| - 1], of);
      Appended(a, b);
    }
  }

  lemma PrefixDedup<T>(a: seq<T>, b: seq<T>)
    requires a <= b
    ensures Dedup(a) <= Dedup(b)
  {
    assert b == a + b[|a|..];
    DedupGrows(a, b[|a|..]);
  }

  /** More kits after the others leave what those offer, exclude and still ask for in front. */
  lemma MergeGrows(a: seq<Kit>, b: seq<Kit>, m: Kit, w: Kit)
    requires Merges(a, m) && Merges(a + b, w)
    ensures m.offers <= w.offers && m.conflicts <= w.conflicts
    ensures Dedup(AllUnanswered(Members(a + b), a, Requires)) <= w.asks
    ensures Dedup(AllUnanswered(Members(a + b), a, Integrations)) <= w.integrates
  {
    AllGrow(a, b);
    PrefixDedup(AllOffers(a), AllOffers(a + b));
    PrefixDedup(AllConflicts(a), AllConflicts(a + b));
    KeptGrows(Members(a + b), a, b, Requires);
    KeptGrows(Members(a + b), a, b, Integrations);
    PrefixDedup(AllUnanswered(Members(a + b), a, Requires), AllUnanswered(Members(a + b), a + b, Requires));
    PrefixDedup(AllUnanswered(Members(a + b), a, Integrations), AllUnanswered(Members(a + b), a + b, Integrations));
  }

  // The merge

  method DerivedKind(kits: seq<Kit>) returns (role: Option<Role>)
    ensures role == DerivedRole(kits)
  {
    var workload := false;
    for i := 0 to |kits|
      invariant workload <==> exists j :: 0 <= j < i && kits[j].role.Workload?
      invariant forall j :: 0 <= j < i ==> !kits[j].role.Unmerged?
      invariant forall j, l :: 0 <= j < l < i ==> !(kits[j].role.Workload? && kits[l].role.Workload?)
    {
      match kits[i].role {
        case Workload =>
          if workload {
            return None;
          }
          workload := true;
        case Unmerged => return None;
        case Mixin =>
      }
    }
    role := Some(if workload then Workload else Mixin);
  }

  ghost predicate Saw<T(!new)>(seen: set<T>, s: seq<T>) {
    forall x :: x in seen <==> x in s
  }

  lemma SawOneMore<T(!new)>(seen: set<T>, s: seq<T>, x: T)
    requires Saw(seen, s)
    ensures Saw(seen + {x}, s + [x]) && (x in seen ==> Saw(seen, s + [x]))
  {
  }

  lemma OneMore<T>(all: seq<T>, more: seq<T>, j: nat)
    requires j < |more|
    ensures all + more[..j + 1] == (all + more[..j]) + [more[j]]
  {
  }

  /** Appends what has not been seen. */
  method AppendNew<T(==, !new)>(out: seq<T>, seen: set<T>, more: seq<T>, ghost all: seq<T>) returns (out': seq<T>, seen': set<T>)
    requires out == Dedup(all) && Saw(seen, all)
    ensures out' == Dedup(all + more) && Saw(seen', all + more)
  {
    out', seen' := out, seen;
    ghost var done := all;
    for j := 0 to |more|
      invariant done == all + more[..j] && out' == Dedup(done) && Saw(seen', done)
    {
      var x := more[j];
      OneMore(all, more, j);
      DedupOneMore(done, x);
      SawOneMore(seen', done, x);
      if x !in seen' {
        seen' := seen' + {x};
        out' := out' + [x];
      }
      done := done + [x];
    }
    assert all + more[..|more|] == all + more;
  }

  method MaterializeOffers(k: Kit) returns (s: seq<Provide>)
    ensures s == OffersOf(k, |k.offers|)
  {
    s := [];
    for j := 0 to |k.offers|
      invariant s == OffersOf(k, j)
    {
      s := s + [Materialize(k.offers[j], k.version)];
    }
  }

  method KeepUnanswered(kits: seq<Kit>, index: Index, self: string, entries: seq<Relation>) returns (kept: seq<Relation>)
    requires Indexes(index, kits)
    ensures kept == Unanswered(Members(kits), self, entries)
  {
    kept := [];
    for j := 0 to |entries|
      invariant kept == Unanswered(Members(kits), self, entries[..j])
    {
      var ask := entries[j].ask;
      assert entries[..j + 1][..j] == entries[..j];
      FirstAnswerDecides(kits, ask, self);
      if FirstAnswer(Listing(index, ask.name), ask, self).None? {
        kept := kept + [entries[j]];
      }
    }
    assert entries[..|entries|] == entries;
  }

  method MergeOffers(kits: seq<Kit>) returns (offers: seq<Provide>)
    ensures offers == Dedup(AllOffers(kits))
  {
    offers := [];
    var emitted := {};
    for i := 0 to |kits|
      invariant offers == Dedup(AllOffers(kits[..i])) && Saw(emitted, AllOffers(kits[..i]))
    {
      assert kits[..i + 1][..i] == kits[..i];
      var more := MaterializeOffers(kits[i]);
      offers, emitted := AppendNew(offers, emitted, more, AllOffers(kits[..i]));
    }
    assert kits[..|kits|] == kits;
  }

  method MergeEntries(kits: seq<Kit>, index: Index, of: Relations) returns (entries: seq<Relation>)
    requires Indexes(index, kits)
    ensures entries == Dedup(AllUnanswered(Members(kits), kits, of))
  {
    entries := [];
    var seen := {};
    for i := 0 to |kits|
      invariant entries == Dedup(AllUnanswered(Members(kits), kits[..i], of))
      invariant Saw(seen, AllUnanswered(Members(kits), kits[..i], of))
    {
      assert kits[..i + 1][..i] == kits[..i];
      var more := KeepUnanswered(kits, index, kits[i].reference, Entries(kits[i], of));
      entries, seen := AppendNew(entries, seen, more, AllUnanswered(Members(kits), kits[..i], of));
    }
    assert kits[..|kits|] == kits;
  }

  method MergeConflicts(kits: seq<Kit>) returns (conflicts: seq<Exclusion>)
    ensures conflicts == Dedup(AllConflicts(kits))
  {
    conflicts := [];
    var seen := {};
    for i := 0 to |kits|
      invariant conflicts == Dedup(AllConflicts(kits[..i])) && Saw(seen, AllConflicts(kits[..i]))
    {
      assert kits[..i + 1][..i] == kits[..i];
      conflicts, seen := AppendNew(conflicts, seen, kits[i].conflicts, AllConflicts(kits[..i]));
    }
    assert kits[..|kits|] == kits;
  }

  /** The relations half of the merge. The merged descriptor states no version. */
  method Merge(kits: seq<Kit>, reference: string) returns (m: Option<Kit>)
    ensures m.None? <==> DerivedRole(kits).None?
    ensures m.Some? ==> Merges(kits, m.value) && m.value.reference == reference && m.value.version == ""
  {
    var role := DerivedKind(kits);
    if role.None? {
      return None;
    }
    var index := IndexOffers(kits);
    var offers := MergeOffers(kits);
    var asks := MergeEntries(kits, index, Requires);
    var integrates := MergeEntries(kits, index, Integrations);
    var conflicts := MergeConflicts(kits);
    m := Some(Kit(reference, role.value, "", offers, asks, integrates, conflicts));
  }
}

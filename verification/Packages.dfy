/** The provides entries that package listings agree on. */
module Packages {
  import opened Strings

  datatype Package = Package(name: string, version: string)

  /** How a namespace names packages, and which versions can be published: an empty one cannot. */
  datatype Reader = Reader(namespace: string, valid: string -> bool, publish: string -> string) {
    function Named(p: Package): string {
      namespace + "/" + p.name
    }

    predicate Records(p: Package, name: string) {
      Named(p) == name && valid(name)
    }

    /** Every record of the name in the listing has the version. */
    predicate Uniform(listing: seq<Package>, name: string, version: string) {
      forall i :: 0 <= i < |listing| && Records(listing[i], name) ==> publish(listing[i].version) == version
    }

    predicate Lists(listing: seq<Package>, name: string) {
      exists i :: 0 <= i < |listing| && Records(listing[i], name)
    }

    /** The artifact check: the package is recorded, and no record has another version. */
    predicate Accepts(listing: seq<Package>, name: string, version: string) {
      Lists(listing, name) && Uniform(listing, name, version)
    }

    function Count(listings: seq<seq<Package>>, name: string): (n: nat)
      ensures n <= |listings|
    {
      if listings == [] then 0
      else Count(listings[..|listings| - 1], name) + (if Lists(listings[|listings| - 1], name) then 1 else 0)
    }

    lemma {:induction false} CountAll(listings: seq<seq<Package>>, name: string)
      ensures Count(listings, name) == |listings| <==> forall i :: 0 <= i < |listings| ==> Lists(listings[i], name)
      ensures Count(listings, name) > 0 <==> exists i :: 0 <= i < |listings| && Lists(listings[i], name)
      decreases |listings|
    {
      if listings != [] {
        var rest, last := listings[..|listings| - 1], listings[|listings| - 1];
        CountAll(rest, name);
        if Count(rest, name) > 0 {
          var i :| 0 <= i < |rest| && Lists(rest[i], name);
          assert Lists(listings[i], name);
        }
      }
    }

    /** All the listings so far record the name at one version that can be published, the first among them. */
    predicate Agreed(listings: seq<seq<Package>>, name: string, version: string) {
      && version != "" && listings != [] && Lists(listings[0], name)
      && forall i :: 0 <= i < |listings| ==> Uniform(listings[i], name, version)
    }

    ghost predicate Tallied(listings: seq<seq<Package>>, versions: map<string, string>, counts: map<string, nat>) {
      forall name :: TalliedAt(listings, versions, counts, name)
    }

    /** A name's version is the one its records agree on, or empty once they do not, and its count the listings it is in. */
    ghost predicate TalliedAt(listings: seq<seq<Package>>, versions: map<string, string>, counts: map<string, nat>, name: string) {
      && (name in versions <==> Count(listings, name) > 0)
      && (name in counts <==> Count(listings, name) > 0)
      && (name in counts ==> counts[name] == Count(listings, name))
      && (forall v :: v != "" ==> (name in versions && versions[name] == v <==> Agreed(listings, name, v)))
    }
  }

  lemma OneListingMore(r: Reader, listings: seq<seq<Package>>, listing: seq<Package>, name: string)
    ensures r.Count(listings + [listing], name) == r.Count(listings, name) + (if r.Lists(listing, name) then 1 else 0)
  {
    assert (listings + [listing])[..|listings|] == listings;
  }

  /** What the next record does to what a name's records agree on. */
  lemma AgreedOneMore(r: Reader, listings: seq<seq<Package>>, seen: seq<Package>, p: Package, name: string, v: string)
    ensures var before, after := listings + [seen], listings + [seen + [p]];
      r.Agreed(after, name, v) <==>
        if !r.Records(p, name) then r.Agreed(before, name, v)
        else v != "" && r.publish(p.version) == v && (if r.Count(before, name) == 0 then listings == [] else r.Agreed(before, name, v))
  {
    var before, after := listings + [seen], listings + [seen + [p]];
    var last := seen + [p];
    r.CountAll(before, name);
    assert before[|listings|] == seen && after[|listings|] == last;
    assert forall i :: 0 <= i < |listings| ==> before[i] == listings[i] == after[i];
    assert last[|seen|] == p && forall i :: 0 <= i < |seen| ==> last[i] == seen[i];
    assert r.Lists(last, name) <==> r.Lists(seen, name) || r.Records(p, name) by {
      if r.Lists(seen, name) {
        var i :| 0 <= i < |seen| && r.Records(seen[i], name);
        assert r.Records(last[i], name);
      }
    }
    assert r.Uniform(last, name, v) <==> r.Uniform(seen, name, v) && (r.Records(p, name) ==> r.publish(p.version) == v) by {
      if r.Uniform(last, name, v) {
        forall i | 0 <= i < |seen| && r.Records(seen[i], name) ensures r.publish(seen[i].version) == v {
          assert r.Records(last[i], name);
        }
      }
    }
    forall i | 0 <= i < |before| && r.Count(before, name) == 0 ensures !r.Lists(before[i], name) && r.Uniform(before[i], name, v) {}
  }

  lemma ListsOneMore(r: Reader, seen: seq<Package>, p: Package, name: string)
    ensures r.Lists(seen + [p], name) <==> r.Lists(seen, name) || r.Records(p, name)
  {
    var last := seen + [p];
    assert last[|seen|] == p;
    if r.Lists(seen, name) {
      var i :| 0 <= i < |seen| && r.Records(seen[i], name);
      assert r.Records(last[i], name);
    }
  }

  /** What one record makes of a name's version: the empty version is a conflict no later record repairs. */
  function NextVersion(first: bool, versions: map<string, string>, name: string, version: string): string {
    if version == "" then ""
    else if name !in versions then (if first then version else "")
    else if versions[name] != version then ""
    else version
  }

  function NextCount(counts: map<string, nat>, name: string): nat {
    if name in counts then counts[name] + 1 else 1
  }

  /** Tallies one record. */
  method Tally(r: Reader, ghost listings: seq<seq<Package>>, ghost records: seq<Package>, first: bool, p: Package,
      versions: map<string, string>, counts: map<string, nat>, seen: set<string>)
    returns (versions': map<string, string>, counts': map<string, nat>, seen': set<string>)
    requires first <==> listings == []
    requires r.Tallied(listings + [records], versions, counts)
    requires forall name :: name in seen <==> r.Lists(records, name)
    ensures r.Tallied(listings + [records + [p]], versions', counts')
    ensures forall name :: name in seen' <==> r.Lists(records + [p], name)
  {
    versions', counts', seen' := versions, counts, seen;
    var name := r.Named(p);
    if r.valid(name) {
      var version := r.publish(p.version);
      if version == "" {
        versions' := versions[name := ""];
      } else if name !in versions {
        versions' := versions[name := if first then version else ""];
      } else if versions[name] != version {
        versions' := versions[name := ""];
      }
      if name !in seen {
        seen' := seen + {name};
        counts' := counts[name := if name in counts then counts[name] + 1 else 1];
      }
    }
    forall n ensures r.TalliedAt(listings + [records + [p]], versions', counts', n) && (n in seen' <==> r.Lists(records + [p], n)) {
      ListsOneMore(r, records, p, n);
      assert r.TalliedAt(listings + [records], versions, counts, n);
      TallyAt(r, listings, records, p, versions, counts, versions', counts', n);
    }
  }

  lemma TallyAt(r: Reader, listings: seq<seq<Package>>, records: seq<Package>, p: Package,
      versions: map<string, string>, counts: map<string, nat>, versions': map<string, string>, counts': map<string, nat>, name: string)
    requires r.TalliedAt(listings + [records], versions, counts, name)
    requires if r.Records(p, name)
             then name in versions' && versions'[name] == NextVersion(listings == [], versions, name, r.publish(p.version))
             else (name in versions' <==> name in versions) && (name in versions ==> versions'[name] == versions[name])
    requires if r.Records(p, name) && !r.Lists(records, name)
             then name in counts' && counts'[name] == NextCount(counts, name)
             else (name in counts' <==> name in counts) && (name in counts ==> counts'[name] == counts[name])
    ensures r.TalliedAt(listings + [records + [p]], versions', counts', name)
  {
    OneListingMore(r, listings, records, name);
    OneListingMore(r, listings, records + [p], name);
    ListsOneMore(r, records, p, name);
    forall v | v != ""
      ensures name in versions' && versions'[name] == v <==> r.Agreed(listings + [records + [p]], name, v)
    {
      AgreedOneMore(r, listings, records, p, name, v);
      assert name in versions && versions[name] == v <==> r.Agreed(listings + [records], name, v);
    }
  }

  /** The entries every listing accepts. */
  ghost predicate Emitted(r: Reader, listings: seq<seq<Package>>, entry: string) {
    exists name, version :: entry == name + "@" + version && version != "" && listings != []
      && forall i :: 0 <= i < |listings| ==> r.Accepts(listings[i], name, version)
  }

  /** Every listing records the package, and every record of it publishes that version, which is not empty. */
  ghost predicate Ships(r: Reader, listings: seq<seq<Package>>, package: string, version: string) {
    && version != "" && listings != [] && r.valid(r.namespace + "/" + package)
    && forall listing :: listing in listings ==>
        (exists p :: p in listing && p.name == package) && forall p :: p in listing && p.name == package ==> r.publish(p.version) == version
  }

  lemma SameNamed(r: Reader, a: string, b: string)
    ensures r.namespace + "/" + a == r.namespace + "/" + b <==> a == b
  {
    assert (r.namespace + "/" + a)[|r.namespace| + 1..] == a && (r.namespace + "/" + b)[|r.namespace| + 1..] == b;
  }

  lemma AcceptsPackage(r: Reader, listing: seq<Package>, package: string, version: string)
    ensures r.Accepts(listing, r.namespace + "/" + package, version) <==>
      && r.valid(r.namespace + "/" + package)
      && (exists p :: p in listing && p.name == package)
      && forall p :: p in listing && p.name == package ==> r.publish(p.version) == version
  {
    var name := r.namespace + "/" + package;
    forall p: Package ensures r.Records(p, name) <==> p.name == package && r.valid(name) {
      SameNamed(r, p.name, package);
    }
    if r.Accepts(listing, name, version) {
      var i :| 0 <= i < |listing| && r.Records(listing[i], name);
      assert listing[i] in listing && listing[i].name == package;
      forall p | p in listing && p.name == package ensures r.publish(p.version) == version {
        var j :| 0 <= j < |listing| && listing[j] == p;
        assert r.Records(listing[j], name);
      }
    }
    if p :| p in listing && p.name == package && r.valid(name) {
      var i :| 0 <= i < |listing| && listing[i] == p;
      assert r.Records(listing[i], name);
    }
  }

  /** An entry is the namespace, a slash, a package's name, an at sign and the version it ships at everywhere. */
  lemma EmittedInFields(r: Reader, listings: seq<seq<Package>>, entry: string)
    ensures Emitted(r, listings, entry) <==>
      exists package, version :: Ships(r, listings, package, version) && entry == r.namespace + "/" + package + "@" + version
  {
    if Emitted(r, listings, entry) {
      var name, version :| entry == name + "@" + version && version != "" && listings != []
        && forall i :: 0 <= i < |listings| ==> r.Accepts(listings[i], name, version);
      assert r.Accepts(listings[0], name, version);
      var j :| 0 <= j < |listings[0]| && r.Records(listings[0][j], name);
      var package := listings[0][j].name;
      ShipsIsAccepted(r, listings, package, version);
    }
    if package, version :| Ships(r, listings, package, version) && entry == r.namespace + "/" + package + "@" + version {
      ShipsIsAccepted(r, listings, package, version);
    }
  }

  lemma ShipsIsAccepted(r: Reader, listings: seq<seq<Package>>, package: string, version: string)
    requires listings != [] && version != ""
    ensures Ships(r, listings, package, version) <==>
      forall i :: 0 <= i < |listings| ==> r.Accepts(listings[i], r.namespace + "/" + package, version)
  {
    forall i | 0 <= i < |listings| ensures listings[i] in listings {
      AcceptsPackage(r, listings[i], package, version);
    }
    forall listing | listing in listings
      ensures r.Accepts(listing, r.namespace + "/" + package, version) <==>
        && r.valid(r.namespace + "/" + package)
        && (exists p :: p in listing && p.name == package)
        && forall p :: p in listing && p.name == package ==> r.publish(p.version) == version
    {
      AcceptsPackage(r, listing, package, version);
    }
    assert listings[0] in listings;
  }

  /** One entry for each package all the listings hold at one version, sorted. */
  method DerivedProvides(r: Reader, listings: seq<seq<Package>>) returns (out: seq<string>)
    ensures forall entry :: entry in out <==> Emitted(r, listings, entry)
    ensures Ascending(out)
  {
    var versions: map<string, string>, counts: map<string, nat> := map[], map[];
    if listings == [] {
      return [];
    }
    for i := 0 to |listings|
      invariant r.Tallied(listings[..i], versions, counts)
    {
      assert listings[..i + 1] == listings[..i] + [listings[i]];
      versions, counts := TallyListing(r, listings[..i], listings[i], versions, counts);
    }
    assert listings[..|listings|] == listings;
    out := Agreements(r, listings, versions, counts);
  }

  method TallyListing(r: Reader, listings: seq<seq<Package>>, listing: seq<Package>, versions: map<string, string>, counts: map<string, nat>)
    returns (versions': map<string, string>, counts': map<string, nat>)
    requires r.Tallied(listings, versions, counts)
    ensures r.Tallied(listings + [listing], versions', counts')
  {
    versions', counts' := versions, counts;
    var seen: set<string> := {};
    EmptyListing(r, listings, versions, counts);
    for j := 0 to |listing|
      invariant r.Tallied(listings + [listing[..j]], versions', counts')
      invariant forall name :: name in seen <==> r.Lists(listing[..j], name)
    {
      assert listing[..j + 1] == listing[..j] + [listing[j]];
      versions', counts', seen := Tally(r, listings, listing[..j], listings == [], listing[j], versions', counts', seen);
    }
    assert listing[..|listing|] == listing;
  }

  lemma EmptyListing(r: Reader, listings: seq<seq<Package>>, versions: map<string, string>, counts: map<string, nat>)
    requires r.Tallied(listings, versions, counts)
    ensures r.Tallied(listings + [[]], versions, counts)
  {
    var more := listings + [[]];
    assert more[|listings|] == [] && forall i :: 0 <= i < |listings| ==> more[i] == listings[i];
    forall name ensures r.TalliedAt(more, versions, counts, name) {
      OneListingMore(r, listings, [], name);
      assert !r.Lists([], name) && r.TalliedAt(listings, versions, counts, name);
      forall v ensures r.Agreed(more, name, v) <==> r.Agreed(listings, name, v) {
        assert r.Uniform([], name, v);
      }
    }
  }

  lemma AllAccept(r: Reader, listings: seq<seq<Package>>, name: string, version: string)
    requires listings != [] && version != ""
    ensures (forall i :: 0 <= i < |listings| ==> r.Accepts(listings[i], name, version)) <==>
      r.Agreed(listings, name, version) && r.Count(listings, name) == |listings|
  {
    r.CountAll(listings, name);
    if forall i :: 0 <= i < |listings| ==> r.Accepts(listings[i], name, version) {
      assert r.Accepts(listings[0], name, version);
    }
  }

  method Agreements(r: Reader, listings: seq<seq<Package>>, versions: map<string, string>, counts: map<string, nat>) returns (out: seq<string>)
    requires listings != [] && r.Tallied(listings, versions, counts)
    ensures forall entry :: entry in out <==> Emitted(r, listings, entry)
    ensures Ascending(out)
  {
    var entries: set<string> := {};
    var names := versions.Keys;
    while names != {}
      invariant names <= versions.Keys
      invariant forall entry :: entry in entries <==>
        exists name :: name in versions && name !in names && Unanimous(versions, counts, |listings|, name) && entry == name + "@" + versions[name]
      decreases names
    {
      var name :| name in names;
      names := names - {name};
      if name in counts && versions[name] != "" && counts[name] == |listings| {
        entries := entries + {name + "@" + versions[name]};
      }
    }
    out := SortNames(entries);
    forall entry ensures entry in out <==> Emitted(r, listings, entry) {
      EmittedIsUnanimous(r, listings, versions, counts, entry);
    }
  }

  predicate Unanimous(versions: map<string, string>, counts: map<string, nat>, n: nat, name: string) {
    name in versions && name in counts && versions[name] != "" && counts[name] == n
  }

  lemma EmittedIsUnanimous(r: Reader, listings: seq<seq<Package>>, versions: map<string, string>, counts: map<string, nat>, entry: string)
    requires listings != [] && r.Tallied(listings, versions, counts)
    ensures Emitted(r, listings, entry) <==>
      exists name :: Unanimous(versions, counts, |listings|, name) && entry == name + "@" + versions[name]
  {
    if Emitted(r, listings, entry) {
      var name, version :| entry == name + "@" + version && version != ""
        && forall i :: 0 <= i < |listings| ==> r.Accepts(listings[i], name, version);
      assert r.TalliedAt(listings, versions, counts, name);
      AllAccept(r, listings, name, version);
      assert Unanimous(versions, counts, |listings|, name);
    }
    if name :| Unanimous(versions, counts, |listings|, name) && entry == name + "@" + versions[name] {
      assert r.TalliedAt(listings, versions, counts, name);
      AllAccept(r, listings, name, versions[name]);
    }
  }
}

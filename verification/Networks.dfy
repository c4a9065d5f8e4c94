/** Network policies: what an entry admits, and the one policy several make. */
module Networks {
  import opened Trees
  import opened Patterns

  datatype NetworkEntry = NetworkEntry(hosts: seq<string>, methods: seq<string>, paths: seq<string>) {
    predicate Bounded() {
      methods != [] || paths != []
    }
  }

  datatype Rules = Rules(allow: seq<NetworkEntry>, deny: seq<NetworkEntry>)

  datatype Policy = Policy(install: Option<Rules>, runtime: Option<Rules>)

  /** The first version of the policy: bare hosts. */
  datatype HostRules = HostRules(allow: seq<string>, deny: seq<string>)

  datatype HostPolicy = HostPolicy(install: Option<HostRules>, runtime: Option<HostRules>)

  /** One kit's request, in either version, if it states a policy at all. */
  datatype Ask = FirstAsk(hosts: Option<HostPolicy>) | SecondAsk(policy: Option<Policy>)

  const ANY := "ANY"

  function EntryMethods(e: NetworkEntry): seq<string> {
    if e.methods == [] then [ANY] else e.methods
  }

  function EntryPaths(e: NetworkEntry): seq<string> {
    if e.paths == [] then ["/**"] else e.paths
  }

  // What entries admit

  /** A connection, or one HTTP request over it. */
  datatype Request =
    | Connect(name: string, port: string)
    | Http(verb: string, name: string, port: string, path: string)
  {
    predicate Valid() {
      Http? ==> path != "" && path[0] == '/'
    }
  }

  predicate MethodMatches(stated: string, verb: string) {
    stated == ANY || stated == verb
  }

  ghost predicate NamesHost(globs: Globs, e: NetworkEntry, name: string, port: string) {
    exists h :: h in e.hosts && HostMatches(globs, h, name, port)
  }

  predicate AdmitsMethod(e: NetworkEntry, verb: string) {
    exists m :: m in EntryMethods(e) && MethodMatches(m, verb)
  }

  ghost predicate AdmitsPath(globs: Globs, e: NetworkEntry, path: string) {
    exists p :: p in EntryPaths(e) && PathMatches(globs, p, path)
  }

  ghost predicate EntryAdmits(globs: Globs, e: NetworkEntry, r: Request) {
    && NamesHost(globs, e, r.name, r.port)
    && match r
       case Connect(_, _) => !e.Bounded()
       case Http(verb, _, _, path) => AdmitsMethod(e, verb) && AdmitsPath(globs, e, path)
  }

  ghost predicate Admits(globs: Globs, entries: seq<NetworkEntry>, r: Request) {
    exists e :: e in entries && EntryAdmits(globs, e, r)
  }

  /** The two lists admit the same requests, whatever the matcher. */
  ghost predicate SameGrants(a: seq<NetworkEntry>, b: seq<NetworkEntry>) {
    forall globs, r: Request :: r.Valid() ==> (Admits(globs, a, r) <==> Admits(globs, b, r))
  }

  lemma AdmitsEither(globs: Globs, a: seq<NetworkEntry>, b: seq<NetworkEntry>, r: Request)
    ensures Admits(globs, a + b, r) <==> Admits(globs, a, r) || Admits(globs, b, r)
  {
    if Admits(globs, a, r) {
      var e :| e in a && EntryAdmits(globs, e, r);
      assert e in a + b;
    }
    if Admits(globs, b, r) {
      var e :| e in b && EntryAdmits(globs, e, r);
      assert e in a + b;
    }
  }

  /** An unbounded entry admits every request to its hosts. */
  lemma UnboundedAdmits(globs: Globs, e: NetworkEntry, r: Request)
    requires r.Valid() && !e.Bounded()
    ensures EntryAdmits(globs, e, r) <==> NamesHost(globs, e, r.name, r.port)
  {
    if r.Http? {
      assert EntryMethods(e)[0] == ANY && MethodMatches(ANY, r.verb);
      EveryPath(globs, EntryPaths(e)[0], r.path);
    }
  }

  // Lifting the first version

  function HostEntries(hosts: seq<string>): seq<NetworkEntry> {
    if hosts == [] then [] else HostEntries(hosts[..|hosts| - 1]) + [NetworkEntry([hosts[|hosts| - 1]], [], [])]
  }

  function LiftRules(r: Option<HostRules>): Option<Rules> {
    match r
    case None => None
    case Some(rules) => Some(Rules(HostEntries(rules.allow), HostEntries(rules.deny)))
  }

  function Lift(p: HostPolicy): Policy {
    Policy(LiftRules(p.install), LiftRules(p.runtime))
  }

  /** What a request asks for, as enforcement reads either version. */
  function PolicyOf(a: Ask): Policy {
    match a
    case FirstAsk(None) | SecondAsk(None) => Policy(None, None)
    case FirstAsk(Some(hosts)) => Lift(hosts)
    case SecondAsk(Some(policy)) => policy
  }

  lemma {:induction false} HostEntriesAre(hosts: seq<string>, e: NetworkEntry)
    ensures e in HostEntries(hosts) <==> e.methods == [] && e.paths == [] && |e.hosts| == 1 && e.hosts[0] in hosts
    decreases |hosts|
  {
    if hosts != [] {
      HostEntriesAre(hosts[..|hosts| - 1], e);
      assert hosts == hosts[..|hosts| - 1] + [hosts[|hosts| - 1]];
      assert e.methods == [] && e.paths == [] && |e.hosts| == 1 ==> e == NetworkEntry([e.hosts[0]], [], []);
    }
  }

  // The union

  datatype Phase = Install | Runtime

  function RulesFor(p: Policy, phase: Phase): Rules {
    (if phase.Install? then p.install else p.runtime).GetOr(Rules([], []))
  }

  /** Some kit's policy admits the request in the phase, by the entries picked. */
  ghost predicate AnyAllows(globs: Globs, asks: seq<Ask>, phase: Phase, r: Request) {
    exists a :: a in asks && Admits(globs, RulesFor(PolicyOf(a), phase).allow, r)
  }

  ghost predicate AnyDenies(globs: Globs, asks: seq<Ask>, phase: Phase, r: Request) {
    exists a :: a in asks && Admits(globs, RulesFor(PolicyOf(a), phase).deny, r)
  }

  /** The policy allows what any of the asks allows, and denies what any of them denies: no more and no less. */
  ghost predicate Unites(asks: seq<Ask>, p: Policy) {
    forall globs, phase, r: Request :: r.Valid() ==>
      && (Admits(globs, RulesFor(p, phase).allow, r) <==> AnyAllows(globs, asks, phase, r))
      && (Admits(globs, RulesFor(p, phase).deny, r) <==> AnyDenies(globs, asks, phase, r))
  }

  function AppendRules(into: Option<Rules>, from: Option<Rules>): Option<Rules> {
    match from
    case None => into
    case Some(more) =>
      var had := into.GetOr(Rules([], []));
      Some(Rules(had.allow + more.allow, had.deny + more.deny))
  }

  method Concatenate(asks: seq<Ask>) returns (merged: Policy)
    ensures Unites(asks, merged)
    ensures forall e, phase :: e in RulesFor(merged, phase).allow || e in RulesFor(merged, phase).deny ==>
      exists a :: a in asks && (e in RulesFor(PolicyOf(a), phase).allow || e in RulesFor(PolicyOf(a), phase).deny)
  {
    merged := Policy(None, None);
    for i := 0 to |asks|
      invariant Unites(asks[..i], merged)
      invariant forall e, phase :: e in RulesFor(merged, phase).allow || e in RulesFor(merged, phase).deny ==>
        exists a :: a in asks[..i] && (e in RulesFor(PolicyOf(a), phase).allow || e in RulesFor(PolicyOf(a), phase).deny)
    {
      var policy := PolicyOf(asks[i]);
      ghost var was := merged;
      merged := Policy(AppendRules(merged.install, policy.install), AppendRules(merged.runtime, policy.runtime));
      assert asks[..i + 1] == asks[..i] + [asks[i]];
      UnitesOneMore(asks[..i], was, asks[i], merged);
    }
    assert asks[..|asks|] == asks;
  }

  lemma UnitesOneMore(asks: seq<Ask>, p: Policy, a: Ask, p': Policy)
    requires Unites(asks, p)
    requires forall phase :: RulesFor(p', phase).allow == RulesFor(p, phase).allow + RulesFor(PolicyOf(a), phase).allow
    requires forall phase :: RulesFor(p', phase).deny == RulesFor(p, phase).deny + RulesFor(PolicyOf(a), phase).deny
    ensures Unites(asks + [a], p')
  {
    forall globs, phase, r: Request | r.Valid()
      ensures Admits(globs, RulesFor(p', phase).allow, r) <==> AnyAllows(globs, asks + [a], phase, r)
      ensures Admits(globs, RulesFor(p', phase).deny, r) <==> AnyDenies(globs, asks + [a], phase, r)
    {
      AdmitsEither(globs, RulesFor(p, phase).allow, RulesFor(PolicyOf(a), phase).allow, r);
      AdmitsEither(globs, RulesFor(p, phase).deny, RulesFor(PolicyOf(a), phase).deny, r);
      AnyOneMore(globs, asks, a, phase, r);
    }
  }

  lemma AnyOneMore(globs: Globs, asks: seq<Ask>, a: Ask, phase: Phase, r: Request)
    ensures AnyAllows(globs, asks + [a], phase, r) <==> AnyAllows(globs, asks, phase, r) || Admits(globs, RulesFor(PolicyOf(a), phase).allow, r)
    ensures AnyDenies(globs, asks + [a], phase, r) <==> AnyDenies(globs, asks, phase, r) || Admits(globs, RulesFor(PolicyOf(a), phase).deny, r)
  {
    assert forall b :: b in asks + [a] <==> b in asks || b == a;
  }

  // Normalizing a phase

  /** Each entry once. */
  method DedupeEntries(entries: seq<NetworkEntry>) returns (out: seq<NetworkEntry>)
    ensures forall e :: e in out <==> e in entries
    ensures forall i, j :: 0 <= i < j < |out| ==> out[i] != out[j]
  {
    out := [];
    var seen: set<NetworkEntry> := {};
    for i := 0 to |entries|
      invariant forall e :: e in out <==> e in seen
      invariant forall e :: e in seen <==> e in entries[..i]
      invariant forall j, k :: 0 <= j < k < |out| ==> out[j] != out[k]
    {
      assert entries[..i + 1] == entries[..i] + [entries[i]];
      if entries[i] !in seen {
        seen := seen + {entries[i]};
        out := out + [entries[i]];
      }
    }
    assert entries[..|entries|] == entries;
  }

  ghost predicate NamedOutright(entries: seq<NetworkEntry>, host: string) {
    exists e :: e in entries && !e.Bounded() && host in e.hosts
  }

  method UnboundedHosts(entries: seq<NetworkEntry>) returns (hosts: set<string>)
    ensures forall h :: h in hosts <==> NamedOutright(entries, h)
  {
    hosts := {};
    for i := 0 to |entries|
      invariant forall h :: h in hosts <==> NamedOutright(entries[..i], h)
    {
      var e := entries[i];
      assert entries[..i + 1] == entries[..i] + [e];
      if !e.Bounded() {
        hosts := hosts + (set h | h in e.hosts);
      }
    }
    assert entries[..|entries|] == entries;
  }

  function Without(hosts: seq<string>, dropped: set<string>): (kept: seq<string>)
    ensures forall h :: h in kept <==> h in hosts && h !in dropped
  {
    if hosts == [] then []
    else
      var last := hosts[|hosts| - 1];
      assert hosts == hosts[..|hosts| - 1] + [last];
      Without(hosts[..|hosts| - 1], dropped) + (if last in dropped then [] else [last])
  }

  /** The entry left of `e` when the hosts granted outright are dropped from it, if it still names any. */
  function Trimmed(e: NetworkEntry, unbounded: set<string>): Option<NetworkEntry> {
    if !e.Bounded() then Some(e)
    else
      var hosts := Without(e.hosts, unbounded);
      if hosts == [] then None else Some(NetworkEntry(hosts, e.methods, e.paths))
  }

  method TrimEntries(entries: seq<NetworkEntry>, unbounded: set<string>) returns (kept: seq<NetworkEntry>)
    ensures forall k :: k in kept <==> exists e :: e in entries && Trimmed(e, unbounded) == Some(k)
  {
    kept := [];
    for i := 0 to |entries|
      invariant forall k :: k in kept <==> exists e :: e in entries[..i] && Trimmed(e, unbounded) == Some(k)
    {
      assert entries[..i + 1] == entries[..i] + [entries[i]];
      var trimmed := Trimmed(entries[i], unbounded);
      if trimmed.Some? {
        kept := kept + [trimmed.value];
      }
    }
    assert entries[..|entries|] == entries;
  }

  /** What an entry loses by trimming, another entry admits outright. */
  lemma TrimmedAdmits(globs: Globs, entries: seq<NetworkEntry>, unbounded: set<string>, e: NetworkEntry, r: Request)
    requires r.Valid() && e in entries && forall h :: h in unbounded <==> NamedOutright(entries, h)
    ensures EntryAdmits(globs, e, r) ==>
      || (Trimmed(e, unbounded).Some? && EntryAdmits(globs, Trimmed(e, unbounded).value, r))
      || exists u :: u in entries && !u.Bounded() && EntryAdmits(globs, u, r)
    ensures Trimmed(e, unbounded).Some? && EntryAdmits(globs, Trimmed(e, unbounded).value, r) ==> EntryAdmits(globs, e, r)
  {
    if EntryAdmits(globs, e, r) && e.Bounded() {
      var h :| h in e.hosts && HostMatches(globs, h, r.name, r.port);
      if h in unbounded {
        var u :| u in entries && !u.Bounded() && h in u.hosts;
        UnboundedAdmits(globs, u, r);
      } else {
        assert h in Without(e.hosts, unbounded);
      }
    }
  }

  lemma TrimmedGrants(entries: seq<NetworkEntry>, unbounded: set<string>, kept: seq<NetworkEntry>)
    requires forall h :: h in unbounded <==> NamedOutright(entries, h)
    requires forall k :: k in kept <==> exists e :: e in entries && Trimmed(e, unbounded) == Some(k)
    ensures SameGrants(entries, kept)
  {
    forall globs, r: Request | r.Valid() ensures Admits(globs, entries, r) <==> Admits(globs, kept, r) {
      if Admits(globs, entries, r) {
        var e :| e in entries && EntryAdmits(globs, e, r);
        TrimmedAdmits(globs, entries, unbounded, e, r);
        if Trimmed(e, unbounded).Some? && EntryAdmits(globs, Trimmed(e, unbounded).value, r) {
          assert Trimmed(e, unbounded).value in kept;
        } else {
          var u :| u in entries && !u.Bounded() && EntryAdmits(globs, u, r);
          assert Trimmed(u, unbounded) == Some(u);
          assert u in kept;
        }
      }
      if Admits(globs, kept, r) {
        var k :| k in kept && EntryAdmits(globs, k, r);
        var e :| e in entries && Trimmed(e, unbounded) == Some(k);
        TrimmedAdmits(globs, entries, unbounded, e, r);
      }
    }
  }

  /** No host is granted outright by one entry and bounded by another. */
  ghost predicate Unambiguous(entries: seq<NetworkEntry>) {
    forall e, h :: e in entries && e.Bounded() && h in e.hosts ==> !NamedOutright(entries, h)
  }

  lemma TrimmedUnambiguous(entries: seq<NetworkEntry>, unbounded: set<string>, kept: seq<NetworkEntry>)
    requires forall h :: h in unbounded <==> NamedOutright(entries, h)
    requires forall k :: k in kept <==> exists e :: e in entries && Trimmed(e, unbounded) == Some(k)
    ensures Unambiguous(kept)
  {
    forall k, h | k in kept && k.Bounded() && h in k.hosts ensures !NamedOutright(kept, h) {
      var e :| e in entries && Trimmed(e, unbounded) == Some(k);
      assert h !in unbounded;
      forall u | u in kept && !u.Bounded() ensures h !in u.hosts {
        var f :| f in entries && Trimmed(f, unbounded) == Some(u);
        assert f == u;
      }
    }
  }

  /** Collapses a phase's entries without changing what they grant. */
  method NormalizeRules(r: Option<Rules>) returns (n: Option<Rules>)
    ensures n.Some? <==> r.Some?
    ensures n.Some? ==> SameGrants(r.value.allow, n.value.allow) && SameGrants(r.value.deny, n.value.deny)
    ensures n.Some? ==> Unambiguous(n.value.allow)
    ensures n.Some? && (forall e :: e in r.value.allow || e in r.value.deny ==> !e.Bounded()) ==>
      forall e :: e in n.value.allow || e in n.value.deny ==> !e.Bounded()
  {
    if r.None? {
      return None;
    }
    var allow := DedupeEntries(r.value.allow);
    var deny := DedupeEntries(r.value.deny);
    var unbounded := UnboundedHosts(allow);
    var kept := TrimEntries(allow, unbounded);
    TrimmedGrants(allow, unbounded, kept);
    TrimmedUnambiguous(allow, unbounded, kept);
    n := Some(Rules(kept, deny));
  }

  // Choosing the version

  /** Each host once. */
  method HostsOf(entries: seq<NetworkEntry>) returns (out: seq<string>)
    ensures forall h :: h in out <==> exists e :: e in entries && h in e.hosts
  {
    out := [];
    for i := 0 to |entries|
      invariant forall h :: h in out <==> exists e :: e in entries[..i] && h in e.hosts
    {
      assert entries[..i + 1] == entries[..i] + [entries[i]];
      out := AddHosts(out, entries[i].hosts);
    }
    assert entries[..|entries|] == entries;
  }

  method AddHosts(out: seq<string>, hosts: seq<string>) returns (out': seq<string>)
    ensures forall h :: h in out' <==> h in out || h in hosts
  {
    out' := out;
    for j := 0 to |hosts|
      invariant forall h :: h in out' <==> h in out || h in hosts[..j]
    {
      assert hosts[..j + 1] == hosts[..j] + [hosts[j]];
      if hosts[j] !in out' {
        out' := out' + [hosts[j]];
      }
    }
    assert hosts[..|hosts|] == hosts;
  }

  lemma HostsAdmit(globs: Globs, hosts: seq<string>, r: Request)
    requires r.Valid()
    ensures Admits(globs, HostEntries(hosts), r) <==> exists h :: h in hosts && HostMatches(globs, h, r.name, r.port)
  {
    if Admits(globs, HostEntries(hosts), r) {
      var one :| one in HostEntries(hosts) && EntryAdmits(globs, one, r);
      HostEntriesAre(hosts, one);
      assert NamesHost(globs, one, r.name, r.port);
      assert one.hosts == [one.hosts[0]];
    }
    if h :| h in hosts && HostMatches(globs, h, r.name, r.port) {
      var one := NetworkEntry([h], [], []);
      HostEntriesAre(hosts, one);
      assert h in one.hosts;
      UnboundedAdmits(globs, one, r);
    }
  }

  ghost predicate SomeHost(globs: Globs, hosts: seq<string>, r: Request) {
    exists h :: h in hosts && HostMatches(globs, h, r.name, r.port)
  }

  /** A phase of the first version allows its allowed hosts whatever is asked of them, and denies its denied ones. */
  lemma FirstVersionMeans(globs: Globs, hosts: HostPolicy, r: Request)
    requires r.Valid()
    ensures Admits(globs, RulesFor(PolicyOf(FirstAsk(Some(hosts))), Install).allow, r) <==>
      hosts.install.Some? && SomeHost(globs, hosts.install.value.allow, r)
    ensures Admits(globs, RulesFor(PolicyOf(FirstAsk(Some(hosts))), Install).deny, r) <==>
      hosts.install.Some? && SomeHost(globs, hosts.install.value.deny, r)
    ensures Admits(globs, RulesFor(PolicyOf(FirstAsk(Some(hosts))), Runtime).allow, r) <==>
      hosts.runtime.Some? && SomeHost(globs, hosts.runtime.value.allow, r)
    ensures Admits(globs, RulesFor(PolicyOf(FirstAsk(Some(hosts))), Runtime).deny, r) <==>
      hosts.runtime.Some? && SomeHost(globs, hosts.runtime.value.deny, r)
  {
    var installed, running := hosts.install.GetOr(HostRules([], [])), hosts.runtime.GetOr(HostRules([], []));
    HostsAdmit(globs, installed.allow, r);
    HostsAdmit(globs, installed.deny, r);
    HostsAdmit(globs, running.allow, r);
    HostsAdmit(globs, running.deny, r);
  }

  /** A phase of the second version admits by its own entries, and one not stated admits nothing. */
  lemma SecondVersionMeans(globs: Globs, policy: Policy, r: Request)
    ensures Admits(globs, RulesFor(PolicyOf(SecondAsk(Some(policy))), Install).allow, r) <==>
      policy.install.Some? && exists e :: e in policy.install.value.allow && EntryAdmits(globs, e, r)
    ensures Admits(globs, RulesFor(PolicyOf(SecondAsk(Some(policy))), Install).deny, r) <==>
      policy.install.Some? && exists e :: e in policy.install.value.deny && EntryAdmits(globs, e, r)
    ensures Admits(globs, RulesFor(PolicyOf(SecondAsk(Some(policy))), Runtime).allow, r) <==>
      policy.runtime.Some? && exists e :: e in policy.runtime.value.allow && EntryAdmits(globs, e, r)
    ensures Admits(globs, RulesFor(PolicyOf(SecondAsk(Some(policy))), Runtime).deny, r) <==>
      policy.runtime.Some? && exists e :: e in policy.runtime.value.deny && EntryAdmits(globs, e, r)
  {
  }

  lemma NoPolicyAdmitsNothing(globs: Globs, a: Ask, phase: Phase, r: Request)
    requires a == FirstAsk(None) || a == SecondAsk(None)
    ensures !Admits(globs, RulesFor(PolicyOf(a), phase).allow, r) && !Admits(globs, RulesFor(PolicyOf(a), phase).deny, r)
  {
  }

  lemma OutrightAdmits(globs: Globs, entries: seq<NetworkEntry>, r: Request)
    requires r.Valid() && forall e :: e in entries ==> !e.Bounded()
    ensures Admits(globs, entries, r) <==> exists e, h :: e in entries && h in e.hosts && HostMatches(globs, h, r.name, r.port)
  {
    if Admits(globs, entries, r) {
      var e :| e in entries && EntryAdmits(globs, e, r);
      var h :| h in e.hosts && HostMatches(globs, h, r.name, r.port);
    }
    if e, h :| e in entries && h in e.hosts && HostMatches(globs, h, r.name, r.port) {
      UnboundedAdmits(globs, e, r);
    }
  }

  /** Entries that bound nothing grant what their hosts do. */
  lemma HostsAreEnough(entries: seq<NetworkEntry>, hosts: seq<string>)
    requires forall e :: e in entries ==> !e.Bounded()
    requires forall h :: h in hosts <==> exists e :: e in entries && h in e.hosts
    ensures SameGrants(entries, HostEntries(hosts))
  {
    forall globs, r: Request | r.Valid() ensures Admits(globs, entries, r) <==> Admits(globs, HostEntries(hosts), r) {
      HostsAdmit(globs, hosts, r);
      OutrightAdmits(globs, entries, r);
    }
  }

  method DowngradeRules(r: Option<Rules>) returns (d: Option<HostRules>)
    requires r.Some? ==> forall e :: e in r.value.allow || e in r.value.deny ==> !e.Bounded()
    ensures d.Some? <==> r.Some?
    ensures r.Some? ==> SameGrants(r.value.allow, LiftRules(d).value.allow) && SameGrants(r.value.deny, LiftRules(d).value.deny)
  {
    if r.None? {
      return None;
    }
    var allow := HostsOf(r.value.allow);
    var deny := HostsOf(r.value.deny);
    HostsAreEnough(r.value.allow, allow);
    HostsAreEnough(r.value.deny, deny);
    d := Some(HostRules(allow, deny));
  }

  lemma FirstVersionUnbounded(asks: seq<Ask>, e: NetworkEntry, phase: Phase)
    requires forall a :: a in asks ==> a.FirstAsk?
    requires exists a :: a in asks && (e in RulesFor(PolicyOf(a), phase).allow || e in RulesFor(PolicyOf(a), phase).deny)
    ensures !e.Bounded()
  {
    var a :| a in asks && (e in RulesFor(PolicyOf(a), phase).allow || e in RulesFor(PolicyOf(a), phase).deny);
    if a.hosts.Some? {
      var rules := if phase.Install? then a.hosts.value.install else a.hosts.value.runtime;
      if rules.Some? {
        HostEntriesAre(rules.value.allow, e);
        HostEntriesAre(rules.value.deny, e);
      }
    }
  }

  /** A policy whose phases grant the same unites the same asks. */
  lemma UnitesAlike(asks: seq<Ask>, p: Policy, q: Policy)
    requires Unites(asks, p)
    requires forall phase :: SameGrants(RulesFor(p, phase).allow, RulesFor(q, phase).allow)
    requires forall phase :: SameGrants(RulesFor(p, phase).deny, RulesFor(q, phase).deny)
    ensures Unites(asks, q)
  {
    forall globs, phase, r: Request | r.Valid()
      ensures Admits(globs, RulesFor(q, phase).allow, r) <==> AnyAllows(globs, asks, phase, r)
      ensures Admits(globs, RulesFor(q, phase).deny, r) <==> AnyDenies(globs, asks, phase, r)
    {
      assert SameGrants(RulesFor(p, phase).allow, RulesFor(q, phase).allow);
      assert SameGrants(RulesFor(p, phase).deny, RulesFor(q, phase).deny);
    }
  }

  method NormalizePolicy(p: Policy) returns (n: Policy)
    ensures forall phase :: SameGrants(RulesFor(p, phase).allow, RulesFor(n, phase).allow)
    ensures forall phase :: SameGrants(RulesFor(p, phase).deny, RulesFor(n, phase).deny)
    ensures forall phase :: Unambiguous(RulesFor(n, phase).allow)
    ensures (forall e, phase :: e in RulesFor(p, phase).allow || e in RulesFor(p, phase).deny ==> !e.Bounded()) ==>
      forall e, phase :: e in RulesFor(n, phase).allow || e in RulesFor(n, phase).deny ==> !e.Bounded()
  {
    var install := NormalizeRules(p.install);
    var runtime := NormalizeRules(p.runtime);
    n := Policy(install, runtime);
    assert RulesFor(p, Install) == p.install.GetOr(Rules([], [])) && RulesFor(p, Runtime) == p.runtime.GetOr(Rules([], []));
  }

  /** The one request several kits' policies make: the second version if any of them uses it. */
  method MergedNetwork(asks: seq<Ask>) returns (merged: Option<Ask>)
    ensures merged.None? <==> asks == []
    ensures merged.Some? ==> Unites(asks, PolicyOf(merged.value))
    ensures merged.Some? ==> forall phase :: Unambiguous(RulesFor(PolicyOf(merged.value), phase).allow)
    ensures merged.Some? ==> (merged.value.SecondAsk? <==> exists a :: a in asks && a.SecondAsk?)
  {
    if asks == [] {
      return None;
    }
    var second := false;
    for i := 0 to |asks|
      invariant second <==> exists j :: 0 <= j < i && asks[j].SecondAsk?
    {
      if asks[i].SecondAsk? {
        second := true;
      }
    }
    var whole := Concatenate(asks);
    var policy := NormalizePolicy(whole);
    UnitesAlike(asks, whole, policy);
    if second {
      return Some(SecondAsk(Some(policy)));
    }
    forall e, phase | e in RulesFor(whole, phase).allow || e in RulesFor(whole, phase).deny ensures !e.Bounded() {
      FirstVersionUnbounded(asks, e, phase);
    }
    merged := DowngradeToV1(asks, policy);
  }

  method DowngradeToV1(asks: seq<Ask>, policy: Policy) returns (merged: Option<Ask>)
    requires Unites(asks, policy)
    requires forall e, phase :: e in RulesFor(policy, phase).allow || e in RulesFor(policy, phase).deny ==> !e.Bounded()
    ensures merged.Some? && merged.value.FirstAsk? && Unites(asks, PolicyOf(merged.value))
    ensures forall phase :: Unambiguous(RulesFor(PolicyOf(merged.value), phase).allow)
  {
    assert RulesFor(policy, Install) == policy.install.GetOr(Rules([], [])) && RulesFor(policy, Runtime) == policy.runtime.GetOr(Rules([], []));
    var install := DowngradeRules(policy.install);
    var runtime := DowngradeRules(policy.runtime);
    var hosts := HostPolicy(install, runtime);
    UnitesAlike(asks, policy, Lift(hosts));
    forall e, phase | e in RulesFor(Lift(hosts), phase).allow ensures !e.Bounded() {
      var a := FirstAsk(Some(hosts));
      assert a in [a] && e in RulesFor(PolicyOf(a), phase).allow;
      FirstVersionUnbounded([a], e, phase);
    }
    merged := Some(FirstAsk(Some(hosts)));
  }
}

/** The lock as a state that silent updates replace: authority never grows past the first one. */
module Gates {
  import opened Strings
  import opened Patterns
  import opened Networks
  import opened HttpGrants
  import opened SshGrants
  import opened Surfaces
  import opened Widenings

  /** One thing a kit may ask of the host while it runs. */
  datatype Demand =
    | Network(phase: Phase, request: Request)
    | Agent(signing: SshRequest)
    | Plain(grant: Grant)
    | Privilege
  {
    predicate Valid() {
      match this
      case Network(_, request) => request.Valid()
      case Agent(request) => request.Valid()
      case _ => true
    }
  }

  // What a surface permits

  ghost predicate HostListed(globs: Globs, hosts: seq<string>, r: Request) {
    exists h :: h in hosts && HostMatches(globs, h, r.name, r.port)
  }

  ghost predicate HttpListed(globs: Globs, entries: set<string>, r: Request) {
    exists e :: e in entries && EntryMatches(globs, ParseHttpEntry(e), r)
  }

  ghost predicate SurfaceAllows(globs: Globs, s: PhaseSurface, r: Request) {
    if r.Connect? then HostListed(globs, s.allow, r) else HttpListed(globs, CompletedSet(s.allow, s.httpAllow), r)
  }

  /** A host denied outright is denied its requests as well as the connection. */
  ghost predicate SurfaceDenies(globs: Globs, s: PhaseSurface, r: Request) {
    HostListed(globs, s.deny, r) || (r.Http? && HttpListed(globs, Elements(s.httpDeny), r))
  }

  /** What the lock's surface permits, with the HTTP grants an old lock leaves implied. */
  ghost predicate Permits(globs: Globs, s: Surface, d: Demand) {
    match d
    case Network(phase, request) => SurfaceAllows(globs, s.For(phase), request) && !SurfaceDenies(globs, s.For(phase), request)
    case Agent(request) => SurfacePermits(Elements(s.ssh), request)
    case Plain(grant) => grant in s.plain
    case Privilege => s.privileged
  }

  // What a kit's capabilities permit

  ghost predicate KitPermits(globs: Globs, caps: seq<Capability>, d: Demand) {
    match d
    case Network(phase, request) =>
      && (exists c :: c in caps && c.NetworkPolicy? && Admits(globs, RulesFor(c.policy, phase).allow, request))
      && !exists c :: c in caps && c.NetworkPolicy? && Admits(globs, RulesFor(c.policy, phase).deny, request)
    case Agent(request) => exists c :: c in caps && c.Ssh? && AgentPermits(c.agent, request)
    case Plain(grant) => exists c :: c in caps && c.Granted? && grant in c.grants
    case Privilege => Privileged in caps
  }

  /** Hosts are patterns without space or slash, verbs single words, paths globs that start at the root. */
  ghost predicate WellFormedEntry(e: NetworkEntry) {
    && (forall h :: h in e.hosts ==> HostPattern(h))
    && (forall m :: m in e.methods ==> ' ' !in m)
    && (forall p :: p in e.paths ==> PathPattern(p))
  }

  ghost predicate WellFormedRules(r: Rules) {
    forall e :: e in r.allow || e in r.deny ==> WellFormedEntry(e)
  }

  ghost predicate WellFormedKit(caps: seq<Capability>) {
    && (forall phase :: WellFormedRules(RulesIn(caps, phase)))
    && forall c :: c in caps && c.Ssh? ==> WellFormedAgent(c.agent)
  }

  ghost predicate WellFormedPhase(s: PhaseSurface) {
    && (forall h :: h in s.allow || h in s.deny ==> HostPattern(h))
    && (forall e :: e in s.httpAllow || e in s.httpDeny ==> WellFormedHttp(ParseHttpEntry(e)))
  }

  ghost predicate WellFormedSurface(s: Surface) {
    WellFormedPhase(s.install) && WellFormedPhase(s.runtime)
  }

  // The surface says what the kit's capabilities do

  lemma GrantReadsBack(e: NetworkEntry, h: string, m: string, p: string)
    requires WellFormedEntry(e) && h in e.hosts && m in GrantVerbs(e) && p in EntryPaths(e)
    ensures ParseHttpEntry(RenderHttp(m, h, p)) == HttpEntry(m, h, p)
    ensures HttpEntryHost(RenderHttp(m, h, p)) == h
    ensures WellFormedHttp(HttpEntry(m, h, p))
  {
    assert ' ' !in m by {
      var any := ANY;
      assert any == ['A', 'N', 'Y'];
    }
    var whole := "/**";
    EveryPath(Globs(iset{}, iset{}), whole, "/");
    ParseRendered(m, h, p);
  }

  lemma VerbsAlike(e: NetworkEntry, verb: string)
    ensures AdmitsMethod(e, verb) <==> exists m :: m in GrantVerbs(e) && MethodMatches(m, verb)
  {
    if ANY in EntryMethods(e) {
      assert MethodMatches(ANY, verb) && ANY in GrantVerbs(e);
    }
  }

  /** The entries listed admit the same HTTP requests as the rules they come from. */
  lemma HttpSetExact(globs: Globs, entries: seq<NetworkEntry>, r: Request)
    requires (forall e :: e in entries ==> WellFormedEntry(e)) && r.Http?
    ensures HttpListed(globs, HttpSet(entries), r) <==> Admits(globs, entries, r)
  {
    if HttpListed(globs, HttpSet(entries), r) {
      var s :| s in HttpSet(entries) && EntryMatches(globs, ParseHttpEntry(s), r);
      var e, h, m, p :| e in entries && h in e.hosts && m in GrantVerbs(e) && p in EntryPaths(e) && s == RenderHttp(m, h, p);
      GrantReadsBack(e, h, m, p);
      VerbsAlike(e, r.verb);
      assert EntryAdmits(globs, e, r);
    }
    if Admits(globs, entries, r) {
      var e :| e in entries && EntryAdmits(globs, e, r);
      VerbsAlike(e, r.verb);
      var h :| h in e.hosts && HostMatches(globs, h, r.name, r.port);
      var m :| m in GrantVerbs(e) && MethodMatches(m, r.verb);
      var p :| p in EntryPaths(e) && PathMatches(globs, p, r.path);
      GrantReadsBack(e, h, m, p);
      assert RenderHttp(m, h, p) in HttpSet(entries);
    }
  }

  lemma HostSetExact(globs: Globs, entries: seq<NetworkEntry>, r: Request)
    requires r.Valid()
    ensures HostListed(globs, Sorted(HostSet(entries)), r) ==> Admits(globs, entries, r)
    ensures r.Connect? && Admits(globs, entries, r) ==> HostListed(globs, Sorted(HostSet(entries)), r)
  {
    if HostListed(globs, Sorted(HostSet(entries)), r) {
      var h :| h in Sorted(HostSet(entries)) && HostMatches(globs, h, r.name, r.port);
      assert h in HostSet(entries);
      var e :| e in entries && !e.Bounded() && h in e.hosts;
      UnboundedAdmits(globs, e, r);
    }
    if r.Connect? && Admits(globs, entries, r) {
      var e :| e in entries && EntryAdmits(globs, e, r);
      var h :| h in e.hosts && HostMatches(globs, h, r.name, r.port);
      assert h in HostSet(entries);
    }
  }

  /** For a surface of a kit the reconstruction of old grants adds nothing. */
  lemma NothingImplied(r: Rules)
    requires WellFormedRules(r)
    ensures Implied(PhaseSurfaceOf(r).allow, PhaseSurfaceOf(r).httpAllow) == {}
    ensures CompletedSet(PhaseSurfaceOf(r).allow, PhaseSurfaceOf(r).httpAllow) == HttpSet(r.allow)
  {
    var s := PhaseSurfaceOf(r);
    forall h | h in s.allow ensures !Unmentioned(s.httpAllow, h) {
      assert h in HostSet(r.allow);
      var e :| e in r.allow && !e.Bounded() && h in e.hosts;
      assert GrantVerbs(e)[0] == ANY && EntryPaths(e)[0] == "/**";
      GrantReadsBack(e, h, ANY, "/**");
      assert RenderHttp(ANY, h, "/**") in HttpSet(r.allow);
    }
    ImpliedSome(s.allow, s.httpAllow);
    assert Elements(s.httpAllow) == HttpSet(r.allow);
  }

  /** A grant written before the HTTP lists admits every request to a host none of its own entries names a port of. */
  lemma OldGrantsMean(globs: Globs, s: PhaseSurface, r: Request)
    requires WellFormedPhase(s) && r.Valid() && r.Http?
    ensures SurfaceAllows(globs, s, r) <==>
      || HttpListed(globs, Elements(s.httpAllow), r)
      || exists h :: h in s.allow && HostMatches(globs, h, r.name, r.port)
          && forall g :: g in s.httpAllow ==> NameOf(HttpEntryHost(g)) != NameOf(h)
  {
    var whole := CompletedSet(s.allow, s.httpAllow);
    if SurfaceAllows(globs, s, r) {
      var e :| e in whole && EntryMatches(globs, ParseHttpEntry(e), r);
      if e in Implied(s.allow, s.httpAllow) {
        var h :| h in s.allow && Unmentioned(s.httpAllow, h) && e == RenderHttp(ANY, h, "/**");
        ImpliedMatches(globs, h, r);
      }
    }
    if h :| h in s.allow && HostMatches(globs, h, r.name, r.port) && Unmentioned(s.httpAllow, h) {
      ImpliedMatches(globs, h, r);
      assert RenderHttp(ANY, h, "/**") in whole;
    }
  }

  lemma ImpliedMatches(globs: Globs, h: string, r: Request)
    requires HostPattern(h) && r.Valid() && r.Http?
    ensures EntryMatches(globs, ParseHttpEntry(RenderHttp(ANY, h, "/**")), r) <==> HostMatches(globs, h, r.name, r.port)
  {
    var e := NetworkEntry([h], [], []);
    assert h in e.hosts && GrantVerbs(e)[0] == ANY && EntryPaths(e)[0] == "/**";
    GrantReadsBack(e, h, ANY, "/**");
    EveryPath(globs, "/**", r.path);
  }

  lemma PhaseExact(globs: Globs, rules: Rules, r: Request)
    requires WellFormedRules(rules) && r.Valid()
    ensures SurfaceAllows(globs, PhaseSurfaceOf(rules), r) <==> Admits(globs, rules.allow, r)
    ensures SurfaceDenies(globs, PhaseSurfaceOf(rules), r) <==> Admits(globs, rules.deny, r)
  {
    HostSetExact(globs, rules.deny, r);
    if r.Connect? {
      HostSetExact(globs, rules.allow, r);
    } else {
      NothingImplied(rules);
      assert Elements(PhaseSurfaceOf(rules).httpDeny) == HttpSet(rules.deny);
      HttpSetExact(globs, rules.allow, r);
      HttpSetExact(globs, rules.deny, r);
    }
  }

  lemma {:induction false} PlainExact(caps: seq<Capability>, g: Grant)
    ensures g in PlainOf(caps) <==> exists c :: c in caps && c.Granted? && g in c.grants
    decreases |caps|
  {
    if caps != [] {
      var rest, last := caps[..|caps| - 1], caps[|caps| - 1];
      PlainExact(rest, g);
      assert caps == rest + [last];
    }
  }

  /** The rules of a phase admit what those of some policy capability do. */
  lemma {:induction false} RulesInAdmit(globs: Globs, caps: seq<Capability>, phase: Phase, r: Request)
    ensures Admits(globs, RulesIn(caps, phase).allow, r) <==>
      exists c :: c in caps && c.NetworkPolicy? && Admits(globs, RulesFor(c.policy, phase).allow, r)
    ensures Admits(globs, RulesIn(caps, phase).deny, r) <==>
      exists c :: c in caps && c.NetworkPolicy? && Admits(globs, RulesFor(c.policy, phase).deny, r)
    decreases |caps|
  {
    if caps != [] {
      var rest, last := caps[..|caps| - 1], caps[|caps| - 1];
      RulesInAdmit(globs, rest, phase, r);
      assert caps == rest + [last];
      if last.NetworkPolicy? {
        AdmitsEither(globs, RulesIn(rest, phase).allow, RulesFor(last.policy, phase).allow, r);
        AdmitsEither(globs, RulesIn(rest, phase).deny, RulesFor(last.policy, phase).deny, r);
      }
    }
  }

  /** A kit's surface permits exactly what its capabilities do: nothing it asks for escapes, and nothing is added. */
  lemma SurfaceExact(globs: Globs, caps: seq<Capability>, d: Demand)
    requires WellFormedKit(caps) && d.Valid()
    ensures Permits(globs, SurfaceFor(caps), d) <==> KitPermits(globs, caps, d)
  {
    match d
    case Network(phase, request) =>
      PhaseExact(globs, RulesIn(caps, phase), request);
      RulesInAdmit(globs, caps, phase, request);
    case Agent(request) =>
      assert Elements(SurfaceFor(caps).ssh) == SshSet(caps);
      AgentsExact(caps, request);
    case Plain(grant) => PlainExact(caps, grant);
    case Privilege =>
  }

  lemma AgentsExact(caps: seq<Capability>, r: SshRequest)
    requires WellFormedKit(caps) && r.Valid()
    ensures SurfacePermits(SshSet(caps), r) <==> exists c :: c in caps && c.Ssh? && AgentPermits(c.agent, r)
  {
    if SurfacePermits(SshSet(caps), r) {
      var s :| s in SshSet(caps) && EntryPermits(s, r);
      var c :| c in caps && c.Ssh? && s in AgentEntries(c.agent);
      EntriesExact(c.agent, r);
    }
    if c :| c in caps && c.Ssh? && AgentPermits(c.agent, r) {
      EntriesExact(c.agent, r);
      var s :| s in AgentEntries(c.agent) && EntryPermits(s, r);
      assert s in SshSet(caps);
    }
  }

  lemma KitSurfaceWellFormed(caps: seq<Capability>)
    requires WellFormedKit(caps)
    ensures WellFormedSurface(SurfaceFor(caps))
  {
    RulesSurfaceWellFormed(RulesIn(caps, Install));
    RulesSurfaceWellFormed(RulesIn(caps, Runtime));
  }

  lemma RulesSurfaceWellFormed(r: Rules)
    requires WellFormedRules(r)
    ensures WellFormedPhase(PhaseSurfaceOf(r))
  {
    var s := PhaseSurfaceOf(r);
    forall h | h in s.allow || h in s.deny ensures HostPattern(h) {
      assert h in HostSet(r.allow) || h in HostSet(r.deny);
    }
    forall x | x in s.httpAllow || x in s.httpDeny ensures WellFormedHttp(ParseHttpEntry(x)) {
      assert x in HttpSet(r.allow) || x in HttpSet(r.deny);
      var e, h, m, p :| (e in r.allow || e in r.deny) && h in e.hosts && m in GrantVerbs(e) && p in EntryPaths(e) && x == RenderHttp(m, h, p);
      GrantReadsBack(e, h, m, p);
    }
  }

  // Staying within a surface

  lemma CoveredListed(globs: Globs, granted: set<string>, listed: set<string>, r: Request)
    requires forall e :: e in listed ==> HttpCovered(granted, e) && WellFormedHttp(ParseHttpEntry(e))
    requires forall e :: e in granted ==> WellFormedHttp(ParseHttpEntry(e))
    ensures HttpListed(globs, listed, r) ==> HttpListed(globs, granted, r)
  {
    if HttpListed(globs, listed, r) {
      var e :| e in listed && EntryMatches(globs, ParseHttpEntry(e), r);
      var g :| g in granted && EntryCovers(ParseHttpEntry(g), ParseHttpEntry(e));
      CoveredIsContained(ParseHttpEntry(g), ParseHttpEntry(e));
    }
  }

  lemma CompletedWellFormed(s: PhaseSurface)
    requires WellFormedPhase(s)
    ensures forall e :: e in CompletedSet(s.allow, s.httpAllow) ==> WellFormedHttp(ParseHttpEntry(e))
  {
    forall h | h in s.allow ensures WellFormedHttp(ParseHttpEntry(RenderHttp(ANY, h, "/**"))) {
      var e := NetworkEntry([h], [], []);
      assert h in e.hosts && GrantVerbs(e)[0] == ANY && EntryPaths(e)[0] == "/**";
      GrantReadsBack(e, h, ANY, "/**");
    }
  }

  lemma PhaseWithinPermits(globs: Globs, g: PhaseSurface, c: PhaseSurface, r: Request)
    requires WellFormedPhase(g) && WellFormedPhase(c) && PhaseWithin(g, c)
    requires Implied(c.allow, c.httpAllow) == {}
    ensures SurfaceAllows(globs, c, r) ==> SurfaceAllows(globs, g, r)
    ensures SurfaceDenies(globs, g, r) ==> SurfaceDenies(globs, c, r)
  {
    if r.Http? {
      CompletedWellFormed(g);
      CoveredListed(globs, CompletedSet(g.allow, g.httpAllow), Elements(c.httpAllow), r);
      CoveredListed(globs, Elements(c.httpDeny), Elements(g.httpDeny), r);
      assert CompletedSet(c.allow, c.httpAllow) == Elements(c.httpAllow);
    }
  }

  /** A kit whose surface is within a granted one permits nothing that one does not. */
  lemma WithinPermits(globs: Globs, g: Surface, caps: seq<Capability>, d: Demand)
    requires WellFormedSurface(g) && WellFormedKit(caps) && d.Valid() && Within(g, SurfaceFor(caps))
    ensures Permits(globs, SurfaceFor(caps), d) ==> Permits(globs, g, d)
  {
    var c := SurfaceFor(caps);
    match d
    case Network(phase, request) =>
      KitSurfaceWellFormed(caps);
      NothingImplied(RulesIn(caps, phase));
      PhaseWithinPermits(globs, g.For(phase), c.For(phase), request);
    case Agent(request) =>
      if Permits(globs, c, d) {
        var s :| s in Elements(c.ssh) && EntryPermits(s, request);
        SshCoverageContains(Elements(g.ssh), s, request);
      }
    case Plain(_) =>
    case Privilege =>
  }

  // The lock

  datatype Unit = Unit(reference: string, caps: seq<Capability>)

  datatype LockedKit = LockedKit(reference: string, permissions: Surface)

  ghost function LockFor(units: seq<Unit>): seq<LockedKit> {
    if units == [] then []
    else
      var u := units[|units| - 1];
      LockFor(units[..|units| - 1]) + [LockedKit(u.reference, SurfaceFor(u.caps))]
  }

  /** What the lock grants a reference: its last entry, or nothing. */
  function GrantedTo(lock: seq<LockedKit>, reference: string): Surface {
    if lock == [] then NOTHING
    else if lock[|lock| - 1].reference == reference then lock[|lock| - 1].permissions
    else GrantedTo(lock[..|lock| - 1], reference)
  }

  method LockFrom(units: seq<Unit>) returns (lock: seq<LockedKit>)
    ensures lock == LockFor(units)
  {
    lock := [];
    for i := 0 to |units|
      invariant lock == LockFor(units[..i])
    {
      assert units[..i + 1][..i] == units[..i];
      var permissions := SurfaceOf(units[i].caps);
      lock := lock + [LockedKit(units[i].reference, permissions)];
    }
    assert units[..|units|] == units;
  }

  /** The update asks for nothing the lock does not grant, kit by kit. */
  ghost predicate Silent(lock: seq<LockedKit>, units: seq<Unit>) {
    forall u :: u in units ==> Within(GrantedTo(lock, u.reference), SurfaceFor(u.caps))
  }

  /** The permissions the lock records under each reference, the last entry deciding. */
  method Grants(lock: seq<LockedKit>) returns (granted: map<string, Surface>)
    ensures forall r :: GrantedTo(lock, r) == if r in granted then granted[r] else NOTHING
  {
    granted := map[];
    for i := 0 to |lock|
      invariant forall r :: GrantedTo(lock[..i], r) == if r in granted then granted[r] else NOTHING
    {
      assert lock[..i + 1][..i] == lock[..i];
      granted := granted[lock[i].reference := lock[i].permissions];
    }
    assert lock[..|lock|] == lock;
  }

  ghost predicate UnitReports(lock: seq<LockedKit>, u: Unit, w: Widening) {
    Reports(GrantedTo(lock, u.reference), SurfaceFor(u.caps), w)
  }

  lemma ReportsOn(lock: seq<LockedKit>, units: seq<Unit>, u: Unit, out: seq<Widening>, more: seq<Widening>)
    requires forall w :: w in out <==> exists v :: v in units && UnitReports(lock, v, w)
    requires forall w :: w in more <==> UnitReports(lock, u, w)
    ensures forall w :: w in out + more <==> exists v :: v in units + [u] && UnitReports(lock, v, w)
  {
    forall w ensures w in out + more <==> exists v :: v in units + [u] && UnitReports(lock, v, w) {
      if v :| v in units && UnitReports(lock, v, w) {
        assert v in units + [u];
      }
      assert u in units + [u];
    }
  }

  /** What each unit asks for beyond what the lock grants its reference, and nothing if there is none. */
  method Gate(lock: seq<LockedKit>, units: seq<Unit>) returns (out: seq<Widening>)
    ensures forall w :: w in out <==> exists u :: u in units && UnitReports(lock, u, w)
    ensures out == [] <==> Silent(lock, units)
  {
    var granted := Grants(lock);
    out := [];
    for i := 0 to |units|
      invariant forall w :: w in out <==> exists u :: u in units[..i] && UnitReports(lock, u, w)
      invariant out == [] <==> Silent(lock, units[..i])
    {
      assert units[..i + 1] == units[..i] + [units[i]];
      var candidate := SurfaceOf(units[i].caps);
      var had := if units[i].reference in granted then granted[units[i].reference] else NOTHING;
      var more := DiffWidenings(had, candidate);
      ReportsOn(lock, units[..i], units[i], out, more);
      out := out + more;
    }
    assert units[..|units|] == units;
  }

  // Runs of silent updates

  /** Each update was silent against the lock it replaced. */
  ghost predicate SilentRun(lock: seq<LockedKit>, updates: seq<seq<Unit>>)
    decreases |updates|
  {
    updates == [] || (Silent(lock, updates[0]) && SilentRun(LockFor(updates[0]), updates[1..]))
  }

  lemma NothingPermitsNothing(globs: Globs, d: Demand)
    ensures !Permits(globs, NOTHING, d) && WellFormedSurface(NOTHING)
  {
    assert CompletedSet([], []) == {};
  }

  lemma {:induction false} GrantedByLock(units: seq<Unit>, reference: string)
    ensures GrantedTo(LockFor(units), reference) == NOTHING
      || exists u :: u in units && u.reference == reference && GrantedTo(LockFor(units), reference) == SurfaceFor(u.caps)
    decreases |units|
  {
    if units != [] {
      var rest, u := units[..|units| - 1], units[|units| - 1];
      GrantedByLock(rest, reference);
      assert units == rest + [u];
      var lock := LockFor(units);
      assert lock[..|lock| - 1] == LockFor(rest);
    }
  }

  // What the lock says of the kits it was written from

  lemma {:induction false} LockGrants(units: seq<Unit>, i: nat)
    requires i < |units| && forall j :: i < j < |units| ==> units[j].reference != units[i].reference
    ensures GrantedTo(LockFor(units), units[i].reference) == SurfaceFor(units[i].caps)
    decreases |units|
  {
    var rest := units[..|units| - 1];
    var lock := LockFor(units);
    assert lock[..|lock| - 1] == LockFor(rest);
    if i < |rest| {
      LockGrants(rest, i);
    }
  }

  ghost predicate Distinct(units: seq<Unit>) {
    forall i, j :: 0 <= i < j < |units| ==> units[i].reference != units[j].reference
  }

  /** A lock grants every kit it was written from that kit's whole surface. */
  lemma LockRecords(units: seq<Unit>, u: Unit)
    requires Distinct(units) && u in units
    ensures GrantedTo(LockFor(units), u.reference) == SurfaceFor(u.caps)
  {
    var i :| 0 <= i < |units| && units[i] == u;
    LockGrants(units, i);
  }

  /** An update that changes nothing is silent against its own lock. */
  lemma UnchangedIsSilent(units: seq<Unit>)
    requires Distinct(units)
    ensures Silent(LockFor(units), units)
  {
    forall u | u in units ensures Within(GrantedTo(LockFor(units), u.reference), SurfaceFor(u.caps)) {
      LockRecords(units, u);
      WithinItself(SurfaceFor(u.caps));
    }
  }

  /** So is one that only drops kits, or asks for the same of those it keeps. */
  lemma FewerIsSilent(units: seq<Unit>, fewer: seq<Unit>)
    requires Distinct(units) && forall u :: u in fewer ==> u in units
    ensures Silent(LockFor(units), fewer)
  {
    UnchangedIsSilent(units);
  }

  /** A kit the lock does not list is granted nothing: it is silent only if it asks for nothing. */
  lemma {:induction false} UnlistedIsNothing(units: seq<Unit>, reference: string)
    requires forall u :: u in units ==> u.reference != reference
    ensures GrantedTo(LockFor(units), reference) == NOTHING
    decreases |units|
  {
    if units != [] {
      var lock := LockFor(units);
      assert lock[..|lock| - 1] == LockFor(units[..|units| - 1]);
      UnlistedIsNothing(units[..|units| - 1], reference);
    }
  }

  /** One silent update: the lock it writes permits a reference no more than the lock it replaced. */
  lemma OneUpdate(globs: Globs, lock: seq<LockedKit>, units: seq<Unit>, reference: string, d: Demand)
    requires Silent(lock, units) && d.Valid() && WellFormedSurface(GrantedTo(lock, reference))
    requires forall v :: v in units ==> WellFormedKit(v.caps)
    ensures WellFormedSurface(GrantedTo(LockFor(units), reference))
    ensures Permits(globs, GrantedTo(LockFor(units), reference), d) ==> Permits(globs, GrantedTo(lock, reference), d)
  {
    NothingPermitsNothing(globs, d);
    GrantedByLock(units, reference);
    if GrantedTo(LockFor(units), reference) != NOTHING {
      var v :| v in units && v.reference == reference && GrantedTo(LockFor(units), reference) == SurfaceFor(v.caps);
      KitSurfaceWellFormed(v.caps);
      WithinPermits(globs, GrantedTo(lock, reference), v.caps, d);
    }
  }

  /** After any number of silent updates, no kit permits what the first lock did not grant its reference. */
  lemma {:induction false} AuthorityNeverDrifts(globs: Globs, lock: seq<LockedKit>, updates: seq<seq<Unit>>, u: Unit, d: Demand)
    requires updates != [] && u in updates[|updates| - 1] && SilentRun(lock, updates) && d.Valid()
    requires WellFormedSurface(GrantedTo(lock, u.reference))
    requires forall i, v :: 0 <= i < |updates| && v in updates[i] ==> WellFormedKit(v.caps)
    requires KitPermits(globs, u.caps, d)
    ensures Permits(globs, GrantedTo(lock, u.reference), d)
    decreases |updates|
  {
    if |updates| == 1 {
      SurfaceExact(globs, u.caps, d);
      WithinPermits(globs, GrantedTo(lock, u.reference), u.caps, d);
    } else {
      OneUpdate(globs, lock, updates[0], u.reference, d);
      AuthorityNeverDrifts(globs, LockFor(updates[0]), updates[1..], u, d);
    }
  }

  /** From a lock this program wrote: what a kit permits at the end, a kit approved under its reference permitted at the start. */
  lemma ApprovedAtTheStart(globs: Globs, approved: seq<Unit>, updates: seq<seq<Unit>>, u: Unit, d: Demand)
    requires updates != [] && u in updates[|updates| - 1] && SilentRun(LockFor(approved), updates) && d.Valid()
    requires forall v :: v in approved ==> WellFormedKit(v.caps)
    requires forall i, v :: 0 <= i < |updates| && v in updates[i] ==> WellFormedKit(v.caps)
    requires KitPermits(globs, u.caps, d)
    ensures exists v :: v in approved && v.reference == u.reference && KitPermits(globs, v.caps, d)
  {
    var lock := LockFor(approved);
    GrantedByLock(approved, u.reference);
    NothingPermitsNothing(globs, d);
    if GrantedTo(lock, u.reference) == NOTHING {
      AuthorityNeverDrifts(globs, lock, updates, u, d);
    } else {
      var v :| v in approved && v.reference == u.reference && GrantedTo(lock, u.reference) == SurfaceFor(v.caps);
      KitSurfaceWellFormed(v.caps);
      AuthorityNeverDrifts(globs, lock, updates, u, d);
      SurfaceExact(globs, v.caps, d);
    }
  }
}

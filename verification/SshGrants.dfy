/** What the SSH agent may sign, as a kit asks for it and as a surface lists it. */
module SshGrants {
  import opened Strings
  import opened Patterns

  datatype SshAgent = SshAgent(phases: seq<string>, unrestricted: bool, sign: seq<string>, authenticate: seq<string>) {
    predicate Bounded() {
      !unrestricted
    }
  }

  datatype SshRequest =
    | Sign(phase: string, namespace: string)
    | Authenticate(phase: string, user: string, host: string)
    | AnythingElse(phase: string)
  {
    predicate Valid() {
      && ' ' !in phase
      && (Sign? ==> ' ' !in namespace)
      && (Authenticate? ==> ' ' !in user && ' ' !in host && '@' !in host && user != "")
    }
  }

  /** Phases, namespaces and destinations are single words. */
  ghost predicate WellFormedAgent(a: SshAgent) {
    forall s :: s in a.phases || s in a.sign || s in a.authenticate ==> ' ' !in s
  }

  /** A destination without a user is every user at that host. */
  predicate AgentPermits(a: SshAgent, r: SshRequest) {
    && r.phase in a.phases
    && (!a.Bounded() ||
        match r
        case Sign(_, namespace) => namespace in a.sign
        case Authenticate(_, user, host) => user + "@" + host in a.authenticate || host in a.authenticate
        case AnythingElse(_) => false)
  }

  function SignEntry(phase: string, namespace: string): string {
    phase + " " + ("sign " + namespace)
  }

  function AuthenticateEntry(phase: string, destination: string): string {
    phase + " " + ("authenticate " + destination)
  }

  predicate EntryPermits(s: string, r: SshRequest) {
    || s == r.phase
    || match r
       case Sign(phase, namespace) => s == SignEntry(phase, namespace)
       case Authenticate(phase, user, host) => s == AuthenticateEntry(phase, user + "@" + host) || s == AuthenticateEntry(phase, host)
       case AnythingElse(_) => false
  }

  ghost predicate SurfacePermits(entries: set<string>, r: SshRequest) {
    exists s :: s in entries && EntryPermits(s, r)
  }

  /** The atomic grants of one ask. */
  function AgentEntries(a: SshAgent): set<string> {
    if !a.Bounded() then set p | p in a.phases
    else
      (set p, n | p in a.phases && n in a.sign :: SignEntry(p, n))
      + (set p, d | p in a.phases && d in a.authenticate :: AuthenticateEntry(p, d))
  }

  method SshAgentSurface(a: SshAgent) returns (out: seq<string>)
    ensures forall s :: s in out <==> s in AgentEntries(a)
  {
    out := [];
    for i := 0 to |a.phases|
      invariant forall s :: s in out <==> s in AgentEntries(a.(phases := a.phases[..i]))
    {
      var phase := a.phases[i];
      assert a.phases[..i + 1] == a.phases[..i] + [phase];
      var more := PhaseEntries(a, phase);
      out := out + more;
    }
    assert a.phases[..|a.phases|] == a.phases;
  }

  method PhaseEntries(a: SshAgent, phase: string) returns (out: seq<string>)
    ensures forall s :: s in out <==> s in AgentEntries(a.(phases := [phase]))
  {
    if !a.Bounded() {
      return [phase];
    }
    out := [];
    for j := 0 to |a.sign|
      invariant forall s :: s in out <==> exists k :: 0 <= k < j && s == SignEntry(phase, a.sign[k])
    {
      out := out + [SignEntry(phase, a.sign[j])];
    }
    for j := 0 to |a.authenticate|
      invariant forall s :: s in out <==>
        (exists k :: 0 <= k < |a.sign| && s == SignEntry(phase, a.sign[k])) || exists k :: 0 <= k < j && s == AuthenticateEntry(phase, a.authenticate[k])
    {
      out := out + [AuthenticateEntry(phase, a.authenticate[j])];
    }
  }

  // The surface says what the ask does

  lemma EntriesApart(p: string, x: string, q: string, y: string)
    requires ' ' !in p && ' ' !in q
    ensures SignEntry(p, x) == SignEntry(q, y) <==> p == q && x == y
    ensures AuthenticateEntry(p, x) == AuthenticateEntry(q, y) <==> p == q && x == y
    ensures SignEntry(p, x) != AuthenticateEntry(q, y)
    ensures SignEntry(p, x) != q && AuthenticateEntry(p, x) != q
  {
    var a, b := "sign " + x, "sign " + y;
    var c, d := "authenticate " + x, "authenticate " + y;
    assert a[5..] == x && b[5..] == y && c[13..] == x && d[13..] == y;
    assert a[0] == 's' && d[0] == 'a';
    assert SignEntry(p, x)[|p|] == ' ' && AuthenticateEntry(p, x)[|p|] == ' ';
    CutAt(p, a, ' ');
    CutAt(p, c, ' ');
    CutAt(q, b, ' ');
    CutAt(q, d, ' ');
  }

  /** The entries permit exactly what the ask does. */
  lemma EntriesExact(a: SshAgent, r: SshRequest)
    requires WellFormedAgent(a) && r.Valid()
    ensures SurfacePermits(AgentEntries(a), r) <==> AgentPermits(a, r)
  {
    var entries := AgentEntries(a);
    if AgentPermits(a, r) {
      var s := if !a.Bounded() then r.phase
               else match r
                 case Sign(phase, namespace) => SignEntry(phase, namespace)
                 case Authenticate(phase, user, host) =>
                   AuthenticateEntry(phase, if host in a.authenticate then host else user + "@" + host)
                 case AnythingElse(phase) => phase;
      assert s in entries && EntryPermits(s, r);
    }
    if SurfacePermits(entries, r) {
      var s :| s in entries && EntryPermits(s, r);
      if a.Bounded() {
        if p, n :| p in a.phases && n in a.sign && s == SignEntry(p, n) {
          SignedEntry(p, n, r);
        } else {
          var p, d :| p in a.phases && d in a.authenticate && s == AuthenticateEntry(p, d);
          AuthenticatedEntry(p, d, r);
        }
      }
    }
  }

  lemma SignedEntry(p: string, n: string, r: SshRequest)
    requires ' ' !in p && r.Valid() && EntryPermits(SignEntry(p, n), r)
    ensures r.Sign? && r.phase == p && r.namespace == n
  {
    EntriesApart(p, n, r.phase, "");
    match r
    case Sign(phase, namespace) => EntriesApart(p, n, phase, namespace);
    case Authenticate(phase, user, host) =>
      EntriesApart(p, n, phase, user + "@" + host);
      EntriesApart(p, n, phase, host);
    case AnythingElse(_) =>
  }

  lemma AuthenticatedEntry(p: string, d: string, r: SshRequest)
    requires ' ' !in p && r.Valid() && EntryPermits(AuthenticateEntry(p, d), r)
    ensures r.Authenticate? && r.phase == p && (d == r.user + "@" + r.host || d == r.host)
  {
    EntriesApart(p, d, r.phase, "");
    match r
    case Sign(phase, namespace) => EntriesApart(phase, namespace, p, d);
    case Authenticate(phase, user, host) =>
      EntriesApart(p, d, phase, user + "@" + host);
      EntriesApart(p, d, phase, host);
    case AnythingElse(_) =>
  }

  // Widenings

  /** The server of a destination, after its last at sign. */
  function DestinationHost(d: string): string {
    if d == "" then ""
    else if '@' in d then (if d[0] == '@' && '@' !in d[1..] then d[1..] else DestinationHost(d[1..]))
    else d
  }

  lemma {:induction false} HostAfterUser(user: string, host: string)
    requires '@' !in host
    ensures DestinationHost(user + "@" + host) == host
    decreases |user|
  {
    var d := user + "@" + host;
    assert d[|user|] == '@';
    if user == "" {
      assert d[1..] == host;
    } else {
      assert d[1..] == user[1..] + "@" + host;
      assert d[1..][|user| - 1] == '@';
      HostAfterUser(user[1..], host);
    }
  }

  /** What the gate takes an entry to be covered by. */
  predicate SshCovered(granted: set<string>, c: string) {
    var phase, rest := Cut(c, ' ').before, Cut(c, ' ').after;
    || c in granted
    || (phase in granted && ' ' !in phase)
    || ("authenticate " <= rest &&
        var d := rest[|"authenticate "|..];
        DestinationHost(d) != d && AuthenticateEntry(phase, DestinationHost(d)) in granted)
  }

  method SshAgentWidenings(granted: seq<string>, candidate: seq<string>) returns (out: seq<string>)
    ensures forall c :: c in out <==> c in candidate && !SshCovered((set g | g in granted), c)
  {
    var unbounded: set<string> := {};
    var have: set<string> := {};
    for i := 0 to |granted|
      invariant forall g :: g in have <==> g in granted[..i]
      invariant forall g :: g in unbounded <==> g in granted[..i] && ' ' !in g
    {
      assert granted[..i + 1] == granted[..i] + [granted[i]];
      if ' ' !in granted[i] {
        unbounded := unbounded + {granted[i]};
      }
      have := have + {granted[i]};
    }
    assert granted[..|granted|] == granted;
    assert have == set g | g in granted;
    out := [];
    for i := 0 to |candidate|
      invariant forall c :: c in out <==> c in candidate[..i] && !SshCovered(have, c)
    {
      var c := candidate[i];
      assert candidate[..i + 1] == candidate[..i] + [c];
      var covered := IsSshCovered(have, unbounded, c);
      if !covered {
        out := out + [c];
      }
    }
    assert candidate[..|candidate|] == candidate;
  }

  method IsSshCovered(have: set<string>, unbounded: set<string>, c: string) returns (covered: bool)
    requires forall g :: g in unbounded <==> g in have && ' ' !in g
    ensures covered == SshCovered(have, c)
  {
    var cut := Cut(c, ' ');
    if c in have || cut.before in unbounded {
      return true;
    }
    if "authenticate " <= cut.after {
      var d := cut.after[|"authenticate "|..];
      var host := DestinationHost(d);
      return host != d && AuthenticateEntry(cut.before, host) in have;
    }
    covered := false;
  }

  /** A covered entry permits nothing its cover does not. */
  lemma SshCoverageContains(granted: set<string>, c: string, r: SshRequest)
    requires SshCovered(granted, c) && EntryPermits(c, r) && r.Valid()
    ensures SurfacePermits(granted, r)
  {
    if c !in granted {
      CutOfEntry(c, r);
      if r.phase !in granted {
        var rest := Cut(c, ' ').after;
        var d := rest[|"authenticate "|..];
        DestinationOf(c, d, r);
        assert AuthenticateEntry(r.phase, DestinationHost(d)) in granted;
      } else {
        assert EntryPermits(r.phase, r);
      }
    }
  }

  /** An entry of a well-formed ask: a phase, or a signature a phase may make, for a namespace or a destination. */
  ghost predicate WellFormedSsh(s: string) {
    || ' ' !in s
    || (exists p, n :: ' ' !in p && ' ' !in n && s == SignEntry(p, n))
    || (exists p, d :: ' ' !in p && Destination(d) && s == AuthenticateEntry(p, d))
  }

  /** A server, or a user at one. */
  ghost predicate Destination(d: string) {
    ' ' !in d && ('@' in d ==> exists user, host :: user != "" && '@' !in host && d == user + "@" + host)
  }

  /** The first entry permits every signature the second does. */
  ghost predicate SshContains(g: string, c: string) {
    forall r: SshRequest :: r.Valid() && EntryPermits(c, r) ==> EntryPermits(g, r)
  }

  /** One entry covers another, in the gate's sense, exactly when it permits all that one does. */
  lemma SshCoversExact(g: string, c: string)
    requires WellFormedSsh(g) && WellFormedSsh(c)
    ensures SshCovered({g}, c) <==> SshContains(g, c)
  {
    if SshCovered({g}, c) {
      forall r: SshRequest | r.Valid() && EntryPermits(c, r) ensures EntryPermits(g, r) {
        SshCoverageContains({g}, c, r);
      }
    }
    if SshContains(g, c) {
      if ' ' !in c {
        PhaseCovered(g, c);
      } else if p, n :| ' ' !in p && ' ' !in n && c == SignEntry(p, n) {
        SignCovered(g, p, n);
      } else {
        var p, d :| ' ' !in p && Destination(d) && c == AuthenticateEntry(p, d);
        AuthenticateCovered(g, p, d);
      }
    }
  }

  lemma PhaseCovered(g: string, c: string)
    requires ' ' !in c && SshContains(g, c)
    ensures g == c
  {
    var r := AnythingElse(c);
    assert r.Valid() && EntryPermits(c, r);
    assert EntryPermits(g, r);
  }

  lemma SignCovered(g: string, p: string, n: string)
    requires ' ' !in p && ' ' !in n && SshContains(g, SignEntry(p, n))
    ensures SshCovered({g}, SignEntry(p, n))
  {
    var r := Sign(p, n);
    assert r.Valid() && EntryPermits(SignEntry(p, n), r);
    assert EntryPermits(g, r);
    CutAt(p, "sign " + n, ' ');
  }

  lemma AuthenticateCovered(g: string, p: string, d: string)
    requires ' ' !in p && Destination(d) && SshContains(g, AuthenticateEntry(p, d))
    ensures SshCovered({g}, AuthenticateEntry(p, d))
  {
    var c, rest := AuthenticateEntry(p, d), "authenticate " + d;
    CutAt(p, rest, ' ');
    assert rest[|"authenticate "|..] == d;
    if '@' in d {
      var user, host :| user != "" && '@' !in host && d == user + "@" + host;
      var r := Authenticate(p, user, host);
      assert forall x :: x in user || x in host ==> x in d;
      assert r.Valid() && EntryPermits(c, r);
      assert EntryPermits(g, r);
      HostAfterUser(user, host);
    } else {
      var r, q := Authenticate(p, "a", d), Authenticate(p, "b", d);
      assert r.Valid() && EntryPermits(c, r) && q.Valid() && EntryPermits(c, q);
      assert EntryPermits(g, r) && EntryPermits(g, q);
      EntriesApart(p, "a" + "@" + d, p, "b" + "@" + d);
      EntriesApart(p, "a" + "@" + d, p, d);
      EntriesApart(p, "b" + "@" + d, p, d);
      assert ("a" + "@" + d)[0] != ("b" + "@" + d)[0];
    }
  }

  lemma CutOfEntry(c: string, r: SshRequest)
    requires EntryPermits(c, r) && r.Valid()
    ensures Cut(c, ' ').before == r.phase && (c == r.phase ==> Cut(c, ' ').after == "")
  {
    if c == r.phase {
      CutNone(c, ' ');
    } else {
      match r
      case Sign(phase, namespace) => CutAt(phase, "sign " + namespace, ' ');
      case Authenticate(phase, user, host) =>
        CutAt(phase, "authenticate " + (user + "@" + host), ' ');
        CutAt(phase, "authenticate " + host, ' ');
      case AnythingElse(_) =>
    }
  }

  lemma DestinationOf(c: string, d: string, r: SshRequest)
    requires EntryPermits(c, r) && r.Valid() && c != r.phase
    requires "authenticate " <= Cut(c, ' ').after && d == Cut(c, ' ').after[|"authenticate "|..]
    requires DestinationHost(d) != d
    ensures r.Authenticate? && DestinationHost(d) == r.host
  {
    match r
    case Sign(phase, namespace) =>
      var rest := "sign " + namespace;
      assert rest[0] == 's';
      CutAt(phase, rest, ' ');
    case Authenticate(phase, user, host) =>
      var long, short := "authenticate " + (user + "@" + host), "authenticate " + host;
      CutAt(phase, long, ' ');
      CutAt(phase, short, ' ');
      assert long[13..] == user + "@" + host && short[13..] == host;
      HostAfterUser(user, host);
    case AnythingElse(_) =>
  }

  // Merging

  /** One socket serves both: the union of what either may sign. */
  method MergeSshAgents(a: SshAgent, b: SshAgent) returns (m: SshAgent)
    requires a.phases == b.phases
    ensures forall r: SshRequest :: AgentPermits(m, r) <==> AgentPermits(a, r) || AgentPermits(b, r)
  {
    if !a.Bounded() || !b.Bounded() {
      return SshAgent(a.phases, true, [], []);
    }
    var sign := UnionSorted(a.sign, b.sign);
    var authenticate := UnionSorted(a.authenticate, b.authenticate);
    m := SshAgent(a.phases, false, sign, authenticate);
  }

  method UnionSorted(a: seq<string>, b: seq<string>) returns (out: seq<string>)
    ensures Spells(out, (set x | x in a) + (set x | x in b))
  {
    var seen: set<string> := {};
    var all := a + b;
    for i := 0 to |all|
      invariant forall x :: x in seen <==> x in all[..i]
    {
      assert all[..i + 1] == all[..i] + [all[i]];
      seen := seen + {all[i]};
    }
    assert all[..|all|] == all;
    out := SortNames(seen);
    assert seen == (set x | x in a) + (set x | x in b);
  }
}

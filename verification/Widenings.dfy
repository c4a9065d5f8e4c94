/** Every way one surface asks for more than another, and what an empty report means. */
module Widenings {
  import opened Patterns
  import opened Networks
  import opened HttpGrants
  import opened SshGrants
  import opened Surfaces

  ghost function Elements<T(!new)>(s: seq<T>): set<T> {
    set x | x in s
  }

  method MissingFrom<T(==, !new)>(granted: seq<T>, candidate: seq<T>) returns (out: seq<T>)
    ensures forall x :: x in out <==> x in candidate && x !in granted
  {
    var have: set<T> := {};
    for i := 0 to |granted|
      invariant forall x :: x in have <==> x in granted[..i]
    {
      assert granted[..i + 1] == granted[..i] + [granted[i]];
      have := have + {granted[i]};
    }
    assert granted[..|granted|] == granted;
    out := [];
    for i := 0 to |candidate|
      invariant forall x :: x in out <==> x in candidate[..i] && x !in have
    {
      assert candidate[..i + 1] == candidate[..i] + [candidate[i]];
      if candidate[i] !in have {
        out := out + [candidate[i]];
      }
    }
    assert candidate[..|candidate|] == candidate;
  }

  // Grants a lock written before the HTTP lists leaves out

  /** No HTTP grant names any port of the host. */
  predicate Unmentioned(grants: seq<string>, host: string) {
    forall g :: g in grants ==> NameOf(HttpEntryHost(g)) != NameOf(host)
  }

  ghost function Implied(hosts: seq<string>, grants: seq<string>): set<string> {
    set h | h in hosts && Unmentioned(grants, h) :: RenderHttp(ANY, h, "/**")
  }

  ghost function CompletedSet(hosts: seq<string>, grants: seq<string>): set<string> {
    Elements(grants) + Implied(hosts, grants)
  }

  lemma BareHostGrants(h: string)
    ensures HttpSet([NetworkEntry([h], [], [])]) == {RenderHttp(ANY, h, "/**")}
  {
    var e := NetworkEntry([h], [], []);
    assert h in e.hosts && EntryMethods(e) == [ANY] && EntryPaths(e) == ["/**"];
    assert ANY in [ANY] && GrantVerbs(e) == [ANY] && "/**" in ["/**"];
    assert e in [e];
  }

  method CompleteHttpGrants(hosts: seq<string>, grants: seq<string>) returns (out: seq<string>)
    ensures Elements(out) == CompletedSet(hosts, grants)
    ensures Implied(hosts, grants) == {} ==> out == grants
  {
    var bounded: set<string> := {};
    for i := 0 to |grants|
      invariant forall n :: n in bounded <==> exists g :: g in grants[..i] && n == NameOf(HttpEntryHost(g))
    {
      assert grants[..i + 1] == grants[..i] + [grants[i]];
      bounded := bounded + {NameOf(HttpEntryHost(grants[i]))};
    }
    assert grants[..|grants|] == grants;
    var entries: seq<NetworkEntry> := [];
    for i := 0 to |hosts|
      invariant HttpSet(entries) == Implied(hosts[..i], grants)
      invariant entries == [] <==> forall h :: h in hosts[..i] ==> !Unmentioned(grants, h)
    {
      assert hosts[..i + 1] == hosts[..i] + [hosts[i]];
      if NameOf(hosts[i]) !in bounded {
        BareHostGrants(hosts[i]);
        HttpSetSplit(entries, NetworkEntry([hosts[i]], [], []));
        entries := entries + [NetworkEntry([hosts[i]], [], [])];
      }
    }
    assert hosts[..|hosts|] == hosts;
    if entries == [] {
      return grants;
    }
    var implied := EntrySurface(entries);
    out := Normalized(grants + implied);
    assert Elements(grants + implied) == Elements(grants) + Elements(implied);
    ImpliedSome(hosts, grants);
  }

  lemma ImpliedSome(hosts: seq<string>, grants: seq<string>)
    ensures Implied(hosts, grants) == {} <==> forall h :: h in hosts ==> !Unmentioned(grants, h)
  {
    if h :| h in hosts && Unmentioned(grants, h) {
      assert RenderHttp(ANY, h, "/**") in Implied(hosts, grants);
    }
  }

  // The HTTP lists

  ghost predicate HttpCovered(granted: set<string>, entry: string) {
    exists g :: g in granted && EntryCovers(ParseHttpEntry(g), ParseHttpEntry(entry))
  }

  method FindCover(granted: seq<string>, entry: string) returns (covered: bool)
    ensures covered <==> HttpCovered(Elements(granted), entry)
  {
    for i := 0 to |granted|
      invariant forall j :: 0 <= j < i ==> !EntryCovers(ParseHttpEntry(granted[j]), ParseHttpEntry(entry))
    {
      if EntryCovers(ParseHttpEntry(granted[i]), ParseHttpEntry(entry)) {
        assert granted[i] in Elements(granted);
        return true;
      }
    }
    covered := false;
  }

  /** The report of a newly allowed host already says it. */
  predicate Suppressed(added: set<string>, hosts: seq<string>, host: string) {
    var cut := Cut(host, ':');
    if cut.found then host in added || cut.before in added
    else
      && (exists h :: h in hosts && NameOf(h) == cut.before)
      && forall h :: h in hosts && NameOf(h) == cut.before ==> h in added
  }

  method IsSuppressed(added: set<string>, hosts: seq<string>, host: string) returns (suppressed: bool)
    ensures suppressed == Suppressed(added, hosts, host)
  {
    var cut := Cut(host, ':');
    if cut.found {
      return host in added || cut.before in added;
    }
    var some := false;
    for i := 0 to |hosts|
      invariant some <==> exists j :: 0 <= j < i && NameOf(hosts[j]) == cut.before
      invariant forall j :: 0 <= j < i && NameOf(hosts[j]) == cut.before ==> hosts[j] in added
    {
      if NameOf(hosts[i]) == cut.before {
        some := true;
        if hosts[i] !in added {
          return false;
        }
      }
    }
    suppressed := some;
  }

  lemma NothingSuppressed(hosts: seq<string>, host: string)
    ensures !Suppressed({}, hosts, host)
  {
  }

  /**
   * A request to a host with a port is left to the report of that host or of its bare name, if either is newly
   * allowed; one to a bare host only if every spelling of it now allowed is new, and there is one.
   */
  lemma SuppressedExactly(granted: seq<string>, candidate: seq<string>, host: string)
    ensures Suppressed(Elements(candidate) - Elements(granted), candidate, host) <==>
      if ':' in host then exists h :: (h == host || h == NameOf(host)) && h in candidate && h !in granted
      else (exists h :: h in candidate && NameOf(h) == host) && forall h :: h in granted && NameOf(h) == host ==> h !in candidate
  {
    CutParts(host, ':');
  }

  method HttpWidenings(grantedHosts: seq<string>, candidateHosts: seq<string>, granted: seq<string>, candidate: seq<string>)
    returns (out: seq<string>)
    ensures forall e :: e in out <==>
      && e in candidate && !HttpCovered(Elements(granted), e)
      && !Suppressed(Elements(candidateHosts) - Elements(grantedHosts), candidateHosts, ParseHttpEntry(e).host)
  {
    var missing := MissingFrom(grantedHosts, candidateHosts);
    var added := set h | h in missing;
    assert added == Elements(candidateHosts) - Elements(grantedHosts);
    out := [];
    for i := 0 to |candidate|
      invariant forall e :: e in out <==>
        e in candidate[..i] && !HttpCovered(Elements(granted), e) && !Suppressed(added, candidateHosts, ParseHttpEntry(e).host)
    {
      var e := candidate[i];
      assert candidate[..i + 1] == candidate[..i] + [e];
      var covered := FindCover(granted, e);
      var suppressed := IsSuppressed(added, candidateHosts, ParseHttpEntry(e).host);
      if !covered && !suppressed {
        out := out + [e];
      }
    }
    assert candidate[..|candidate|] == candidate;
  }

  method HttpDenyRemovals(grantedHosts: seq<string>, candidateHosts: seq<string>, granted: seq<string>, candidate: seq<string>)
    returns (out: seq<string>)
    ensures forall e :: e in out <==>
      && e in granted && !HttpCovered(Elements(candidate), e)
      && ParseHttpEntry(e).host !in Elements(grantedHosts) - Elements(candidateHosts)
  {
    var lost := MissingFrom(candidateHosts, grantedHosts);
    var dropped := set h | h in lost;
    assert dropped == Elements(grantedHosts) - Elements(candidateHosts);
    out := [];
    for i := 0 to |granted|
      invariant forall e :: e in out <==>
        e in granted[..i] && !HttpCovered(Elements(candidate), e) && ParseHttpEntry(e).host !in dropped
    {
      var e := granted[i];
      assert granted[..i + 1] == granted[..i] + [e];
      if ParseHttpEntry(e).host !in dropped {
        var covered := FindCover(candidate, e);
        if !covered {
          out := out + [e];
        }
      }
    }
    assert granted[..|granted|] == granted;
  }

  // The whole report

  datatype Widening = Widening(category: string, detail: string)

  function Details(category: string, details: seq<string>): seq<Widening> {
    if details == [] then [] else Details(category, details[..|details| - 1]) + [Widening(category, details[|details| - 1])]
  }

  function PlainDetails(grants: seq<Grant>): seq<Widening> {
    if grants == [] then []
    else PlainDetails(grants[..|grants| - 1]) + [Widening(CategoryName(grants[|grants| - 1].category), grants[|grants| - 1].what)]
  }

  function CategoryName(c: Category): string {
    match c
    case CredentialsInstall => "credentials.install"
    case CredentialsRuntime => "credentials.runtime"
    case Storage => "storage"
    case Skills => "skills"
    case SkillsWrite => "skills.write"
    case Ports => "ports"
    case Usb => "usb"
    case Services => "services"
  }

  lemma CategoriesApart(a: Category, b: Category)
    ensures CategoryName(a) == CategoryName(b) <==> a == b
    ensures CategoryName(a) != "ssh-agent" && CategoryName(a) != "privileged"
  {
    var s, t := CategoryName(a), CategoryName(b);
    assert |s| == |t| == 19 ==> s[12] == t[12] ==> a == b;
    assert |s| > 12 ==> s[0] == 'c';
  }

  /** One phase asks for no host, no request and no lifted refusal the granted one does not have. */
  ghost predicate PhaseWithin(g: PhaseSurface, c: PhaseSurface) {
    && (forall h :: h in c.allow ==> h in g.allow)
    && (forall h :: h in g.deny ==> h in c.deny)
    && (forall e :: e in c.httpAllow ==> HttpCovered(CompletedSet(g.allow, g.httpAllow), e))
    && (forall e :: e in g.httpDeny ==> HttpCovered(Elements(c.httpDeny), e))
  }

  ghost predicate Within(g: Surface, c: Surface) {
    && PhaseWithin(g.install, c.install) && PhaseWithin(g.runtime, c.runtime)
    && (forall e :: e in c.ssh ==> SshCovered(Elements(g.ssh), e))
    && (forall x :: x in c.plain ==> x in g.plain)
    && (c.privileged ==> g.privileged)
  }

  lemma CoversItself(entries: set<string>, e: string)
    requires e in entries
    ensures HttpCovered(entries, e)
  {
    assert EntryCovers(ParseHttpEntry(e), ParseHttpEntry(e));
  }

  lemma WithinItself(s: Surface)
    ensures Within(s, s)
  {
    forall e | e in s.install.httpAllow ensures HttpCovered(CompletedSet(s.install.allow, s.install.httpAllow), e) {
      CoversItself(CompletedSet(s.install.allow, s.install.httpAllow), e);
    }
    forall e | e in s.runtime.httpAllow ensures HttpCovered(CompletedSet(s.runtime.allow, s.runtime.httpAllow), e) {
      CoversItself(CompletedSet(s.runtime.allow, s.runtime.httpAllow), e);
    }
    forall e | e in s.install.httpDeny ensures HttpCovered(Elements(s.install.httpDeny), e) {
      CoversItself(Elements(s.install.httpDeny), e);
    }
    forall e | e in s.runtime.httpDeny ensures HttpCovered(Elements(s.runtime.httpDeny), e) {
      CoversItself(Elements(s.runtime.httpDeny), e);
    }
  }

  /** What one phase's report holds. */
  ghost predicate PhaseReports(phase: string, g: PhaseSurface, c: PhaseSurface, w: Widening) {
    || (w.category == "network." + phase + ".allow" && w.detail in c.allow && w.detail !in g.allow)
    || (w.category == "network." + phase + ".deny-removed" && w.detail in g.deny && w.detail !in c.deny)
    || (w.category == "network." + phase + ".http.allow" && w.detail in c.httpAllow
        && !HttpCovered(CompletedSet(g.allow, g.httpAllow), w.detail)
        && !Suppressed(Elements(c.allow) - Elements(g.allow), c.allow, ParseHttpEntry(w.detail).host))
    || (w.category == "network." + phase + ".http.deny-removed" && w.detail in g.httpDeny
        && !HttpCovered(Elements(c.httpDeny), w.detail)
        && ParseHttpEntry(w.detail).host !in Elements(g.deny) - Elements(c.deny))
  }

  /** Every way the candidate asks for more than was granted. */
  ghost predicate Reports(g: Surface, c: Surface, w: Widening) {
    || PhaseReports("install", g.install, c.install, w)
    || PhaseReports("runtime", g.runtime, c.runtime, w)
    || (w.category == "ssh-agent" && w.detail in c.ssh && !SshCovered(Elements(g.ssh), w.detail))
    || (exists x :: x in c.plain && x !in g.plain && w == Widening(CategoryName(x.category), x.what))
    || (c.privileged && !g.privileged && w == Widening("privileged", "requests privileged execution"))
  }

  lemma {:induction false} DetailsAre(category: string, details: seq<string>, w: Widening)
    ensures w in Details(category, details) <==> w.category == category && w.detail in details
    decreases |details|
  {
    if details != [] {
      DetailsAre(category, details[..|details| - 1], w);
      assert details == details[..|details| - 1] + [details[|details| - 1]];
      assert w.category == category ==> w == Widening(category, w.detail);
    }
  }

  lemma {:induction false} PlainDetailsAre(grants: seq<Grant>, w: Widening)
    ensures w in PlainDetails(grants) <==> exists x :: x in grants && w == Widening(CategoryName(x.category), x.what)
    decreases |grants|
  {
    if grants != [] {
      PlainDetailsAre(grants[..|grants| - 1], w);
      assert grants == grants[..|grants| - 1] + [grants[|grants| - 1]];
    }
  }

  method PhaseWidenings(phase: string, g: PhaseSurface, c: PhaseSurface) returns (out: seq<Widening>)
    ensures forall w :: w in out <==> PhaseReports(phase, g, c, w)
    ensures out == [] <==> PhaseWithin(g, c)
  {
    var allow := MissingFrom(g.allow, c.allow);
    var deny := MissingFrom(c.deny, g.deny);
    var complete := CompleteHttpGrants(g.allow, g.httpAllow);
    var http := HttpWidenings(g.allow, c.allow, complete, c.httpAllow);
    var removed := HttpDenyRemovals(g.deny, c.deny, g.httpDeny, c.httpDeny);
    out := Details("network." + phase + ".allow", allow) + Details("network." + phase + ".deny-removed", deny)
    + Details("network." + phase + ".http.allow", http) + Details("network." + phase + ".http.deny-removed", removed);
    forall w ensures w in out <==> PhaseReports(phase, g, c, w) {
      DetailsAre("network." + phase + ".allow", allow, w);
      DetailsAre("network." + phase + ".deny-removed", deny, w);
      DetailsAre("network." + phase + ".http.allow", http, w);
      DetailsAre("network." + phase + ".http.deny-removed", removed, w);
    }
    if allow == [] && deny == [] {
      EmptyReport(g, c, http, removed);
    } else if allow != [] {
      assert allow[0] in allow;
    } else {
      assert deny[0] in deny;
    }
  }

  /** With no host added or dropped, nothing is suppressed. */
  lemma EmptyReport(g: PhaseSurface, c: PhaseSurface, http: seq<string>, removed: seq<string>)
    requires (forall h :: h in c.allow ==> h in g.allow) && (forall h :: h in g.deny ==> h in c.deny)
    requires forall e :: e in http <==>
      && e in c.httpAllow && !HttpCovered(CompletedSet(g.allow, g.httpAllow), e)
      && !Suppressed(Elements(c.allow) - Elements(g.allow), c.allow, ParseHttpEntry(e).host)
    requires forall e :: e in removed <==>
      && e in g.httpDeny && !HttpCovered(Elements(c.httpDeny), e)
      && ParseHttpEntry(e).host !in Elements(g.deny) - Elements(c.deny)
    ensures http == [] && removed == [] <==> PhaseWithin(g, c)
  {
    assert Elements(c.allow) - Elements(g.allow) == {} && Elements(g.deny) - Elements(c.deny) == {};
    forall e | e in c.httpAllow ensures e in http <==> !HttpCovered(CompletedSet(g.allow, g.httpAllow), e) {
      NothingSuppressed(c.allow, ParseHttpEntry(e).host);
    }
    assert http == [] <==> forall e :: e !in http by { if http != [] { assert http[0] in http; } }
    assert removed == [] <==> forall e :: e !in removed by { if removed != [] { assert removed[0] in removed; } }
  }

  /** Reports each way the candidate exceeds what was granted, and nothing exactly when it is within that. */
  method DiffWidenings(g: Surface, c: Surface) returns (out: seq<Widening>)
    ensures forall w :: w in out <==> Reports(g, c, w)
    ensures out == [] <==> Within(g, c)
  {
    var install := PhaseWidenings("install", g.install, c.install);
    var runtime := PhaseWidenings("runtime", g.runtime, c.runtime);
    var ssh := SshAgentWidenings(g.ssh, c.ssh);
    var plain := MissingFrom(g.plain, c.plain);
    out := install + runtime + Details("ssh-agent", ssh) + PlainDetails(plain);
    if !g.privileged && c.privileged {
      out := out + [Widening("privileged", "requests privileged execution")];
    }
    assert Elements(g.ssh) == set x | x in g.ssh;
    forall w ensures w in out <==> Reports(g, c, w) {
      DetailsAre("ssh-agent", ssh, w);
      PlainDetailsAre(plain, w);
    }
    assert ssh == [] <==> forall e :: e in c.ssh ==> SshCovered(Elements(g.ssh), e) by { if ssh != [] { assert ssh[0] in ssh; } }
    assert plain == [] <==> forall x :: x in c.plain ==> x in g.plain by { if plain != [] { assert plain[0] in plain; } }
  }
}

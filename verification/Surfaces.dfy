/** What a kit asks the host to grant, and how a candidate update asks for more. */
module Surfaces {
  import opened Strings
  import opened Networks
  import opened HttpGrants
  import opened SshGrants

  datatype Category = CredentialsInstall | CredentialsRuntime | Storage | Skills | SkillsWrite | Ports | Usb | Services

  /** A grant compared by its text alone. */
  datatype Grant = Grant(category: Category, what: string)

  datatype Capability =
    | NetworkPolicy(policy: Policy)
    | Ssh(agent: SshAgent)
    | Granted(grants: seq<Grant>)
    | Privileged
    | Inert

  datatype PhaseSurface = PhaseSurface(allow: seq<string>, deny: seq<string>, httpAllow: seq<string>, httpDeny: seq<string>)

  datatype Surface = Surface(install: PhaseSurface, runtime: PhaseSurface, ssh: seq<string>, plain: seq<Grant>, privileged: bool) {
    function For(phase: Phase): PhaseSurface {
      if phase.Install? then install else runtime
    }
  }

  const NO_PHASE := PhaseSurface([], [], [], [])
  const NOTHING := Surface(NO_PHASE, NO_PHASE, [], [], false)

  // The projection

  function RulesIn(caps: seq<Capability>, phase: Phase): Rules {
    if caps == [] then Rules([], [])
    else
      var rest := RulesIn(caps[..|caps| - 1], phase);
      match caps[|caps| - 1]
      case NetworkPolicy(policy) => Rules(rest.allow + RulesFor(policy, phase).allow, rest.deny + RulesFor(policy, phase).deny)
      case _ => rest
  }

  ghost function HostSet(entries: seq<NetworkEntry>): set<string> {
    set e, h | e in entries && !e.Bounded() && h in e.hosts :: h
  }

  /** The verbs an entry grants: the wildcard alone if it states it. */
  function GrantVerbs(e: NetworkEntry): seq<string> {
    if ANY in EntryMethods(e) then [ANY] else EntryMethods(e)
  }

  ghost function HttpSet(entries: seq<NetworkEntry>): set<string> {
    set e, h, m, p | e in entries && h in e.hosts && m in GrantVerbs(e) && p in EntryPaths(e) :: RenderHttp(m, h, p)
  }

  ghost function PhaseSurfaceOf(r: Rules): PhaseSurface {
    PhaseSurface(Sorted(HostSet(r.allow)), Sorted(HostSet(r.deny)), Sorted(HttpSet(r.allow)), Sorted(HttpSet(r.deny)))
  }

  function SshSet(caps: seq<Capability>): set<string> {
    set c, s | c in caps && c.Ssh? && s in AgentEntries(c.agent) :: s
  }

  function PlainOf(caps: seq<Capability>): seq<Grant> {
    if caps == [] then []
    else
      var last := caps[|caps| - 1];
      PlainOf(caps[..|caps| - 1]) + (if last.Granted? then last.grants else [])
  }

  ghost function SurfaceFor(caps: seq<Capability>): Surface {
    Surface(PhaseSurfaceOf(RulesIn(caps, Install)), PhaseSurfaceOf(RulesIn(caps, Runtime)),
            Sorted(SshSet(caps)), PlainOf(caps), Privileged in caps)
  }

  /** Sorted and with repeats dropped. */
  method Normalized(list: seq<string>) returns (out: seq<string>)
    ensures out == Sorted(set s | s in list)
  {
    var seen: set<string> := {};
    for i := 0 to |list|
      invariant forall s :: s in seen <==> s in list[..i]
    {
      assert list[..i + 1] == list[..i] + [list[i]];
      seen := seen + {list[i]};
    }
    assert list[..|list|] == list;
    assert seen == set s | s in list;
    out := SortNames(seen);
  }

  method ConnectionHosts(entries: seq<NetworkEntry>) returns (out: seq<string>)
    ensures out == Sorted(HostSet(entries))
  {
    var all: seq<string> := [];
    for i := 0 to |entries|
      invariant forall h :: h in all <==> h in HostSet(entries[..i])
    {
      assert entries[..i + 1] == entries[..i] + [entries[i]];
      if !entries[i].Bounded() {
        all := all + entries[i].hosts;
      }
    }
    assert entries[..|entries|] == entries;
    assert (set s | s in all) == HostSet(entries);
    out := Normalized(all);
  }

  method PathGrants(verb: string, host: string, paths: seq<string>) returns (out: seq<string>)
    ensures forall s :: s in out <==> exists p :: p in paths && s == RenderHttp(verb, host, p)
  {
    out := [];
    for i := 0 to |paths|
      invariant forall s :: s in out <==> exists p :: p in paths[..i] && s == RenderHttp(verb, host, p)
    {
      assert paths[..i + 1] == paths[..i] + [paths[i]];
      out := out + [RenderHttp(verb, host, paths[i])];
    }
    assert paths[..|paths|] == paths;
  }

  method VerbGrants(host: string, verbs: seq<string>, paths: seq<string>) returns (out: seq<string>)
    ensures forall s :: s in out <==> exists m, p :: m in verbs && p in paths && s == RenderHttp(m, host, p)
  {
    out := [];
    for i := 0 to |verbs|
      invariant forall s :: s in out <==> exists m, p :: m in verbs[..i] && p in paths && s == RenderHttp(m, host, p)
    {
      assert verbs[..i + 1] == verbs[..i] + [verbs[i]];
      var more := PathGrants(verbs[i], host, paths);
      out := out + more;
    }
    assert verbs[..|verbs|] == verbs;
  }

  method HostGrants(e: NetworkEntry) returns (out: seq<string>)
    ensures forall s :: s in out <==> s in HttpSet([e])
  {
    out := [];
    var verbs := GrantVerbs(e);
    for i := 0 to |e.hosts|
      invariant forall s :: s in out <==>
        exists h, m, p :: h in e.hosts[..i] && m in verbs && p in EntryPaths(e) && s == RenderHttp(m, h, p)
    {
      assert e.hosts[..i + 1] == e.hosts[..i] + [e.hosts[i]];
      var more := VerbGrants(e.hosts[i], verbs, EntryPaths(e));
      out := out + more;
    }
    assert e.hosts[..|e.hosts|] == e.hosts;
    assert forall f :: f in [e] <==> f == e;
  }

  method EntrySurface(entries: seq<NetworkEntry>) returns (out: seq<string>)
    ensures forall s :: s in out <==> s in HttpSet(entries)
  {
    out := [];
    for i := 0 to |entries|
      invariant forall s :: s in out <==> s in HttpSet(entries[..i])
    {
      var more := HostGrants(entries[i]);
      out := out + more;
      assert entries[..i + 1] == entries[..i] + [entries[i]];
      HttpSetSplit(entries[..i], entries[i]);
    }
    assert entries[..|entries|] == entries;
  }

  lemma HttpSetSplit(a: seq<NetworkEntry>, e: NetworkEntry)
    ensures HttpSet(a + [e]) == HttpSet(a) + HttpSet([e])
  {
    forall s ensures s in HttpSet(a + [e]) <==> s in HttpSet(a) + HttpSet([e]) {
      if s in HttpSet(a + [e]) {
        var f, h, m, p :| f in a + [e] && h in f.hosts && m in GrantVerbs(f) && p in EntryPaths(f) && s == RenderHttp(m, h, p);
        assert f in a || f in [e];
      }
    }
  }

  method PhaseOf(r: Rules) returns (s: PhaseSurface)
    ensures s == PhaseSurfaceOf(r)
  {
    var allow := ConnectionHosts(r.allow);
    var deny := ConnectionHosts(r.deny);
    var admitted := EntrySurface(r.allow);
    var refused := EntrySurface(r.deny);
    assert (set x | x in admitted) == HttpSet(r.allow) && (set x | x in refused) == HttpSet(r.deny);
    var httpAllow := Normalized(admitted);
    var httpDeny := Normalized(refused);
    s := PhaseSurface(allow, deny, httpAllow, httpDeny);
  }

  method SurfaceOf(caps: seq<Capability>) returns (s: Surface)
    ensures s == SurfaceFor(caps)
  {
    var install, runtime := Rules([], []), Rules([], []);
    var ssh: seq<string>, plain: seq<Grant>, privileged := [], [], false;
    for i := 0 to |caps|
      invariant install == RulesIn(caps[..i], Install) && runtime == RulesIn(caps[..i], Runtime)
      invariant forall x :: x in ssh <==> x in SshSet(caps[..i])
      invariant plain == PlainOf(caps[..i]) && (privileged <==> Privileged in caps[..i])
    {
      assert caps[..i + 1][..i] == caps[..i];
      assert caps[..i + 1] == caps[..i] + [caps[i]];
      match caps[i] {
        case NetworkPolicy(policy) =>
          var a, b := RulesFor(policy, Install), RulesFor(policy, Runtime);
          install := Rules(install.allow + a.allow, install.deny + a.deny);
          runtime := Rules(runtime.allow + b.allow, runtime.deny + b.deny);
        case Ssh(agent) =>
          var more := SshAgentSurface(agent);
          ssh := ssh + more;
        case Granted(grants) => plain := plain + grants;
        case Privileged => privileged := true;
        case Inert =>
      }
    }
    assert caps[..|caps|] == caps;
    var installed := PhaseOf(install);
    var running := PhaseOf(runtime);
    assert (set x | x in ssh) == SshSet(caps);
    ssh := Normalized(ssh);
    s := Surface(installed, running, ssh, plain, privileged);
  }
}

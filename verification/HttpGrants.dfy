/** One atomic HTTP grant, as a surface lists it. */
module HttpGrants {
  import opened Patterns
  import opened Networks

  datatype HttpEntry = HttpEntry(verb: string, host: string, path: string)

  function RenderHttp(verb: string, host: string, path: string): string {
    verb + " " + (host + path)
  }

  function ParseHttpEntry(entry: string): HttpEntry {
    var head := Cut(entry, ' ');
    var place := Cut(head.after, '/');
    HttpEntry(head.before, place.before, if place.found then "/" + place.after else "/")
  }

  function HttpEntryHost(entry: string): string {
    var head := Cut(entry, ' ');
    if !head.found then "" else Cut(head.after, '/').before
  }

  /** An entry reads back as it was written. */
  lemma ParseRendered(verb: string, host: string, path: string)
    requires ' ' !in verb && '/' !in host && path != "" && path[0] == '/'
    ensures ParseHttpEntry(RenderHttp(verb, host, path)) == HttpEntry(verb, host, path)
    ensures HttpEntryHost(RenderHttp(verb, host, path)) == host
  {
    CutAt(verb, host + path, ' ');
    assert path == "/" + path[1..];
    assert host + path == host + ['/'] + path[1..];
    CutAt(host, path[1..], '/');
  }

  predicate WellFormedHttp(x: HttpEntry) {
    HostPattern(x.host) && PathPattern(x.path)
  }

  ghost predicate EntryMatches(globs: Globs, x: HttpEntry, r: Request) {
    r.Http? && HostMatches(globs, x.host, r.name, r.port) && MethodMatches(x.verb, r.verb) && PathMatches(globs, x.path, r.path)
  }

  predicate EntryCovers(g: HttpEntry, c: HttpEntry) {
    HostCovers(g.host, c.host) && (g.verb == c.verb || g.verb == ANY) && PathPatternCovers(g.path, c.path)
  }

  ghost predicate EntryContains(g: HttpEntry, c: HttpEntry) {
    forall globs, r :: EntryMatches(globs, c, r) ==> EntryMatches(globs, g, r)
  }

  /** What the gate takes one entry to cover, it contains. */
  lemma CoveredIsContained(g: HttpEntry, c: HttpEntry)
    requires WellFormedHttp(g) && WellFormedHttp(c) && EntryCovers(g, c)
    ensures EntryContains(g, c)
  {
    HostCoversExact(g.host, c.host);
    CoversContains(g.path, c.path);
  }

  /** A matcher that goes by the text lets some request to any host match the entry. */
  lemma SomeMatch(c: HttpEntry) returns (hosts: iset<(string, string)>, port: string, path: string)
    ensures HostMatches(Globs(hosts, Verbatim()), c.host, "", port) && PathMatches(Globs(hosts, Verbatim()), c.path, path)
  {
    hosts, port := iset{(NameOf(c.host), "")}, PortOf(c.host);
    path := Example(c.path, "");
    ExampleMatches(c.path, "");
  }

  /** The gate's coverage of one entry by another is containment, where the granted path has `**` only at its end. */
  lemma EntryCoversExact(g: HttpEntry, c: HttpEntry)
    requires WellFormedHttp(g) && WellFormedHttp(c) && Settled(g.path)
    ensures EntryCovers(g, c) <==> EntryContains(g, c)
  {
    if EntryCovers(g, c) {
      CoveredIsContained(g, c);
    }
    if EntryContains(g, c) {
      HostCoversExact(g.host, c.host);
      PathCoversExact(g.path, c.path);
      var hosts, port, path := SomeMatch(c);
      forall globs, name, at | HostMatches(globs, c.host, name, at) ensures HostMatches(globs, g.host, name, at) {
        assert EntryMatches(Globs(globs.hosts, Verbatim()), c, Http(c.verb, name, at, path));
      }
      forall globs, p | PathMatches(globs, c.path, p) ensures PathMatches(globs, g.path, p) {
        assert EntryMatches(Globs(hosts, globs.paths), c, Http(c.verb, "", port, p));
      }
      var verb := if c.verb == ANY then g.verb + "X" else c.verb;
      assert EntryMatches(Globs(hosts, Verbatim()), c, Http(verb, "", port, path));
      assert EntryMatches(Globs(hosts, Verbatim()), g, Http(verb, "", port, path));
    }
  }
}

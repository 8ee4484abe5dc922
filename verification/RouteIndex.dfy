/** The two lookup indexes of config.go, and the plain searches they must agree with. */
module RouteIndex {
  import opened Records

  datatype Route = Route(
    prefix: string,
    target: string,
    stripPrefix: bool,
    description: string,
    enabled: bool,
    maxConcurrent: int)

  datatype HTTPSite = HTTPSite(host: string, description: string, routes: seq<Route>)

  datatype PortForward = PortForward(
    port: int,
    target: string,
    manageCert: bool,
    backendTLS: bool,
    skipVerify: bool,
    proxyProto: bool,
    description: string,
    enabled: bool)

  datatype Domain = Domain(host: string, description: string, forwards: seq<PortForward>)

  /** A route with its limiter: so many slots, or none at all for unlimited. */
  datatype CompiledRoute = CompiledRoute(route: Route, slots: Option<nat>)

  datatype CompiledPF = CompiledPF(host: string, pf: PortForward, hasProxy: bool)

  function LowerChar(c: char): char {
    if 'A' <= c <= 'Z' then c - 'A' + 'a' else c
  }

  /** strings.ToLower, for ASCII. */
  function Lower(s: string): string {
    seq(|s|, i requires 0 <= i < |s| => LowerChar(s[i]))
  }

  lemma LowerTwice(s: string)
    ensures Lower(Lower(s)) == Lower(s)
  {}

  /** What lowering is: capital letters become the small ones, everything else stays. */
  lemma LowerExactly(s: string, i: nat)
    requires i < |s|
    ensures |Lower(s)| == |s|
    ensures 'A' <= s[i] <= 'Z' ==> 'a' <= Lower(s)[i] <= 'z' && Lower(s)[i] - 'a' == s[i] - 'A'
    ensures !('A' <= s[i] <= 'Z') ==> Lower(s)[i] == s[i]
  {}

  /// Routes of one site

  predicate PathMatches(prefix: string, path: string) {
    path == "/" + prefix || "/" + prefix + "/" <= path
  }

  function Compiled(r: Route): CompiledRoute {
    CompiledRoute(r, if r.maxConcurrent > 0 then Some(r.maxConcurrent) else None)
  }

  function EnabledRoutes(routes: seq<Route>): seq<CompiledRoute> {
    if routes == [] then []
    else (if routes[0].enabled then [Compiled(routes[0])] else []) + EnabledRoutes(routes[1..])
  }

  function Insert(c: CompiledRoute, s: seq<CompiledRoute>): seq<CompiledRoute> {
    if s == [] || |c.route.prefix| >= |s[0].route.prefix| then [c] + s
    else [s[0]] + Insert(c, s[1..])
  }

  /** The stable sort: longest prefix first, configured order among equals. */
  function Sorted(s: seq<CompiledRoute>): seq<CompiledRoute> {
    if s == [] then [] else Insert(s[0], Sorted(s[1..]))
  }

  ghost predicate Descending(s: seq<CompiledRoute>) {
    forall i, j | 0 <= i < j < |s| :: |s[i].route.prefix| >= |s[j].route.prefix|
  }

  function OfLength(s: seq<CompiledRoute>, n: nat): seq<CompiledRoute> {
    if s == [] then [] else (if |s[0].route.prefix| == n then [s[0]] else []) + OfLength(s[1..], n)
  }

  lemma {:induction false} InsertKeeps(c: CompiledRoute, s: seq<CompiledRoute>)
    ensures multiset(Insert(c, s)) == multiset(s) + multiset{c}
  {
    if s == [] || |c.route.prefix| >= |s[0].route.prefix| {
    } else {
      InsertKeeps(c, s[1..]);
      assert s == [s[0]] + s[1..];
    }
  }

  lemma {:induction false} InsertSorts(c: CompiledRoute, s: seq<CompiledRoute>)
    requires Descending(s)
    ensures Descending(Insert(c, s))
  {
    if s == [] || |c.route.prefix| >= |s[0].route.prefix| {
    } else {
      var t := Insert(c, s[1..]);
      InsertSorts(c, s[1..]);
      InsertKeeps(c, s[1..]);
      forall i | 0 <= i < |t|
        ensures |s[0].route.prefix| >= |t[i].route.prefix|
      {
        assert t[i] in multiset(t);
        assert t[i] == c || t[i] in s[1..];
      }
    }
  }

  lemma {:induction false} InsertIsStable(c: CompiledRoute, s: seq<CompiledRoute>, n: nat)
    requires Descending(s)
    ensures OfLength(Insert(c, s), n) == (if |c.route.prefix| == n then [c] else []) + OfLength(s, n)
  {
    if s == [] || |c.route.prefix| >= |s[0].route.prefix| {
    } else {
      InsertIsStable(c, s[1..], n);
      if |c.route.prefix| == n {
        assert |s[0].route.prefix| != n;
      }
    }
  }

  lemma {:induction false} SortedKeeps(s: seq<CompiledRoute>)
    ensures multiset(Sorted(s)) == multiset(s)
  {
    if s != [] {
      SortedKeeps(s[1..]);
      InsertKeeps(s[0], Sorted(s[1..]));
      assert s == [s[0]] + s[1..];
    }
  }

  /** A permutation, in order of falling length, with routes of one length in their configured order. */
  lemma {:induction false} SortedSorts(s: seq<CompiledRoute>, n: nat)
    ensures Descending(Sorted(s))
    ensures multiset(Sorted(s)) == multiset(s)
    ensures OfLength(Sorted(s), n) == OfLength(s, n)
  {
    SortedKeeps(s);
    if s != [] {
      SortedSorts(s[1..], n);
      InsertSorts(s[0], Sorted(s[1..]));
      InsertIsStable(s[0], Sorted(s[1..]), n);
    }
  }

  function FirstMatch(s: seq<CompiledRoute>, path: string): Option<CompiledRoute> {
    if s == [] then None
    else if PathMatches(s[0].route.prefix, path) then Some(s[0])
    else FirstMatch(s[1..], path)
  }

  /** routes[i] is the answer: the longest enabled match, and among equals the one configured first. */
  ghost predicate IsBest(routes: seq<Route>, path: string, i: nat) {
    && i < |routes|
    && routes[i].enabled && PathMatches(routes[i].prefix, path)
    && forall j | 0 <= j < |routes| && routes[j].enabled && PathMatches(routes[j].prefix, path) ::
         |routes[j].prefix| < |routes[i].prefix| || (|routes[j].prefix| == |routes[i].prefix| && i <= j)
  }

  lemma {:induction false} FirstMatchOfInsert(c: CompiledRoute, s: seq<CompiledRoute>, path: string)
    requires Descending(s)
    ensures var m := FirstMatch(s, path);
      FirstMatch(Insert(c, s), path) ==
        if PathMatches(c.route.prefix, path) && (m.None? || |c.route.prefix| >= |m.value.route.prefix|)
        then Some(c) else m
  {
    var m := FirstMatch(s, path);
    FirstMatchIsIn(s, path);
    if s == [] || |c.route.prefix| >= |s[0].route.prefix| {
      assert ([c] + s)[1..] == s;
    } else {
      FirstMatchOfInsert(c, s[1..], path);
      assert ([s[0]] + Insert(c, s[1..]))[1..] == Insert(c, s[1..]);
    }
  }

  lemma {:induction false} FirstMatchIsIn(s: seq<CompiledRoute>, path: string)
    ensures FirstMatch(s, path).Some? ==>
              FirstMatch(s, path).value in s && PathMatches(FirstMatch(s, path).value.route.prefix, path)
  {
    if s != [] && !PathMatches(s[0].route.prefix, path) {
      FirstMatchIsIn(s[1..], path);
    }
  }

  lemma BestAtHead(routes: seq<Route>, path: string)
    requires routes != [] && routes[0].enabled && PathMatches(routes[0].prefix, path)
    requires (forall j | 0 <= j < |routes[1..]| && routes[1..][j].enabled :: !PathMatches(routes[1..][j].prefix, path))
             || exists i: nat :: IsBest(routes[1..], path, i) && |routes[0].prefix| >= |routes[1..][i].prefix|
    ensures IsBest(routes, path, 0)
  {}

  lemma BestInTail(routes: seq<Route>, path: string, i: nat)
    requires routes != [] && IsBest(routes[1..], path, i)
    requires routes[0].enabled && PathMatches(routes[0].prefix, path) ==> |routes[0].prefix| < |routes[1..][i].prefix|
    ensures IsBest(routes, path, i + 1) && routes[i + 1] == routes[1..][i]
  {}

  lemma FirstMatchGrows(r: Route, s: seq<CompiledRoute>, path: string)
    ensures var m := FirstMatch(Sorted(s), path);
      FirstMatch(Sorted((if r.enabled then [Compiled(r)] else []) + s), path) ==
        if r.enabled && PathMatches(r.prefix, path) && (m.None? || |r.prefix| >= |m.value.route.prefix|)
        then Some(Compiled(r)) else m
  {
    if r.enabled {
      SortedSorts(s, 0);
      FirstMatchOfInsert(Compiled(r), Sorted(s), path);
      assert ([Compiled(r)] + s)[1..] == s;
    } else {
      assert [] + s == s;
    }
  }

  /** Looking the path up in the sorted index is the same as searching the configured list. */
  lemma {:induction false} IndexAgreesWithList(routes: seq<Route>, path: string)
    ensures match FirstMatch(Sorted(EnabledRoutes(routes)), path)
      case None => forall j | 0 <= j < |routes| && routes[j].enabled :: !PathMatches(routes[j].prefix, path)
      case Some(c) => exists i: nat :: IsBest(routes, path, i) && c == Compiled(routes[i])
  {
    if routes == [] {
      return;
    }
    var r, rest := routes[0], routes[1..];
    IndexAgreesWithList(rest, path);
    var s := Sorted(EnabledRoutes(rest));
    var m := FirstMatch(s, path);
    FirstMatchGrows(r, EnabledRoutes(rest), path);
    assert EnabledRoutes(routes) == (if r.enabled then [Compiled(r)] else []) + EnabledRoutes(rest);
    if r.enabled && PathMatches(r.prefix, path) && (m.None? || |r.prefix| >= |m.value.route.prefix|) {
      BestAtHead(routes, path);
    } else if m.Some? {
      var i: nat :| IsBest(rest, path, i) && m.value == Compiled(rest[i]);
      BestInTail(routes, path, i);
    } else {
      assert forall j | 1 <= j < |routes| :: routes[j] == rest[j - 1];
    }
  }

  /** There is never more than one answer. */
  lemma BestIsUnique(routes: seq<Route>, path: string, i: nat, j: nat)
    requires IsBest(routes, path, i) && IsBest(routes, path, j)
    ensures i == j
  {}

  /// Validated prefixes contain no slash, so only the first segment of the path counts.

  function UpToSlash(s: string): (r: string)
    ensures r <= s && '/' !in r
    ensures r != s ==> |r| < |s| && s[|r|] == '/'
  {
    if s == "" || s[0] == '/' then "" else [s[0]] + UpToSlash(s[1..])
  }

  function FirstSegment(path: string): Option<string> {
    if path != "" && path[0] == '/' then Some(UpToSlash(path[1..])) else None
  }

  lemma {:induction false} UpToSlashOf(p: string, rest: string)
    requires '/' !in p && (rest == "" || rest[0] == '/')
    ensures UpToSlash(p + rest) == p
  {
    if p != "" {
      assert (p + rest)[1..] == p[1..] + rest;
      UpToSlashOf(p[1..], rest);
    } else {
      assert p + rest == rest;
    }
  }

  lemma SegmentDecides(prefix: string, path: string)
    requires '/' !in prefix
    ensures PathMatches(prefix, path) <==> FirstSegment(path) == Some(prefix)
  {
    if PathMatches(prefix, path) {
      var rest := path[1 + |prefix|..];
      assert path == "/" + prefix + rest;
      assert path[1..] == prefix + rest;
      UpToSlashOf(prefix, rest);
    }
    if FirstSegment(path) == Some(prefix) {
      var tail := path[1..];
      assert path == "/" + tail;
      if tail != prefix {
        assert tail[..|prefix| + 1] == prefix + "/";
        assert path[..|prefix| + 2] == "/" + prefix + "/";
      }
    }
  }

  ghost predicate ValidPrefixes(routes: seq<Route>) {
    && (forall r | r in routes :: '/' !in r.prefix)
    && (forall i, j | 0 <= i < j < |routes| :: routes[i].prefix != routes[j].prefix)
  }

  /** With validated prefixes at most one route can match, whatever their order. */
  lemma AtMostOneMatches(routes: seq<Route>, path: string, i: nat, j: nat)
    requires ValidPrefixes(routes) && i < |routes| && j < |routes|
    requires PathMatches(routes[i].prefix, path) && PathMatches(routes[j].prefix, path)
    ensures i == j
  {
    assert routes[i] in routes && routes[j] in routes;
    SegmentDecides(routes[i].prefix, path);
    SegmentDecides(routes[j].prefix, path);
  }

  /// Sites

  type SiteIndex = map<string, seq<CompiledRoute>>

  /** The index of the sites, one list of routes per lower-cased host; a later duplicate host wins. */
  function SitesIndex(sites: seq<HTTPSite>): SiteIndex {
    if sites == [] then map[]
    else
      var n := |sites| - 1;
      SitesIndex(sites[..n])[Lower(sites[n].host) := Sorted(EnabledRoutes(sites[n].routes))]
  }

  function MatchSite(index: SiteIndex, host: string, path: string): Option<CompiledRoute> {
    if Lower(host) in index then FirstMatch(index[Lower(host)], path) else None
  }

  ghost predicate UniqueHosts(sites: seq<HTTPSite>) {
    forall i, j | 0 <= i < j < |sites| :: Lower(sites[i].host) != Lower(sites[j].host)
  }

  lemma {:induction false} SitesIndexAt(sites: seq<HTTPSite>, i: nat)
    requires UniqueHosts(sites) && i < |sites|
    ensures Lower(sites[i].host) in SitesIndex(sites)
    ensures SitesIndex(sites)[Lower(sites[i].host)] == Sorted(EnabledRoutes(sites[i].routes))
  {
    var n := |sites| - 1;
    if i < n {
      SitesIndexAt(sites[..n], i);
    }
  }

  lemma {:induction false} SitesIndexKeys(sites: seq<HTTPSite>, h: string)
    ensures h in SitesIndex(sites) <==> exists i | 0 <= i < |sites| :: Lower(sites[i].host) == h
  {
    if sites != [] {
      var n := |sites| - 1;
      SitesIndexKeys(sites[..n], h);
      if h != Lower(sites[n].host) && exists i | 0 <= i < |sites| :: Lower(sites[i].host) == h {
        var i :| 0 <= i < |sites| && Lower(sites[i].host) == h;
        assert sites[..n][i] == sites[i];
      }
    }
  }

  /**
   The plain search: c answers for (host, path) if it is the best route of the one site whose host is
   equal up to case.
   */
  ghost predicate Answers(sites: seq<HTTPSite>, host: string, path: string, c: CompiledRoute) {
    exists i: nat, k: nat | i < |sites| && Lower(sites[i].host) == Lower(host) && IsBest(sites[i].routes, path, k) ::
      var r := sites[i].routes[k];
      c == CompiledRoute(r, if r.maxConcurrent > 0 then Some(r.maxConcurrent) else None)
  }

  lemma MatchSiteIsPlainSearch(sites: seq<HTTPSite>, host: string, path: string)
    requires UniqueHosts(sites)
    ensures forall c :: MatchSite(SitesIndex(sites), host, path) == Some(c) <==> Answers(sites, host, path, c)
  {
    var h := Lower(host);
    SitesIndexKeys(sites, h);
    forall i: nat | i < |sites| && Lower(sites[i].host) == h
      ensures forall c :: MatchSite(SitesIndex(sites), host, path) == Some(c) <==>
                          exists k: nat :: IsBest(sites[i].routes, path, k) && c == Compiled(sites[i].routes[k])
    {
      SitesIndexAt(sites, i);
      IndexAgreesWithList(sites[i].routes, path);
      forall k: nat, k': nat | IsBest(sites[i].routes, path, k) && IsBest(sites[i].routes, path, k')
        ensures k == k'
      {
        BestIsUnique(sites[i].routes, path, k, k');
      }
    }
  }

  /** With validated prefixes the answer depends on the host and the first segment of the path only. */
  lemma SegmentRoutes(sites: seq<HTTPSite>, host: string, path: string, path': string)
    requires UniqueHosts(sites) && forall s | s in sites :: ValidPrefixes(s.routes)
    requires FirstSegment(path) == FirstSegment(path')
    ensures MatchSite(SitesIndex(sites), host, path) == MatchSite(SitesIndex(sites), host, path')
  {
    MatchSiteIsPlainSearch(sites, host, path);
    MatchSiteIsPlainSearch(sites, host, path');
    forall i: nat, k: nat | i < |sites|
      ensures IsBest(sites[i].routes, path, k) <==> IsBest(sites[i].routes, path', k)
    {
      assert ValidPrefixes(sites[i].routes);
      SameBest(sites[i].routes, path, path', k);
    }
    assert forall c :: Answers(sites, host, path, c) <==> Answers(sites, host, path', c);
    var m, m' := MatchSite(SitesIndex(sites), host, path), MatchSite(SitesIndex(sites), host, path');
    if m.Some? {
      assert Answers(sites, host, path', m.value);
    } else if m'.Some? {
      assert Answers(sites, host, path, m'.value);
    }
  }

  lemma SameBest(routes: seq<Route>, path: string, path': string, k: nat)
    requires ValidPrefixes(routes) && FirstSegment(path) == FirstSegment(path')
    ensures IsBest(routes, path, k) <==> IsBest(routes, path', k)
  {
    forall j | 0 <= j < |routes|
      ensures PathMatches(routes[j].prefix, path) <==> PathMatches(routes[j].prefix, path')
    {
      assert routes[j] in routes;
      SegmentDecides(routes[j].prefix, path);
      SegmentDecides(routes[j].prefix, path');
    }
  }

  /// Domains

  type DomIndex = map<int, map<string, CompiledPF>>

  datatype Entry = Entry(port: int, host: string, cp: CompiledPF)

  function CompiledForward(host: string, f: PortForward): CompiledPF {
    CompiledPF(host, f, f.port == 80 || f.manageCert)
  }

  /** The address the proxy of a forward is built for, if it gets one. */
  function ProxyURL(f: PortForward): Option<string> {
    if f.port == 80 then Some("http://" + f.target)
    else if f.manageCert then Some((if f.backendTLS then "https" else "http") + "://" + f.target)
    else None
  }

  predicate Builds(f: PortForward, parses: string -> bool) {
    f.enabled && ProxyURL(f).Some? ==> parses(ProxyURL(f).value)
  }

  /**
   Which address has to parse for a forward to be compiled: none for a disabled or passed-through one, a plain
   one on port 80, and elsewhere the one its backend setting asks for.
   */
  lemma BuildsExactly(f: PortForward, parses: string -> bool)
    ensures !f.enabled || (f.port != 80 && !f.manageCert) ==> Builds(f, parses)
    ensures f.enabled && (f.port == 80 || (f.manageCert && !f.backendTLS)) ==>
              (Builds(f, parses) <==> parses("http://" + f.target))
    ensures f.enabled && f.port != 80 && f.manageCert && f.backendTLS ==>
              (Builds(f, parses) <==> parses("https://" + f.target))
  {
    assert "http" + "://" == "http://" && "https" + "://" == "https://";
  }

  function ForwardEntries(host: string, fs: seq<PortForward>): seq<Entry> {
    if fs == [] then []
    else
      var n := |fs| - 1;
      ForwardEntries(host, fs[..n])
      + (if fs[n].enabled then [Entry(fs[n].port, Lower(host), CompiledForward(host, fs[n]))] else [])
  }

  function Entries(domains: seq<Domain>): seq<Entry> {
    if domains == [] then []
    else
      var n := |domains| - 1;
      Entries(domains[..n]) + ForwardEntries(domains[n].host, domains[n].forwards)
  }

  function AddEntry(m: DomIndex, e: Entry): DomIndex {
    m[e.port := (if e.port in m then m[e.port] else map[])[e.host := e.cp]]
  }

  function DomainsIndex(es: seq<Entry>): DomIndex {
    if es == [] then map[]
    else
      var n := |es| - 1;
      AddEntry(DomainsIndex(es[..n]), es[n])
  }

  function MatchDomain(index: DomIndex, host: string, port: int): Option<CompiledPF> {
    if port in index && Lower(host) in index[port] then Some(index[port][Lower(host)]) else None
  }

  predicate IsTerminateHost(index: DomIndex, host: string) {
    exists p | p in index :: Lower(host) in index[p] && index[p][Lower(host)].pf.manageCert
  }

  predicate IsHTTPHost(index: SiteIndex, host: string) {
    Lower(host) in index
  }

  /** Hosts unique up to case and, within each domain, one forward per port. */
  ghost predicate UniqueDomains(domains: seq<Domain>) {
    && (forall i, j | 0 <= i < j < |domains| :: Lower(domains[i].host) != Lower(domains[j].host))
    && (forall d | d in domains :: UniquePorts(d.forwards))
  }

  ghost predicate UniquePorts(fs: seq<PortForward>) {
    forall i, j | 0 <= i < j < |fs| :: fs[i].port != fs[j].port
  }

  ghost predicate DistinctEntries(es: seq<Entry>) {
    forall i, j | 0 <= i < j < |es| :: es[i].port != es[j].port || es[i].host != es[j].host
  }

  lemma {:induction false} LookupIsEntry(es: seq<Entry>, port: int, host: string, cp: CompiledPF)
    requires DistinctEntries(es)
    ensures MatchDomain(DomainsIndex(es), host, port) == Some(cp) <==> Entry(port, Lower(host), cp) in es
  {
    if es != [] {
      var n := |es| - 1;
      LookupIsEntry(es[..n], port, host, cp);
      assert es == es[..n] + [es[n]];
    }
  }

  lemma {:induction false} IndexedPorts(es: seq<Entry>, port: int)
    ensures port in DomainsIndex(es) <==> exists e | e in es :: e.port == port
  {
    if es != [] {
      var n := |es| - 1;
      IndexedPorts(es[..n], port);
      assert es == es[..n] + [es[n]];
    }
  }

  lemma {:induction false} ForwardEntryIn(host: string, fs: seq<PortForward>, e: Entry)
    ensures e in ForwardEntries(host, fs) <==>
            exists f | f in fs :: f.enabled && e == Entry(f.port, Lower(host), CompiledForward(host, f))
  {
    if fs != [] {
      var n := |fs| - 1;
      ForwardEntryIn(host, fs[..n], e);
      assert fs == fs[..n] + [fs[n]];
    }
  }

  lemma {:induction false} EntryIn(domains: seq<Domain>, e: Entry)
    ensures e in Entries(domains) <==> exists d | d in domains :: e in ForwardEntries(d.host, d.forwards)
  {
    if domains != [] {
      var n := |domains| - 1;
      EntryIn(domains[..n], e);
      assert domains == domains[..n] + [domains[n]];
    }
  }

  /** Some domain of that host, up to case, has this enabled forward on that port. */
  ghost predicate Configured(domains: seq<Domain>, host: string, port: int, cp: CompiledPF) {
    exists d, f | d in domains && f in d.forwards ::
      f.enabled && f.port == port && Lower(d.host) == Lower(host)
      && cp == CompiledPF(d.host, f, f.port == 80 || f.manageCert)
  }

  lemma ConfiguredIsEntry(domains: seq<Domain>, host: string, port: int, cp: CompiledPF)
    ensures Configured(domains, host, port, cp) <==> Entry(port, Lower(host), cp) in Entries(domains)
  {
    var e := Entry(port, Lower(host), cp);
    EntryIn(domains, e);
    forall d | d in domains
      ensures e in ForwardEntries(d.host, d.forwards) <==>
              exists f | f in d.forwards :: f.enabled && e == Entry(f.port, Lower(d.host), CompiledForward(d.host, f))
    {
      ForwardEntryIn(d.host, d.forwards, e);
    }
  }

  lemma {:induction false} ForwardEntriesDistinct(host: string, fs: seq<PortForward>)
    requires UniquePorts(fs)
    ensures DistinctEntries(ForwardEntries(host, fs))
    ensures forall e | e in ForwardEntries(host, fs) :: e.host == Lower(host) && exists f | f in fs :: f.port == e.port
  {
    if fs != [] {
      var n := |fs| - 1;
      ForwardEntriesDistinct(host, fs[..n]);
      var es := ForwardEntries(host, fs[..n]);
      forall i | 0 <= i < |es|
        ensures es[i].port != fs[n].port
      {
        assert es[i] in es;
      }
      assert fs == fs[..n] + [fs[n]];
    }
  }

  lemma {:induction false} EntriesDistinct(domains: seq<Domain>)
    requires UniqueDomains(domains)
    ensures DistinctEntries(Entries(domains))
    ensures forall e | e in Entries(domains) :: exists d | d in domains :: e.host == Lower(d.host)
  {
    if domains != [] {
      var n := |domains| - 1;
      var d := domains[n];
      assert domains == domains[..n] + [d];
      EntriesDistinct(domains[..n]);
      ForwardEntriesDistinct(d.host, d.forwards);
      var es, fs := Entries(domains[..n]), ForwardEntries(d.host, d.forwards);
      forall i, j | 0 <= i < |es| && 0 <= j < |fs|
        ensures es[i].host != fs[j].host
      {
        assert es[i] in es && fs[j] in fs;
      }
    }
  }

  /** Every lookup in the compiled index is the plain search of the configured domains. */
  lemma MatchDomainIsPlainSearch(domains: seq<Domain>, host: string, port: int, cp: CompiledPF)
    requires UniqueDomains(domains)
    ensures MatchDomain(DomainsIndex(Entries(domains)), host, port) == Some(cp) <==> Configured(domains, host, port, cp)
  {
    EntriesDistinct(domains);
    LookupIsEntry(Entries(domains), port, host, cp);
    ConfiguredIsEntry(domains, host, port, cp);
  }

  /** The indexed ports are the ports of the enabled forwards. */
  lemma PortsAreEnabledPorts(domains: seq<Domain>, port: int)
    ensures port in DomainsIndex(Entries(domains)) <==>
            exists d, f | d in domains && f in d.forwards :: f.enabled && f.port == port
  {
    var es := Entries(domains);
    IndexedPorts(es, port);
    if port in DomainsIndex(es) {
      var e :| e in es && e.port == port;
      EntryIn(domains, e);
      var d :| d in domains && e in ForwardEntries(d.host, d.forwards);
      ForwardEntryIn(d.host, d.forwards, e);
    }
    if d, f :| d in domains && f in d.forwards && f.enabled && f.port == port {
      var e := Entry(f.port, Lower(d.host), CompiledForward(d.host, f));
      ForwardEntryIn(d.host, d.forwards, e);
      EntryIn(domains, e);
    }
  }

  lemma TerminateHostIsPlainSearch(domains: seq<Domain>, host: string)
    requires UniqueDomains(domains)
    ensures IsTerminateHost(DomainsIndex(Entries(domains)), host) <==>
            exists port, cp :: Configured(domains, host, port, cp) && cp.pf.manageCert
  {
    var index := DomainsIndex(Entries(domains));
    if IsTerminateHost(index, host) {
      var p :| p in index && Lower(host) in index[p] && index[p][Lower(host)].pf.manageCert;
      MatchDomainIsPlainSearch(domains, host, p, index[p][Lower(host)]);
    }
    if port, cp :| Configured(domains, host, port, cp) && cp.pf.manageCert {
      MatchDomainIsPlainSearch(domains, host, port, cp);
    }
  }
}

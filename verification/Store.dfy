/**
 The configuration store of config.go: four lists of records, two compiled indexes and the file.
 Whether the file can be written is the environment's choice, passed to each edit as `diskOk`.
 */
module Stores {
  import opened Records
  import opened KeyedLists
  import opened RouteIndex
  import opened Validation

  datatype Config = Config(
    sites: seq<HTTPSite>,
    forwards: seq<Forward>,
    dnat: seq<DNATRule>,
    domains: seq<Domain>)

  /** How an edit ends: done, refused before anything changed, or failed after memory changed. */
  datatype Result = Done | Invalid | Refused | NotCompiled | NotSaved

  function SiteKey(s: HTTPSite): string { Lower(s.host) }

  function DomainKey(d: Domain): string { Lower(d.host) }

  function ForwardKey(f: Forward): string { f.name }

  function RuleKey(r: DNATRule): string { r.name }

  predicate SameListen(a: Forward, b: Forward) { a.proto == b.proto && a.listen == b.listen }

  predicate SamePort(a: DNATRule, b: DNATRule) { a.proto == b.proto && a.listenPort == b.listenPort }

  predicate SitesBuild(sites: seq<HTTPSite>, parses: string -> bool) {
    forall s, r | s in sites && r in s.routes && r.enabled :: parses(r.target)
  }

  predicate DomainsBuild(domains: seq<Domain>, parses: string -> bool) {
    forall d, f | d in domains && f in d.forwards :: Builds(f, parses)
  }

  lemma EnabledStep(routes: seq<Route>, i: nat)
    requires i < |routes|
    ensures EnabledRoutes(routes[i..]) ==
            (if routes[i].enabled then [Compiled(routes[i])] else []) + EnabledRoutes(routes[i + 1..])
  {}

  /** The loop of recompileLocked over the routes of one site. */
  method CompileRoutes(routes: seq<Route>, parses: string -> bool) returns (r: Option<seq<CompiledRoute>>)
    ensures r.Some? <==> forall x | x in routes && x.enabled :: parses(x.target)
    ensures r.Some? ==> r.value == Sorted(EnabledRoutes(routes))
  {
    var crs: seq<CompiledRoute> := [];
    for i := 0 to |routes|
      invariant crs + EnabledRoutes(routes[i..]) == EnabledRoutes(routes)
      invariant forall x | x in routes[..i] && x.enabled :: parses(x.target)
    {
      EnabledStep(routes, i);
      var x := routes[i];
      assert routes[..i + 1] == routes[..i] + [x];
      if x.enabled {
        if !parses(x.target) {
          return None;
        }
        AppendOne(crs, Compiled(x), EnabledRoutes(routes[i + 1..]));
        crs := crs + [Compiled(x)];
      }
    }
    assert routes[..|routes|] == routes && routes[|routes|..] == [];
    assert crs == crs + EnabledRoutes(routes[|routes|..]);
    return Some(Sorted(crs));
  }

  lemma AppendOne<T>(a: seq<T>, x: T, b: seq<T>)
    ensures (a + [x]) + b == a + ([x] + b)
  {}

  method CompileSites(sites: seq<HTTPSite>, parses: string -> bool) returns (r: Option<SiteIndex>)
    ensures r == if SitesBuild(sites, parses) then Some(SitesIndex(sites)) else None
  {
    var index: SiteIndex := map[];
    for i := 0 to |sites|
      invariant index == SitesIndex(sites[..i])
      invariant SitesBuild(sites[..i], parses)
    {
      var crs := CompileRoutes(sites[i].routes, parses);
      if crs.None? {
        assert sites[i] in sites;
        return None;
      }
      assert sites[..i + 1][..i] == sites[..i];
      assert sites[..i + 1] == sites[..i] + [sites[i]];
      index := index[Lower(sites[i].host) := crs.value];
    }
    assert sites[..|sites|] == sites;
    return Some(index);
  }

  lemma {:induction false} DomainsIndexAppend(es: seq<Entry>, fs: seq<Entry>, e: Entry)
    ensures DomainsIndex(es + (fs + [e])) == AddEntry(DomainsIndex(es + fs), e)
  {
    var all := es + (fs + [e]);
    assert all[..|all| - 1] == es + fs && all[|all| - 1] == e;
  }

  /** The loop over the forwards of one domain, on top of what the earlier domains have indexed. */
  method CompileForwards(host: string, forwards: seq<PortForward>, parses: string -> bool,
                         ghost es: seq<Entry>, dom: DomIndex)
    returns (r: Option<DomIndex>)
    requires dom == DomainsIndex(es)
    ensures r.Some? <==> forall f | f in forwards :: Builds(f, parses)
    ensures r.Some? ==> r.value == DomainsIndex(es + ForwardEntries(host, forwards))
  {
    var index := dom;
    assert es + [] == es;
    for i := 0 to |forwards|
      invariant index == DomainsIndex(es + ForwardEntries(host, forwards[..i]))
      invariant forall f | f in forwards[..i] :: Builds(f, parses)
    {
      var f := forwards[i];
      assert forwards[..i + 1][..i] == forwards[..i] && forwards[..i + 1] == forwards[..i] + [f];
      if f.enabled {
        if ProxyURL(f).Some? && !parses(ProxyURL(f).value) {
          assert f in forwards && !Builds(f, parses);
          return None;
        }
        var e := Entry(f.port, Lower(host), CompiledForward(host, f));
        DomainsIndexAppend(es, ForwardEntries(host, forwards[..i]), e);
        index := AddEntry(index, e);
      } else {
        assert ForwardEntries(host, forwards[..i]) + [] == ForwardEntries(host, forwards[..i]);
      }
    }
    assert forwards[..|forwards|] == forwards;
    return Some(index);
  }

  method CompileDomains(domains: seq<Domain>, parses: string -> bool) returns (r: Option<DomIndex>)
    ensures r == if DomainsBuild(domains, parses) then Some(DomainsIndex(Entries(domains))) else None
  {
    var index: DomIndex := map[];
    for i := 0 to |domains|
      invariant index == DomainsIndex(Entries(domains[..i]))
      invariant DomainsBuild(domains[..i], parses)
    {
      var d := domains[i];
      assert domains[..i + 1][..i] == domains[..i] && domains[..i + 1] == domains[..i] + [d];
      var next := CompileForwards(d.host, d.forwards, parses, Entries(domains[..i]), index);
      if next.None? {
        assert d in domains;
        return None;
      }
      index := next.value;
    }
    assert domains[..|domains|] == domains;
    return Some(index);
  }

  /// What the indexes and the lists have to do with each other

  /** Everything in the indexes was built from an address that parses. */
  ghost predicate IndexParses(sites: SiteIndex, dom: DomIndex, parses: string -> bool) {
    && (forall h, c | h in sites && c in sites[h] :: parses(c.route.target))
    && (forall p, h | p in dom && h in dom[p] :: Builds(dom[p][h].pf, parses))
  }

  /** What validation leaves in the lists, and unique hosts. */
  ghost predicate Fit(sites: seq<HTTPSite>, domains: seq<Domain>) {
    && UniqueHosts(sites) && (forall s | s in sites :: ValidPrefixes(s.routes))
    && UniqueDomains(domains)
  }

  ghost predicate Indexed(sites: seq<HTTPSite>, domains: seq<Domain>, cs: SiteIndex, cd: DomIndex) {
    cs == SitesIndex(sites) && cd == DomainsIndex(Entries(domains))
  }

  ghost predicate AllBuild(sites: seq<HTTPSite>, domains: seq<Domain>, parses: string -> bool) {
    SitesBuild(sites, parses) && DomainsBuild(domains, parses)
  }

  /** The indexes are those of the lists exactly if the lists can be compiled at all. */
  ghost predicate Honest(sites: seq<HTTPSite>, domains: seq<Domain>, cs: SiteIndex, cd: DomIndex,
                         parses: string -> bool)
  {
    && Fit(sites, domains) && IndexParses(cs, cd, parses)
    && (Indexed(sites, domains, cs, cd) <==> AllBuild(sites, domains, parses))
  }

  /** What a compilation that fails leaves: the old domain index, and the new site index if the sites got that far. */
  ghost predicate LeftBehind(sites: seq<HTTPSite>, parses: string -> bool, before: (SiteIndex, DomIndex),
                             after: (SiteIndex, DomIndex))
  {
    && after.1 == before.1
    && after.0 == if SitesBuild(sites, parses) then SitesIndex(sites) else before.0
  }

  lemma {:induction false} EnabledAreCompiled(routes: seq<Route>, r: Route)
    ensures Compiled(r) in EnabledRoutes(routes) <==> r in routes && r.enabled
    ensures forall c | c in EnabledRoutes(routes) :: c == Compiled(c.route)
  {
    if routes != [] {
      EnabledAreCompiled(routes[1..], r);
      assert routes == [routes[0]] + routes[1..];
    }
  }

  lemma SortedHasSame(s: seq<CompiledRoute>, c: CompiledRoute)
    ensures c in Sorted(s) <==> c in s
  {
    SortedKeeps(s);
    assert c in Sorted(s) <==> c in multiset(Sorted(s));
    assert c in s <==> c in multiset(s);
  }

  /** What a site index holds is what the enabled routes of its sites compile to. */
  lemma SiteIndexed(sites: seq<HTTPSite>, i: nat, r: Route)
    requires UniqueHosts(sites) && i < |sites|
    ensures Lower(sites[i].host) in SitesIndex(sites)
    ensures Compiled(r) in SitesIndex(sites)[Lower(sites[i].host)] <==> r in sites[i].routes && r.enabled
    ensures forall c | c in SitesIndex(sites)[Lower(sites[i].host)] :: c == Compiled(c.route)
  {
    SitesIndexAt(sites, i);
    EnabledAreCompiled(sites[i].routes, r);
    SortedHasSame(EnabledRoutes(sites[i].routes), Compiled(r));
    forall c | c in SitesIndex(sites)[Lower(sites[i].host)]
      ensures c == Compiled(c.route)
    {
      SortedHasSame(EnabledRoutes(sites[i].routes), c);
    }
  }

  /** An index in which everything parses forces the list it comes from to build, and the other way round. */
  lemma SitesParseExactly(sites: seq<HTTPSite>, parses: string -> bool)
    requires UniqueHosts(sites)
    ensures IndexParses(SitesIndex(sites), map[], parses) <==> SitesBuild(sites, parses)
  {
    var index := SitesIndex(sites);
    if IndexParses(index, map[], parses) {
      forall s, r | s in sites && r in s.routes && r.enabled
        ensures parses(r.target)
      {
        var i: nat :| i < |sites| && sites[i] == s;
        SiteIndexed(sites, i, r);
        assert Compiled(r) in index[Lower(s.host)];
      }
    }
    if SitesBuild(sites, parses) {
      forall h: string, c: CompiledRoute | h in index && c in index[h]
        ensures parses(c.route.target)
      {
        SitesIndexKeys(sites, h);
        var i: nat :| i < |sites| && Lower(sites[i].host) == h;
        SiteIndexed(sites, i, c.route);
        assert sites[i] in sites;
      }
    }
  }

  lemma DomainsParseExactly(domains: seq<Domain>, parses: string -> bool)
    requires UniqueDomains(domains)
    ensures IndexParses(map[], DomainsIndex(Entries(domains)), parses) <==> DomainsBuild(domains, parses)
  {
    var index := DomainsIndex(Entries(domains));
    if IndexParses(map[], index, parses) {
      forall d, f | d in domains && f in d.forwards
        ensures Builds(f, parses)
      {
        if f.enabled {
          MatchDomainIsPlainSearch(domains, d.host, f.port, CompiledForward(d.host, f));
          assert index[f.port][Lower(d.host)].pf == f;
        }
      }
    }
    if DomainsBuild(domains, parses) {
      forall p, h | p in index && h in index[p]
        ensures Builds(index[p][h].pf, parses)
      {
        EntriesDistinct(domains);
        IndexedHostIsLower(domains, p, h);
        MatchDomainIsPlainSearch(domains, h, p, index[p][h]);
      }
    }
  }

  lemma {:induction false} IndexedHost(es: seq<Entry>, p: int, h: string)
    ensures p in DomainsIndex(es) && h in DomainsIndex(es)[p] ==> exists e | e in es :: e.port == p && e.host == h
  {
    if es != [] {
      var n := |es| - 1;
      IndexedHost(es[..n], p, h);
      assert es == es[..n] + [es[n]];
    }
  }

  lemma IndexedHostIsLower(domains: seq<Domain>, p: int, h: string)
    requires UniqueDomains(domains)
    requires p in DomainsIndex(Entries(domains)) && h in DomainsIndex(Entries(domains))[p]
    ensures Lower(h) == h
  {
    IndexedHost(Entries(domains), p, h);
    EntriesDistinct(domains);
    var e :| e in Entries(domains) && e.host == h;
    var d :| d in domains && e.host == Lower(d.host);
    LowerTwice(d.host);
  }

  /** Compiling again, as far as it gets, makes the indexes honest. */
  lemma Recompiled(sites: seq<HTTPSite>, domains: seq<Domain>, cs: SiteIndex, cd: DomIndex, parses: string -> bool)
    requires Fit(sites, domains) && IndexParses(cs, cd, parses)
    ensures var cs' := if SitesBuild(sites, parses) then SitesIndex(sites) else cs;
            var cd' := if AllBuild(sites, domains, parses) then DomainsIndex(Entries(domains)) else cd;
            Honest(sites, domains, cs', cd', parses)
  {
    SitesParseExactly(sites, parses);
    DomainsParseExactly(domains, parses);
  }

  lemma SitesStayFit(sites: seq<HTTPSite>, oldKey: string, clash: (HTTPSite, HTTPSite) -> bool,
                     site: HTTPSite, lib: Library)
    requires UniqueKeys(sites, SiteKey) && (forall s | s in sites :: ValidPrefixes(s.routes))
    requires (forall a, b :: !clash(a, b)) && AcceptsSite(site, lib)
    ensures var u := Upserted(sites, SiteKey, clash, oldKey, NormalSite(site));
      u.Ok? ==> UniqueHosts(u.value) && forall s | s in u.value :: ValidPrefixes(s.routes)
  {
    GoodRoutesAreValid(NormalSite(site).routes, lib);
    var u := Upserted(sites, SiteKey, clash, oldKey, NormalSite(site));
    if u.Ok? {
      UpsertKeepsUnique(sites, SiteKey, clash, oldKey, NormalSite(site));
      assert forall s | s in u.value :: s in sites || s == NormalSite(site);
      KeysAreHosts(u.value);
    }
  }

  lemma KeysAreHosts(sites: seq<HTTPSite>)
    requires UniqueKeys(sites, SiteKey)
    ensures UniqueHosts(sites)
  {}

  lemma KeysAreDomains(domains: seq<Domain>)
    requires UniqueKeys(domains, DomainKey) && forall d | d in domains :: UniquePorts(d.forwards)
    ensures UniqueDomains(domains)
  {}

  lemma NormalPortsAreUnique(d: Domain, lib: Library)
    requires AcceptsDomain(d, lib)
    ensures UniquePorts(NormalDomain(d, lib).forwards)
  {}

  lemma DomainsStayFit(domains: seq<Domain>, oldKey: string, clash: (Domain, Domain) -> bool, d: Domain, lib: Library)
    requires UniqueKeys(domains, DomainKey) && (forall x | x in domains :: UniquePorts(x.forwards))
    requires (forall a, b :: !clash(a, b)) && AcceptsDomain(d, lib)
    ensures var u := Upserted(domains, DomainKey, clash, oldKey, NormalDomain(d, lib));
      u.Ok? ==> UniqueDomains(u.value)
  {
    NormalPortsAreUnique(d, lib);
    DomainsStayUnique(domains, oldKey, clash, NormalDomain(d, lib));
  }

  lemma DomainsStayUnique(domains: seq<Domain>, oldKey: string, clash: (Domain, Domain) -> bool, d: Domain)
    requires UniqueKeys(domains, DomainKey) && (forall x | x in domains :: UniquePorts(x.forwards))
    requires (forall a, b :: !clash(a, b)) && UniquePorts(d.forwards)
    ensures var u := Upserted(domains, DomainKey, clash, oldKey, d); u.Ok? ==> UniqueDomains(u.value)
  {
    var u := Upserted(domains, DomainKey, clash, oldKey, d);
    if u.Ok? {
      UpsertKeepsUnique(domains, DomainKey, clash, oldKey, d);
      assert forall x | x in u.value :: x in domains || x == d;
      KeysAreDomains(u.value);
    }
  }

  lemma FewerSitesStayFit(sites: seq<HTTPSite>, host: string)
    requires UniqueKeys(sites, SiteKey) && (forall s | s in sites :: ValidPrefixes(s.routes))
    ensures var d := Deleted(sites, SiteKey, host);
      d.Ok? ==> UniqueHosts(d.value) && forall s | s in d.value :: ValidPrefixes(s.routes)
  {
    DeleteKeeps(sites, SiteKey, host);
    var d := Deleted(sites, SiteKey, host);
    if d.Ok? {
      KeysAreHosts(d.value);
    }
  }

  lemma FewerDomainsStayFit(domains: seq<Domain>, host: string)
    requires UniqueKeys(domains, DomainKey) && (forall d | d in domains :: UniquePorts(d.forwards))
    ensures var d := Deleted(domains, DomainKey, host); d.Ok? ==> UniqueDomains(d.value)
  {
    DeleteKeeps(domains, DomainKey, host);
    var d := Deleted(domains, DomainKey, host);
    if d.Ok? {
      KeysAreDomains(d.value);
    }
  }

  lemma EmptyIsHonest(parses: string -> bool)
    ensures Honest([], [], map[], map[], parses)
  {}

  class Store {
    const lib: Library
    const sites: KeyedList<HTTPSite>
    const forwards: KeyedList<Forward>
    const dnat: KeyedList<DNATRule>
    const domains: KeyedList<Domain>
    var compiledSites: SiteIndex
    var compiledDom: DomIndex
    var disk: Config

    /** Hosts unique up to case, names unique, (proto, listen) and (proto, port) unique. */
    ghost predicate Lists()
      reads this, sites, sites.arr, forwards, forwards.arr, dnat, dnat.arr, domains, domains.arr
    {
      && sites.Valid() && forwards.Valid() && dnat.Valid() && domains.Valid()
      && sites.key == SiteKey && forwards.key == ForwardKey && dnat.key == RuleKey && domains.key == DomainKey
      && (forall a, b :: !sites.clash(a, b)) && (forall a, b :: !domains.clash(a, b))
      && forwards.clash == SameListen && dnat.clash == SamePort
    }

    /** The lists in memory. */
    ghost function Memory(): Config
      requires Lists()
      reads this, sites, sites.arr, forwards, forwards.arr, dnat, dnat.arr, domains, domains.arr
    {
      Config(sites.Contents(), forwards.Contents(), dnat.Contents(), domains.Contents())
    }

    /** Both indexes are what the lists compile to. */
    ghost predicate InSync()
      requires Lists()
      reads this, sites, sites.arr, forwards, forwards.arr, dnat, dnat.arr, domains, domains.arr
    {
      Indexed(Memory().sites, Memory().domains, compiledSites, compiledDom)
    }

    ghost predicate Builds()
      requires Lists()
      reads this, sites, sites.arr, forwards, forwards.arr, dnat, dnat.arr, domains, domains.arr
    {
      AllBuild(Memory().sites, Memory().domains, lib.parses)
    }

    /**
     Beyond that the stored sites and domains are as validation leaves them, and the indexes are in sync
     with the lists exactly if the lists can be compiled.
     */
    ghost predicate Valid()
      reads this, sites, sites.arr, forwards, forwards.arr, dnat, dnat.arr, domains, domains.arr
    {
      Lists() && Honest(Memory().sites, Memory().domains, compiledSites, compiledDom, lib.parses)
    }

    /** NewStore where the file does not exist yet. */
    constructor (lib: Library)
      ensures Valid() && InSync() && this.lib == lib
      ensures Memory() == Config([], [], [], []) && disk == Memory()
      ensures fresh(sites) && fresh(forwards) && fresh(dnat) && fresh(domains)
      ensures fresh(sites.arr) && fresh(forwards.arr) && fresh(dnat.arr) && fresh(domains.arr)
    {
      this.lib := lib;
      this.sites := new KeyedList(SiteKey, (a, b) => false);
      this.forwards := new KeyedList(ForwardKey, SameListen);
      this.dnat := new KeyedList(RuleKey, SamePort);
      this.domains := new KeyedList(DomainKey, (a, b) => false);
      this.compiledSites, this.compiledDom, this.disk := map[], map[], Config([], [], [], []);
      new;
      EmptyIsHonest(lib.parses);
    }

    /** A domain that does not compile leaves the new site index beside the old domain index. */
    method RecompileLocked() returns (ok: bool)
      requires Lists() && Fit(Memory().sites, Memory().domains) && IndexParses(compiledSites, compiledDom, lib.parses)
      modifies this`compiledSites, this`compiledDom
      ensures Valid() && Memory() == old(Memory())
      ensures ok == Builds()
      ensures ok ==> InSync()
      ensures !ok ==> compiledDom == old(compiledDom)
      ensures !ok ==> compiledSites == if SitesBuild(Memory().sites, lib.parses) then SitesIndex(Memory().sites)
                                       else old(compiledSites)
    {
      Recompiled(Memory().sites, Memory().domains, compiledSites, compiledDom, lib.parses);
      var s := CompileSites(sites.arr[..sites.len], lib.parses);
      if s.None? {
        return false;
      }
      compiledSites := s.value;
      var d := CompileDomains(domains.arr[..domains.len], lib.parses);
      if d.None? {
        return false;
      }
      compiledDom := d.value;
      return true;
    }

    /** Writing a temporary file and renaming it: all of the new lists reach the disk, or nothing does. */
    method PersistLocked(diskOk: bool) returns (ok: bool)
      requires Valid()
      modifies this`disk
      ensures Valid() && Memory() == old(Memory()) && ok == diskOk
      ensures disk == if ok then Memory() else old(disk)
    {
      if diskOk {
        disk := Config(sites.arr[..sites.len], forwards.arr[..forwards.len], dnat.arr[..dnat.len],
                       domains.arr[..domains.len]);
      }
      return diskOk;
    }

    method CommitLocked(diskOk: bool) returns (r: Result)
      requires Lists() && Fit(Memory().sites, Memory().domains) && IndexParses(compiledSites, compiledDom, lib.parses)
      modifies this`compiledSites, this`compiledDom, this`disk
      ensures Valid() && Memory() == old(Memory())
      ensures r == if !Builds() then NotCompiled else if diskOk then Done else NotSaved
      ensures !r.NotCompiled? ==> InSync()
      ensures r.NotCompiled? ==> LeftBehind(Memory().sites, lib.parses, old((compiledSites, compiledDom)),
                                            (compiledSites, compiledDom))
      ensures disk == if r.Done? then Memory() else old(disk)
    {
      var built := RecompileLocked();
      if !built {
        return NotCompiled;
      }
      var saved := PersistLocked(diskOk);
      return if saved then Done else NotSaved;
    }

    /// The list part of the four upserts

    method PutSite(oldKey: string, x: HTTPSite) returns (ok: bool)
      requires Lists()
      modifies sites, sites.arr
      ensures Lists() && (sites.arr == old(sites.arr) || fresh(sites.arr))
      ensures var u := Upserted(old(Memory()).sites, SiteKey, sites.clash, oldKey, x);
        ok == u.Ok? && Memory() == if ok then old(Memory()).(sites := u.value) else old(Memory())
    {
      var u := sites.Upsert(oldKey, x);
      ok := u.Ok?;
    }

    method PutDomain(oldKey: string, x: Domain) returns (ok: bool)
      requires Lists()
      modifies domains, domains.arr
      ensures Lists() && (domains.arr == old(domains.arr) || fresh(domains.arr))
      ensures var u := Upserted(old(Memory()).domains, DomainKey, domains.clash, oldKey, x);
        ok == u.Ok? && Memory() == if ok then old(Memory()).(domains := u.value) else old(Memory())
    {
      var u := domains.Upsert(oldKey, x);
      ok := u.Ok?;
    }

    method PutForward(oldKey: string, x: Forward) returns (ok: bool)
      requires Lists()
      modifies forwards, forwards.arr
      ensures Lists() && (forwards.arr == old(forwards.arr) || fresh(forwards.arr))
      ensures var u := Upserted(old(Memory()).forwards, ForwardKey, SameListen, oldKey, x);
        ok == u.Ok? && Memory() == if ok then old(Memory()).(forwards := u.value) else old(Memory())
    {
      var u := forwards.Upsert(oldKey, x);
      ok := u.Ok?;
    }

    method PutRule(oldKey: string, x: DNATRule) returns (ok: bool)
      requires Lists()
      modifies dnat, dnat.arr
      ensures Lists() && (dnat.arr == old(dnat.arr) || fresh(dnat.arr))
      ensures var u := Upserted(old(Memory()).dnat, RuleKey, SamePort, oldKey, x);
        ok == u.Ok? && Memory() == if ok then old(Memory()).(dnat := u.value) else old(Memory())
    {
      var u := dnat.Upsert(oldKey, x);
      ok := u.Ok?;
    }

    /// Edits

    method UpsertSite(oldHost: string, site: HTTPSite, diskOk: bool) returns (r: Result)
      requires Valid()
      modifies this`compiledSites, this`compiledDom, this`disk, sites, sites.arr
      ensures sites.arr == old(sites.arr) || fresh(sites.arr)
      ensures Valid()
      ensures r.Invalid? <==> !AcceptsSite(site, lib)
      ensures r.Invalid? || r.Refused? ==>
                Memory() == old(Memory()) && compiledSites == old(compiledSites) && compiledDom == old(compiledDom)
      ensures !r.Invalid? ==>
                var u := Upserted(old(Memory()).sites, SiteKey, sites.clash, Lower(oldHost), NormalSite(site));
                (r.Refused? <==> !u.Ok?) && (u.Ok? ==> Memory() == old(Memory()).(sites := u.value))
      ensures r.Done? || r.NotSaved? ==> InSync() && (r.Done? <==> diskOk)
      ensures !r.Invalid? && !r.Refused? ==> (r.NotCompiled? <==> !Builds())
      ensures r.NotCompiled? ==> LeftBehind(Memory().sites, lib.parses, old((compiledSites, compiledDom)),
                                            (compiledSites, compiledDom))
      ensures SitesBuild(old(Memory()).sites, lib.parses) ==> compiledDom == old(compiledDom)
      ensures disk == if r.Done? then Memory() else old(disk)
    {
      var v := ValidateSite(site, lib);
      if v.None? {
        return Invalid;
      }
      SitesStayFit(Memory().sites, Lower(oldHost), sites.clash, site, lib);
      var ok := PutSite(Lower(oldHost), v.value);
      if !ok {
        return Refused;
      }
      r := CommitLocked(diskOk);
    }

    method DeleteSite(host: string, diskOk: bool) returns (r: Result)
      requires Valid()
      modifies this`compiledSites, this`compiledDom, this`disk, sites, sites.arr
      ensures sites.arr == old(sites.arr)
      ensures Valid() && !r.Invalid?
      ensures r.Refused? ==>
                Memory() == old(Memory()) && compiledSites == old(compiledSites) && compiledDom == old(compiledDom)
      ensures var d := Deleted(old(Memory()).sites, SiteKey, Lower(host));
              (r.Refused? <==> !d.Ok?) && (d.Ok? ==> Memory() == old(Memory()).(sites := d.value))
      ensures r.Done? || r.NotSaved? ==> InSync() && (r.Done? <==> diskOk)
      ensures !r.Invalid? && !r.Refused? ==> (r.NotCompiled? <==> !Builds())
      ensures r.NotCompiled? ==> LeftBehind(Memory().sites, lib.parses, old((compiledSites, compiledDom)),
                                            (compiledSites, compiledDom))
      ensures SitesBuild(old(Memory()).sites, lib.parses) ==> compiledDom == old(compiledDom)
      ensures disk == if r.Done? then Memory() else old(disk)
    {
      FewerSitesStayFit(Memory().sites, Lower(host));
      var d := sites.Delete(Lower(host));
      if !d.Ok? {
        return Refused;
      }
      r := CommitLocked(diskOk);
    }

    /** `fire` says whether the domain listener is then notified. */
    method UpsertDomain(oldHost: string, d: Domain, diskOk: bool) returns (r: Result, fire: bool)
      requires Valid()
      modifies this`compiledSites, this`compiledDom, this`disk, domains, domains.arr
      ensures domains.arr == old(domains.arr) || fresh(domains.arr)
      ensures Valid() && fire == r.Done?
      ensures r.Invalid? <==> !AcceptsDomain(d, lib)
      ensures r.Invalid? || r.Refused? ==>
                Memory() == old(Memory()) && compiledSites == old(compiledSites) && compiledDom == old(compiledDom)
      ensures !r.Invalid? ==>
                var v := NormalDomain(d, lib);
                var u := Upserted(old(Memory()).domains, DomainKey, domains.clash, Lower(oldHost), v);
                (r.Refused? <==> !u.Ok?) && (u.Ok? ==> Memory() == old(Memory()).(domains := u.value))
      ensures r.Done? || r.NotSaved? ==> InSync() && (r.Done? <==> diskOk)
      ensures !r.Invalid? && !r.Refused? ==> (r.NotCompiled? <==> !Builds())
      ensures r.NotCompiled? ==> LeftBehind(Memory().sites, lib.parses, old((compiledSites, compiledDom)),
                                            (compiledSites, compiledDom))
      ensures disk == if r.Done? then Memory() else old(disk)
    {
      var v := ValidateDomain(d, lib);
      if v.None? {
        return Invalid, false;
      }
      DomainsStayFit(Memory().domains, Lower(oldHost), domains.clash, d, lib);
      var ok := PutDomain(Lower(oldHost), v.value);
      if !ok {
        return Refused, false;
      }
      r := CommitLocked(diskOk);
      fire := r.Done?;
    }

    method DeleteDomain(host: string, diskOk: bool) returns (r: Result, fire: bool)
      requires Valid()
      modifies this`compiledSites, this`compiledDom, this`disk, domains, domains.arr
      ensures domains.arr == old(domains.arr)
      ensures Valid() && !r.Invalid? && fire == r.Done?
      ensures r.Refused? ==>
                Memory() == old(Memory()) && compiledSites == old(compiledSites) && compiledDom == old(compiledDom)
      ensures var d := Deleted(old(Memory()).domains, DomainKey, Lower(host));
              (r.Refused? <==> !d.Ok?) && (d.Ok? ==> Memory() == old(Memory()).(domains := d.value))
      ensures r.Done? || r.NotSaved? ==> InSync() && (r.Done? <==> diskOk)
      ensures !r.Invalid? && !r.Refused? ==> (r.NotCompiled? <==> !Builds())
      ensures r.NotCompiled? ==> LeftBehind(Memory().sites, lib.parses, old((compiledSites, compiledDom)),
                                            (compiledSites, compiledDom))
      ensures disk == if r.Done? then Memory() else old(disk)
    {
      FewerDomainsStayFit(Memory().domains, Lower(host));
      var d := domains.Delete(Lower(host));
      if !d.Ok? {
        return Refused, false;
      }
      r := CommitLocked(diskOk);
      fire := r.Done?;
    }

    /** Forwards and rules have no index: an edit only has to be saved. */
    method UpsertForward(oldName: string, f: Forward, diskOk: bool) returns (r: Result, fire: bool)
      requires Valid()
      modifies this`disk, forwards, forwards.arr
      ensures forwards.arr == old(forwards.arr) || fresh(forwards.arr)
      ensures Valid() && fire == r.Done? && !r.NotCompiled?
      ensures r.Invalid? <==> ValidForward(f, lib).None?
      ensures r.Invalid? || r.Refused? ==> Memory() == old(Memory())
      ensures !r.Invalid? ==>
                var u := Upserted(old(Memory()).forwards, ForwardKey, SameListen, oldName, ValidForward(f, lib).value);
                (r.Refused? <==> !u.Ok?) && (u.Ok? ==> Memory() == old(Memory()).(forwards := u.value))
      ensures r.Done? || r.NotSaved? ==> (r.Done? <==> diskOk)
      ensures disk == if r.Done? then Memory() else old(disk)
    {
      var v := ValidateForward(f, lib);
      if v.None? {
        return Invalid, false;
      }
      var ok := PutForward(oldName, v.value);
      if !ok {
        return Refused, false;
      }
      fire := PersistLocked(diskOk);
      r := if fire then Done else NotSaved;
    }

    method DeleteForward(name: string, diskOk: bool) returns (r: Result, fire: bool)
      requires Valid()
      modifies this`disk, forwards, forwards.arr
      ensures forwards.arr == old(forwards.arr)
      ensures Valid() && fire == r.Done? && !r.NotCompiled? && !r.Invalid?
      ensures r.Refused? ==> Memory() == old(Memory())
      ensures var d := Deleted(old(Memory()).forwards, ForwardKey, name);
              (r.Refused? <==> !d.Ok?) && (d.Ok? ==> Memory() == old(Memory()).(forwards := d.value))
      ensures r.Done? || r.NotSaved? ==> (r.Done? <==> diskOk)
      ensures disk == if r.Done? then Memory() else old(disk)
    {
      var d := forwards.Delete(name);
      if !d.Ok? {
        return Refused, false;
      }
      fire := PersistLocked(diskOk);
      r := if fire then Done else NotSaved;
    }

    method UpsertDNAT(oldName: string, d: DNATRule, diskOk: bool) returns (r: Result, fire: bool)
      requires Valid()
      modifies this`disk, dnat, dnat.arr
      ensures dnat.arr == old(dnat.arr) || fresh(dnat.arr)
      ensures Valid() && fire == r.Done? && !r.NotCompiled?
      ensures r.Invalid? <==> ValidRule(d, lib).None?
      ensures r.Invalid? || r.Refused? ==> Memory() == old(Memory())
      ensures !r.Invalid? ==>
                var u := Upserted(old(Memory()).dnat, RuleKey, SamePort, oldName, ValidRule(d, lib).value);
                (r.Refused? <==> !u.Ok?) && (u.Ok? ==> Memory() == old(Memory()).(dnat := u.value))
      ensures r.Done? || r.NotSaved? ==> (r.Done? <==> diskOk)
      ensures disk == if r.Done? then Memory() else old(disk)
    {
      var v := ValidateDNAT(d, lib);
      if v.None? {
        return Invalid, false;
      }
      var ok := PutRule(oldName, v.value);
      if !ok {
        return Refused, false;
      }
      fire := PersistLocked(diskOk);
      r := if fire then Done else NotSaved;
    }

    method DeleteDNAT(name: string, diskOk: bool) returns (r: Result, fire: bool)
      requires Valid()
      modifies this`disk, dnat, dnat.arr
      ensures dnat.arr == old(dnat.arr)
      ensures Valid() && fire == r.Done? && !r.NotCompiled? && !r.Invalid?
      ensures r.Refused? ==> Memory() == old(Memory())
      ensures var d := Deleted(old(Memory()).dnat, RuleKey, name);
              (r.Refused? <==> !d.Ok?) && (d.Ok? ==> Memory() == old(Memory()).(dnat := d.value))
      ensures r.Done? || r.NotSaved? ==> (r.Done? <==> diskOk)
      ensures disk == if r.Done? then Memory() else old(disk)
    {
      var d := dnat.Delete(name);
      if !d.Ok? {
        return Refused, false;
      }
      fire := PersistLocked(diskOk);
      r := if fire then Done else NotSaved;
    }

    /**
     The first route of the host's list that matches.  After a successful commit that is the plain
     search of the configured sites.
     */
    method MatchSite(host: string, path: string) returns (r: Option<CompiledRoute>)
      ensures r == RouteIndex.MatchSite(compiledSites, host, path)
      ensures Lists() && InSync() ==> forall c :: r == Some(c) <==> Answers(Memory().sites, host, path, c)
    {
      if Lists() && InSync() {
        assert UniqueKeys(Memory().sites, SiteKey);
        MatchSiteIsPlainSearch(Memory().sites, host, path);
      }
      var routes := if Lower(host) in compiledSites then compiledSites[Lower(host)] else [];
      for i := 0 to |routes|
        invariant FirstMatch(routes[i..], path) == RouteIndex.MatchSite(compiledSites, host, path)
      {
        if PathMatches(routes[i].route.prefix, path) {
          return Some(routes[i]);
        }
      }
      return None;
    }

    /** Goes through the ports in no particular order. */
    method IsTerminateHost(host: string) returns (r: bool)
      ensures r == RouteIndex.IsTerminateHost(compiledDom, host)
    {
      var h := Lower(host);
      var todo := compiledDom.Keys;
      while todo != {}
        invariant todo <= compiledDom.Keys
        invariant forall p | p in compiledDom && p !in todo ::
                    h in compiledDom[p] ==> !compiledDom[p][h].pf.manageCert
      {
        ghost var some := Member(todo);
        var p :| p in todo;
        if h in compiledDom[p] && compiledDom[p][h].pf.manageCert {
          return true;
        }
        todo := todo - {p};
      }
      return false;
    }

    /** DomainPorts: the distinct ports that are indexed. */
    function DomainPorts(): set<int>
      reads this
    {
      compiledDom.Keys
    }
  }

  /**
   A stored domain whose address does not parse blocks every later site edit, additions, updates and
   deletions alike: none is ever written, and the domain index stays what it was.
   */
  method BrokenDomainBlocksSites(s: Store, e: Edit<HTTPSite>, diskOk: bool) returns (r: Result)
    requires s.Valid() && !DomainsBuild(s.Memory().domains, s.lib.parses)
    modifies s`compiledSites, s`compiledDom, s`disk, s.sites, s.sites.arr
    ensures s.Valid() && r in {Invalid, Refused, NotCompiled}
    ensures s.disk == old(s.disk) && s.compiledDom == old(s.compiledDom) && !s.InSync()
    ensures s.Memory().domains == old(s.Memory()).domains
  {
    match e {
      case Put(oldHost, site) => r := s.UpsertSite(oldHost, site, diskOk);
      case Remove(host) => r := s.DeleteSite(host, diskOk);
    }
  }

  /** The library as far as this run needs it: url.Parse, unlike strconv.Atoi, takes no sign before a port. */
  function PlusPortLibrary(): Library {
    Library(host => true, s => Some(s), s => Some(s), s => true, s => s != "http://h:+80")
  }

  const PLUS_PORT := Domain("h.example", "", [PortForward(443, "h:+80", true, false, false, false, "", true)])

  lemma PlusPortIsAccepted()
    ensures AcceptsDomain(PLUS_PORT, PlusPortLibrary())
    ensures !DomainsBuild([NormalDomain(PLUS_PORT, PlusPortLibrary())], PlusPortLibrary().parses)
  {
    var lib, f := PlusPortLibrary(), PLUS_PORT.forwards[0];
    TrimNothing("h:+80", c => IsSpace(c));
    assert NormalForward(f, lib).target == "h:+80";
    assert "http" + "://" + "h:+80" == "http://h:+80";
    assert !Builds(NormalForward(f, lib), lib.parses);
    var v := NormalDomain(PLUS_PORT, lib);
    assert v.forwards[0] in v.forwards && v in [v];
  }

  lemma FirstIsAdded<T>(key: T -> string, clash: (T, T) -> bool, oldHost: string, x: T)
    requires oldHost == ""
    ensures Upserted([], key, clash, Lower(oldHost), x) == Ok([x])
  {
    assert Lower(oldHost) == "" && [] + [x] == [x];
  }

  /** Such a domain does get in: its target passes validation, the edit fails, and it is stored all the same. */
  method BrokenDomainIsStored(e: Edit<HTTPSite>) returns (s: Store, r: Result, later: Result)
    ensures s.Valid() && s.lib == PlusPortLibrary()
    ensures r == NotCompiled && s.Memory().domains == [NormalDomain(PLUS_PORT, s.lib)] && !s.InSync()
    ensures s.disk == Config([], [], [], [])
    ensures later in {Invalid, Refused, NotCompiled}
  {
    s := new Store(PlusPortLibrary());
    PlusPortIsAccepted();
    FirstIsAdded(DomainKey, s.domains.clash, "", NormalDomain(PLUS_PORT, s.lib));
    var fire: bool;
    r, fire := s.UpsertDomain("", PLUS_PORT, true);
    later := BrokenDomainBlocksSites(s, e, true);
  }

  /** After a successful commit both lookups are the plain searches of the lists in memory. */
  lemma CommittedLookupsAgree(s: Store, host: string, path: string, port: int)
    requires s.Valid() && s.InSync()
    ensures forall c :: MatchSite(s.compiledSites, host, path) == Some(c) <==> Answers(s.Memory().sites, host, path, c)
    ensures forall cp :: MatchDomain(s.compiledDom, host, port) == Some(cp) <==>
                         Configured(s.Memory().domains, host, port, cp)
  {
    var m := s.Memory();
    MatchSiteIsPlainSearch(m.sites, host, path);
    forall cp
      ensures MatchDomain(s.compiledDom, host, port) == Some(cp) <==> Configured(m.domains, host, port, cp)
    {
      MatchDomainIsPlainSearch(m.domains, host, port, cp);
    }
  }

  /// What the key checks amount to, across calls

  /** An addition can be undone: deleting the new key gives the old list back, in order. */
  lemma AddThenDelete<T>(s: seq<T>, key: T -> string, clash: (T, T) -> bool, x: T)
    requires Upserted(s, key, clash, "", x).Ok?
    ensures Deleted(Upserted(s, key, clash, "", x).value, key, key(x)) == Ok(s)
  {
    var t := s + [x];
    assert key(t[|s|]) == key(x);
    var drop := (y: T) => key(y) == key(x);
    assert t[..|s|] == s;
    WithoutShrinks(s, drop);
    NothingDropped(s, drop);
    assert Without(t, drop) == s + [] == s;
  }

  lemma {:induction false} NothingDropped<T>(s: seq<T>, drop: T -> bool)
    requires forall i | 0 <= i < |s| :: !drop(s[i])
    ensures Without(s, drop) == s
  {
    if s != [] {
      NothingDropped(s[..|s| - 1], drop);
    }
  }

  /**
   An edit that failed after memory changed can be tried again exactly if it was to update a record under
   its own key.  An addition or a rename is refused because the record is already there, a deletion because
   it is already gone.
   */
  lemma RetryIsAcceptedExactly<T>(s: seq<T>, key: T -> string, clash: (T, T) -> bool, e: Edit<T>)
    requires e.Put? ==> key(e.item) != ""
    requires Edited(s, key, clash, e).Ok?
    ensures Edited(Edited(s, key, clash, e).value, key, clash, e).Ok? <==> e.Put? && e.oldKey == key(e.item)
  {
    match e
    case Put(oldKey, x) => PutTwice(s, key, clash, oldKey, x);
    case Remove(k) => DeleteTwice(s, key, k);
  }

  lemma DeleteTwice<T>(s: seq<T>, key: T -> string, k: string)
    requires Deleted(s, key, k).Ok?
    ensures Deleted(Deleted(s, key, k).value, key, k) == Missing
  {
    var t := Deleted(s, key, k).value;
    WithoutMembers(s, x => key(x) == k);
    forall i | 0 <= i < |t|
      ensures key(t[i]) != k
    {
      assert t[i] in t;
    }
  }

  lemma PutTwice<T>(s: seq<T>, key: T -> string, clash: (T, T) -> bool, oldKey: string, x: T)
    requires key(x) != "" && Upserted(s, key, clash, oldKey, x).Ok?
    ensures Upserted(Upserted(s, key, clash, oldKey, x).value, key, clash, oldKey, x).Ok? <==> oldKey == key(x)
  {
    var t := Upserted(s, key, clash, oldKey, x).value;
    if oldKey == "" {
      assert t[|s|] == x;
    } else {
      assert t[IndexOf(s, key, oldKey)] == x;
    }
    assert HasKey(t, key, key(x));
    forall i | 0 <= i < |t|
      ensures !(key(t[i]) != key(x) && clash(t[i], x))
    {
      assert t[i] == x || t[i] in s;
    }
    assert !IsTaken(t, key, clash, x);
  }

  /** The outcome of a forward upsert, spelled out: protocol and listen text as pairs, and the names. */
  lemma ForwardOutcomeExactly(s: seq<Forward>, oldName: string, f: Forward)
    ensures var u := Upserted(s, ForwardKey, SameListen, oldName, f);
      var taken := exists e | e in s :: e.name != f.name && e.proto == f.proto && e.listen == f.listen;
      var present := exists e | e in s :: e.name == f.name;
      var found := exists e | e in s :: e.name == oldName;
      && (u.Taken? <==> taken)
      && (u.Ok? <==> !taken && if oldName == "" then !present else found && (oldName == f.name || !present))
  {
    UpsertOutcomeExactly(s, ForwardKey, SameListen, oldName, f);
  }

  /** And of a rule upsert. */
  lemma RuleOutcomeExactly(s: seq<DNATRule>, oldName: string, d: DNATRule)
    ensures var u := Upserted(s, RuleKey, SamePort, oldName, d);
      var taken := exists e | e in s :: e.name != d.name && e.proto == d.proto && e.listenPort == d.listenPort;
      var present := exists e | e in s :: e.name == d.name;
      var found := exists e | e in s :: e.name == oldName;
      && (u.Taken? <==> taken)
      && (u.Ok? <==> !taken && if oldName == "" then !present else found && (oldName == d.name || !present))
  {
    UpsertOutcomeExactly(s, RuleKey, SamePort, oldName, d);
  }

  /** Renaming a forward without moving it is refused, because the old entry still holds the address. */
  lemma RenameInPlaceIsRefused(s: seq<Forward>, oldName: string, f: Forward)
    requires HasKey(s, ForwardKey, oldName) && oldName != f.name
    requires SameListen(s[IndexOf(s, ForwardKey, oldName)], f)
    ensures Upserted(s, ForwardKey, SameListen, oldName, f) == Taken
  {}
}

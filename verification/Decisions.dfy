/** Who answers a connection or request: the decisions of main.go and of the per-port listeners. */
module Decisions {
  import opened Records
  import opened KeyedLists
  import opened RouteIndex
  import opened Validation
  import opened Stores

  datatype Answer = Health | BySite(c: CompiledRoute) | ByDomain(cp: CompiledPF) | NotFound

  datatype SNI = Accept | Passthrough(target: string, proxyProto: bool) | Drop

  /** The handler behind the main HTTPS port. */
  function Handle(sites: SiteIndex, dom: DomIndex, mainPort: int, host: string, path: string): Answer {
    if path == "/_healthz" then Health
    else match MatchSite(sites, host, path)
      case Some(c) => BySite(c)
      case None =>
        match MatchDomain(dom, host, mainPort)
        case Some(cp) => if cp.pf.manageCert then ByDomain(cp) else NotFound
        case None => NotFound
  }

  /** Which hosts a certificate is requested for. */
  predicate HostPolicy(sites: SiteIndex, dom: DomIndex, externalHost: string, host: string) {
    Lower(host) == Lower(externalHost) || IsHTTPHost(sites, host) || IsTerminateHost(dom, host)
  }

  /** What the main port does with a server name, before TLS. */
  function MainSNI(dom: DomIndex, mainPort: int, host: string): SNI {
    match MatchDomain(dom, host, mainPort)
    case Some(cp) => if cp.pf.manageCert then Accept else Passthrough(cp.pf.target, cp.pf.proxyProto)
    case None => Accept
  }

  /** What an extra port does with one; without a certificate source it cannot terminate. */
  function ExtraSNI(dom: DomIndex, port: int, hasTLS: bool, host: string): SNI {
    match MatchDomain(dom, host, port)
    case None => Drop
    case Some(cp) =>
      if cp.pf.manageCert then (if hasTLS then Accept else Drop)
      else Passthrough(cp.pf.target, cp.pf.proxyProto)
  }

  /** Whether the plain HTTP port proxies a host instead of redirecting it. */
  predicate PlainServes(dom: DomIndex, httpPort: int, host: string) {
    MatchDomain(dom, host, httpPort).Some? && MatchDomain(dom, host, httpPort).value.hasProxy
  }

  /** The handler behind the TLS server of an extra port; everything else is not found. */
  function ExtraHandle(dom: DomIndex, port: int, host: string): Answer {
    match MatchDomain(dom, host, port)
    case Some(cp) => if cp.pf.manageCert then ByDomain(cp) else NotFound
    case None => NotFound
  }

  /// Read off the configured lists

  lemma {:induction false} MatchSiteHasHost(sites: seq<HTTPSite>, host: string)
    ensures IsHTTPHost(SitesIndex(sites), host) <==> exists i | 0 <= i < |sites| :: Lower(sites[i].host) == Lower(host)
  {
    SitesIndexKeys(sites, Lower(host));
  }

  /** Every host the HTTPS handler can serve is one a certificate is requested for. */
  lemma ServedHostsHaveCertificates(sites: SiteIndex, dom: DomIndex, mainPort: int, externalHost: string,
                                  host: string, path: string)
    ensures var a := Handle(sites, dom, mainPort, host, path);
      a.BySite? || a.ByDomain? ==> HostPolicy(sites, dom, externalHost, host)
  {}

  /**
   A certificate is requested exactly for the main host, the hosts of the sites, and the domains with an
   enabled terminating forward; a domain that is only passed through is never among the last.
   */
  lemma PolicyExactly(sites: seq<HTTPSite>, domains: seq<Domain>, externalHost: string, host: string)
    requires UniqueDomains(domains)
    ensures HostPolicy(SitesIndex(sites), DomainsIndex(Entries(domains)), externalHost, host) <==>
            || Lower(host) == Lower(externalHost)
            || (exists i | 0 <= i < |sites| :: Lower(sites[i].host) == Lower(host))
            || (exists port, cp :: Configured(domains, host, port, cp) && cp.pf.manageCert)
  {
    MatchSiteHasHost(sites, host);
    TerminateHostIsPlainSearch(domains, host);
  }

  lemma DomainsPlain(domains: seq<Domain>, host: string, port: int)
    requires UniqueDomains(domains)
    ensures forall cp :: MatchDomain(DomainsIndex(Entries(domains)), host, port) == Some(cp) <==>
                         Configured(domains, host, port, cp)
  {
    forall cp
      ensures MatchDomain(DomainsIndex(Entries(domains)), host, port) == Some(cp) <==>
              Configured(domains, host, port, cp)
    {
      MatchDomainIsPlainSearch(domains, host, port, cp);
    }
  }

  /**
   The HTTPS handler in terms of the configured lists: a site's best route wins over the domain, the
   domain answers only if it terminates on the main port, and the health path is nobody's.
   */
  lemma HandlerExactly(sites: seq<HTTPSite>, domains: seq<Domain>, mainPort: int, host: string, path: string,
                       c: CompiledRoute, cp: CompiledPF)
    requires UniqueHosts(sites) && UniqueDomains(domains)
    ensures var a := Handle(SitesIndex(sites), DomainsIndex(Entries(domains)), mainPort, host, path);
      && (a == BySite(c) <==> path != "/_healthz" && Answers(sites, host, path, c))
      && (a == ByDomain(cp) <==> && path != "/_healthz" && (forall x :: !Answers(sites, host, path, x))
                                 && Configured(domains, host, mainPort, cp) && cp.pf.manageCert)
      && (a == Health <==> path == "/_healthz")
  {
    MatchSiteIsPlainSearch(sites, host, path);
    DomainsPlain(domains, host, mainPort);
    var m := MatchSite(SitesIndex(sites), host, path);
    if m.Some? {
      assert Answers(sites, host, path, m.value);
    }
  }

  /** The main port passes a connection on exactly if a passthrough forward is configured there, to its target. */
  lemma MainPortExactly(domains: seq<Domain>, mainPort: int, host: string, target: string, proxyProto: bool)
    requires UniqueDomains(domains)
    ensures MainSNI(DomainsIndex(Entries(domains)), mainPort, host) == Passthrough(target, proxyProto) <==>
            exists cp :: Configured(domains, host, mainPort, cp) && !cp.pf.manageCert
                         && cp.pf.target == target && cp.pf.proxyProto == proxyProto
  {
    DomainsPlain(domains, host, mainPort);
  }

  /** A matched forward that is to be served has a proxy to serve it, so none is ever missing. */
  lemma MatchedHasProxy(domains: seq<Domain>, host: string, port: int)
    requires UniqueDomains(domains)
    ensures match MatchDomain(DomainsIndex(Entries(domains)), host, port)
      case Some(cp) => cp.hasProxy <==> port == 80 || cp.pf.manageCert
      case None => true
  {
    var m := MatchDomain(DomainsIndex(Entries(domains)), host, port);
    if m.Some? {
      MatchDomainIsPlainSearch(domains, host, port, m.value);
    }
  }

  /** Either the main port passes a host through, or its handler can terminate it: never both. */
  lemma PassthroughIsNotTerminated(sites: SiteIndex, dom: DomIndex, mainPort: int, host: string, path: string)
    ensures MainSNI(dom, mainPort, host).Passthrough? ==> !Handle(sites, dom, mainPort, host, path).ByDomain?
    ensures MainSNI(dom, mainPort, host).Drop? ==> false
    ensures Handle(sites, dom, mainPort, host, path).ByDomain? ==> MainSNI(dom, mainPort, host).Accept?
  {}

  /**
   On an extra port a connection is passed to a backend exactly if an enabled passthrough forward is
   configured for that host and port, and then to that forward's target; it is terminated exactly if a
   terminating one is and there is a certificate source; anything else is dropped.
   */
  lemma ExtraPortExactly(domains: seq<Domain>, port: int, hasTLS: bool, host: string, target: string, proxyProto: bool)
    requires UniqueDomains(domains)
    ensures var a := ExtraSNI(DomainsIndex(Entries(domains)), port, hasTLS, host);
      && (a == Passthrough(target, proxyProto) <==>
            exists cp :: Configured(domains, host, port, cp) && !cp.pf.manageCert
                         && cp.pf.target == target && cp.pf.proxyProto == proxyProto)
      && (a == Accept <==> hasTLS && exists cp :: Configured(domains, host, port, cp) && cp.pf.manageCert)
  {
    DomainsPlain(domains, host, port);
  }

  /** What an extra port terminates for a server name it also serves, by the forward configured there. */
  lemma AcceptedIsServed(domains: seq<Domain>, port: int, hasTLS: bool, host: string, cp: CompiledPF)
    requires UniqueDomains(domains)
    ensures var dom := DomainsIndex(Entries(domains));
      && (ExtraHandle(dom, port, host) == ByDomain(cp) <==> Configured(domains, host, port, cp) && cp.pf.manageCert)
      && (ExtraSNI(dom, port, hasTLS, host) == Accept ==> ExtraHandle(dom, port, host).ByDomain?)
      && (ExtraHandle(dom, port, host).ByDomain? || ExtraHandle(dom, port, host) == NotFound)
  {
    DomainsPlain(domains, host, port);
  }

  /**
   The plain HTTP port, whichever it is, proxies exactly the hosts with an enabled forward on it that has a
   proxy: any forward on port 80, a terminating one elsewhere.  A validated forward on port 80 never asks for a
   certificate.
   */
  lemma PlainPortExactly(domains: seq<Domain>, httpPort: int, host: string)
    requires UniqueDomains(domains)
    ensures PlainServes(DomainsIndex(Entries(domains)), httpPort, host) <==>
            exists cp :: Configured(domains, host, httpPort, cp) && (httpPort == 80 || cp.pf.manageCert)
    ensures (forall d, f | d in domains && f in d.forwards && f.port == 80 :: !f.manageCert) ==>
              forall cp | Configured(domains, host, 80, cp) :: !cp.pf.manageCert
  {
    DomainsPlain(domains, host, httpPort);
    MatchedHasProxy(domains, host, httpPort);
  }

  /** Runs of validated edits keep the domains fit for all of this. */
  lemma ValidatedEditsStayUnique(edits: seq<Edit<Domain>>, lib: Library)
    requires forall i | 0 <= i < |edits| && edits[i].Put? ::
               exists d :: AcceptsDomain(d, lib) && edits[i].item == NormalDomain(d, lib)
    ensures UniqueDomains(AfterEdits([], DomainKey, (a, b) => false, edits))
  {
    var never := (a: Domain, b: Domain) => false;
    var fit := (d: Domain) => AllGood(d.forwards, (f: PortForward) => true, (f: PortForward) => f.port);
    EditsKeepUnique([], DomainKey, never, edits);
    forall i | 0 <= i < |edits| && edits[i].Put?
      ensures fit(edits[i].item)
    {
      var d :| AcceptsDomain(d, lib) && edits[i].item == NormalDomain(d, lib);
    }
    EditsKeepAll([], DomainKey, never, edits, fit);
    var ds := AfterEdits([], DomainKey, never, edits);
    forall d | d in ds
      ensures UniquePorts(d.forwards)
    {
      assert fit(d);
    }
    assert UniqueKeys(ds, DomainKey);
    assert UniqueDomains(ds);
  }

  /** And the sites: one site per host, and in each of them at most one route for a path. */
  lemma ValidatedSitesMatchOnce(edits: seq<Edit<HTTPSite>>, lib: Library)
    requires forall i | 0 <= i < |edits| && edits[i].Put? ::
               exists s :: AcceptsSite(s, lib) && edits[i].item == NormalSite(s)
    ensures var sites := AfterEdits([], SiteKey, (a, b) => false, edits);
      UniqueHosts(sites) && forall s | s in sites :: ValidPrefixes(s.routes)
  {
    var never := (a: HTTPSite, b: HTTPSite) => false;
    var fit := (s: HTTPSite) => GoodRoutes(s.routes, lib);
    EditsKeepUnique([], SiteKey, never, edits);
    forall i | 0 <= i < |edits| && edits[i].Put?
      ensures fit(edits[i].item)
    {
      var s :| AcceptsSite(s, lib) && edits[i].item == NormalSite(s);
    }
    EditsKeepAll([], SiteKey, never, edits, fit);
    var sites := AfterEdits([], SiteKey, never, edits);
    forall s | s in sites
      ensures ValidPrefixes(s.routes)
    {
      assert fit(s);
      GoodRoutesAreValid(s.routes, lib);
    }
    assert UniqueKeys(sites, SiteKey);
    assert UniqueHosts(sites);
  }

  /** url.Parse is what decides about a site's target, at validation and when the proxy is built. */
  ghost predicate ParsesWhatItAccepts(lib: Library) {
    forall target :: lib.backendOK(target) ==> lib.parses(target)
  }

  /** So sites that went through validation can always be compiled; only a domain can stop a commit. */
  lemma ValidatedSitesBuild(edits: seq<Edit<HTTPSite>>, lib: Library)
    requires ParsesWhatItAccepts(lib)
    requires forall i | 0 <= i < |edits| && edits[i].Put? ::
               exists s :: AcceptsSite(s, lib) && edits[i].item == NormalSite(s)
    ensures SitesBuild(AfterEdits([], SiteKey, (a, b) => false, edits), lib.parses)
  {
    var never := (a: HTTPSite, b: HTTPSite) => false;
    var fit := (s: HTTPSite) => GoodRoutes(s.routes, lib);
    forall i | 0 <= i < |edits| && edits[i].Put?
      ensures fit(edits[i].item)
    {
      var s :| AcceptsSite(s, lib) && edits[i].item == NormalSite(s);
    }
    EditsKeepAll([], SiteKey, never, edits, fit);
    forall s, r | s in AfterEdits([], SiteKey, never, edits) && r in s.routes && r.enabled
      ensures lib.parses(r.target)
    {
      assert fit(s);
      assert GoodRoute(r, lib);
    }
  }

  /** The health path is never one that a validated route asks for. */
  lemma HealthHidesNoRoute(r: Route, lib: Library)
    requires GoodRoute(r, lib)
    ensures !PathMatches(r.prefix, "/_healthz")
  {
    assert "/_healthz"[1] == '_' && ("/" + r.prefix)[1] == r.prefix[0];
  }
}

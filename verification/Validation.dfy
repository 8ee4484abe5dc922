/** The checks of config.go that normalize a record before it is stored. */
module Validation {
  import opened Records
  import opened RouteIndex

  /**
   What the checks take from Go's libraries: the host name pattern, host:port normalization with and
   without a host required, the test that a backend address is an http or https URL with a host, and
   url.Parse itself.
   */
  datatype Library = Library(
    hostOK: string -> bool,
    hostPort: string -> Option<string>,
    listenPort: string -> Option<string>,
    backendOK: string -> bool,
    parses: string -> bool)

  predicate IsSpace(c: char) { c == ' ' || '\t' <= c <= '\r' }

  function TrimLeft(s: string, drop: char -> bool): (r: string)
    ensures r != "" ==> !drop(r[0])
  {
    if s != "" && drop(s[0]) then TrimLeft(s[1..], drop) else s
  }

  function TrimRight(s: string, drop: char -> bool): (r: string)
    ensures r <= s
    ensures r != "" ==> !drop(r[|r| - 1])
  {
    if s != "" && drop(s[|s| - 1]) then TrimRight(s[..|s| - 1], drop) else s
  }

  function Trim(s: string, drop: char -> bool): string { TrimRight(TrimLeft(s, drop), drop) }

  function TrimSpace(s: string): string { Trim(s, c => IsSpace(c)) }

  lemma TrimIsStable(s: string, drop: char -> bool)
    ensures Trim(Trim(s, drop), drop) == Trim(s, drop)
  {}

  predicate IsAlnum(c: char) { 'A' <= c <= 'Z' || 'a' <= c <= 'z' || '0' <= c <= '9' }

  /** Trimming takes off what is to be dropped at both ends, and nothing else. */
  lemma {:induction false} TrimExactly(s: string, drop: char -> bool) returns (before: string, after: string)
    ensures s == before + Trim(s, drop) + after
    ensures forall c | c in before + after :: drop(c)
    ensures Trim(s, drop) != "" ==> !drop(Trim(s, drop)[0]) && !drop(Trim(s, drop)[|Trim(s, drop)| - 1])
  {
    before := LeftTrimmed(s, drop);
    after := RightTrimmed(TrimLeft(s, drop), drop);
  }

  lemma {:induction false} LeftTrimmed(s: string, drop: char -> bool) returns (before: string)
    ensures s == before + TrimLeft(s, drop) && forall c | c in before :: drop(c)
  {
    if s != "" && drop(s[0]) {
      var rest := LeftTrimmed(s[1..], drop);
      before := [s[0]] + rest;
    } else {
      before := "";
    }
  }

  lemma {:induction false} RightTrimmed(s: string, drop: char -> bool) returns (after: string)
    ensures s == TrimRight(s, drop) + after && forall c | c in after :: drop(c)
  {
    if s != "" && drop(s[|s| - 1]) {
      var rest := RightTrimmed(s[..|s| - 1], drop);
      after := rest + [s[|s| - 1]];
    } else {
      after := "";
    }
  }

  /** A space is any of the six ASCII ones. */
  lemma SpacesExactly(c: char)
    ensures IsSpace(c) <==> c in {' ', '\t', '\n', '\U{0B}', '\U{0C}', '\r'}
  {}

  /** prefixPattern: a letter or digit, then letters, digits, underscores and hyphens. */
  predicate PrefixOK(s: string) {
    && s != "" && IsAlnum(s[0])
    && forall c | c in s :: IsAlnum(c) || c == '_' || c == '-'
  }

  predicate Reserved(s: string) { s == "_admin" || s == "_healthz" }

  /** Names and prefixes by example, and no name the pattern accepts is a reserved one. */
  lemma PatternByExample()
    ensures PrefixOK("serviceA") && PrefixOK("0") && PrefixOK("a-b_C9")
    ensures !PrefixOK("") && !PrefixOK("-a") && !PrefixOK("_a")
    ensures !PrefixOK("a/b") && !PrefixOK("a.b") && !PrefixOK("a b")
  {
    assert "a/b"[1] in "a/b" && "a.b"[1] in "a.b" && "a b"[1] in "a b";
  }

  lemma ReservedIsNeverReached(prefix: string)
    requires PrefixOK(prefix)
    ensures !Reserved(prefix) && prefix != "_healthz" && prefix != "_admin"
    ensures Reserved("_healthz") && Reserved("_admin")
  {}

  /** Each item is good and no two have the same key. */
  predicate AllGood<T, K(==)>(items: seq<T>, good: T -> bool, key: T -> K) {
    && (forall i | 0 <= i < |items| :: good(items[i]))
    && (forall i, j | 0 <= i < j < |items| :: key(items[i]) != key(items[j]))
  }

  /** The loop with the `seen` map that both validators contain. */
  method CheckAll<T, K(==)>(items: seq<T>, good: T -> bool, key: T -> K) returns (ok: bool)
    ensures ok == AllGood(items, good, key)
  {
    var seen: set<K> := {};
    for i := 0 to |items|
      invariant forall k | 0 <= k < i :: good(items[k])
      invariant forall j, k | 0 <= j < k < i :: key(items[j]) != key(items[k])
      invariant forall k | 0 <= k < i :: key(items[k]) in seen
      invariant forall x | x in seen :: exists k | 0 <= k < i :: key(items[k]) == x
    {
      if !good(items[i]) || key(items[i]) in seen {
        return false;
      }
      seen := seen + {key(items[i])};
    }
    return true;
  }

  /// Sites

  function NormalRoute(r: Route): Route {
    r.(prefix := Trim(TrimSpace(r.prefix), c => c == '/'),
       target := TrimSpace(r.target),
       description := TrimSpace(r.description))
  }

  predicate GoodRoute(r: Route, lib: Library) {
    PrefixOK(r.prefix) && !Reserved(r.prefix) && lib.backendOK(r.target) && r.maxConcurrent >= 0
  }

  predicate GoodRoutes(routes: seq<Route>, lib: Library) {
    AllGood(routes, (r: Route) => GoodRoute(r, lib), (r: Route) => r.prefix)
  }

  function NormalRoutes(routes: seq<Route>): (r: seq<Route>)
    ensures |r| == |routes|
    ensures forall i | 0 <= i < |routes| :: r[i] == NormalRoute(routes[i])
  {
    seq(|routes|, i requires 0 <= i < |routes| => NormalRoute(routes[i]))
  }

  function NormalSite(site: HTTPSite): HTTPSite {
    HTTPSite(TrimSpace(Lower(site.host)), TrimSpace(site.description), NormalRoutes(site.routes))
  }

  ghost predicate AcceptsSite(site: HTTPSite, lib: Library) {
    lib.hostOK(TrimSpace(Lower(site.host))) && GoodRoutes(NormalRoutes(site.routes), lib)
  }

  /** What a route is refused for. */
  predicate BadRoute(r: Route, lib: Library) {
    || !PrefixOK(Trim(TrimSpace(r.prefix), c => c == '/')) || Reserved(Trim(TrimSpace(r.prefix), c => c == '/'))
    || !lib.backendOK(TrimSpace(r.target)) || r.maxConcurrent < 0
  }

  method ValidateSite(site: HTTPSite, lib: Library) returns (r: Option<HTTPSite>)
    ensures r == if AcceptsSite(site, lib) then Some(NormalSite(site)) else None
    ensures r.Some? ==> r.value.host == TrimSpace(Lower(site.host)) && lib.hostOK(r.value.host)
                        && |r.value.routes| == |site.routes| && r.value.description == TrimSpace(site.description)
    ensures r.Some? ==> forall i | 0 <= i < |site.routes| :: var x, y := site.routes[i], r.value.routes[i];
              && y.prefix == Trim(TrimSpace(x.prefix), c => c == '/') && PrefixOK(y.prefix)
              && y.target == TrimSpace(x.target) && lib.backendOK(y.target)
              && y.maxConcurrent == x.maxConcurrent >= 0
              && y.stripPrefix == x.stripPrefix && y.enabled == x.enabled
              && y.description == TrimSpace(x.description)
    ensures r.Some? ==> forall i, j | 0 <= i < j < |site.routes| :: r.value.routes[i].prefix != r.value.routes[j].prefix
    ensures r.None? ==>
              || !lib.hostOK(TrimSpace(Lower(site.host)))
              || (exists i | 0 <= i < |site.routes| :: BadRoute(site.routes[i], lib))
              || exists i, j | 0 <= i < j < |site.routes| ::
                   NormalRoute(site.routes[i]).prefix == NormalRoute(site.routes[j]).prefix
  {
    var host := TrimSpace(Lower(site.host));
    if !lib.hostOK(host) {
      return None;
    }
    var routes := NormalRoutes(site.routes);
    var ok := CheckAll(routes, (r: Route) => GoodRoute(r, lib), (r: Route) => r.prefix);
    return if ok then Some(HTTPSite(host, TrimSpace(site.description), routes)) else None;
  }

  lemma TrimNothing(s: string, drop: char -> bool)
    requires s != "" ==> !drop(s[0]) && !drop(s[|s| - 1])
    ensures Trim(s, drop) == s
  {}

  lemma RouteSettles(r: Route, lib: Library)
    requires GoodRoute(NormalRoute(r), lib)
    ensures NormalRoute(NormalRoute(r)) == NormalRoute(r)
  {
    var n := NormalRoute(r);
    var space, slash := (c: char) => IsSpace(c), (c: char) => c == '/';
    assert n.prefix[0] in n.prefix && n.prefix[|n.prefix| - 1] in n.prefix;
    TrimNothing(n.prefix, space);
    TrimNothing(n.prefix, slash);
    TrimIsStable(r.target, space);
    TrimIsStable(r.description, space);
  }

  lemma HostSettles(host: string)
    ensures TrimSpace(Lower(TrimSpace(Lower(host)))) == TrimSpace(Lower(host))
  {
    var space := (c: char) => IsSpace(c);
    LowerTwice(host);
    TrimKeepsLower(Lower(host), space);
    TrimIsStable(Lower(host), space);
  }

  /** Validating a validated site changes nothing and refuses nothing. */
  lemma SiteSettles(site: HTTPSite, lib: Library)
    requires AcceptsSite(site, lib)
    ensures var v := NormalSite(site); AcceptsSite(v, lib) && NormalSite(v) == v
  {
    var v := NormalSite(site);
    HostSettles(site.host);
    TrimIsStable(site.description, c => IsSpace(c));
    forall i | 0 <= i < |site.routes|
      ensures NormalRoute(v.routes[i]) == v.routes[i]
    {
      assert GoodRoute(v.routes[i], lib);
      RouteSettles(site.routes[i], lib);
    }
    assert NormalRoutes(v.routes) == v.routes;
  }

  /** What MatchSite relies on: stored prefixes contain no slash and are distinct. */
  lemma GoodRoutesAreValid(routes: seq<Route>, lib: Library)
    requires GoodRoutes(routes, lib)
    ensures ValidPrefixes(routes)
  {}

  /// Domains

  function NormalForward(f: PortForward, lib: Library): PortForward {
    var m := f.manageCert && f.port != 80;
    PortForward(f.port,
                match lib.hostPort(TrimSpace(f.target)) case Some(t) => t case None => f.target,
                m, f.backendTLS && m, f.skipVerify && m, f.proxyProto,
                TrimSpace(f.description), f.enabled)
  }

  predicate GoodForward(f: PortForward, lib: Library) {
    1 <= f.port <= 65535 && lib.hostPort(TrimSpace(f.target)).Some?
  }

  predicate GoodForwards(fs: seq<PortForward>, lib: Library) {
    AllGood(fs, (f: PortForward) => GoodForward(f, lib), (f: PortForward) => f.port)
  }

  function NormalForwards(fs: seq<PortForward>, lib: Library): (r: seq<PortForward>)
    ensures |r| == |fs|
    ensures forall i | 0 <= i < |fs| :: r[i] == NormalForward(fs[i], lib)
  {
    seq(|fs|, i requires 0 <= i < |fs| => NormalForward(fs[i], lib))
  }

  function NormalDomain(d: Domain, lib: Library): Domain {
    Domain(TrimSpace(Lower(d.host)), TrimSpace(d.description), NormalForwards(d.forwards, lib))
  }

  ghost predicate AcceptsDomain(d: Domain, lib: Library) {
    lib.hostOK(TrimSpace(Lower(d.host))) && d.forwards != [] && GoodForwards(d.forwards, lib)
  }

  /** What the loop body does to one forward, once it has passed its checks. */
  method NormalizeForward(forward: PortForward, lib: Library) returns (f: PortForward)
    requires GoodForward(forward, lib)
    ensures f == NormalForward(forward, lib)
  {
    f := forward.(description := TrimSpace(forward.description));
    if f.port == 80 {
      f := f.(manageCert := false, backendTLS := false, skipVerify := false);
    }
    f := f.(target := lib.hostPort(TrimSpace(f.target)).value);
    if !f.manageCert {
      f := f.(backendTLS := false, skipVerify := false);
    }
  }

  method ValidateDomain(d: Domain, lib: Library) returns (r: Option<Domain>)
    ensures r == if AcceptsDomain(d, lib) then Some(NormalDomain(d, lib)) else None
    ensures r.Some? ==> r.value.host == TrimSpace(Lower(d.host)) && |r.value.forwards| == |d.forwards|
                        && r.value.description == TrimSpace(d.description)
    ensures r.Some? ==> forall i | 0 <= i < |d.forwards| :: var x, y := d.forwards[i], r.value.forwards[i];
              && y.port == x.port && y.proxyProto == x.proxyProto && y.enabled == x.enabled
              && y.description == TrimSpace(x.description)
              && Some(y.target) == lib.hostPort(TrimSpace(x.target))
              && (y.manageCert <==> x.manageCert && x.port != 80)
              && (y.backendTLS <==> x.backendTLS && y.manageCert) && (y.skipVerify <==> x.skipVerify && y.manageCert)
    ensures r.Some? <==>
            && lib.hostOK(TrimSpace(Lower(d.host))) && |d.forwards| > 0
            && (forall i | 0 <= i < |d.forwards| ::
                  1 <= d.forwards[i].port <= 65535 && lib.hostPort(TrimSpace(d.forwards[i].target)).Some?)
            && forall i, j | 0 <= i < j < |d.forwards| :: d.forwards[i].port != d.forwards[j].port
  {
    var host := TrimSpace(Lower(d.host));
    if !lib.hostOK(host) || |d.forwards| == 0 {
      return None;
    }
    var ok := CheckAll(d.forwards, (f: PortForward) => GoodForward(f, lib), (f: PortForward) => f.port);
    if !ok {
      return None;
    }
    var fs: seq<PortForward> := [];
    for i := 0 to |d.forwards|
      invariant |fs| == i && forall k | 0 <= k < i :: fs[k] == NormalForward(d.forwards[k], lib)
    {
      assert GoodForward(d.forwards[i], lib);
      var f := NormalizeForward(d.forwards[i], lib);
      fs := fs + [f];
    }
    assert fs == NormalForwards(d.forwards, lib);
    return Some(Domain(host, TrimSpace(d.description), fs));
  }

  /**
   What is true of host:port normalization, which splits at the last colon and joins again: a result is
   normalized already and has a colon, and one that begins or ends with a space, as in " a:80", is not what
   its own trim is normalized to.
   */
  ghost predicate Normalizes(f: string -> Option<string>) {
    forall s, t :: f(s) == Some(t) ==>
      f(t) == Some(t) && ':' in t && (TrimSpace(t) != t ==> f(TrimSpace(t)) != Some(t))
  }

  lemma {:induction false} TrimKeepsLower(s: string, drop: char -> bool)
    requires Lower(s) == s
    ensures Lower(Trim(s, drop)) == Trim(s, drop)
  {
    TrimLeftKeepsLower(s, drop);
    var l := TrimLeft(s, drop);
    var r := TrimRight(l, drop);
    assert forall i | 0 <= i < |r| :: r[i] == l[i] && LowerChar(r[i]) == Lower(l)[i];
  }

  lemma {:induction false} TrimLeftKeepsLower(s: string, drop: char -> bool)
    requires Lower(s) == s
    ensures Lower(TrimLeft(s, drop)) == TrimLeft(s, drop)
  {
    if s != "" && drop(s[0]) {
      assert forall i | 0 <= i < |s| - 1 :: s[1..][i] == Lower(s)[i + 1];
      assert Lower(s[1..]) == s[1..];
      TrimLeftKeepsLower(s[1..], drop);
    }
  }

  /** A normalized target comes back from another validation exactly if it has no space at either end. */
  lemma TargetTwiceExactly(s: string, t: string, lib: Library)
    requires Normalizes(lib.hostPort) && lib.hostPort(s) == Some(t)
    ensures lib.hostPort(TrimSpace(t)) == Some(t) <==> TrimSpace(t) == t
  {}

  lemma PortForwardTwiceExactly(f: PortForward, lib: Library)
    requires GoodForward(f, lib) && Normalizes(lib.hostPort)
    ensures var v := NormalForward(f, lib);
      GoodForward(v, lib) && NormalForward(v, lib) == v <==> TrimSpace(v.target) == v.target
  {
    TargetTwiceExactly(TrimSpace(f.target), NormalForward(f, lib).target, lib);
    TrimIsStable(f.description, c => IsSpace(c));
  }

  /** Validating a validated domain gives it back exactly if no target has a space at either end. */
  lemma DomainSettlesExactly(d: Domain, lib: Library)
    requires AcceptsDomain(d, lib) && Normalizes(lib.hostPort)
    ensures var v := NormalDomain(d, lib);
      AcceptsDomain(v, lib) && NormalDomain(v, lib) == v <==>
      forall f | f in v.forwards :: TrimSpace(f.target) == f.target
  {
    var v := NormalDomain(d, lib);
    HostSettles(d.host);
    TrimIsStable(d.description, c => IsSpace(c));
    forall i | 0 <= i < |d.forwards|
      ensures GoodForward(v.forwards[i], lib) && NormalForward(v.forwards[i], lib) == v.forwards[i] <==>
              TrimSpace(v.forwards[i].target) == v.forwards[i].target
      ensures v.forwards[i].port == d.forwards[i].port && v.forwards[i] in v.forwards
    {
      assert GoodForward(d.forwards[i], lib);
      assert v.forwards[i] == NormalForward(d.forwards[i], lib);
      PortForwardTwiceExactly(d.forwards[i], lib);
    }
    if AcceptsDomain(v, lib) && NormalDomain(v, lib) == v {
      forall i | 0 <= i < |v.forwards|
        ensures TrimSpace(v.forwards[i].target) == v.forwards[i].target
      {
        assert GoodForward(v.forwards[i], lib);
        assert NormalDomain(v, lib).forwards[i] == NormalForward(v.forwards[i], lib);
      }
    }
    if forall f | f in v.forwards :: TrimSpace(f.target) == f.target {
      assert NormalForwards(v.forwards, lib) == v.forwards;
    }
  }

  /** A validated domain on port 80 is always plain, and no passthrough carries backend TLS settings. */
  lemma ValidatedForwardsAreConsistent(d: Domain, lib: Library, f: PortForward)
    requires AcceptsDomain(d, lib) && f in NormalDomain(d, lib).forwards
    ensures f.port == 80 ==> !f.manageCert
    ensures !f.manageCert ==> !f.backendTLS && !f.skipVerify
    ensures UniquePorts(NormalDomain(d, lib).forwards)
  {}

  /// Forwards and DNAT rules

  function NormalizeListen(s: string, lib: Library): Option<string> {
    var t := TrimSpace(s);
    if t == "" then None
    else lib.listenPort(if ':' in t then t else ":" + t)
  }

  /** A bare port stands for all interfaces, an address for itself, and nothing is no address. */
  lemma ListensExactly(s: string, lib: Library)
    ensures TrimSpace(s) == "" ==> NormalizeListen(s, lib) == None
    ensures ':' in TrimSpace(s) ==> NormalizeListen(s, lib) == lib.listenPort(TrimSpace(s))
    ensures TrimSpace(s) != "" && ':' !in TrimSpace(s) ==> NormalizeListen(s, lib) == lib.listenPort(":" + TrimSpace(s))
  {}

  /** The normalized forward, or None for any of the errors. */
  function ValidForward(f: Forward, lib: Library): (r: Option<Forward>)
    ensures r.Some? ==> PrefixOK(r.value.name) && r.value.proto in {"tcp", "udp", "tcp+udp"}
    ensures r.Some? ==> r.value.enabled == f.enabled && r.value.proxyProto == f.proxyProto
    ensures r.Some? ==> WantsTcp(r.value) || WantsUdp(r.value)
  {
    var name := TrimSpace(f.name);
    var p := Lower(TrimSpace(f.proto));
    var proto := if p == "" then "tcp" else p;
    var listen := NormalizeListen(f.listen, lib);
    var target := lib.hostPort(TrimSpace(f.target));
    if PrefixOK(name) && proto in {"tcp", "udp", "tcp+udp"} && listen.Some? && target.Some? then
      Some(Forward(name, proto, listen.value, target.value, f.proxyProto, TrimSpace(f.description), f.enabled))
    else None
  }

  /** The checks one after the other, each normalizing a field in place. */
  method ValidateForward(forward: Forward, lib: Library) returns (r: Option<Forward>)
    ensures r == ValidForward(forward, lib)
    ensures r.Some? <==>
            && PrefixOK(TrimSpace(forward.name))
            && Lower(TrimSpace(forward.proto)) in {"", "tcp", "udp", "tcp+udp"}
            && NormalizeListen(forward.listen, lib).Some? && lib.hostPort(TrimSpace(forward.target)).Some?
    ensures r.Some? ==> Some(r.value.listen) == NormalizeListen(forward.listen, lib)
                        && Some(r.value.target) == lib.hostPort(TrimSpace(forward.target))
    ensures r.Some? ==> r.value.proto == (var p := Lower(TrimSpace(forward.proto)); if p == "" then "tcp" else p)
    ensures r.Some? ==> r.value.name == TrimSpace(forward.name) && r.value.description == TrimSpace(forward.description)
                        && r.value.proxyProto == forward.proxyProto && r.value.enabled == forward.enabled
  {
    var f := forward.(name := TrimSpace(forward.name));
    if !PrefixOK(f.name) {
      return None;
    }
    f := f.(proto := Lower(TrimSpace(f.proto)));
    if f.proto == "" {
      f := f.(proto := "tcp");
    }
    if f.proto != "tcp" && f.proto != "udp" && f.proto != "tcp+udp" {
      return None;
    }
    var listen := NormalizeListen(f.listen, lib);
    if listen.None? {
      return None;
    }
    f := f.(listen := listen.value);
    var target := lib.hostPort(TrimSpace(f.target));
    if target.None? {
      return None;
    }
    return Some(f.(target := target.value, description := TrimSpace(f.description)));
  }

  function ValidRule(d: DNATRule, lib: Library): (r: Option<DNATRule>)
    ensures r.Some? ==> PrefixOK(r.value.name) && r.value.proto in {"tcp", "udp"} && 1 <= r.value.listenPort <= 65535
    ensures r.Some? ==> r.value.enabled == d.enabled && r.value.snat == d.snat && r.value.listenPort == d.listenPort
  {
    var name := TrimSpace(d.name);
    var proto := Lower(TrimSpace(d.proto));
    var target := lib.hostPort(TrimSpace(d.target));
    if PrefixOK(name) && proto in {"tcp", "udp"} && 1 <= d.listenPort <= 65535 && target.Some? then
      Some(DNATRule(name, proto, d.listenPort, target.value, d.snat, TrimSpace(d.description), d.enabled))
    else None
  }

  method ValidateDNAT(rule: DNATRule, lib: Library) returns (r: Option<DNATRule>)
    ensures r == ValidRule(rule, lib)
    ensures r.Some? <==>
            && PrefixOK(TrimSpace(rule.name)) && Lower(TrimSpace(rule.proto)) in {"tcp", "udp"}
            && 1 <= rule.listenPort <= 65535 && lib.hostPort(TrimSpace(rule.target)).Some?
    ensures r.Some? ==> Some(r.value.target) == lib.hostPort(TrimSpace(rule.target))
                        && r.value.name == TrimSpace(rule.name) && r.value.proto == Lower(TrimSpace(rule.proto))
                        && r.value.listenPort == rule.listenPort && r.value.snat == rule.snat
                        && r.value.enabled == rule.enabled && r.value.description == TrimSpace(rule.description)
  {
    var d := rule.(name := TrimSpace(rule.name));
    if !PrefixOK(d.name) {
      return None;
    }
    d := d.(proto := Lower(TrimSpace(d.proto)));
    if d.proto != "tcp" && d.proto != "udp" {
      return None;
    }
    if d.listenPort < 1 || d.listenPort > 65535 {
      return None;
    }
    var target := lib.hostPort(TrimSpace(d.target));
    if target.None? {
      return None;
    }
    return Some(d.(target := target.value, description := TrimSpace(d.description)));
  }

  lemma NameSettles(name: string)
    requires PrefixOK(name)
    ensures TrimSpace(name) == name
  {
    assert name[0] in name && name[|name| - 1] in name;
    TrimNothing(name, c => IsSpace(c));
  }

  lemma ProtoSettles(proto: string)
    requires proto in {"tcp", "udp", "tcp+udp"}
    ensures Lower(TrimSpace(proto)) == proto
  {
    TrimNothing(proto, c => IsSpace(c));
  }

  lemma ListenTwiceExactly(s: string, t: string, lib: Library)
    requires Normalizes(lib.listenPort) && NormalizeListen(s, lib) == Some(t)
    ensures NormalizeListen(t, lib) == Some(t) <==> TrimSpace(t) == t
  {
    TrimKeepsColon(t);
  }

  lemma TrimKeepsColon(t: string)
    requires ':' in t
    ensures ':' in TrimSpace(t)
  {
    TrimLeftKeeps(t, ':', c => IsSpace(c));
    TrimRightKeeps(TrimLeft(t, c => IsSpace(c)), ':', c => IsSpace(c));
  }

  lemma {:induction false} TrimLeftKeeps(s: string, c: char, drop: char -> bool)
    requires c in s && !drop(c)
    ensures c in TrimLeft(s, drop)
  {
    if drop(s[0]) {
      assert s == [s[0]] + s[1..];
      TrimLeftKeeps(s[1..], c, drop);
    }
  }

  lemma {:induction false} TrimRightKeeps(s: string, c: char, drop: char -> bool)
    requires c in s && !drop(c)
    ensures c in TrimRight(s, drop)
  {
    if drop(s[|s| - 1]) {
      assert s == s[..|s| - 1] + [s[|s| - 1]];
      TrimRightKeeps(s[..|s| - 1], c, drop);
    }
  }

  lemma DescriptionTwice(s: string)
    ensures TrimSpace(TrimSpace(s)) == TrimSpace(s)
  {
    TrimIsStable(s, c => IsSpace(c));
  }

  /** All there is to a forward that validation gives back. */
  lemma ForwardUnchanged(v: Forward, lib: Library)
    requires PrefixOK(v.name) && v.proto in {"tcp", "udp", "tcp+udp"}
    requires NormalizeListen(v.listen, lib) == Some(v.listen) && lib.hostPort(TrimSpace(v.target)) == Some(v.target)
    requires TrimSpace(v.description) == v.description
    ensures ValidForward(v, lib) == Some(v)
  {
    NameSettles(v.name);
    ProtoSettles(v.proto);
  }

  /** Validating a validated forward gives it back exactly if neither address has a space at either end. */
  lemma ForwardSettlesExactly(f: Forward, lib: Library)
    requires ValidForward(f, lib).Some? && Normalizes(lib.hostPort) && Normalizes(lib.listenPort)
    ensures var v := ValidForward(f, lib).value;
      ValidForward(v, lib) == Some(v) <==> TrimSpace(v.target) == v.target && TrimSpace(v.listen) == v.listen
  {
    var v := ValidForward(f, lib).value;
    ListenTwiceExactly(f.listen, v.listen, lib);
    TargetTwiceExactly(TrimSpace(f.target), v.target, lib);
    DescriptionTwice(f.description);
    if TrimSpace(v.target) == v.target && TrimSpace(v.listen) == v.listen {
      ForwardUnchanged(v, lib);
    }
  }

  /** Validating a validated rule gives it back exactly if its target has no space at either end. */
  lemma RuleSettlesExactly(d: DNATRule, lib: Library)
    requires ValidRule(d, lib).Some? && Normalizes(lib.hostPort)
    ensures var v := ValidRule(d, lib).value;
      ValidRule(v, lib) == Some(v) <==> TrimSpace(v.target) == v.target
  {
    var v := ValidRule(d, lib).value;
    NameSettles(v.name);
    ProtoSettles(v.proto);
    TargetTwiceExactly(TrimSpace(d.target), v.target, lib);
    DescriptionTwice(d.description);
  }

  /** Go's host:port functions on the addresses of the next lemma: brackets come off, spaces inside them stay. */
  function Bracketed(s: string): Option<string> {
    if s == "[ a]:80" || s == " a:80" then Some(" a:80")
    else if s == "[ ]:80" || s == " :80" then Some(" :80")
    else if s == "a:80" then Some("a:80")
    else None
  }

  const BRACKETS := Library(host => true, Bracketed, Bracketed, s => true, s => true)

  lemma BracketsNormalize()
    ensures Normalizes(Bracketed)
    ensures TrimSpace(" a:80") == "a:80" && TrimSpace(" :80") == ":80"
    ensures TrimSpace("[ a]:80") == "[ a]:80" && TrimSpace("[ ]:80") == "[ ]:80" && TrimSpace("a:80") == "a:80"
  {
    var space := (c: char) => IsSpace(c);
    assert " a:80"[1..] == "a:80" && " :80"[1..] == ":80";
    assert TrimLeft(" a:80", space) == TrimLeft("a:80", space) == "a:80";
    assert TrimLeft(" :80", space) == TrimLeft(":80", space) == ":80";
    TrimNothing("a:80", space);
    TrimNothing(":80", space);
    TrimNothing("[ a]:80", space);
    TrimNothing("[ ]:80", space);
    assert Bracketed(":80") == None;
  }

  /** Two targets that do not come back: the second validation changes this one. */
  lemma BracketedTargetChanges(d: DNATRule)
    requires PrefixOK(d.name) && d.proto == "tcp" && 1 <= d.listenPort <= 65535 && d.target == "[ a]:80"
    ensures var v := ValidRule(d, BRACKETS);
      v.Some? && v.value.target == " a:80"
      && ValidRule(v.value, BRACKETS).Some? && ValidRule(v.value, BRACKETS).value.target == "a:80"
  {
    BracketsNormalize();
    NameSettles(d.name);
    ProtoSettles("tcp");
  }

  /** And it refuses this one. */
  lemma BracketedTargetIsRefused(d: DNATRule)
    requires PrefixOK(d.name) && d.proto == "tcp" && 1 <= d.listenPort <= 65535 && d.target == "[ ]:80"
    ensures var v := ValidRule(d, BRACKETS);
      v.Some? && v.value.target == " :80" && ValidRule(v.value, BRACKETS) == None
  {
    BracketsNormalize();
    NameSettles(d.name);
    ProtoSettles("tcp");
    assert Bracketed(":80") == None;
  }
}

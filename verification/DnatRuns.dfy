/** What the rebuilt chains mean, over any run of Apply and Shutdown. */
module DnatRuns {
  import opened Records
  import opened KeyedLists
  import opened Stores
  import opened Dnat

  /// The contents of the two chains

  predicate Accepted(refused: set<Cmd>, r: DNATRule) {
    r.enabled && Append(DNAT_CHAIN, RedirectOf(r)) !in refused
  }

  predicate Masked(refused: set<Cmd>, split: Split, r: DNATRule) {
    && Accepted(refused, r) && r.snat && split(r.target).Some?
    && Append(POST_CHAIN, MasqueradeOf(r, split(r.target).value)) !in refused
  }

  function Redirects(refused: set<Cmd>, rules: seq<DNATRule>): seq<KRule> {
    if rules == [] then []
    else
      var n := |rules| - 1;
      Redirects(refused, rules[..n]) + OwnRedirect(refused, rules[n])
  }

  function Masquerades(refused: set<Cmd>, split: Split, rules: seq<DNATRule>): seq<KRule> {
    if rules == [] then []
    else
      var n := |rules| - 1;
      Masquerades(refused, split, rules[..n]) + OwnMasquerade(refused, split, rules[n])
  }

  lemma ChainNamesDiffer()
    ensures DNAT_CHAIN != POST_CHAIN
    ensures DNAT_CHAIN != "PREROUTING" && DNAT_CHAIN != "POSTROUTING"
    ensures POST_CHAIN != "PREROUTING" && POST_CHAIN != "POSTROUTING"
    ensures "PREROUTING" != "POSTROUTING"
    ensures DNAT_CHAIN == "INPROXY_DNAT" && POST_CHAIN == "INPROXY_POST"
  {}

  /** The kernel with so much appended to the two own chains. */
  function Extended(c: Chains, redirects: seq<KRule>, masquerades: seq<KRule>): Chains
    requires DNAT_CHAIN in c && POST_CHAIN in c
  {
    c[DNAT_CHAIN := c[DNAT_CHAIN] + redirects][POST_CHAIN := c[POST_CHAIN] + masquerades]
  }

  lemma ExtendedTwice(c: Chains, r1: seq<KRule>, m1: seq<KRule>, r2: seq<KRule>, m2: seq<KRule>)
    requires DNAT_CHAIN in c && POST_CHAIN in c
    ensures Extended(Extended(c, r1, m1), r2, m2) == Extended(c, r1 + r2, m1 + m2)
    ensures Extended(c, [], []) == c
  {
    ChainNamesDiffer();
    assert (c[DNAT_CHAIN] + r1) + r2 == c[DNAT_CHAIN] + (r1 + r2);
    assert (c[POST_CHAIN] + m1) + m2 == c[POST_CHAIN] + (m1 + m2);
    assert c[DNAT_CHAIN] + [] == c[DNAT_CHAIN] && c[POST_CHAIN] + [] == c[POST_CHAIN];
  }

  function OwnRedirect(refused: set<Cmd>, r: DNATRule): seq<KRule> {
    if Accepted(refused, r) then [RedirectOf(r)] else []
  }

  function OwnMasquerade(refused: set<Cmd>, split: Split, r: DNATRule): seq<KRule> {
    if Masked(refused, split, r) then [MasqueradeOf(r, split(r.target).value)] else []
  }

  /** One rule appends to the two own chains, whichever commands fail, and touches nothing else. */
  lemma RuleAddedAppends(c: Chains, refused: set<Cmd>, split: Split, r: DNATRule)
    requires DNAT_CHAIN in c && POST_CHAIN in c && r.enabled
    ensures RuleAdded(c, refused, split, r).chains ==
            Extended(c, OwnRedirect(refused, r), OwnMasquerade(refused, split, r))
    ensures RuleAdded(c, refused, split, r).ok <==> Accepted(refused, r) && (r.snat ==> Masked(refused, split, r))
  {
    ChainNamesDiffer();
    assert c[DNAT_CHAIN] + [] == c[DNAT_CHAIN] && c[POST_CHAIN] + [] == c[POST_CHAIN];
  }

  lemma {:induction false} RulesAddedAppend(c: Chains, refused: set<Cmd>, split: Split, rules: seq<DNATRule>)
    requires DNAT_CHAIN in c && POST_CHAIN in c
    ensures RulesAdded(c, refused, split, rules).chains ==
            Extended(c, Redirects(refused, rules), Masquerades(refused, split, rules))
  {
    if rules == [] {
      ExtendedTwice(c, [], [], [], []);
    } else {
      var n := |rules| - 1;
      var r, b := rules[n], RulesAdded(c, refused, split, rules[..n]);
      RulesAddedAppend(c, refused, split, rules[..n]);
      if r.enabled {
        RuleAddedAppends(b.chains, refused, split, r);
      } else {
        ExtendedTwice(b.chains, [], [], [], []);
      }
      ExtendedTwice(c, Redirects(refused, rules[..n]), Masquerades(refused, split, rules[..n]),
                    OwnRedirect(refused, r), OwnMasquerade(refused, split, r));
    }
  }

  /**
   A rule whose status is an error forwards traffic all the same exactly when its redirection was
   accepted and only its masquerading failed.
   */
  lemma FailedRuleMayForward(c: Chains, refused: set<Cmd>, split: Split, r: DNATRule)
    requires DNAT_CHAIN in c && POST_CHAIN in c && r.enabled
    ensures var s := RuleAdded(c, refused, split, r);
      !s.ok && s.chains[DNAT_CHAIN] == c[DNAT_CHAIN] + [RedirectOf(r)] <==>
      Accepted(refused, r) && r.snat && !Masked(refused, split, r)
  {}

  /** The status of a name is that of its last rule: active exactly if every command of the rule worked. */
  lemma {:induction false} StatusExactly(c: Chains, refused: set<Cmd>, split: Split, rules: seq<DNATRule>, i: nat)
    requires DNAT_CHAIN in c && POST_CHAIN in c && i < |rules|
    requires forall j | i < j < |rules| :: rules[j].name != rules[i].name
    ensures var status := RulesAdded(c, refused, split, rules).status;
      var r := rules[i];
      r.name in status && status[r.name] ==
        if !r.enabled then Disabled
        else if Accepted(refused, r) && (r.snat ==> Masked(refused, split, r)) then Active else Failed
  {
    var n := |rules| - 1;
    RulesAddedAppend(c, refused, split, rules[..n]);
    if i < n {
      StatusExactly(c, refused, split, rules[..n], i);
    } else if rules[n].enabled {
      RuleAddedAppends(RulesAdded(c, refused, split, rules[..n]).chains, refused, split, rules[n]);
    }
  }

  /** A rule reported as failed whose packets are redirected: only its masquerading was refused. */
  lemma FailedRuleForwards(split: Split) returns (r: DNATRule, refused: set<Cmd>, s: Step)
    requires split("10.8.0.60:8765") == Some(("10.8.0.60", "8765"))
    ensures s == RuleAdded(map[DNAT_CHAIN := [], POST_CHAIN := []], refused, split, r)
    ensures !s.ok && FirstRedirect(s.chains[DNAT_CHAIN], Packet("tcp", 8765, true)) == Some("10.8.0.60:8765")
    ensures s.chains[POST_CHAIN] == []
  {
    ChainNamesDiffer();
    r := DNATRule("web", "tcp", 8765, "10.8.0.60:8765", true, "", true);
    refused := {Append(POST_CHAIN, Masquerade("tcp", "10.8.0.60", "8765"))};
    s := RuleAdded(map[DNAT_CHAIN := [], POST_CHAIN := []], refused, split, r);
    assert s.chains[DNAT_CHAIN] == [RedirectOf(r)];
  }

  /// Scaffolding and foreign rules

  function Count(s: seq<KRule>, r: KRule): nat { multiset(s)[r] }

  function Foreign(s: seq<KRule>, target: string): seq<KRule> { Without(s, r => r == Jump(target)) }

  /** The built-in chains exist, jumps lead somewhere, and there is at most one to each own chain. */
  ghost predicate Sound(c: Chains) {
    && "PREROUTING" in c && "POSTROUTING" in c
    && (Jump(DNAT_CHAIN) in c["PREROUTING"] ==> DNAT_CHAIN in c)
    && (Jump(POST_CHAIN) in c["POSTROUTING"] ==> POST_CHAIN in c)
    && Count(c["PREROUTING"], Jump(DNAT_CHAIN)) <= 1
    && Count(c["POSTROUTING"], Jump(POST_CHAIN)) <= 1
  }

  ghost predicate Hooked(c: Chains) {
    && Sound(c) && DNAT_CHAIN in c && POST_CHAIN in c
    && Count(c["PREROUTING"], Jump(DNAT_CHAIN)) == 1
    && Count(c["POSTROUTING"], Jump(POST_CHAIN)) == 1
  }

  /** Everything that is not this program's is in place and in order. */
  ghost predicate SameForeign(c: Chains, d: Chains) {
    && d.Keys - {DNAT_CHAIN, POST_CHAIN} == c.Keys - {DNAT_CHAIN, POST_CHAIN}
    && (forall n | n in c && n !in {DNAT_CHAIN, POST_CHAIN, "PREROUTING", "POSTROUTING"} :: n in d && d[n] == c[n])
    && "PREROUTING" in c && "PREROUTING" in d
    && "POSTROUTING" in c && "POSTROUTING" in d
    && Foreign(d["PREROUTING"], DNAT_CHAIN) == Foreign(c["PREROUTING"], DNAT_CHAIN)
    && Foreign(d["POSTROUTING"], POST_CHAIN) == Foreign(c["POSTROUTING"], POST_CHAIN)
  }

  lemma {:induction false} WithoutPrepended<T>(x: T, s: seq<T>, drop: T -> bool)
    requires drop(x)
    ensures Without([x] + s, drop) == Without(s, drop)
  {
    var t := [x] + s;
    if s == [] {
      assert t[..0] == [] && t == [x];
    } else {
      var n := |s| - 1;
      assert t[..|t| - 1] == [x] + s[..n] && t[|t| - 1] == s[n];
      WithoutPrepended(x, s[..n], drop);
    }
  }

  lemma WithoutAppended<T>(x: T, s: seq<T>, drop: T -> bool)
    requires drop(x)
    ensures Without(s + [x], drop) == Without(s, drop)
  {}

  /** With no command failing, one jump leads to the chain and nothing else in the parent moves. */
  lemma JumpedHooks(c: Chains, parent: string, target: string, top: bool)
    requires parent in c && target in c && parent != target && Count(c[parent], Jump(target)) <= 1
    ensures var s := Jumped(c, {}, parent, target, top);
      && s.ok && s.chains == c[parent := s.chains[parent]]
      && Count(s.chains[parent], Jump(target)) == 1
      && Foreign(s.chains[parent], target) == Foreign(c[parent], target)
    ensures Jump(target) !in c[parent] ==>
              Jumped(c, {}, parent, target, top).chains[parent] ==
                if top then [Jump(target)] + c[parent] else c[parent] + [Jump(target)]
  {
    var drop := (r: KRule) => r == Jump(target);
    WithoutPrepended(Jump(target), c[parent], drop);
    WithoutAppended(Jump(target), c[parent], drop);
  }

  /** What Apply does to the kernel. */
  function Applied(c: Chains, refused: set<Cmd>, split: Split, rules: seq<DNATRule>): Chains {
    var s := Scaffolded(c, refused);
    if s.ok then RulesAdded(Flushed(s.chains, refused), refused, split, rules).chains else s.chains
  }

  lemma NewKeeps(c: Chains)
    requires Sound(c)
    ensures var c2 := Exec(Exec(c, {}, New(DNAT_CHAIN)), {}, New(POST_CHAIN));
      && c2.Keys == c.Keys + {DNAT_CHAIN, POST_CHAIN}
      && forall n | n in c :: c2[n] == c[n]
  {}

  lemma ScaffoldedHooks(c: Chains)
    requires Sound(c)
    ensures var s := Scaffolded(c, {}); s.ok && Hooked(s.chains) && SameForeign(c, s.chains)
    ensures Jump(DNAT_CHAIN) !in c["PREROUTING"] ==>
              Scaffolded(c, {}).chains["PREROUTING"] == [Jump(DNAT_CHAIN)] + c["PREROUTING"]
    ensures Jump(POST_CHAIN) !in c["POSTROUTING"] ==>
              Scaffolded(c, {}).chains["POSTROUTING"] == c["POSTROUTING"] + [Jump(POST_CHAIN)]
  {
    ChainNamesDiffer();
    var c2 := Exec(Exec(c, {}, New(DNAT_CHAIN)), {}, New(POST_CHAIN));
    NewKeeps(c);
    JumpedHooks(c2, "PREROUTING", DNAT_CHAIN, true);
    var s := Jumped(c2, {}, "PREROUTING", DNAT_CHAIN, true);
    JumpedHooks(s.chains, "POSTROUTING", POST_CHAIN, false);
  }

  /** What the own chains hold is nobody else's business. */
  lemma OwnChainsAreFree(c: Chains, s: Chains, r: seq<KRule>, m: seq<KRule>)
    requires Hooked(s) && SameForeign(c, s)
    ensures var d := s[DNAT_CHAIN := r][POST_CHAIN := m]; Hooked(d) && SameForeign(c, d)
  {
    ChainNamesDiffer();
  }

  /**
   One Apply without command failures: the own chains hold exactly the enabled rules in order, each is
   reached by exactly one jump, and every foreign rule and chain is where it was.
   */
  lemma ApplyRebuilds(c: Chains, split: Split, rules: seq<DNATRule>)
    requires Sound(c)
    ensures var d := Applied(c, {}, split, rules);
      && Hooked(d) && SameForeign(c, d)
      && d[DNAT_CHAIN] == Redirects({}, rules)
      && d[POST_CHAIN] == Masquerades({}, split, rules)
  {
    ChainNamesDiffer();
    ScaffoldedHooks(c);
    var s := Scaffolded(c, {}).chains;
    FlushEmpties(s);
    OwnChainsAreFree(c, s, Redirects({}, rules), Masquerades({}, split, rules));
    RulesAddedAppend(Flushed(s, {}), {}, split, rules);
  }

  lemma FlushEmpties(s: Chains)
    requires Hooked(s)
    ensures Flushed(s, {}) == s[DNAT_CHAIN := []][POST_CHAIN := []]
    ensures forall r, m :: Extended(Flushed(s, {}), r, m) == s[DNAT_CHAIN := r][POST_CHAIN := m]
  {
    ChainNamesDiffer();
    forall r, m
      ensures Extended(Flushed(s, {}), r, m) == s[DNAT_CHAIN := r][POST_CHAIN := m]
    {
      assert [] + r == r && [] + m == m;
    }
  }

  /// Runs

  datatype Op = ApplyOp(rules: seq<DNATRule>) | ShutdownOp

  function After(c: Chains, split: Split, ops: seq<Op>): Chains {
    if ops == [] then c
    else
      var d := After(c, split, ops[..|ops| - 1]);
      match ops[|ops| - 1]
      case ApplyOp(rules) => Applied(d, {}, split, rules)
      case ShutdownOp => Flushed(d, {})
  }

  lemma SameForeignTransitive(c: Chains, d: Chains, e: Chains)
    requires SameForeign(c, d) && SameForeign(d, e)
    ensures SameForeign(c, e)
  {}

  /** A run leaves everything foreign alone and the kernel ready for the next run. */
  lemma {:induction false} RunKeepsForeign(c: Chains, split: Split, ops: seq<Op>)
    requires Sound(c)
    ensures Sound(After(c, split, ops)) && SameForeign(c, After(c, split, ops))
  {
    ChainNamesDiffer();
    if ops != [] {
      var d := After(c, split, ops[..|ops| - 1]);
      RunKeepsForeign(c, split, ops[..|ops| - 1]);
      match ops[|ops| - 1]
      case ApplyOp(rules) =>
        ApplyRebuilds(d, split, rules);
        SameForeignTransitive(c, d, Applied(d, {}, split, rules));
      case ShutdownOp =>
        SameForeignTransitive(c, d, Flushed(d, {}));
    }
  }

  /** After the last Apply of a run the own chains are those rules; after a Shutdown they are empty. */
  lemma RunEndsWith(c: Chains, split: Split, ops: seq<Op>, op: Op)
    requires Sound(c)
    ensures var d := After(c, split, ops + [op]);
      match op
      case ApplyOp(rules) =>
        Hooked(d) && d[DNAT_CHAIN] == Redirects({}, rules) && d[POST_CHAIN] == Masquerades({}, split, rules)
      case ShutdownOp => (DNAT_CHAIN in d ==> d[DNAT_CHAIN] == []) && (POST_CHAIN in d ==> d[POST_CHAIN] == [])
  {
    ChainNamesDiffer();
    assert (ops + [op])[..|ops|] == ops;
    RunKeepsForeign(c, split, ops);
    var d := After(c, split, ops);
    if op.ApplyOp? {
      ApplyRebuilds(d, split, op.rules);
    }
  }

  /// Packets

  datatype Packet = Packet(proto: string, port: int, local: bool)

  predicate Hits(r: KRule, p: Packet) {
    r.Redirect? && p.local && r.proto == p.proto && r.port == p.port
  }

  /** The kernel takes the first rule that matches. */
  function FirstRedirect(chain: seq<KRule>, p: Packet): Option<string> {
    if chain == [] then None
    else if Hits(chain[0], p) then Some(chain[0].to)
    else FirstRedirect(chain[1..], p)
  }

  lemma {:induction false} FirstRedirectAppend(chain: seq<KRule>, r: KRule, p: Packet)
    ensures FirstRedirect(chain + [r], p) ==
      if FirstRedirect(chain, p).Some? then FirstRedirect(chain, p) else if Hits(r, p) then Some(r.to) else None
  {
    if chain != [] {
      assert (chain + [r])[1..] == chain[1..] + [r];
      FirstRedirectAppend(chain[1..], r, p);
    }
  }

  predicate Serves(r: DNATRule, p: Packet) {
    r.enabled && p.local && r.proto == p.proto && r.listenPort == p.port
  }

  /**
   With the store's unique (proto, port), what the kernel does with a packet is a lookup in the rule
   list, so the order of the rules cannot matter.
   */
  lemma {:induction false} ChainIsLookup(rules: seq<DNATRule>, p: Packet, to: string)
    requires NoClash(rules, SamePort)
    ensures FirstRedirect(Redirects({}, rules), p) == Some(to) <==>
            exists r | r in rules :: Serves(r, p) && r.target == to
  {
    if rules != [] {
      var n := |rules| - 1;
      var r := rules[n];
      assert rules == rules[..n] + [r];
      forall i, j | 0 <= i < n && 0 <= j < n && i != j
        ensures !SamePort(rules[..n][i], rules[..n][j])
      {
        assert !SamePort(rules[i], rules[j]);
      }
      ChainIsLookup(rules[..n], p, to);
      if r.enabled {
        FirstRedirectAppend(Redirects({}, rules[..n]), RedirectOf(r), p);
        if Serves(r, p) {
          EarlierMisses(rules, p);
        }
      } else {
        assert Redirects({}, rules) == Redirects({}, rules[..n]);
      }
    }
  }

  lemma EarlierMisses(rules: seq<DNATRule>, p: Packet)
    requires rules != [] && NoClash(rules, SamePort) && Serves(rules[|rules| - 1], p)
    ensures FirstRedirect(Redirects({}, rules[..|rules| - 1]), p) == None
    ensures forall r | r in rules[..|rules| - 1] :: !Serves(r, p)
  {
    var n := |rules| - 1;
    forall r | r in rules[..n]
      ensures !Serves(r, p)
    {
      var i :| 0 <= i < n && rules[i] == r;
      assert !SamePort(rules[i], rules[n]);
    }
    NoneServesNoneHits(rules[..n], p);
  }

  lemma {:induction false} NoneServesNoneHits(rules: seq<DNATRule>, p: Packet)
    requires forall r | r in rules :: !Serves(r, p)
    ensures FirstRedirect(Redirects({}, rules), p) == None
  {
    if rules != [] {
      var n := |rules| - 1;
      assert rules == rules[..n] + [rules[n]];
      NoneServesNoneHits(rules[..n], p);
      assert !Serves(rules[n], p);
      FirstRedirectAppend(Redirects({}, rules[..n]), RedirectOf(rules[n]), p);
      assert Redirects({}, rules[..n]) + [] == Redirects({}, rules[..n]);
    }
  }

  /** Whether the source address of what goes to a backend is replaced by this host's. */
  predicate Masqueraded(chain: seq<KRule>, proto: string, backend: (string, string)) {
    Masquerade(proto, backend.0, backend.1) in chain
  }

  /**
   Masquerading belongs to the backend, not to the rule: what a rule without SNAT forwards keeps the
   client's address exactly if no enabled rule with SNAT has the same protocol and backend.
   */
  lemma {:induction false} SourceIsReplacedExactly(split: Split, rules: seq<DNATRule>, proto: string,
                                                   backend: (string, string))
    ensures Masqueraded(Masquerades({}, split, rules), proto, backend) <==>
            exists r | r in rules :: r.enabled && r.snat && r.proto == proto && split(r.target) == Some(backend)
  {
    if rules != [] {
      var n := |rules| - 1;
      assert rules == rules[..n] + [rules[n]];
      SourceIsReplacedExactly(split, rules[..n], proto, backend);
    }
  }

  /** Two rules to one backend, one with SNAT and one without: what the second forwards is masqueraded too. */
  lemma SourceIsLostBesideSnat(split: Split, backend: (string, string)) returns (rules: seq<DNATRule>)
    requires split("10.8.0.60:8765") == Some(backend)
    ensures |rules| == 2 && !rules[1].snat && rules[1].enabled && split(rules[1].target) == Some(backend)
    ensures NoClash(rules, SamePort) && UniqueKeys(rules, RuleKey)
    ensures Masqueraded(Masquerades({}, split, rules), rules[1].proto, backend)
  {
    var r0 := DNATRule("a", "tcp", 8765, "10.8.0.60:8765", true, "", true);
    var r1 := DNATRule("b", "tcp", 9000, "10.8.0.60:8765", false, "", true);
    rules := [r0, r1];
    assert r0.name[0] != r1.name[0] && r0 in rules;
    SourceIsReplacedExactly(split, rules, "tcp", backend);
  }
}

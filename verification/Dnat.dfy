/** Kernel destination NAT: the rules of dnat.go, rebuilt in two chains of the nat table. */
module Dnat {
  import opened Records

  const DNAT_CHAIN := "INPROXY_DNAT"
  const POST_CHAIN := "INPROXY_POST"

  datatype KRule =
    | Jump(target: string)
    | Redirect(proto: string, port: int, to: string)
    | Masquerade(proto: string, host: string, dport: string)
    | Other(id: nat)

  type Chains = map<string, seq<KRule>>

  datatype Cmd =
    | New(chain: string)
    | Flush(chain: string)
    | Append(chain: string, rule: KRule)
    | Prepend(chain: string, rule: KRule)
    | Check(chain: string, rule: KRule)

  /** Whether the kernel could carry the command out. */
  predicate Applicable(c: Chains, cmd: Cmd) {
    match cmd
    case New(n) => n !in c
    case Flush(n) => n in c
    case Append(n, r) => n in c && (r.Jump? ==> r.target in c)
    case Prepend(n, r) => n in c && (r.Jump? ==> r.target in c)
    case Check(n, r) => n in c && r in c[n]
  }

  /** A command in `refused` fails for some other reason; a check always answers truthfully. */
  predicate Works(c: Chains, refused: set<Cmd>, cmd: Cmd) {
    Applicable(c, cmd) && (cmd.Check? || cmd !in refused)
  }

  function Exec(c: Chains, refused: set<Cmd>, cmd: Cmd): Chains {
    if !Works(c, refused, cmd) then c
    else match cmd
      case New(n) => c[n := []]
      case Flush(n) => c[n := []]
      case Append(n, r) => c[n := c[n] + [r]]
      case Prepend(n, r) => c[n := [r] + c[n]]
      case Check(_, _) => c
  }

  class NatTable {
    var chains: Chains
    var refused: set<Cmd>

    constructor (chains: Chains, refused: set<Cmd>)
      ensures this.chains == chains && this.refused == refused
    {
      this.chains, this.refused := chains, refused;
    }

    /** Runs one iptables command on the nat table. */
    method Run(cmd: Cmd) returns (ok: bool)
      modifies this`chains
      ensures ok == Works(old(chains), refused, cmd)
      ensures chains == Exec(old(chains), refused, cmd)
    {
      ok := Works(chains, refused, cmd);
      chains := Exec(chains, refused, cmd);
    }
  }

  /// What Apply amounts to, as functions of the kernel's chains

  datatype Step = Step(chains: Chains, ok: bool)

  function Jumped(c: Chains, refused: set<Cmd>, parent: string, target: string, top: bool): Step {
    var add := if top then Prepend(parent, Jump(target)) else Append(parent, Jump(target));
    if Works(c, refused, Check(parent, Jump(target))) then Step(c, true)
    else Step(Exec(c, refused, add), Works(c, refused, add))
  }

  function Scaffolded(c: Chains, refused: set<Cmd>): Step {
    var c1 := Exec(c, refused, New(DNAT_CHAIN));
    var c2 := Exec(c1, refused, New(POST_CHAIN));
    var s := Jumped(c2, refused, "PREROUTING", DNAT_CHAIN, true);
    if !s.ok then s else Jumped(s.chains, refused, "POSTROUTING", POST_CHAIN, false)
  }

  type Split = string -> Option<(string, string)>

  function RedirectOf(r: DNATRule): KRule { Redirect(r.proto, r.listenPort, r.target) }

  function MasqueradeOf(r: DNATRule, hp: (string, string)): KRule { Masquerade(r.proto, hp.0, hp.1) }

  function RuleAdded(c: Chains, refused: set<Cmd>, split: Split, r: DNATRule): Step {
    var add := Append(DNAT_CHAIN, RedirectOf(r));
    if !Works(c, refused, add) then Step(c, false)
    else
      var c1 := Exec(c, refused, add);
      if !r.snat then Step(c1, true)
      else match split(r.target)
        case None => Step(c1, false)
        case Some(hp) =>
          var masq := Append(POST_CHAIN, MasqueradeOf(r, hp));
          Step(Exec(c1, refused, masq), Works(c1, refused, masq))
  }

  datatype RuleStatus = Active | Disabled | Failed

  datatype Build = Build(chains: Chains, status: map<string, RuleStatus>)

  function RulesAdded(c: Chains, refused: set<Cmd>, split: Split, rules: seq<DNATRule>): Build {
    if rules == [] then Build(c, map[])
    else
      var r := rules[|rules| - 1];
      var b := RulesAdded(c, refused, split, rules[..|rules| - 1]);
      if !r.enabled then b.(status := b.status[r.name := Disabled])
      else
        var s := RuleAdded(b.chains, refused, split, r);
        Build(s.chains, b.status[r.name := if s.ok then Active else Failed])
  }

  function Flushed(c: Chains, refused: set<Cmd>): Chains {
    Exec(Exec(c, refused, Flush(DNAT_CHAIN)), refused, Flush(POST_CHAIN))
  }

  /** Chains outside `but` are what they were. */
  ghost predicate SameBut(c: Chains, d: Chains, but: set<string>) {
    forall n | n in c && n !in but :: n in d && d[n] == c[n]
  }

  const OWN := {DNAT_CHAIN, POST_CHAIN}

  const PARENTS := {"PREROUTING", "POSTROUTING"}

  function AllFailed(rules: seq<DNATRule>): map<string, RuleStatus> {
    if rules == [] then map[]
    else
      var r := rules[|rules| - 1];
      AllFailed(rules[..|rules| - 1])[r.name := if r.enabled then Failed else Disabled]
  }

  /** When nothing could be set up an enabled rule has failed, a disabled one not; the last of a name counts. */
  lemma {:induction false} AllFailedAt(rules: seq<DNATRule>, i: nat)
    requires i < |rules| && forall j | i < j < |rules| :: rules[j].name != rules[i].name
    ensures rules[i].name in AllFailed(rules)
    ensures AllFailed(rules)[rules[i].name] == if rules[i].enabled then Failed else Disabled
  {
    var n := |rules| - 1;
    if i < n {
      AllFailedAt(rules[..n], i);
    }
  }

  class DNATManager {
    const table: NatTable
    const split: Split
    var status: map<string, RuleStatus>
    var failed: bool

    constructor (table: NatTable, split: Split)
      ensures this.table == table && this.split == split && status == map[] && !failed
    {
      this.table, this.split, status, failed := table, split, map[], false;
    }

    method EnsureJump(parent: string, target: string, top: bool) returns (ok: bool)
      modifies table`chains
      ensures Step(table.chains, ok) == Jumped(old(table.chains), table.refused, parent, target, top)
      ensures ok ==> parent in table.chains && Jump(target) in table.chains[parent]
      ensures !ok ==> table.chains == old(table.chains)
      ensures SameBut(old(table.chains), table.chains, {parent})
    {
      ok := table.Run(Check(parent, Jump(target)));
      if !ok {
        ok := table.Run(if top then Prepend(parent, Jump(target)) else Append(parent, Jump(target)));
      }
    }

    method EnsureScaffolding() returns (ok: bool)
      modifies table`chains
      ensures Step(table.chains, ok) == Scaffolded(old(table.chains), table.refused)
      ensures ok ==> && "PREROUTING" in table.chains && Jump(DNAT_CHAIN) in table.chains["PREROUTING"]
                     && "POSTROUTING" in table.chains && Jump(POST_CHAIN) in table.chains["POSTROUTING"]
      ensures SameBut(old(table.chains), table.chains, PARENTS)
    {
      var _ := table.Run(New(DNAT_CHAIN));
      var _ := table.Run(New(POST_CHAIN));
      ok := EnsureJump("PREROUTING", DNAT_CHAIN, true);
      if ok {
        ok := EnsureJump("POSTROUTING", POST_CHAIN, false);
      }
    }

    method ApplyRule(r: DNATRule) returns (ok: bool)
      modifies table`chains
      ensures Step(table.chains, ok) == RuleAdded(old(table.chains), table.refused, split, r)
      ensures ok ==> DNAT_CHAIN in table.chains && RedirectOf(r) in table.chains[DNAT_CHAIN]
      ensures ok && r.snat ==> split(r.target).Some? && POST_CHAIN in table.chains
                               && MasqueradeOf(r, split(r.target).value) in table.chains[POST_CHAIN]
      ensures SameBut(old(table.chains), table.chains, OWN)
    {
      ok := table.Run(Append(DNAT_CHAIN, RedirectOf(r)));
      if ok && r.snat {
        var hp := split(r.target);
        if hp.None? {
          return false;
        }
        ok := table.Run(Append(POST_CHAIN, MasqueradeOf(r, hp.value)));
      }
    }

    /** The statuses when nothing could be set up. */
    method MarkFailed(rules: seq<DNATRule>) returns (st: map<string, RuleStatus>)
      ensures st == AllFailed(rules) && st.Keys == set r | r in rules :: r.name
      ensures forall n | n in st :: !st[n].Active?
    {
      st := map[];
      for i := 0 to |rules|
        invariant st == AllFailed(rules[..i])
        invariant st.Keys == set r | r in rules[..i] :: r.name
        invariant forall n | n in st :: !st[n].Active?
      {
        assert rules[..i + 1][..i] == rules[..i];
        st := st[rules[i].name := if rules[i].enabled then Failed else Disabled];
      }
      assert rules[..|rules|] == rules;
    }

    /** The second half of Apply, on flushed chains. */
    method AddRules(rules: seq<DNATRule>) returns (st: map<string, RuleStatus>)
      modifies table`chains
      ensures Build(table.chains, st) == RulesAdded(old(table.chains), table.refused, split, rules)
      ensures SameBut(old(table.chains), table.chains, OWN)
      ensures st.Keys == set r | r in rules :: r.name
    {
      st := map[];
      for i := 0 to |rules|
        invariant Build(table.chains, st) == RulesAdded(old(table.chains), table.refused, split, rules[..i])
        invariant SameBut(old(table.chains), table.chains, OWN)
        invariant st.Keys == set r | r in rules[..i] :: r.name
      {
        assert rules[..i + 1][..i] == rules[..i];
        if !rules[i].enabled {
          st := st[rules[i].name := Disabled];
        } else {
          var added := ApplyRule(rules[i]);
          st := st[rules[i].name := if added then Active else Failed];
        }
      }
      assert rules[..|rules|] == rules;
    }

    method Apply(rules: seq<DNATRule>)
      modifies this`status, this`failed, table`chains
      ensures var s := Scaffolded(old(table.chains), table.refused);
        var b := RulesAdded(Flushed(s.chains, table.refused), table.refused, split, rules);
        && failed == !s.ok
        && (s.ok ==> table.chains == b.chains && status == b.status)
        && (!s.ok ==> table.chains == s.chains && status == AllFailed(rules))
      ensures SameBut(old(table.chains), table.chains, OWN + PARENTS)
      ensures status.Keys == set r | r in rules :: r.name
      ensures failed ==> forall n | n in status :: !status[n].Active?
    {
      var ok := EnsureScaffolding();
      failed := !ok;
      if !ok {
        status := MarkFailed(rules);
        return;
      }
      var _ := table.Run(Flush(DNAT_CHAIN));
      var _ := table.Run(Flush(POST_CHAIN));
      status := AddRules(rules);
    }

    /** Each own chain is emptied unless its flush fails; the hooks and everything else stay. */
    method Shutdown()
      modifies table`chains
      ensures table.chains == Flushed(old(table.chains), table.refused)
      ensures table.chains.Keys == old(table.chains).Keys && SameBut(old(table.chains), table.chains, OWN)
      ensures forall n | n in OWN && n in table.chains ::
                table.chains[n] == if Flush(n) in table.refused then old(table.chains)[n] else []
    {
      var _ := table.Run(Flush(DNAT_CHAIN));
      var _ := table.Run(Flush(POST_CHAIN));
    }
  }
}

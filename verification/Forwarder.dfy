/** The live L4 forwards of forward.go: one listener each, reconciled against the configuration. */
module Forwarders {
  import opened Records
  import opened Sockets

  datatype Status = Running | Disabled | Failed

  function SocksOf(fw: Forward): set<Sock> {
    (if WantsTcp(fw) then {Sock(Tcp, fw.listen)} else {}) + (if WantsUdp(fw) then {Sock(Udp, fw.listen)} else {})
  }

  /** What makes a running listener still right for a desired forward. */
  predicate SameConfig(a: Forward, b: Forward) {
    a.proto == b.proto && a.listen == b.listen && a.target == b.target && a.proxyProto == b.proxyProto
  }

  /** Which sockets a protocol asks for: "tcp+udp" both, "udp" one, everything else, the empty text too, TCP. */
  lemma SocketsExactly(fw: Forward)
    ensures SocksOf(fw) ==
            if fw.proto == "tcp+udp" then {Sock(Tcp, fw.listen), Sock(Udp, fw.listen)}
            else if fw.proto == "udp" then {Sock(Udp, fw.listen)}
            else {Sock(Tcp, fw.listen)}
  {
    assert "tcp+udp" != "udp";
  }

  /** A listener is right for a forward exactly if the two differ at most in name, notes and being enabled. */
  lemma SameConfigExactly(a: Forward, b: Forward)
    ensures SameConfig(a, b) <==> a == b.(name := a.name, description := a.description, enabled := a.enabled)
  {}

  /** Everything a forward needs is there for the taking. */
  predicate Startable(fw: Forward, mine: set<Sock>, env: Env) {
    && (forall s | s in SocksOf(fw) :: env.Free(s, mine))
    && (WantsUdp(fw) ==> fw.target !in env.unresolvable)
  }

  /** One forward's sockets; `ln` and `pc` say which of the two are open. */
  class FwdListener {
    const fwd: Forward
    var ln: bool
    var pc: bool
    var quit: bool

    ghost function Holds(): set<Sock>
      reads this
    {
      (if ln then {Sock(Tcp, fwd.listen)} else {}) + (if pc then {Sock(Udp, fwd.listen)} else {})
    }

    constructor (fw: Forward)
      ensures fwd == fw && !ln && !pc && !quit
    {
      fwd, ln, pc, quit := fw, false, false, false;
    }

    method BeginTCP(table: SocketTable) returns (ok: bool)
      requires table.Valid() && !ln
      modifies this`ln, table`mine, table`ops
      ensures ok == table.env.Free(Sock(Tcp, fwd.listen), old(table.mine)) == ln
      ensures table.mine == old(table.mine) + (if ok then {Sock(Tcp, fwd.listen)} else {})
      ensures ok ==> Sock(Tcp, fwd.listen) !in old(table.mine)
    {
      ok := table.Bind(Sock(Tcp, fwd.listen));
      ln := ok;
    }

    method BeginUDP(table: SocketTable) returns (ok: bool)
      requires table.Valid() && !pc
      modifies this`pc, table`mine, table`ops
      ensures ok == pc
      ensures ok == (fwd.target !in table.env.unresolvable && table.env.Free(Sock(Udp, fwd.listen), old(table.mine)))
      ensures table.mine == old(table.mine) + (if ok then {Sock(Udp, fwd.listen)} else {})
      ensures ok ==> Sock(Udp, fwd.listen) !in old(table.mine)
    {
      ok := fwd.target !in table.env.unresolvable;
      if ok {
        ok := table.Bind(Sock(Udp, fwd.listen));
      }
      pc := ok;
    }

    /** Closing quit a second time would panic, hence the precondition. */
    method Stop(table: SocketTable)
      requires !quit && Holds() <= table.mine
      modifies this, table`mine, table`ops
      ensures quit && Holds() == {}
      ensures table.mine == old(table.mine) - old(Holds())
    {
      quit := true;
      if ln {
        table.Close(Sock(Tcp, fwd.listen));
      }
      if pc {
        table.Close(Sock(Udp, fwd.listen));
      }
      ln, pc := false, false;
    }
  }

  /** Opens what the protocol asks for; if either socket fails, neither is kept. */
  method StartListener(fw: Forward, table: SocketTable) returns (l: FwdListener?)
    requires table.Valid()
    modifies table`mine, table`ops
    ensures (l != null) == Startable(fw, old(table.mine), table.env)
    ensures l != null ==> fresh(l) && l.fwd == fw && !l.quit && l.Holds() == SocksOf(fw)
    ensures l != null ==> table.mine == old(table.mine) + SocksOf(fw) && SocksOf(fw) !! old(table.mine)
    ensures l == null ==> table.mine == old(table.mine)
  {
    l := new FwdListener(fw);
    if WantsTcp(fw) {
      var ok := l.BeginTCP(table);
      if !ok {
        l.Stop(table);
        return null;
      }
    }
    if WantsUdp(fw) {
      var udp := Sock(Udp, fw.listen);
      assert udp in SocksOf(fw) && table.env.Free(udp, table.mine) == table.env.Free(udp, old(table.mine));
      var ok := l.BeginUDP(table);
      if !ok {
        l.Stop(table);
        assert table.mine == old(table.mine);
        return null;
      }
    }
  }

  ghost function Held(active: map<string, FwdListener>): set<Sock> {
    set n, s | n in active && s in SocksOf(active[n].fwd) :: s
  }

  ghost predicate Disjoint(active: map<string, FwdListener>) {
    forall n, m | n in active && m in active && n != m ::
      active[n] != active[m] && SocksOf(active[n].fwd) !! SocksOf(active[m].fwd)
  }

  lemma HeldWithout(active: map<string, FwdListener>, n: string)
    requires n in active && Disjoint(active)
    ensures Disjoint(active - {n})
    ensures Held(active - {n}) == Held(active) - SocksOf(active[n].fwd)
    ensures SocksOf(active[n].fwd) <= Held(active)
  {
    forall s | s in Held(active) && s !in SocksOf(active[n].fwd)
      ensures s in Held(active - {n})
    {
      var m :| m in active && s in SocksOf(active[m].fwd);
      var rest := active - {n};
      assert m in rest && rest[m] == active[m];
    }
  }

  lemma HeldWith(active: map<string, FwdListener>, n: string, l: FwdListener)
    requires n !in active && Disjoint(active) && SocksOf(l.fwd) !! Held(active)
    requires forall m | m in active :: active[m] != l
    ensures Disjoint(active[n := l])
    ensures Held(active[n := l]) == Held(active) + SocksOf(l.fwd)
  {
    var more := active[n := l];
    forall s | s in Held(active) + SocksOf(l.fwd)
      ensures s in Held(more)
    {
      if s in SocksOf(l.fwd) {
        assert more[n] == l;
      } else {
        var m :| m in active && s in SocksOf(active[m].fwd);
        assert more[m] == active[m];
      }
    }
    forall m | m in active
      ensures SocksOf(active[m].fwd) !! SocksOf(l.fwd)
    {
      assert SocksOf(active[m].fwd) <= Held(active);
    }
  }

  /** The list, looked up by name; the last of several forwards of one name wins. */
  function LastOf(forwards: seq<Forward>): map<string, Forward> {
    if forwards == [] then map[]
    else
      var n := |forwards| - 1;
      LastOf(forwards[..n])[forwards[n].name := forwards[n]]
  }

  lemma {:induction false} LastOfAt(forwards: seq<Forward>, i: nat)
    requires i < |forwards| && forall j | i < j < |forwards| :: forwards[j].name != forwards[i].name
    ensures forwards[i].name in LastOf(forwards) && LastOf(forwards)[forwards[i].name] == forwards[i]
  {
    var n := |forwards| - 1;
    if i < n {
      LastOfAt(forwards[..n], i);
    }
  }

  lemma {:induction false} LastOfIsLast(forwards: seq<Forward>)
    ensures LastOf(forwards).Keys == set fw | fw in forwards :: fw.name
    ensures forall n | n in LastOf(forwards) :: LastOf(forwards)[n] in forwards && LastOf(forwards)[n].name == n
    ensures DistinctNames(forwards) ==> forall fw | fw in forwards :: LastOf(forwards)[fw.name] == fw
  {
    if forwards != [] {
      var n := |forwards| - 1;
      LastOfIsLast(forwards[..n]);
      assert forwards == forwards[..n] + [forwards[n]];
    }
    if DistinctNames(forwards) {
      forall fw | fw in forwards
        ensures LastOf(forwards)[fw.name] == fw
      {
        var i: nat :| i < |forwards| && forwards[i] == fw;
        LastOfAt(forwards, i);
      }
    }
  }

  method WantOf(forwards: seq<Forward>) returns (want: map<string, Forward>)
    ensures want == LastOf(forwards)
    ensures forall n | n in want :: want[n] in forwards && want[n].name == n
    ensures forall fw | fw in forwards :: fw.name in want
    ensures DistinctNames(forwards) ==> forall fw | fw in forwards :: want[fw.name] == fw
  {
    want := map[];
    for i := 0 to |forwards|
      invariant want == LastOf(forwards[..i])
    {
      assert forwards[..i + 1][..i] == forwards[..i];
      want := want[forwards[i].name := forwards[i]];
    }
    assert forwards[..|forwards|] == forwards;
    LastOfIsLast(forwards);
  }

  predicate Wanted(want: map<string, Forward>, n: string, fwd: Forward) {
    n in want && want[n].enabled && SameConfig(want[n], fwd)
  }

  /** The listeners still there when those outside `todo` have been looked at. */
  ghost function Kept(active: map<string, FwdListener>, want: map<string, Forward>, todo: set<string>)
    : map<string, FwdListener>
  {
    map n | n in active && (n in todo || Wanted(want, n, active[n].fwd)) :: active[n]
  }

  lemma KeptStep(active: map<string, FwdListener>, want: map<string, Forward>, todo: set<string>, n: string)
    requires n in todo && n in active
    ensures n in Kept(active, want, todo) && Kept(active, want, todo)[n] == active[n]
    ensures Kept(active, want, todo - {n}) ==
            if Wanted(want, n, active[n].fwd) then Kept(active, want, todo) else Kept(active, want, todo) - {n}
  {}

  ghost predicate AskedFor(forwards: seq<Forward>, n: string, fwd: Forward) {
    exists fw | fw in forwards :: fw.name == n && fw.enabled && SameConfig(fw, fwd)
  }

  ghost predicate AllAskedFor(forwards: seq<Forward>, active: map<string, FwdListener>) {
    forall n | n in active :: AskedFor(forwards, n, active[n].fwd)
  }

  ghost predicate AllUp(forwards: seq<Forward>, active: map<string, FwdListener>) {
    forall fw | fw in forwards && fw.enabled :: fw.name in active
  }

  /** What runs is exactly what is asked for. */
  ghost predicate Reconciled(forwards: seq<Forward>, active: map<string, FwdListener>) {
    AllUp(forwards, active) && AllAskedFor(forwards, active)
  }

  /** Every running listener is what the last forward of its name asks for. */
  ghost predicate AllWanted(want: map<string, Forward>, active: map<string, FwdListener>) {
    forall n | n in active :: Wanted(want, n, active[n].fwd)
  }

  /** With distinct names, being asked for and being wanted by the last forward of the name are the same. */
  lemma WantedIsAskedFor(forwards: seq<Forward>, n: string, fwd: Forward)
    ensures Wanted(LastOf(forwards), n, fwd) ==> AskedFor(forwards, n, fwd)
    ensures DistinctNames(forwards) ==> (Wanted(LastOf(forwards), n, fwd) <==> AskedFor(forwards, n, fwd))
  {
    LastOfIsLast(forwards);
  }

  lemma KeptFacts(forwards: seq<Forward>, before: map<string, FwdListener>)
    ensures AllAskedFor(forwards, Kept(before, LastOf(forwards), {}))
    ensures Extends(Kept(before, LastOf(forwards), {}), before)
    ensures AllWanted(LastOf(forwards), before) ==> Kept(before, LastOf(forwards), {}) == before
  {
    forall n | n in before && Wanted(LastOf(forwards), n, before[n].fwd)
      ensures AskedFor(forwards, n, before[n].fwd)
    {
      WantedIsAskedFor(forwards, n, before[n].fwd);
    }
  }

  ghost predicate Extends(before: map<string, FwdListener>, active: map<string, FwdListener>) {
    forall n | n in before :: n in active && active[n] == before[n]
  }

  lemma HeldGrows(before: map<string, FwdListener>, active: map<string, FwdListener>)
    requires Extends(before, active)
    ensures Held(before) <= Held(active)
  {}

  /** The desired sockets fit together and nothing outside is in their way. */
  ghost predicate Satisfiable(forwards: seq<Forward>, env: Env) {
    && (forall fw | fw in forwards && fw.enabled :: Startable(fw, {}, env))
    && (forall fw, gw, s, t | fw in forwards && gw in forwards && fw.enabled && gw.enabled && fw != gw
                              && s in SocksOf(fw) && t in SocksOf(gw) :: !env.Clashes(s, t))
  }

  lemma SatisfiableIsStartable(fw: Forward, forwards: seq<Forward>, active: map<string, FwdListener>, env: Env)
    requires Satisfiable(forwards, env) && AllAskedFor(forwards, active)
    requires fw in forwards && fw.enabled && fw.name !in active
    ensures Startable(fw, Held(active), env)
  {
    forall s, t | s in SocksOf(fw) && t in Held(active)
      ensures !env.Clashes(s, t)
    {
      var n :| n in active && t in SocksOf(active[n].fwd);
      var gw :| gw in forwards && gw.name == n && gw.enabled && SameConfig(gw, active[n].fwd);
      assert gw != fw && t in SocksOf(gw);
    }
  }

  /** What bringing one forward up does to the running listeners. */
  ghost predicate Started(fw: Forward, before: map<string, FwdListener>, active: map<string, FwdListener>,
                          st: Status, env: Env)
  {
    && (st.Disabled? <==> !fw.enabled)
    && (st.Running? <==> fw.enabled && fw.name in active)
    && (!fw.enabled || fw.name in before || !Startable(fw, Held(before), env) ==> active == before)
    && (fw.enabled && fw.name !in before && Startable(fw, Held(before), env) ==>
          fw.name in active && active[fw.name].fwd == fw && active == before[fw.name := active[fw.name]])
  }

  /** A forward that is enabled and has no listener had a reason, and still has it. */
  ghost predicate Refused(forwards: seq<Forward>, active: map<string, FwdListener>, mine: set<Sock>, env: Env) {
    forall fw | fw in forwards && fw.enabled && fw.name !in active :: !Startable(fw, mine, env)
  }

  /** The status of each name tells whether its last forward is enabled and, if so, whether a listener runs. */
  ghost predicate Reported(forwards: seq<Forward>, active: map<string, FwdListener>, status: map<string, Status>) {
    && status.Keys == LastOf(forwards).Keys
    && forall n | n in status ::
         status[n] == if !LastOf(forwards)[n].enabled then Disabled else if n in active then Running else Failed
  }

  /** How far the start loop has come after the first forwards. */
  ghost predicate Progress(forwards: seq<Forward>, i: nat, active: map<string, FwdListener>,
                           status: map<string, Status>, env: Env)
    requires i <= |forwards|
  {
    && AllAskedFor(forwards, active)
    && Reported(forwards[..i], active, status)
    && Refused(forwards[..i], active, Held(active), env)
    && (Satisfiable(forwards, env) ==> AllUp(forwards[..i], active))
  }

  lemma ReportedStep(forwards: seq<Forward>, fw: Forward, before: map<string, FwdListener>,
                     active: map<string, FwdListener>, status: map<string, Status>, st: Status, env: Env)
    requires Reported(forwards, before, status) && Started(fw, before, active, st, env)
    ensures Reported(forwards + [fw], active, status[fw.name := st])
  {
    assert (forwards + [fw])[..|forwards|] == forwards;
  }

  lemma RefusedStep(forwards: seq<Forward>, fw: Forward, before: map<string, FwdListener>,
                    active: map<string, FwdListener>, st: Status, env: Env)
    requires Refused(forwards, before, Held(before), env) && Started(fw, before, active, st, env)
    requires Held(before) <= Held(active)
    ensures Refused(forwards + [fw], active, Held(active), env)
  {
    forall g | g in forwards + [fw] && g.enabled && g.name !in active
      ensures !Startable(g, Held(active), env)
    {
      StillUnstartable(g, Held(before), Held(active), env);
    }
  }

  lemma StillUnstartable(fw: Forward, before: set<Sock>, mine: set<Sock>, env: Env)
    requires before <= mine && !Startable(fw, before, env)
    ensures !Startable(fw, mine, env)
  {}

  lemma UpStep(forwards: seq<Forward>, i: nat, before: map<string, FwdListener>, active: map<string, FwdListener>,
               st: Status, env: Env)
    requires i < |forwards| && AllAskedFor(forwards, before) && Extends(before, active)
    requires Satisfiable(forwards, env) && AllUp(forwards[..i], before) && Started(forwards[i], before, active, st, env)
    ensures AllUp(forwards[..i + 1], active)
  {
    var fw := forwards[i];
    assert forwards[..i + 1] == forwards[..i] + [fw];
    if fw.enabled && fw.name !in before {
      SatisfiableIsStartable(fw, forwards, before, env);
    }
  }

  lemma ProgressStep(forwards: seq<Forward>, i: nat, before: map<string, FwdListener>,
                     active: map<string, FwdListener>, status: map<string, Status>, st: Status, env: Env)
    requires i < |forwards|
    requires Progress(forwards, i, before, status, env) && Started(forwards[i], before, active, st, env)
    ensures Extends(before, active)
    ensures AllUp(forwards, before) ==> active == before
    ensures Progress(forwards, i + 1, active, status[forwards[i].name := st], env)
  {
    var fw := forwards[i];
    HeldGrows(before, active);
    assert forwards[..i + 1] == forwards[..i] + [fw] && fw in forwards;
    ReportedStep(forwards[..i], fw, before, active, status, st, env);
    RefusedStep(forwards[..i], fw, before, active, st, env);
    if Satisfiable(forwards, env) {
      UpStep(forwards, i, before, active, st, env);
    }
  }

  /** What Apply leaves behind for one desired forward when names are distinct. */
  ghost predicate Settled(fw: Forward, active: map<string, FwdListener>, status: map<string, Status>,
                          mine: set<Sock>, env: Env)
  {
    && fw.name in status
    && (!fw.enabled ==> status[fw.name].Disabled? && fw.name !in active)
    && (fw.enabled && fw.name in active ==>
          var l := active[fw.name].fwd;
          && status[fw.name].Running?
          && l.proto == fw.proto && l.listen == fw.listen && l.target == fw.target && l.proxyProto == fw.proxyProto)
    && (fw.enabled && fw.name !in active ==> status[fw.name].Failed? && !Startable(fw, mine, env))
  }

  /** Each forward is then running as configured, disabled, or failed for a reason that holds. */
  lemma DistinctAreSettled(forwards: seq<Forward>, active: map<string, FwdListener>, status: map<string, Status>,
                           mine: set<Sock>, env: Env, fw: Forward)
    requires DistinctNames(forwards) && fw in forwards
    requires AllAskedFor(forwards, active) && Refused(forwards, active, mine, env) && Reported(forwards, active, status)
    ensures Settled(fw, active, status, mine, env)
  {
    LastOfIsLast(forwards);
    if fw.name in active {
      WantedIsAskedFor(forwards, fw.name, active[fw.name].fwd);
    }
  }

  lemma AskedForSpelledOut(forwards: seq<Forward>, active: map<string, FwdListener>)
    requires AllAskedFor(forwards, active)
    ensures forall n | n in active :: exists fw | fw in forwards :: var l := active[n].fwd;
              && fw.name == n && fw.enabled && fw.proto == l.proto && fw.listen == l.listen
              && fw.target == l.target && fw.proxyProto == l.proxyProto
  {
    forall n | n in active
      ensures exists fw | fw in forwards :: var l := active[n].fwd;
                && fw.name == n && fw.enabled && fw.proto == l.proto && fw.listen == l.listen
                && fw.target == l.target && fw.proxyProto == l.proxyProto
    {
      var fw :| fw in forwards && fw.name == n && fw.enabled && SameConfig(fw, active[n].fwd);
    }
  }

  lemma SurvivalSpelledOut(want: map<string, Forward>, before: map<string, FwdListener>,
                           active: map<string, FwdListener>)
    requires forall n | n in before :: n in active && active[n] == before[n] <==> Wanted(want, n, before[n].fwd)
    ensures forall n | n in before ::
              n in active && active[n] == before[n] <==>
              n in want && var w, l := want[n], before[n].fwd;
              && w.enabled && w.proto == l.proto && w.listen == l.listen && w.target == l.target
              && w.proxyProto == l.proxyProto
  {}

  class Forwarder {
    const table: SocketTable
    var active: map<string, FwdListener>
    var status: map<string, Status>

    /** The process holds exactly the disjoint union of its active listeners' sockets. */
    ghost predicate Valid()
      reads this, table, active.Values
    {
      && table.Valid()
      && (forall n | n in active :: !active[n].quit && active[n].fwd.name == n
                                    && active[n].Holds() == SocksOf(active[n].fwd))
      && Disjoint(active)
      && table.mine == Held(active)
    }

    constructor (table: SocketTable)
      requires table.Valid() && table.mine == {}
      ensures Valid() && active == map[] && status == map[] && this.table == table
    {
      this.table, active, status := table, map[], map[];
    }

    /** Stops one listener and forgets it, if its forward is gone, disabled or changed. */
    method StopIfStale(n: string, want: map<string, Forward>)
      requires Valid() && n in active
      modifies this`active, active[n], table`mine, table`ops
      ensures Valid()
      ensures Wanted(want, n, old(active)[n].fwd) ==> active == old(active) && table.ops == old(table.ops)
      ensures !Wanted(want, n, old(active)[n].fwd) ==> active == old(active) - {n}
    {
      var l := active[n];
      if !Wanted(want, n, l.fwd) {
        HeldWithout(active, n);
        l.Stop(table);
        active := active - {n};
      }
    }

    method StopStale(want: map<string, Forward>)
      requires Valid()
      modifies this`active, active.Values, table`mine, table`ops
      ensures Valid()
      ensures active == Kept(old(active), want, {})
      ensures active == old(active) ==> table.ops == old(table.ops)
    {
      var todo := active.Keys;
      while todo != {}
        invariant Valid() && todo <= active.Keys
        invariant active == Kept(old(active), want, todo)
        invariant active == old(active) ==> table.ops == old(table.ops)
      {
        var n :| n in todo;
        KeptStep(old(active), want, todo, n);
        StopIfStale(n, want);
        todo := todo - {n};
      }
    }

    /** Brings one desired forward up unless it is disabled or already running. */
    method StartOne(fw: Forward) returns (st: Status)
      requires Valid()
      modifies this`active, table`mine, table`ops
      ensures Valid()
      ensures Started(fw, old(active), active, st, table.env)
      ensures forall n | n in active && n !in old(active) :: fresh(active[n])
      ensures !fw.enabled || fw.name in old(active) ==> table.ops == old(table.ops)
    {
      if !fw.enabled {
        return Disabled;
      }
      if fw.name in active {
        return Running;
      }
      var l := StartListener(fw, table);
      if l == null {
        return Failed;
      }
      HeldWith(active, fw.name, l);
      active := active[fw.name := l];
      return Running;
    }

    /** One round of the second loop of Apply. */
    method StartNext(forwards: seq<Forward>, i: nat, st: map<string, Status>) returns (st1: map<string, Status>)
      requires Valid() && i < |forwards| && Progress(forwards, i, active, st, table.env)
      modifies this`active, table`mine, table`ops
      ensures Valid() && Extends(old(active), active)
      ensures forall n | n in active && n !in old(active) :: fresh(active[n])
      ensures Progress(forwards, i + 1, active, st1, table.env)
      ensures AllUp(forwards, old(active)) ==> active == old(active) && table.ops == old(table.ops)
    {
      var s := StartOne(forwards[i]);
      ProgressStep(forwards, i, old(active), active, st, s, table.env);
      st1 := st[forwards[i].name := s];
    }

    /** The second loop of Apply. */
    method StartMissing(forwards: seq<Forward>)
      requires Valid() && AllAskedFor(forwards, active)
      modifies this`active, this`status, table`mine, table`ops
      ensures Valid() && Extends(old(active), active)
      ensures forall n | n in active && n !in old(active) :: fresh(active[n])
      ensures Progress(forwards, |forwards|, active, status, table.env)
      ensures AllUp(forwards, old(active)) ==> active == old(active) && table.ops == old(table.ops)
    {
      var st: map<string, Status> := map[];
      for i := 0 to |forwards|
        invariant Valid() && Extends(old(active), active)
        invariant forall n | n in active && n !in old(active) :: fresh(active[n])
        invariant Progress(forwards, i, active, st, table.env)
        invariant AllUp(forwards, old(active)) ==> active == old(active) && table.ops == old(table.ops)
      {
        st := StartNext(forwards, i, st);
      }
      status := st;
    }

    /**
     One reconciliation.  A listener survives it exactly if the last forward of its name is enabled and
     configured as it is.  Everything that runs is asked for, an enabled forward that does not run was
     refused for a reason that holds, and the statuses say so.  If the desired sockets fit together all of
     them come up, whatever was running before; and when nothing has to change no socket is touched.
     */
    method Apply(forwards: seq<Forward>)
      requires Valid()
      modifies this`active, this`status, active.Values, table`mine, table`ops
      ensures Valid()
      ensures forall n | n in active && !(n in old(active) && active[n] == old(active)[n]) :: fresh(active[n])
      ensures forall n | n in old(active) ::
                n in active && active[n] == old(active)[n] <==>
                n in LastOf(forwards) && var w, l := LastOf(forwards)[n], old(active)[n].fwd;
                && w.enabled && w.proto == l.proto && w.listen == l.listen && w.target == l.target
                && w.proxyProto == l.proxyProto
      ensures AllAskedFor(forwards, active)
      ensures forall n | n in active :: exists fw | fw in forwards :: var l := active[n].fwd;
                && fw.name == n && fw.enabled && fw.proto == l.proto && fw.listen == l.listen
                && fw.target == l.target && fw.proxyProto == l.proxyProto
      ensures Refused(forwards, active, table.mine, table.env)
      ensures Reported(forwards, active, status)
      ensures Satisfiable(forwards, table.env) ==> AllUp(forwards, active)
      ensures AllUp(forwards, old(active)) && AllWanted(LastOf(forwards), old(active)) ==>
                active == old(active) && table.ops == old(table.ops)
    {
      var want := WantOf(forwards);
      StopStale(want);
      KeptFacts(forwards, old(active));
      StartMissing(forwards);
      assert forwards[..|forwards|] == forwards;
      SurvivalSpelledOut(want, old(active), active);
      AskedForSpelledOut(forwards, active);
    }

    method Shutdown()
      requires Valid()
      modifies this`active, active.Values, table`mine, table`ops
      ensures Valid() && active == map[] && table.mine == {}
    {
      StopStale(map[]);
      assert Held(active) == {};
    }
  }

  /**
   Stop-before-start is enough for any reassignment, swaps and cycles of addresses included: one Apply
   brings everything up from any earlier state, and a second one finds nothing to do.
   */
  method Reassign(f: Forwarder, forwards: seq<Forward>) returns (between: nat)
    requires f.Valid() && DistinctNames(forwards) && Satisfiable(forwards, f.table.env)
    modifies f, f.active.Values, f.table`mine, f.table`ops
    ensures f.Valid() && Reconciled(forwards, f.active)
    ensures f.table.ops == between
  {
    f.Apply(forwards);
    forall n | n in f.active
      ensures Wanted(LastOf(forwards), n, f.active[n].fwd)
    {
      WantedIsAskedFor(forwards, n, f.active[n].fwd);
    }
    between := f.table.ops;
    f.Apply(forwards);
  }

  /**
   With two differing forwards of one name the first is started and the last is compared, so a listener
   that runs just as asked for is stopped by every Apply; and the status is about the last.
   */
  method DuplicateNamesFlap(f: Forwarder, a: Forward, b: Forward)
    requires f.Valid() && a.name == b.name && a.enabled && !SameConfig(b, a)
    requires f.active.Keys == {a.name} && SameConfig(a, f.active[a.name].fwd)
    modifies f, f.active.Values, f.table`mine, f.table`ops
    ensures Reconciled([a, b], old(f.active))
    ensures f.Valid() && (a.name in f.active ==> fresh(f.active[a.name]))
    ensures a.name in f.status && (f.status[a.name].Disabled? <==> !b.enabled)
  {
    var forwards := [a, b];
    assert a in forwards;
    assert forwards[..1] == [a] && LastOf(forwards)[a.name] == b;
    assert AskedFor(forwards, a.name, f.active[a.name].fwd);
    f.Apply(forwards);
  }

  /** And it comes to that: from nothing, one Apply starts the first, and the next one stops it. */
  method FlapIsReached(a: Forward, b: Forward, env: Env) returns (f: Forwarder, first: FwdListener)
    requires env.Symmetric() && a.name == b.name && a.enabled && !SameConfig(b, a) && Startable(a, {}, env)
    ensures f.Valid() && SameConfig(a, first.fwd)
    ensures a.name in f.active ==> f.active[a.name] != first
  {
    var table := new SocketTable(env);
    f := new Forwarder(table);
    f.Apply([a]);
    assert a in [a] && !(a.name !in f.active) by {
      assert Satisfiable([a], env);
    }
    forall n | n in f.active
      ensures n == a.name && SameConfig(a, f.active[n].fwd)
    {
      assert AskedFor([a], n, f.active[n].fwd);
    }
    first := f.active[a.name];
    DuplicateNamesFlap(f, a, b);
  }
}

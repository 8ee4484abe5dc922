/**
 Concurrent edits: each one commits under the store's lock, releases it, and then fires the listener
 that reconciles under a lock of its own.  Domain edits make the router read the store again inside
 its lock; forward and DNAT edits carry a snapshot taken in between.
 */
module Convergence {
  import opened Records
  import opened DomainRouters

  type Tid = nat

  /// Domains: the router reads the store itself

  datatype Phase = Committed | Locked | Reconciling(want: set<int>)

  /**
   `ports` are the extra ports the compiled index asks for, `seen` what the last Apply read, `refused`
   the ports the system refused it.  Threads between edits are not in `phase`.  `unsaved` is set when
   an edit changed the index but could not be written, so that nobody is told, and cleared by the
   next Apply.  An edit of the sites, and a domain edit that does not compile, leave the domain index as it
   is, as the contracts of the store say, and are therefore no moves.
   */
  datatype Router = Router(
    ports: set<int>,
    seen: set<int>,
    active: set<int>,
    refused: set<int>,
    phase: map<Tid, Phase>,
    holder: Option<Tid>,
    unsaved: bool)

  datatype Move =
    | Commit(t: Tid, ports: set<int>)
    | CommitUnsaved(ports: set<int>)
    | Lock(t: Tid)
    | Read(t: Tid)
    | Finish(t: Tid, refused: set<int>)

  /** At start-up nothing is served yet and one Apply is pending. */
  function Booted(ports: set<int>, t: Tid): Router {
    Router(ports, {}, {}, {}, map[t := Committed], None, false)
  }

  predicate CanMove(s: Router, m: Move) {
    match m
    case Commit(t, _) => t !in s.phase
    case CommitUnsaved(_) => true
    case Lock(t) => t in s.phase && s.phase[t].Committed? && s.holder.None?
    case Read(t) => t in s.phase && s.phase[t].Locked?
    case Finish(t, _) => t in s.phase && s.phase[t].Reconciling?
  }

  function Moved(s: Router, m: Move): Router
    requires CanMove(s, m)
  {
    match m
    case Commit(t, ports) => s.(ports := ports, phase := s.phase[t := Committed])
    case CommitUnsaved(ports) => s.(ports := ports, unsaved := s.unsaved || ports != s.ports)
    case Lock(t) => s.(phase := s.phase[t := Locked], holder := Some(t))
    case Read(t) => s.(seen := s.ports, unsaved := false, phase := s.phase[t := Reconciling(s.ports)])
    case Finish(t, refused) =>
      s.(active := Reconcile(s.active, s.phase[t].want, refused), refused := refused,
         phase := s.phase - {t}, holder := None)
  }

  ghost predicate Moves(s: Router, ms: seq<Move>, t: Router)
    decreases ms
  {
    if ms == [] then s == t else CanMove(s, ms[0]) && Moves(Moved(s, ms[0]), ms[1..], t)
  }

  predicate Pending(s: Router) {
    exists t | t in s.phase :: !s.phase[t].Reconciling?
  }

  /** Every served port was asked for, and every port asked for but not served was refused. */
  predicate Serves(active: set<int>, want: set<int>, refused: set<int>) {
    active <= want && want - active <= refused
  }

  ghost predicate RouterInv(s: Router) {
    && (forall t | t in s.phase && !s.phase[t].Committed? :: s.holder == Some(t))
    && (s.holder.Some? ==> s.holder.value in s.phase && !s.phase[s.holder.value].Committed?)
    && (forall t | t in s.phase && s.phase[t].Reconciling? :: s.phase[t].want == s.seen)
    && (s.ports != s.seen && !s.unsaved ==> Pending(s))
    && (Serves(s.active, s.seen, s.refused) || exists t | t in s.phase :: s.phase[t].Reconciling?)
  }

  lemma MoveKeepsInv(s: Router, m: Move)
    requires RouterInv(s) && CanMove(s, m)
    ensures RouterInv(Moved(s, m))
  {
    var s1 := Moved(s, m);
    match m
    case Commit(t, _) =>
      assert s1.phase[t].Committed?;
      if exists u | u in s.phase :: s.phase[u].Reconciling? {
        var u :| u in s.phase && s.phase[u].Reconciling?;
        assert s1.phase[u].Reconciling?;
      }
    case CommitUnsaved(_) =>
    case Lock(t) => assert s1.phase[t].Locked?;
    case Read(t) => assert s1.phase[t].Reconciling?;
    case Finish(t, _) =>
      if s.ports != s.seen && !s.unsaved {
        var u :| u in s.phase && !s.phase[u].Reconciling?;
        assert u in s1.phase && s1.phase[u] == s.phase[u];
      }
  }

  lemma {:induction false} MovesKeepInv(s: Router, ms: seq<Move>, t: Router)
    requires RouterInv(s) && Moves(s, ms, t)
    ensures RouterInv(t)
    decreases ms
  {
    if ms != [] {
      MoveKeepsInv(s, ms[0]);
      MovesKeepInv(Moved(s, ms[0]), ms[1..], t);
    }
  }

  /** The ports of the last edit of a run, saved or not. */
  function LastPorts(ports: set<int>, ms: seq<Move>): set<int>
    decreases ms
  {
    if ms == [] then ports
    else LastPorts(if ms[0].Commit? || ms[0].CommitUnsaved? then ms[0].ports else ports, ms[1..])
  }

  lemma {:induction false} PortsAreLast(s: Router, ms: seq<Move>, t: Router)
    requires Moves(s, ms, t)
    ensures t.ports == LastPorts(s.ports, ms)
    decreases ms
  {
    if ms != [] {
      PortsAreLast(Moved(s, ms[0]), ms[1..], t);
    }
  }

  /**
   Whatever the interleaving, whenever no edit is on its way and no failed write is outstanding, the
   router serves exactly the configured extra ports, less those the system refused.
   */
  lemma RouterConverges(ports: set<int>, boot: Tid, ms: seq<Move>, s: Router)
    requires Moves(Booted(ports, boot), ms, s) && s.phase == map[] && !s.unsaved
    ensures s.ports == LastPorts(ports, ms)
    ensures Serves(s.active, s.ports, s.refused)
    ensures s.refused == {} ==> s.active == s.ports
  {
    PortsAreLast(Booted(ports, boot), ms, s);
    var s0 := Booted(ports, boot);
    assert s0.phase[boot].Committed?;
    assert RouterInv(s0);
    MovesKeepInv(s0, ms, s);
    forall p | p in s.ports && s.refused == {}
      ensures p in s.active
    {
      assert p in s.ports - s.active || p in s.active;
    }
  }

  /** While an edit is on its way some thread can move on. */
  lemma SomebodyMoves(s: Router) returns (m: Move)
    requires RouterInv(s) && s.phase != map[]
    ensures CanMove(s, m) && (m.Lock? || m.Read? || m.Finish?)
  {
    if s.holder.Some? {
      var t := s.holder.value;
      return if s.phase[t].Locked? then Read(t) else Finish(t, {});
    }
    var t :| t in s.phase;
    return Lock(t);
  }

  /** Three moves for each edit on its way, less those the holder of the lock has made. */
  function MovesLeft(s: Router): int {
    3 * |s.phase| - (if s.holder.None? || s.holder.value !in s.phase then 0
                     else match s.phase[s.holder.value] case Committed => 0 case Locked => 1 case Reconciling(_) => 2)
  }

  lemma MoveCounts(s: Router, m: Move)
    requires RouterInv(s) && CanMove(s, m) && (m.Lock? || m.Read? || m.Finish?)
    ensures 0 < MovesLeft(s) && MovesLeft(Moved(s, m)) == MovesLeft(s) - 1
  {
    var s1 := Moved(s, m);
    if m.Finish? {
      assert s1.phase.Keys == s.phase.Keys - {m.t};
    } else {
      assert s1.phase.Keys == s.phase.Keys;
    }
    assert |s1.phase| == |s1.phase.Keys| && |s.phase| == |s.phase.Keys| && m.t in s.phase.Keys;
  }

  /** So once nobody edits any more all is quiet after exactly so many moves. */
  lemma {:induction false} QuietComes(s: Router, ms: seq<Move>, t: Router)
    requires RouterInv(s) && Moves(s, ms, t) && forall m | m in ms :: m.Lock? || m.Read? || m.Finish?
    ensures |ms| + MovesLeft(t) == MovesLeft(s) && MovesLeft(t) >= 0
    ensures MovesLeft(t) == 0 <==> t.phase == map[]
    decreases ms
  {
    if ms == [] {
      if s.phase != map[] {
        var m := SomebodyMoves(s);
        MoveCounts(s, m);
      }
    } else {
      assert ms[0] in ms && forall m | m in ms[1..] :: m in ms;
      MoveKeepsInv(s, ms[0]);
      MoveCounts(s, ms[0]);
      QuietComes(Moved(s, ms[0]), ms[1..], t);
    }
  }

  /** From any quiet state an edit can be made and brought to its end, and its ports are then served. */
  lemma EditIsServed(s: Router, t: Tid, ports: set<int>) returns (u: Router)
    requires RouterInv(s) && s.phase == map[]
    ensures Moves(s, [Commit(t, ports), Lock(t), Read(t), Finish(t, {})], u)
    ensures u.phase == map[] && u.ports == ports && u.active == ports && !u.unsaved
  {
    var s1 := Moved(s, Commit(t, ports));
    var s2 := Moved(s1, Lock(t));
    var s3 := Moved(s2, Read(t));
    u := Moved(s3, Finish(t, {}));
    assert [Read(t), Finish(t, {})][1..] == [Finish(t, {})];
    assert [Lock(t), Read(t), Finish(t, {})][1..] == [Read(t), Finish(t, {})];
    assert [Commit(t, ports), Lock(t), Read(t), Finish(t, {})][1..] == [Lock(t), Read(t), Finish(t, {})];
    assert Moves(s3, [Finish(t, {})], u) && Moves(s2, [Read(t), Finish(t, {})], u);
    assert Moves(s1, [Lock(t), Read(t), Finish(t, {})], u);
    AllWantedServed(s.active, ports);
  }

  lemma AllWantedServed(active: set<int>, want: set<int>)
    ensures Reconcile(active, want, {}) == want
  {
    NothingMissing(Reconcile(active, want, {}), want);
  }

  /** A write that fails is the one way out: the index moved on and nobody was told. */
  lemma UnsavedEditIsNotServed(p: int, boot: Tid) returns (ms: seq<Move>, s: Router)
    ensures Moves(Booted({}, boot), ms, s) && s.phase == map[] && s.refused == {}
    ensures s.ports == {p} && s.active == {}
  {
    var m0, m1, m2, m3 := Lock(boot), Read(boot), Finish(boot, {}), CommitUnsaved({p});
    var s0 := Booted({}, boot);
    var s1 := Moved(s0, m0);
    var s2 := Moved(s1, m1);
    var s3 := Moved(s2, m2);
    s := Moved(s3, m3);
    ms := [m0, m1, m2, m3];
    assert ms[1..] == [m1, m2, m3] && ms[1..][1..] == [m2, m3] && ms[1..][1..][1..] == [m3];
    assert Moves(s3, [m3], s);
    assert Moves(s2, [m2, m3], s);
    assert Moves(s1, [m1, m2, m3], s);
  }

  /** Nobody edits any more and no port is refused. */
  ghost predicate Quiet(ms: seq<Move>) {
    forall m | m in ms :: m.Lock? || m.Read? || (m.Finish? && m.refused == {})
  }

  /** Every way the Applies under way can play out ends with exactly the configured ports served. */
  ghost predicate SureToServe(s: Router) {
    forall ms, t | Moves(s, ms, t) && Quiet(ms) && t.phase == map[] :: t.active == t.ports
  }

  /** Whoever reads next, or has read last, reads the current ports. */
  ghost predicate WillRead(s: Router, ports: set<int>) {
    && s.ports == ports && s.refused == {} && (s.seen == ports || Pending(s))
    && (forall t | t in s.phase && s.phase[t].Reconciling? :: s.phase[t].want == s.seen)
    && (Serves(s.active, s.seen, {}) || exists t | t in s.phase :: s.phase[t].Reconciling?)
  }

  lemma NothingMissing<T>(a: set<T>, b: set<T>)
    requires a <= b && b - a == {}
    ensures a == b
  {
    forall x | x in b
      ensures x in a
    {
      assert x !in b - a;
    }
  }

  lemma WillReadStep(s: Router, m: Move, ports: set<int>)
    requires RouterInv(s) && WillRead(s, ports) && CanMove(s, m) && Quiet([m])
    ensures WillRead(Moved(s, m), ports)
  {
    assert m in [m];
    var s1 := Moved(s, m);
    match m
    case Lock(t) => assert s1.phase[t].Locked?;
    case Read(t) => assert s1.phase[t].Reconciling?;
    case Finish(t, _) =>
      if s.seen != ports {
        var u :| u in s.phase && !s.phase[u].Reconciling?;
        assert u in s1.phase && s1.phase[u] == s.phase[u];
      }
  }

  lemma {:induction false} WillReadLasts(s: Router, ms: seq<Move>, t: Router, ports: set<int>)
    requires RouterInv(s) && WillRead(s, ports) && Moves(s, ms, t) && Quiet(ms)
    ensures WillRead(t, ports)
    decreases ms
  {
    if ms != [] {
      assert ms[0] in ms && forall m | m in ms[1..] :: m in ms;
      MoveKeepsInv(s, ms[0]);
      WillReadStep(s, ms[0], ports);
      WillReadLasts(Moved(s, ms[0]), ms[1..], t, ports);
    }
  }

  /** With nobody left to read, the last Apply can finish and what it serves is what it read. */
  lemma LastApplyFinishes(s: Router) returns (ms: seq<Move>, t: Router)
    requires RouterInv(s) && s.refused == {} && !Pending(s)
    ensures Moves(s, ms, t) && Quiet(ms) && t.phase == map[] && t.ports == s.ports && t.active == s.seen
  {
    if s.phase == map[] {
      NothingMissing(s.active, s.seen);
      return [], s;
    }
    var u :| u in s.phase;
    assert s.phase[u].Reconciling? && s.phase[u].want == s.seen;
    ms, t := [Finish(u, {})], Moved(s, Finish(u, {}));
    assert Moves(t, [], t) && ms[1..] == [];
    assert forall v | v in s.phase :: v == u;
  }

  /**
   When a failed write does no harm: with nothing refused, the edited ports are sure to be served once
   everybody is done exactly if they are those the last Apply read, or some Apply has still to read.
   */
  lemma UnsavedEditIsServedExactly(s: Router, ports: set<int>)
    requires RouterInv(s) && s.refused == {}
    ensures SureToServe(Moved(s, CommitUnsaved(ports))) <==> ports == s.seen || Pending(s)
  {
    var e := Moved(s, CommitUnsaved(ports));
    MoveKeepsInv(s, CommitUnsaved(ports));
    if ports == s.seen || Pending(s) {
      assert WillRead(e, ports);
      forall ms, t | Moves(e, ms, t) && Quiet(ms) && t.phase == map[]
        ensures t.active == t.ports
      {
        WillReadLasts(e, ms, t, ports);
        NothingMissing(t.active, t.ports);
      }
    } else {
      var ms, t := LastApplyFinishes(e);
    }
  }

  /// Forwards and DNAT rules: the listener is handed a snapshot

  datatype Errand<L> = Notify | Carry(snap: L)

  /** `applied` is the list of the last Apply; threads between edits are not in `errands`. */
  datatype Fired<L> = Fired(store: L, applied: L, errands: map<Tid, Errand<L>>)

  datatype Deed = Snap(t: Tid) | Deliver(t: Tid)

  function Edit<L>(s: Fired<L>, t: Tid, l: L): Fired<L>
    requires t !in s.errands
  {
    s.(store := l, errands := s.errands[t := Notify])
  }

  predicate CanDo<L>(s: Fired<L>, d: Deed) {
    match d
    case Snap(t) => t in s.errands && s.errands[t].Notify?
    case Deliver(t) => t in s.errands && s.errands[t].Carry?
  }

  function Do<L>(s: Fired<L>, d: Deed): Fired<L>
    requires CanDo(s, d)
  {
    match d
    case Snap(t) => s.(errands := s.errands[t := Carry(s.store)])
    case Deliver(t) => s.(applied := s.errands[t].snap, errands := s.errands - {t})
  }

  /** A continuation in which nobody edits any more. */
  ghost predicate Deeds<L>(s: Fired<L>, ds: seq<Deed>, t: Fired<L>)
    decreases ds
  {
    if ds == [] then s == t else CanDo(s, ds[0]) && Deeds(Do(s, ds[0]), ds[1..], t)
  }

  /** Nobody carries anything but the current list, and it is applied unless somebody is on the way. */
  ghost predicate Current<L>(s: Fired<L>) {
    && (forall t | t in s.errands && s.errands[t].Carry? :: s.errands[t].snap == s.store)
    && (s.errands == map[] ==> s.applied == s.store)
  }

  lemma {:induction false} CurrentLasts<L>(s: Fired<L>, ds: seq<Deed>, t: Fired<L>)
    requires Current(s) && Deeds(s, ds, t)
    ensures Current(t)
    decreases ds
  {
    if ds != [] {
      CurrentLasts(Do(s, ds[0]), ds[1..], t);
    }
  }

  lemma {:induction false} DeedsCompose<L>(s: Fired<L>, ds: seq<Deed>, t: Fired<L>, es: seq<Deed>, u: Fired<L>)
    requires Deeds(s, ds, t) && Deeds(t, es, u)
    ensures Deeds(s, ds + es, u)
    decreases ds
  {
    if ds == [] {
      assert ds + es == es;
    } else {
      assert (ds + es)[1..] == ds[1..] + es;
      DeedsCompose(Do(s, ds[0]), ds[1..], t, es, u);
    }
  }

  /** Everybody but u can finish first. */
  lemma {:induction false} OthersFinish<L>(s: Fired<L>, u: Tid) returns (ds: seq<Deed>, t: Fired<L>)
    requires u in s.errands
    ensures Deeds(s, ds, t) && t.errands == map[u := s.errands[u]] && t.store == s.store
    decreases |s.errands|
  {
    var others := s.errands.Keys - {u};
    if others == {} {
      assert s.errands.Keys == {u};
      return [], s;
    }
    var v :| v in others;
    var s1 := if s.errands[v].Notify? then Do(s, Snap(v)) else s;
    var s2 := Do(s1, Deliver(v));
    assert s2.errands.Keys == s.errands.Keys - {v};
    var rest: seq<Deed>;
    rest, t := OthersFinish(s2, u);
    var first := if s.errands[v].Notify? then [Snap(v), Deliver(v)] else [Deliver(v)];
    assert Deeds(s1, [Deliver(v)], s2);
    if s.errands[v].Notify? {
      assert first[1..] == [Deliver(v)];
    }
    assert Deeds(s, first, s2);
    DeedsCompose(s, first, s2, rest, t);
    ds := first + rest;
  }

  /** Every way the pending errands can play out ends with the edited list applied. */
  ghost predicate Safe<L(!new)>(s: Fired<L>) {
    forall ds, t | Deeds(s, ds, t) && t.errands == map[] :: t.applied == s.store
  }

  /**
   When a snapshot is safe: an edit is sure to take effect exactly if, at the moment it commits, nobody
   else is carrying a snapshot of a different list that is still to be applied.
   */
  lemma EditTakesEffectExactly<L(!new)>(s: Fired<L>, t: Tid, l: L)
    requires t !in s.errands
    ensures Safe(Edit(s, t, l)) <==> forall u | u in s.errands && s.errands[u].Carry? :: s.errands[u].snap == l
  {
    var e := Edit(s, t, l);
    if forall u | u in s.errands && s.errands[u].Carry? :: s.errands[u].snap == l {
      assert t in e.errands;
      forall ds, f | Deeds(e, ds, f) && f.errands == map[]
        ensures f.applied == l
      {
        CurrentLasts(e, ds, f);
        StoreLasts(e, ds, f);
      }
    } else {
      var u :| u in s.errands && s.errands[u].Carry? && s.errands[u].snap != l;
      assert e.errands[u] == s.errands[u];
      StaleWins(e, u);
    }
  }

  lemma {:induction false} StoreLasts<L>(s: Fired<L>, ds: seq<Deed>, t: Fired<L>)
    requires Deeds(s, ds, t)
    ensures t.store == s.store
    decreases ds
  {
    if ds != [] {
      StoreLasts(Do(s, ds[0]), ds[1..], t);
    }
  }

  /** An edit that could not be written changes the list and sends nobody. */
  function EditUnsaved<L>(s: Fired<L>, l: L): Fired<L> {
    s.(store := l)
  }

  /**
   It is sure to be applied all the same exactly if everybody who carries a snapshot carries that list and,
   with nobody on the way, it is the one applied last.
   */
  lemma UnsavedEditTakesEffectExactly<L(!new)>(s: Fired<L>, l: L)
    ensures Safe(EditUnsaved(s, l)) <==>
            && (forall u | u in s.errands && s.errands[u].Carry? :: s.errands[u].snap == l)
            && (s.errands == map[] ==> s.applied == l)
  {
    var e := EditUnsaved(s, l);
    if (forall u | u in s.errands && s.errands[u].Carry? :: s.errands[u].snap == l)
       && (s.errands == map[] ==> s.applied == l) {
      forall ds, f | Deeds(e, ds, f) && f.errands == map[]
        ensures f.applied == l
      {
        CurrentLasts(e, ds, f);
        StoreLasts(e, ds, f);
      }
    } else if s.errands == map[] {
      assert Deeds(e, [], e);
    } else {
      var u :| u in s.errands && s.errands[u].Carry? && s.errands[u].snap != l;
      StaleWins(e, u);
    }
  }

  /** Whoever carries another list can be the last to deliver. */
  lemma StaleWins<L(!new)>(e: Fired<L>, u: Tid)
    requires u in e.errands && e.errands[u].Carry? && e.errands[u].snap != e.store
    ensures !Safe(e)
  {
    var ds, f := OthersFinish(e, u);
    var g := Do(f, Deliver(u));
    assert Deeds(f, [Deliver(u)], g);
    DeedsCompose(e, ds, f, [Deliver(u)], g);
    assert g.errands == map[] && g.applied != e.store;
  }

  /** Two threads, and the older list is the one that stays applied. */
  lemma OlderSnapshotWins<L>(l0: L, l1: L, l2: L) returns (s: Fired<L>)
    requires l1 != l2
    ensures var start := Edit(Fired(l0, l0, map[]), 1, l1);
      var snapped := Do(start, Snap(1));
      Deeds(Edit(snapped, 2, l2), [Snap(2), Deliver(2), Deliver(1)], s)
    ensures s.errands == map[] && s.store == l2 && s.applied == l1
  {
    var snapped := Do(Edit(Fired(l0, l0, map[]), 1, l1), Snap(1));
    var s0 := Edit(snapped, 2, l2);
    var s1 := Do(s0, Snap(2));
    var s2 := Do(s1, Deliver(2));
    s := Do(s2, Deliver(1));
    assert [Deliver(2), Deliver(1)][1..] == [Deliver(1)];
    assert [Snap(2), Deliver(2), Deliver(1)][1..] == [Deliver(2), Deliver(1)];
    assert Deeds(s2, [Deliver(1)], s);
    assert Deeds(s1, [Deliver(2), Deliver(1)], s);
  }
}

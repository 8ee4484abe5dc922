/**
 The listener that peeks at each connection and hands the accepted ones to whoever calls Accept: its
 loop, one handler per connection, the callers of Accept and of Close, in any interleaving.
 */
module SniListener {
  type Id = nat

  datatype Verdict = Passthrough | Drop | Deliver

  /**
   Every connection taken from the inner listener is in one of the five sets; `handOvers` counts how
   often Accept has returned one.  `waiting` are the callers blocked in Accept, `closing` the calls of
   Close that have still to close the inner listener, and `doneCloses` counts how often the `done`
   channel has been closed.  `verdicts` records what was decided for each connection.
   */
  datatype State = State(
    loop: bool,
    innerOpen: bool,
    done: bool,
    doneCloses: nat,
    closing: nat,
    next: nat,
    peeking: set<Id>,
    parked: set<Id>,
    spliced: set<Id>,
    closed: set<Id>,
    delivered: set<Id>,
    handOvers: nat,
    waiting: set<nat>,
    verdicts: map<Id, Verdict>)

  datatype Action =
    | InnerAccept
    | InnerFail
    | Decide(c: Id, v: Verdict)
    | SpliceEnds(c: Id)
    | HandOver(c: Id, caller: nat)
    | GiveUp(c: Id)
    | AcceptCall(caller: nat)
    | AcceptFails(caller: nat)
    | CloseBegin
    | CloseEnd

  const INIT := State(true, true, false, 0, 0, 0, {}, {}, {}, {}, {}, 0, {}, map[])

  /** The two selects may take either ready branch, so a hand-over can still happen after `done`. */
  predicate Enabled(s: State, a: Action) {
    match a
    case InnerAccept => s.loop && s.innerOpen
    case InnerFail => s.loop
    case Decide(c, _) => c in s.peeking
    case SpliceEnds(c) => c in s.spliced
    case HandOver(c, w) => c in s.parked && w in s.waiting
    case GiveUp(c) => c in s.parked && s.done
    case AcceptCall(w) => w !in s.waiting
    case AcceptFails(w) => w in s.waiting && s.done
    case CloseBegin => true
    case CloseEnd => s.closing > 0
  }

  /** once.Do(close(done)). */
  function CloseDone(s: State): State {
    if s.done then s else s.(done := true, doneCloses := s.doneCloses + 1)
  }

  function Step(s: State, a: Action): State
    requires Enabled(s, a)
  {
    match a
    case InnerAccept => s.(next := s.next + 1, peeking := s.peeking + {s.next})
    case InnerFail => CloseDone(s).(loop := false)
    case Decide(c, v) =>
      var s1 := s.(peeking := s.peeking - {c}, verdicts := s.verdicts[c := v]);
      (match v
       case Passthrough => s1.(spliced := s.spliced + {c})
       case Drop => s1.(closed := s.closed + {c})
       case Deliver => s1.(parked := s.parked + {c}))
    case SpliceEnds(c) => s.(spliced := s.spliced - {c}, closed := s.closed + {c})
    case HandOver(c, w) =>
      s.(parked := s.parked - {c}, delivered := s.delivered + {c}, handOvers := s.handOvers + 1,
         waiting := s.waiting - {w})
    case GiveUp(c) => s.(parked := s.parked - {c}, closed := s.closed + {c})
    case AcceptCall(w) => s.(waiting := s.waiting + {w})
    case AcceptFails(w) => s.(waiting := s.waiting - {w})
    case CloseBegin => CloseDone(s).(closing := s.closing + 1)
    case CloseEnd => s.(closing := s.closing - 1, innerOpen := false)
  }

  ghost predicate Trace(s: State, acts: seq<Action>, t: State)
    decreases acts
  {
    if acts == [] then s == t else Enabled(s, acts[0]) && Trace(Step(s, acts[0]), acts[1..], t)
  }

  /** Each accepted connection is in exactly one place, and each delivered one was delivered once. */
  ghost predicate Conserved(s: State) {
    && (forall c: Id :: Known(s, c) <==> c < s.next)
    && Apart(s)
    && s.handOvers == |s.delivered|
  }

  predicate Known(s: State, c: Id) {
    c in s.peeking || c in s.parked || c in s.spliced || c in s.closed || c in s.delivered
  }

  ghost predicate ClosedOnce(s: State) {
    && s.doneCloses == (if s.done then 1 else 0)
    && (!s.loop || s.closing > 0 || !s.innerOpen ==> s.done)
  }

  lemma StepKeepsKnown(s: State, a: Action, c: Id)
    requires Enabled(s, a)
    ensures Known(Step(s, a), c) <==> Known(s, c) || (a.InnerAccept? && c == s.next)
  {}

  predicate Apart(s: State) {
    s.peeking !! s.parked !! s.spliced !! s.closed !! s.delivered
  }

  lemma StepKeepsApart(s: State, a: Action)
    requires Apart(s) && Enabled(s, a) && (a.InnerAccept? ==> !Known(s, s.next))
    ensures Apart(Step(s, a))
  {}

  lemma StepKeepsCount(s: State, a: Action)
    requires Apart(s) && s.handOvers == |s.delivered| && Enabled(s, a)
    ensures Step(s, a).handOvers == |Step(s, a).delivered|
  {
    if a.HandOver? {
      assert a.c !in s.delivered;
    }
  }

  lemma StepConserves(s: State, a: Action)
    requires Conserved(s) && Enabled(s, a)
    ensures Conserved(Step(s, a))
  {
    assert !Known(s, s.next);
    StepKeepsApart(s, a);
    StepKeepsCount(s, a);
    var t := Step(s, a);
    forall c: Id
      ensures Known(t, c) <==> c < t.next
    {
      StepKeepsKnown(s, a, c);
    }
  }

  lemma StepClosesOnce(s: State, a: Action)
    requires ClosedOnce(s) && Enabled(s, a)
    ensures ClosedOnce(Step(s, a))
  {}

  /**
   In every interleaving each accepted connection is peeked at, parked, spliced, closed or delivered,
   and only one of these; none is delivered twice; and `done` is closed at most once.
   */
  lemma {:induction false} ConnectionsAreConserved(s: State, acts: seq<Action>, t: State)
    requires Conserved(s) && ClosedOnce(s) && Trace(s, acts, t)
    ensures Conserved(t) && ClosedOnce(t) && t.doneCloses <= 1
    decreases acts
  {
    if acts != [] {
      StepConserves(s, acts[0]);
      StepClosesOnce(s, acts[0]);
      ConnectionsAreConserved(Step(s, acts[0]), acts[1..], t);
    }
  }

  lemma ReachableConserves(acts: seq<Action>, t: State)
    requires Trace(INIT, acts, t)
    ensures Conserved(t) && ClosedOnce(t) && t.doneCloses <= 1
  {
    ConnectionsAreConserved(INIT, acts, t);
  }

  /** Where a connection may be, given what was decided for it. */
  predicate Follows(s: State, c: Id) {
    && (c in s.peeking ==> c !in s.verdicts)
    && (c in s.parked || c in s.delivered ==> c in s.verdicts && s.verdicts[c] == Deliver)
    && (c in s.spliced ==> c in s.verdicts && s.verdicts[c] == Passthrough)
    && (c in s.closed ==> c in s.verdicts && (s.verdicts[c] == Deliver ==> s.done))
    && (c in s.verdicts ==> Known(s, c))
  }

  ghost predicate VerdictsFollowed(s: State) {
    forall c: Id :: Follows(s, c)
  }

  lemma StepFollows(s: State, a: Action, c: Id)
    requires Apart(s) && Enabled(s, a) && !Known(s, s.next) && Follows(s, c)
    ensures Follows(Step(s, a), c)
  {}

  /**
   In every interleaving Accept only returns connections that were to be delivered, only those to be
   passed through are spliced, and one that was to be delivered is closed only after `done`.
   */
  lemma {:induction false} VerdictsAreFollowed(s: State, acts: seq<Action>, t: State)
    requires Conserved(s) && VerdictsFollowed(s) && Trace(s, acts, t)
    ensures VerdictsFollowed(t)
    decreases acts
  {
    if acts != [] {
      StepConserves(s, acts[0]);
      assert !Known(s, s.next);
      forall c: Id
        ensures Follows(Step(s, acts[0]), c)
      {
        StepFollows(s, acts[0], c);
      }
      VerdictsAreFollowed(Step(s, acts[0]), acts[1..], t);
    }
  }

  lemma ReachableFollows(acts: seq<Action>, t: State, c: Id)
    requires Trace(INIT, acts, t) && c < t.next && c !in t.peeking
    ensures c in t.verdicts
    ensures t.verdicts[c] == Drop ==> c in t.closed
    ensures t.verdicts[c] == Passthrough ==> c in t.spliced || c in t.closed
    ensures t.verdicts[c] == Deliver ==> c in t.parked || c in t.delivered || (c in t.closed && t.done)
  {
    ReachableConserves(acts, t);
    assert Known(t, c) <==> c < t.next;
    VerdictsAreFollowed(INIT, acts, t);
    assert Follows(t, c);
  }

  /// Where each connection goes, read off the run

  lemma StepPlaces(s: State, a: Action, c: Id)
    requires Apart(s) && Enabled(s, a) && !Known(s, s.next)
    ensures var t := Step(s, a);
      && (c in t.closed <==> c in s.closed || a in {Decide(c, Drop), SpliceEnds(c), GiveUp(c)})
      && (c in t.delivered <==> c in s.delivered || (a.HandOver? && a.c == c))
      && (c in t.spliced <==> a == Decide(c, Passthrough) || (c in s.spliced && a != SpliceEnds(c)))
      && (c in t.parked <==> a == Decide(c, Deliver) || (c in s.parked && a != GiveUp(c) && !(a.HandOver? && a.c == c)))
  {}

  ghost predicate HandedOver(acts: seq<Action>, c: Id) {
    exists w :: HandOver(c, w) in acts
  }

  lemma {:induction false} TracePlaces(s: State, acts: seq<Action>, t: State, c: Id)
    requires Conserved(s) && Trace(s, acts, t)
    ensures c in t.closed <==> c in s.closed || Decide(c, Drop) in acts || SpliceEnds(c) in acts || GiveUp(c) in acts
    ensures c in t.delivered <==> c in s.delivered || HandedOver(acts, c)
    decreases acts
  {
    if acts != [] {
      var s1, a := Step(s, acts[0]), acts[0];
      assert acts == [a] + acts[1..];
      assert !Known(s, s.next);
      StepPlaces(s, a, c);
      StepConserves(s, a);
      TracePlaces(s1, acts[1..], t, c);
      assert forall w :: HandOver(c, w) in acts <==> HandOver(c, w) == a || HandOver(c, w) in acts[1..];
      if a.HandOver? && a.c == c {
        assert HandOver(c, a.caller) in acts;
      }
    }
  }

  lemma {:induction false} TraceDoors(s: State, acts: seq<Action>, t: State)
    requires Trace(s, acts, t)
    ensures t.innerOpen <==> s.innerOpen && CloseEnd !in acts
    ensures t.loop <==> s.loop && InnerFail !in acts
    ensures t.done <==> s.done || CloseBegin in acts || InnerFail in acts
    decreases acts
  {
    if acts != [] {
      assert acts == [acts[0]] + acts[1..];
      TraceDoors(Step(s, acts[0]), acts[1..], t);
    }
  }

  /**
   In every run a connection is closed by this listener exactly if it was dropped, its splice came to an end,
   or its handler gave up; it is delivered exactly if it was handed over; the inner listener is closed
   exactly if some Close has finished, and `done` exactly if some Close has begun or the loop has ended.
   */
  lemma PlacesExactly(acts: seq<Action>, t: State, c: Id)
    requires Trace(INIT, acts, t)
    ensures c in t.closed <==> Decide(c, Drop) in acts || SpliceEnds(c) in acts || GiveUp(c) in acts
    ensures c in t.delivered <==> HandedOver(acts, c)
    ensures t.innerOpen <==> CloseEnd !in acts
    ensures t.loop <==> InnerFail !in acts
    ensures t.done <==> CloseBegin in acts || InnerFail in acts
  {
    TracePlaces(INIT, acts, t, c);
    TraceDoors(INIT, acts, t);
  }

  lemma {:induction false} NobodyFails(s: State, acts: seq<Action>, t: State)
    requires Trace(s, acts, t) && !t.done
    ensures !s.done && forall a | a in acts :: !a.AcceptFails? && !a.GiveUp?
    decreases acts
  {
    if acts != [] {
      assert acts == [acts[0]] + acts[1..];
      NobodyFails(Step(s, acts[0]), acts[1..], t);
    }
  }

  /** While `done` is open no call of Accept fails and no handler gives up. */
  lemma OpenListenerServes(acts: seq<Action>, t: State)
    requires Trace(INIT, acts, t) && !t.done
    ensures forall a | a in acts :: !a.AcceptFails? && !a.GiveUp?
  {
    NobodyFails(INIT, acts, t);
  }

  /** A run from accepting a connection to handing it over. */
  lemma ConnectionIsServed() returns (acts: seq<Action>, t: State)
    ensures acts == [InnerAccept, AcceptCall(0), Decide(0, Deliver), HandOver(0, 0)]
    ensures Trace(INIT, acts, t) && t.delivered == {0} && t.waiting == {}
  {
    var s1 := Step(INIT, InnerAccept);
    var s2 := Step(s1, AcceptCall(0));
    var s3 := Step(s2, Decide(0, Deliver));
    t := Step(s3, HandOver(0, 0));
    acts := [InnerAccept, AcceptCall(0), Decide(0, Deliver), HandOver(0, 0)];
    assert [Decide(0, Deliver), HandOver(0, 0)][1..] == [HandOver(0, 0)];
    assert [AcceptCall(0), Decide(0, Deliver), HandOver(0, 0)][1..] == [Decide(0, Deliver), HandOver(0, 0)];
    assert acts[1..] == [AcceptCall(0), Decide(0, Deliver), HandOver(0, 0)];
    assert Trace(s3, [HandOver(0, 0)], t) && Trace(s2, [Decide(0, Deliver), HandOver(0, 0)], t);
    assert Trace(s1, [AcceptCall(0), Decide(0, Deliver), HandOver(0, 0)], t);
  }

  /** A parked connection and a waiting caller can always meet, even after `done`. */
  lemma ParkedCanBeDelivered(s: State, c: Id, caller: nat)
    requires c in s.parked && caller in s.waiting
    ensures Enabled(s, HandOver(c, caller))
    ensures var t := Step(s, HandOver(c, caller)); c in t.delivered && c !in t.parked && caller !in t.waiting
  {}

  /** Counting: what came in is what was delivered, closed, or is still being worked on. */
  lemma NothingIsLost(acts: seq<Action>, t: State)
    requires Trace(INIT, acts, t)
    ensures t.next == |t.peeking| + |t.parked| + |t.spliced| + |t.closed| + t.handOvers
  {
    ReachableConserves(acts, t);
    var all := t.peeking + t.parked + t.spliced + t.closed + t.delivered;
    forall c: Id
      ensures c in all <==> c < t.next
    {
      assert Known(t, c) <==> c < t.next;
    }
    UpTo(all, t.next);
  }

  lemma {:induction false} UpTo(s: set<Id>, n: nat)
    requires forall c: Id :: c in s <==> c < n
    ensures |s| == n
  {
    if n == 0 {
      assert s == {};
    } else {
      UpTo(s - {n - 1}, n - 1);
    }
  }

  /// Shutting down

  /** Close has been called and has returned. */
  predicate ShutDown(s: State) { s.done && !s.innerOpen }

  /**
   The steps the listener takes on its own: a peek ends at the latest with its read deadline.  New
   calls, and the end of a splice, come from outside.
   */
  predicate Internal(s: State, a: Action) {
    match a
    case Decide(_, _) => true
    case InnerFail => !s.innerOpen
    case HandOver(_, _) => true
    case GiveUp(_) => true
    case AcceptFails(_) => true
    case _ => false
  }

  function Work(s: State): nat {
    2 * |s.peeking| + |s.parked| + |s.waiting| + (if s.loop then 1 else 0)
  }

  lemma DecideLowers(s: State, c: Id, v: Verdict)
    requires c in s.peeking
    ensures Work(Step(s, Decide(c, v))) < Work(s)
  {}

  lemma InternalStepsLower(s: State, a: Action)
    requires Enabled(s, a) && Internal(s, a)
    ensures Work(Step(s, a)) < Work(s)
  {
    if a.Decide? {
      DecideLowers(s, a.c, a.v);
    }
  }

  ghost function OwnSteps(s: State, acts: seq<Action>): nat
    decreases acts
  {
    if acts == [] || !Enabled(s, acts[0]) then 0
    else (if Internal(s, acts[0]) then 1 else 0) + OwnSteps(Step(s, acts[0]), acts[1..])
  }

  lemma StepAccount(s: State, a: Action)
    requires ShutDown(s) && Enabled(s, a)
    ensures ShutDown(Step(s, a))
    ensures Work(Step(s, a)) + (if Internal(s, a) then 1 else 0) <= Work(s) + (if Internal(s, a) then 0 else 1)
  {
    if Internal(s, a) {
      InternalStepsLower(s, a);
    }
  }

  lemma {:induction false} OwnStepsAreBounded(s: State, acts: seq<Action>, t: State)
    requires ShutDown(s) && Trace(s, acts, t)
    ensures ShutDown(t)
    ensures OwnSteps(s, acts) + Work(t) <= Work(s) + (|acts| - OwnSteps(s, acts))
    decreases acts
  {
    if acts != [] {
      StepAccount(s, acts[0]);
      OwnStepsAreBounded(Step(s, acts[0]), acts[1..], t);
    }
  }

  /**
   After Close has returned, every handler finishes and every caller of Accept gets an answer: each own
   step leaves less work, outside calls add at most one each, and when no own step is left nobody
   waits, nothing is parked, and each connection has been delivered, closed or is being spliced.
   */
  lemma CloseDrains(acts: seq<Action>, s: State, more: seq<Action>, t: State)
    requires Trace(INIT, acts, s) && ShutDown(s) && Trace(s, more, t)
    ensures OwnSteps(s, more) <= Work(s) + (|more| - OwnSteps(s, more))
    ensures (forall a | Enabled(t, a) :: !Internal(t, a)) ==>
              && !t.loop && t.peeking == {} && t.parked == {} && t.waiting == {}
              && forall c: Id :: c in t.spliced || c in t.closed || c in t.delivered <==> c < t.next
  {
    ReachableConserves(acts, s);
    ConnectionsAreConserved(s, more, t);
    OwnStepsAreBounded(s, more, t);
    if forall a | Enabled(t, a) :: !Internal(t, a) {
      Quiet(t);
      forall c: Id
        ensures c in t.spliced || c in t.closed || c in t.delivered <==> c < t.next
      {
        assert Known(t, c) <==> c < t.next;
      }
    }
  }

  lemma Quiet(t: State)
    requires ShutDown(t) && forall a | Enabled(t, a) :: !Internal(t, a)
    ensures !t.loop && t.peeking == {} && t.parked == {} && t.waiting == {}
  {
    assert !Enabled(t, InnerFail);
    forall c
      ensures c !in t.peeking && c !in t.parked && c !in t.waiting
    {
      assert !Enabled(t, Decide(c, Drop)) && !Enabled(t, GiveUp(c)) && !Enabled(t, AcceptFails(c));
    }
  }
}

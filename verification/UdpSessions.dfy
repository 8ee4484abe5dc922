/** The life of one UDP session over whole runs: its reverse worker, its replies and its idle time. */
module UdpSessions {
  import opened UdpRelay
  import opened UdpShutdown

  /// Reverse workers: a session can outlive its worker.

  /** The worker of this socket has not ended, or has not been started yet. */
  predicate Hears(s: State, w: Sock) { w in s.live || w !in s.client }

  lemma MainStepHears(s: State, a: Action, w: Sock)
    requires IsMain(a) && Enabled(s, a) && WorkersTied(s.live, s.inHand, s.client, s.nextSock)
    ensures Hears(Step(s, a), w) <==> Hears(s, w)
  {}

  lemma OtherStepHears(s: State, a: Action, w: Sock)
    requires !IsMain(a) && Enabled(s, a) && WorkersTied(s.live, s.inHand, s.client, s.nextSock)
    ensures Hears(Step(s, a), w) <==> Hears(s, w) && a != WorkerFail(w)
  {}

  lemma StepHears(s: State, a: Action, w: Sock)
    requires Enabled(s, a) && WorkersTied(s.live, s.inHand, s.client, s.nextSock)
    ensures Hears(Step(s, a), w) <==> Hears(s, w) && a != WorkerFail(w)
  {
    if IsMain(a) {
      MainStepHears(s, a, w);
    } else {
      OtherStepHears(s, a, w);
    }
  }

  lemma {:induction false} TraceHears(s: State, acts: seq<Action>, t: State, w: Sock)
    requires Inv(s) && Trace(s, acts, t)
    ensures Hears(t, w) <==> Hears(s, w) && WorkerFail(w) !in acts
    decreases acts
  {
    if acts != [] {
      StepHears(s, acts[0], w);
      StepInv(s, acts[0]);
      TraceHears(Step(s, acts[0]), acts[1..], t, w);
      assert acts == [acts[0]] + acts[1..];
    }
  }

  /**
   A mapped session always has an open socket, but somebody to read from it exactly as long as its
   worker has met no read error: the error ends the worker and leaves the session in place.
   */
  lemma SessionIsDeafExactly(tcp: bool, udp: bool, now: nat, acts: seq<Action>, t: State, k: Key)
    requires Trace(Init(tcp, udp, now), acts, t) && k in t.sessions
    ensures t.sessions[k].back in t.open
    ensures t.sessions[k].back in t.live <==> WorkerFail(t.sessions[k].back) !in acts
  {
    InitInv(tcp, udp, now);
    TraceInv(Init(tcp, udp, now), acts, t);
    TraceHears(Init(tcp, udp, now), acts, t, t.sessions[k].back);
  }

  lemma StepSilent(s: State, a: Action, w: Sock)
    requires Enabled(s, a) && WorkersTied(s.live, s.inHand, s.client, s.nextSock) && !Hears(s, w)
    ensures var t := Step(s, a); s.log <= t.log && |t.log| <= |s.log| + 1
    ensures var t := Step(s, a);
      t.log != s.log ==> var e := t.log[|s.log|]; !(e.Replied? && e.sock == w) && !(e.ReadBack? && e.sock == w)
  {
    StepTouched(s, a);
  }

  /** From then on nothing is read from that socket and no reply comes from it, for the rest of the run. */
  lemma {:induction false} DeafIsSilent(s: State, acts: seq<Action>, t: State, w: Sock)
    requires Inv(s) && Trace(s, acts, t) && !Hears(s, w)
    ensures s.log <= t.log
    ensures forall i | |s.log| <= i < |t.log| ::
              !(t.log[i].Replied? && t.log[i].sock == w) && !(t.log[i].ReadBack? && t.log[i].sock == w)
    decreases acts
  {
    if acts != [] {
      var s1 := Step(s, acts[0]);
      StepHears(s, acts[0], w);
      StepSilent(s, acts[0], w);
      StepInv(s, acts[0]);
      DeafIsSilent(s1, acts[1..], t, w);
      if s1.log != s.log {
        assert t.log[|s.log|] == s1.log[|s.log|];
      }
    }
  }

  /** A run into such a session: one datagram from a client, then one read error. */
  lemma DeafSessionIsReached(k: Key, d: Datagram) returns (acts: seq<Action>, t: State)
    ensures Trace(Init(false, true, 0), acts, t)
    ensures k in t.sessions && t.sessions[k].back in t.open && t.sessions[k].back !in t.live
  {
    var s0 := Init(false, true, 0);
    var s1 := Step(s0, StartLoop);
    var s6 := Forwarded(s1, k, d);
    t := Step(s6, WorkerFail(0));
    var first := [Receive(k, d), LockForPacket, DialOk, Touch, Send];
    assert Trace(t, [], t) && [WorkerFail(0)][1..] == [];
    TraceThen(s1, first, s6, [WorkerFail(0)], t);
    acts := [StartLoop] + (first + [WorkerFail(0)]);
    assert acts[1..] == first + [WorkerFail(0)];
  }

  /** The main loop takes one datagram, with or without a session for its sender. */
  lemma Forwarded(s: State, k: Key, d: Datagram) returns (t: State)
    requires s.main.Reading? && s.pcOpen && s.mutex.Free?
    ensures Trace(s, [Receive(k, d), LockForPacket, if k in s.sessions then FindSession else DialOk, Touch, Send], t)
    ensures t.main.Reading? && t.mutex.Free? && t.pcOpen && t.inHand == s.inHand
    ensures t.reaper == s.reaper && t.now == s.now
    ensures if k in s.sessions
      then t.sessions == s.sessions[k := Session(s.sessions[k].back, s.now)] && t.open == s.open && t.live == s.live
      else t.sessions == s.sessions[k := Session(s.nextSock, s.now)]
           && t.open == s.open + {s.nextSock} && t.live == s.live + {s.nextSock}
    ensures k in s.sessions && s.sessions[k].back in s.open ==>
              t.log == s.log + [Received(k, d), Touched(k, s.now), Wrote(s.sessions[k].back, k, d)]
  {
    var middle := if k in s.sessions then FindSession else DialOk;
    var s1 := Step(s, Receive(k, d));
    var s2 := Step(s1, LockForPacket);
    var s3 := Step(s2, middle);
    var s4 := Step(s3, Touch);
    t := Step(s4, Send);
    assert [Touch, Send][1..] == [Send] && [middle, Touch, Send][1..] == [Touch, Send];
    assert Trace(s4, [Send], t) && Trace(s3, [Touch, Send], t) && Trace(s2, [middle, Touch, Send], t);
    assert [LockForPacket, middle, Touch, Send][1..] == [middle, Touch, Send];
    assert Trace(s1, [LockForPacket, middle, Touch, Send], t);
    assert [Receive(k, d), LockForPacket, middle, Touch, Send][1..] == [LockForPacket, middle, Touch, Send];
  }

  /**
   The client cannot help itself.  In any run, every datagram of a client whose session is deaf refreshes
   that session and goes to the same deaf socket, for as long as the session is there.
   */
  lemma DeafIsKeptAlive(s: State, a: Action, w: Sock)
    requires Reachable(s) && Enabled(s, a) && !Hears(s, w)
    requires (a.Touch? && s.sessions[s.main.key].back == w) || (a.Send? && s.main.back == w)
    ensures !Hears(Step(s, a), w)
    ensures a.Touch? ==> Step(s, a).sessions[s.main.key] == Session(w, s.now)
                         && Step(s, a).main == Sending(w, s.main.key, s.main.data)
    ensures a.Send? ==> Step(s, a).log == s.log + [if w in s.open then Wrote(w, s.main.key, s.main.data)
                                                   else Lost(s.main.key, s.main.data)]
  {
    ReachableInv(s);
    StepHears(s, a, w);
  }

  /** While the listener is idle a client's next datagram can always be taken, and is lost that way. */
  lemma DeafTakesNext(s: State, k: Key, d: Datagram) returns (acts: seq<Action>, t: State)
    requires Reachable(s) && s.main.Reading? && s.pcOpen && s.mutex.Free?
    requires k in s.sessions && s.sessions[k].back !in s.live
    ensures Trace(s, acts, t) && Receive(k, d) in acts
    ensures t.main.Reading? && t.pcOpen && t.mutex.Free?
    ensures k in t.sessions && t.sessions[k] == Session(s.sessions[k].back, s.now) && t.sessions[k].back !in t.live
    ensures t.log == s.log + [Received(k, d), Touched(k, s.now), Wrote(s.sessions[k].back, k, d)]
  {
    ReachableInv(s);
    t := Forwarded(s, k, d);
    acts := [Receive(k, d), LockForPacket, FindSession, Touch, Send];
  }

  /// Replies: what a worker reads it passes on, once and in order.

  datatype Back = Empty | Read(data: Datagram) | Bad

  /**
   Follows what is read from one backend socket: each datagram is, before the next, either replied to
   the client, unchanged, or found unsendable because the listener's socket is closed.
   */
  function BackFlow(log: seq<Event>, w: Sock): Back {
    if log == [] then Empty else NextBack(BackFlow(log[..|log| - 1], w), w, log[|log| - 1])
  }

  function NextBack(b: Back, w: Sock, e: Event): Back {
    match e
    case ReadBack(v, d) => if v != w then b else if b.Empty? then Read(d) else Bad
    case Replied(_, v, d) => if v != w then b else if b == Read(d) then Empty else Bad
    case Unsent(_, v, d) => if v != w then b else if b == Read(d) then Empty else Bad
    case _ => b
  }

  /** What the worker of that socket has in hand. */
  function InHand(s: State, w: Sock): Back {
    if w in s.inHand then Read(s.inHand[w]) else Empty
  }

  lemma MainStepBack(s: State, a: Action, w: Sock)
    requires IsMain(a) && Enabled(s, a)
    ensures var t := Step(s, a);
      InHand(t, w) == if t.log == s.log then InHand(s, w) else NextBack(InHand(s, w), w, t.log[|s.log|])
  {
    StepTouched(s, a);
  }

  lemma OtherStepBack(s: State, a: Action, w: Sock)
    requires !IsMain(a) && Enabled(s, a)
    ensures var t := Step(s, a);
      InHand(t, w) == if t.log == s.log then InHand(s, w) else NextBack(InHand(s, w), w, t.log[|s.log|])
  {
    StepTouched(s, a);
  }

  lemma StepBack(s: State, a: Action, w: Sock)
    requires Enabled(s, a) && BackFlow(s.log, w) == InHand(s, w)
    ensures BackFlow(Step(s, a).log, w) == InHand(Step(s, a), w)
  {
    var t := Step(s, a);
    StepTouched(s, a);
    if IsMain(a) {
      MainStepBack(s, a, w);
    } else {
      OtherStepBack(s, a, w);
    }
    if t.log != s.log {
      assert t.log[..|s.log|] == s.log;
    }
  }

  lemma {:induction false} TraceBack(s: State, acts: seq<Action>, t: State, w: Sock)
    requires Trace(s, acts, t) && BackFlow(s.log, w) == InHand(s, w)
    ensures BackFlow(t.log, w) == InHand(t, w)
    decreases acts
  {
    if acts != [] {
      StepBack(s, acts[0], w);
      TraceBack(Step(s, acts[0]), acts[1..], t, w);
    }
  }

  /** Every datagram read from a backend is replied once, unchanged and in order, while the listener is open. */
  lemma RepliesAreInOrder(t: State, w: Sock)
    requires Reachable(t)
    ensures BackFlow(t.log, w) == InHand(t, w)
  {
    var tcp, udp, now, acts :| Trace(Init(tcp, udp, now), acts, t);
    TraceBack(Init(tcp, udp, now), acts, t, w);
  }

  ghost predicate AllSent(log: seq<Event>) {
    forall e | e in log :: !e.Unsent?
  }

  lemma StepAllSent(s: State, a: Action)
    requires Enabled(s, a)
    ensures Step(s, a).pcOpen ==> s.pcOpen
    ensures var t := Step(s, a);
      t.log != s.log ==> (t.log[|s.log|].Unsent? ==> !s.pcOpen) && (t.log[|s.log|].Replied? ==> s.pcOpen)
    ensures s.log <= Step(s, a).log && |Step(s, a).log| <= |s.log| + 1
  {
    StepTouched(s, a);
  }

  lemma StepKeepsSent(s: State, a: Action)
    requires Enabled(s, a) && (s.pcOpen ==> AllSent(s.log))
    ensures Step(s, a).pcOpen ==> AllSent(Step(s, a).log)
  {
    StepAllSent(s, a);
    var t := Step(s, a);
    if t.log != s.log {
      assert t.log == s.log + [t.log[|s.log|]];
    }
  }

  lemma {:induction false} TraceAllSent(s: State, acts: seq<Action>, t: State)
    requires Trace(s, acts, t) && (s.pcOpen ==> AllSent(s.log))
    ensures t.pcOpen ==> AllSent(t.log)
    decreases acts
  {
    if acts != [] {
      StepKeepsSent(s, acts[0]);
      TraceAllSent(Step(s, acts[0]), acts[1..], t);
    }
  }

  /** No reply is held back while the listener is open, so every datagram read till then has been sent on. */
  lemma OpenListenerReplies(t: State)
    requires Reachable(t) && t.pcOpen
    ensures AllSent(t.log)
  {
    var tcp, udp, now, acts :| Trace(Init(tcp, udp, now), acts, t);
    TraceAllSent(Init(tcp, udp, now), acts, t);
  }

  /** And none is sent once it is closed. */
  lemma {:induction false} ClosedListenerIsSilent(s: State, acts: seq<Action>, t: State)
    requires Trace(s, acts, t) && !s.pcOpen
    ensures s.log <= t.log && forall i | |s.log| <= i < |t.log| :: !t.log[i].Replied?
    decreases acts
  {
    if acts != [] {
      var s1 := Step(s, acts[0]);
      StepAllSent(s, acts[0]);
      ClosedListenerIsSilent(s1, acts[1..], t);
      if s1.log != s.log {
        assert t.log[|s.log|] == s1.log[|s.log|];
      }
    }
  }

  /** Whatever a backend answers on a session's socket can be read and then goes to that session's client. */
  lemma ReplyComesBack(s: State, k: Key, d: Datagram) returns (t: State)
    requires Reachable(s) && s.pcOpen && k in s.sessions
    requires s.sessions[k].back in s.live && s.sessions[k].back !in s.inHand
    ensures var w := s.sessions[k].back;
      Trace(s, [WorkerRead(w, d), WorkerReply(w)], t) && t.log == s.log + [ReadBack(w, d), Replied(k, w, d)]
  {
    ReachableInv(s);
    var w := s.sessions[k].back;
    var s1 := Step(s, WorkerRead(w, d));
    t := Step(s1, WorkerReply(w));
    assert [WorkerRead(w, d), WorkerReply(w)][1..] == [WorkerReply(w)];
    assert Trace(s1, [WorkerReply(w)], t);
  }

  /// Losses: only a dial or a write that fails, or a reaping between lookup and write, loses a datagram.

  ghost predicate NoneLost(log: seq<Event>) {
    forall e | e in log :: !e.Lost?
  }

  ghost predicate NoneReaped(log: seq<Event>) {
    forall e | e in log :: !e.Reaped?
  }

  ghost predicate LossInv(s: State) {
    NoneReaped(s.log) ==> NoneLost(s.log) && (s.main.Sending? ==> s.main.back in s.open)
  }

  lemma TouchFindsOpen(s: State)
    requires Enabled(s, Touch) && SocketsTied(s.sessions, s.open, s.client)
    ensures var t := Step(s, Touch); t.main.back in t.open && !t.log[|s.log|].Lost?
  {}

  lemma MainStepLosses(s: State, a: Action)
    requires IsMain(a) && !a.DialFail? && !a.SendFails? && !a.Touch? && Enabled(s, a)
    requires s.main.Sending? ==> s.main.back in s.open
    ensures var t := Step(s, a); !t.main.Sending? && (t.log != s.log ==> !t.log[|s.log|].Lost?)
  {}

  lemma OtherStepLosses(s: State, a: Action)
    requires !IsMain(a) && Enabled(s, a)
    ensures var t := Step(s, a); t.main == s.main && (t.open == s.open || |t.log| > |s.log|)
    ensures var t := Step(s, a); t.log != s.log ==> !t.log[|s.log|].Lost?
    ensures var t := Step(s, a); t.open != s.open ==> t.log[|s.log|].Reaped?
  {}

  lemma StepLosses(s: State, a: Action)
    requires !a.DialFail? && !a.SendFails? && Enabled(s, a) && SocketInv(s) && LossInv(s)
    ensures LossInv(Step(s, a))
  {
    var t := Step(s, a);
    StepTouched(s, a);
    if NoneReaped(t.log) {
      assert forall e | e in s.log :: e in t.log;
      if t.log != s.log {
        assert t.log == s.log + [t.log[|s.log|]];
        assert t.log[|s.log|] in t.log;
      }
      if a.Touch? {
        TouchFindsOpen(s);
      } else if IsMain(a) {
        MainStepLosses(s, a);
      } else {
        OtherStepLosses(s, a);
      }
    }
  }

  lemma {:induction false} TraceLosses(s: State, acts: seq<Action>, t: State)
    requires Inv(s) && LossInv(s) && Trace(s, acts, t) && DialFail !in acts && SendFails !in acts
    ensures LossInv(t)
    decreases acts
  {
    if acts != [] {
      assert acts[0] in acts && forall a | a in acts[1..] :: a in acts;
      StepLosses(s, acts[0]);
      StepInv(s, acts[0]);
      TraceLosses(Step(s, acts[0]), acts[1..], t);
    }
  }

  /** In a run without such failures every datagram received so far, but for one in hand, has been written. */
  lemma NothingIsLostOtherwise(tcp: bool, udp: bool, now: nat, acts: seq<Action>, t: State)
    requires Trace(Init(tcp, udp, now), acts, t) && DialFail !in acts && SendFails !in acts && NoneReaped(t.log)
    ensures NoneLost(t.log) && FlowOf(t.log) == InFlight(t.main)
  {
    InitInv(tcp, udp, now);
    TraceLosses(Init(tcp, udp, now), acts, t);
    DatagramsAreForwarded(t);
  }

  /// The main loop

  /** A client that has a session is never dialled for again, and one without can be, with either outcome. */
  lemma DialsExactly(s: State)
    requires s.main.Lookup?
    ensures Enabled(s, FindSession) <==> s.main.key in s.sessions
    ensures Enabled(s, DialOk) <==> s.main.key !in s.sessions
    ensures Enabled(s, DialFail) <==> s.main.key !in s.sessions
  {}

  /** A write can fail at any time, and that loses the one datagram and nothing else. */
  lemma FailedWriteLosesOne(s: State)
    requires s.main.Sending?
    ensures Enabled(s, SendFails)
    ensures Step(s, SendFails) == s.(main := Reading, log := s.log + [Lost(s.main.key, s.main.data)])
  {}

  predicate Ending(m: MainPhase) { m.Failing? || m.Draining? || m.MainDone? }

  lemma StepEnding(s: State, a: Action)
    requires Enabled(s, a) && Ending(s.main)
    ensures Ending(Step(s, a).main) && s.log <= Step(s, a).log && |Step(s, a).log| <= |s.log| + 1
    ensures var t := Step(s, a); t.log != s.log ==> !t.log[|s.log|].Received? && !t.log[|s.log|].Wrote?
  {
    StepTouched(s, a);
  }

  lemma {:induction false} EndingLasts(s: State, acts: seq<Action>, t: State)
    requires Trace(s, acts, t) && Ending(s.main)
    ensures Ending(t.main) && s.log <= t.log
    ensures forall i | |s.log| <= i < |t.log| :: !t.log[i].Received? && !t.log[i].Wrote?
    decreases acts
  {
    if acts != [] {
      var s1 := Step(s, acts[0]);
      StepEnding(s, acts[0]);
      EndingLasts(s1, acts[1..], t);
      if s1.log != s.log {
        assert t.log[|s.log|] == s1.log[|s.log|];
      }
    }
  }

  /**
   A read error on the listener's socket can come at any time, stopped or not, and ends the forwarding for
   good: whatever happens afterwards, nothing is received or written any more.
   */
  lemma ReadErrorEndsForwarding(s: State, acts: seq<Action>, t: State)
    requires s.main.Reading?
    ensures Enabled(s, ReceiveFail)
    ensures Trace(Step(s, ReceiveFail), acts, t) ==>
              && Ending(t.main) && s.log <= t.log
              && forall i | |s.log| <= i < |t.log| :: !t.log[i].Received? && !t.log[i].Wrote?
  {
    if Trace(Step(s, ReceiveFail), acts, t) {
      EndingLasts(Step(s, ReceiveFail), acts, t);
    }
  }

  lemma {:induction false} TraceListens(s: State, acts: seq<Action>, t: State)
    requires Trace(s, acts, t)
    ensures t.acceptor.Accepting? <==> s.acceptor.Accepting? && AcceptFail !in acts
    ensures t.lnOpen <==> s.lnOpen && CloseTcp !in acts
    ensures t.pcOpen <==> s.pcOpen && CloseUdp !in acts
    decreases acts
  {
    if acts != [] {
      assert acts == [acts[0]] + acts[1..];
      StepListens(s, acts[0]);
      TraceListens(Step(s, acts[0]), acts[1..], t);
    }
  }

  lemma StepListens(s: State, a: Action)
    requires Enabled(s, a)
    ensures var t := Step(s, a);
      && (t.acceptor.Accepting? <==> s.acceptor.Accepting? && a != AcceptFail)
      && (t.lnOpen <==> s.lnOpen && a != CloseTcp) && (t.pcOpen <==> s.pcOpen && a != CloseUdp)
  {
    if IsMain(a) {
      MainListens(s, a);
    }
  }

  lemma MainListens(s: State, a: Action)
    requires IsMain(a) && Enabled(s, a)
    ensures var t := Step(s, a); t.acceptor == s.acceptor && t.lnOpen == s.lnOpen && t.pcOpen == s.pcOpen
  {}

  /** A TCP listener takes connections exactly until an accept fails or stop closes its socket. */
  lemma AcceptsExactly(udp: bool, now: nat, acts: seq<Action>, t: State)
    requires Trace(Init(true, udp, now), acts, t)
    ensures Enabled(t, Accept) <==> AcceptFail !in acts && CloseTcp !in acts
  {
    TraceListens(Init(true, udp, now), acts, t);
  }

  /// The end of a session

  /** A session ends only in the teardown, or in a sweep that finds it idle for more than 90 seconds. */
  lemma SessionEndsExactly(s: State, a: Action, k: Key)
    requires Enabled(s, a) && k in s.sessions
    ensures k !in Step(s, a).sessions <==>
            a == DrainOne(k) || (a == SweepOne(k) && s.now - s.sessions[k].last > 90_000_000_000)
  {
    if IsMain(a) {
      MainEndsExactly(s, a, k);
    } else {
      OtherEndsExactly(s, a, k);
    }
  }

  lemma MainEndsExactly(s: State, a: Action, k: Key)
    requires IsMain(a) && Enabled(s, a) && k in s.sessions
    ensures k !in Step(s, a).sessions <==> a == DrainOne(k)
  {}

  lemma OtherEndsExactly(s: State, a: Action, k: Key)
    requires !IsMain(a) && Enabled(s, a) && k in s.sessions
    ensures k !in Step(s, a).sessions <==> a == SweepOne(k) && s.now - s.sessions[k].last > 90_000_000_000
  {}

  lemma Twice(s: State, a: Action, b: Action)
    requires Enabled(s, a) && Enabled(Step(s, a), b)
    ensures Trace(s, [a, b], Step(Step(s, a), b))
  {
    var s1 := Step(s, a);
    assert [a, b][1..] == [b];
    assert Trace(s1, [b], Step(s1, b));
  }

  lemma Sweeping(s: State, k: Key) returns (t: State)
    requires s.mutex.Free? && s.reaper.Ticked? && k in s.sessions && s.now - s.sessions[k].last > UDP_SESSION_IDLE
    ensures Trace(s, [LockForSweep, SweepOne(k)], t)
    ensures t.sessions == s.sessions - {k} && t.open == s.open - {s.sessions[k].back} && t.now == s.now
  {
    var s1 := Step(s, LockForSweep);
    t := Step(s1, SweepOne(k));
    Twice(s, LockForSweep, SweepOne(k));
  }

  /** After a little more than 90 seconds of silence the next tick ends a session and closes its socket. */
  lemma Reaping(s: State, k: Key) returns (acts: seq<Action>, t: State)
    requires s.mutex.Free? && s.reaper.Waiting? && k in s.sessions && s.sessions[k].last == s.now
    ensures Trace(s, acts, t)
    ensures acts == [Elapse(90_000_000_001), ReaperTick] + [LockForSweep, SweepOne(k)]
    ensures t.sessions == s.sessions - {k} && t.open == s.open - {s.sessions[k].back}
    ensures t.now == s.now + 90_000_000_001
  {
    var s2 := Step(Step(s, Elapse(90_000_000_001)), ReaperTick);
    Twice(s, Elapse(90_000_000_001), ReaperTick);
    t := Sweeping(s2, k);
    TraceThen(s, [Elapse(90_000_000_001), ReaperTick], s2, [LockForSweep, SweepOne(k)], t);
    acts := [Elapse(90_000_000_001), ReaperTick] + [LockForSweep, SweepOne(k)];
  }

  /** A run in which a client falls silent, and what is left of it. */
  lemma SilentClientIsReaped(k: Key, d: Datagram) returns (acts: seq<Action>, t: State)
    ensures Trace(Init(false, true, 0), acts, t) && Receive(k, d) in acts
    ensures t.sessions == map[] && t.open == {} && t.now == 90_000_000_001
  {
    var s1 := Step(Init(false, true, 0), StartLoop);
    var s6 := Forwarded(s1, k, d);
    var first := [Receive(k, d), LockForPacket, DialOk, Touch, Send];
    var rest;
    rest, t := Reaping(s6, k);
    TraceThen(s1, first, s6, rest, t);
    acts := [StartLoop] + (first + rest);
    assert acts[1..] == first + rest && acts[1] == Receive(k, d);
  }

  /// Idle time, from the spacing of the ticks

  /** The next tick is not late, and neither is the sweep that a tick asks for: not the lock, not the loop. */
  predicate Timely(s: State, spacing: nat, delay: nat) {
    match s.reaper
    case Waiting => s.now <= s.tickedAt + spacing
    case Ticked => s.now <= s.tickedAt + delay
    case Sweeping(_, _) => s.now <= s.tickedAt + delay
    case _ => true
  }

  ghost predicate TimelyRun(s: State, acts: seq<Action>, spacing: nat, delay: nat)
    decreases acts
  {
    Timely(s, spacing, delay)
    && (acts != [] && Enabled(s, acts[0]) ==> TimelyRun(Step(s, acts[0]), acts[1..], spacing, delay))
  }

  predicate TickInv(s: State, spacing: nat) {
    match s.reaper
    case Waiting => s.tickedAt <= s.sweptAt
    case Ticked => s.tickedAt <= s.now && s.tickedAt <= s.sweptAt + spacing
    case Sweeping(_, since) => s.tickedAt <= since && s.tickedAt <= s.sweptAt + spacing
    case _ => true
  }

  lemma StepTicks(s: State, a: Action, spacing: nat, delay: nat)
    requires Enabled(s, a) && Timely(s, spacing, delay) && TickInv(s, spacing)
    ensures TickInv(Step(s, a), spacing)
  {
    if IsMain(a) {
      MainTicks(s, a);
    } else if IsReaper(a) {
      ReaperTicks(s, a, spacing, delay);
    } else {
      OtherTicks(s, a);
    }
  }

  lemma MainTicks(s: State, a: Action)
    requires IsMain(a) && Enabled(s, a)
    ensures var t := Step(s, a);
      if a.StartLoop? then t.reaper.Waiting? && t.tickedAt == t.sweptAt
      else t.reaper == s.reaper && t.tickedAt == s.tickedAt && t.sweptAt == s.sweptAt && t.now == s.now
  {}

  lemma ReaperTicks(s: State, a: Action, spacing: nat, delay: nat)
    requires IsReaper(a) && Enabled(s, a) && Timely(s, spacing, delay) && TickInv(s, spacing)
    ensures TickInv(Step(s, a), spacing)
  {}

  lemma OtherTicks(s: State, a: Action)
    requires !IsMain(a) && !IsReaper(a) && Enabled(s, a)
    ensures var t := Step(s, a);
      t.reaper == s.reaper && t.tickedAt == s.tickedAt && t.sweptAt == s.sweptAt && s.now <= t.now
  {}

  lemma {:induction false} TraceTicks(s: State, acts: seq<Action>, t: State, spacing: nat, delay: nat)
    requires Trace(s, acts, t) && TimelyRun(s, acts, spacing, delay) && TickInv(s, spacing)
    ensures TickInv(t, spacing) && Timely(t, spacing, delay)
    decreases acts
  {
    if acts != [] {
      StepTicks(s, acts[0], spacing, delay);
      TraceTicks(Step(s, acts[0]), acts[1..], t, spacing, delay);
    }
  }

  /**
   In every run whose ticks come at most `spacing` apart and whose sweeps, the wait for the lock
   included, take at most `delay`, no mapped session is idle for longer than the limit plus the two.
   */
  lemma IdleOverRuns(tcp: bool, udp: bool, now: nat, acts: seq<Action>, t: State, spacing: nat, delay: nat, k: Key)
    requires Trace(Init(tcp, udp, now), acts, t) && TimelyRun(Init(tcp, udp, now), acts, spacing, delay)
    requires ReaperLives(t.reaper) && k in t.sessions
    ensures t.now - t.sessions[k].last <= 90_000_000_000 + spacing + delay
  {
    TraceTicks(Init(tcp, udp, now), acts, t, spacing, delay);
    IdleIsBounded(t, spacing + delay, k);
  }
}

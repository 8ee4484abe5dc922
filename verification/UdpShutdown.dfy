/**
 What the UDP relay's invariant means over whole runs: no leak, no mixing of clients, bounded idle
 time, and a stop that always completes.
 */
module UdpShutdown {
  import opened UdpRelay

  /// Safety over every run

  lemma OpenIsMapped(t: State)
    requires Reachable(t)
    ensures t.open == set k | k in t.sessions :: t.sessions[k].back
    ensures forall k, m | k in t.sessions && m in t.sessions && t.sessions[k].back == t.sessions[m].back :: k == m
    ensures t.wg == Counted(t)
  {
    ReachableInv(t);
  }

  /** WaitGroup.Add is only ever called while the count is positive, as its documentation asks. */
  lemma AddNeverRacesWait(t: State, a: Action)
    requires Reachable(t) && Enabled(t, a)
    ensures Step(t, a).wg > t.wg ==> t.wg > 0 && !t.stop.Returned?
  {
    ReachableInv(t);
    assert Step(t, a).wg > t.wg ==> MainLives(t.main);
  }

  /** When stop has returned nothing is left: no socket, no session, no counted goroutine. */
  lemma NothingLeaks(t: State)
    requires Reachable(t) && t.stop.Returned?
    ensures t.open == {} && t.sessions == map[] && t.live == {} && !t.lnOpen && !t.pcOpen
    ensures !t.acceptor.Accepting? && !MainLives(t.main) && !ReaperLives(t.reaper)
  {
    ReachableInv(t);
  }

  /** A reply to client k was read from a socket that has only ever carried k's datagrams. */
  lemma ClientsNeverMix(t: State, i: nat, j: nat)
    requires Reachable(t)
    requires i < |t.log| && j < |t.log| && t.log[i].Replied? && t.log[j].Wrote?
    requires t.log[i].sock == t.log[j].sock
    ensures t.log[i].to == t.log[j].from
    ensures ReadBack(t.log[i].sock, t.log[i].data) in t.log[..i]
  {
    ReachableInv(t);
    assert EventTied(t.client, t.log[i]);
    assert EventTied(t.client, t.log[j]);
  }

  /** Every datagram received is written once, unchanged, for its sender, or lost to a failed dial or closed socket. */
  lemma DatagramsAreForwarded(t: State)
    requires Reachable(t)
    ensures FlowOf(t.log) == InFlight(t.main)
  {
    ReachableInv(t);
  }

  lemma {:induction false} TraceThen(s: State, acts: seq<Action>, t: State, more: seq<Action>, u: State)
    requires Trace(s, acts, t) && Trace(t, more, u)
    ensures Trace(s, acts + more, u)
    decreases acts
  {
    if acts == [] {
      assert acts + more == more;
    } else {
      assert (acts + more)[1..] == acts[1..] + more;
      TraceThen(Step(s, acts[0]), acts[1..], t, more, u);
    }
  }

  lemma ReapedSessionsWereIdle(t: State, i: nat, j: nat)
    requires Reachable(t) && i < j < |t.log|
    requires t.log[i].Touched? && t.log[j].Reaped? && t.log[i].key == t.log[j].key
    ensures t.log[j].time - t.log[i].time > 90_000_000_000
  {
    ReachableInv(t);
  }

  /** While sweeps start at most `spacing` apart, no mapped session is idle for longer than the limit plus that. */
  lemma IdleIsBounded(t: State, spacing: nat, k: Key)
    requires Reachable(t) && k in t.sessions && t.now <= t.sweptAt + spacing
    ensures t.now - t.sessions[k].last <= UDP_SESSION_IDLE + spacing
  {
    ReachableInv(t);
  }

  /// Shutdown

  predicate Stopping(s: State) { s.stop.Joining? || s.stop.Returned? }

  /**
   The steps the program takes on its own.  The others need the outside: time, a client, a backend,
   a tick, or a read that fails on a socket that is still open.
   */
  predicate Internal(s: State, a: Action) {
    match a
    case Elapse(_) => false
    case Accept => false
    case AcceptFail => !s.lnOpen
    case Receive(_, _) => false
    case ReceiveFail => !s.pcOpen
    case ReaperTick => false
    case WorkerRead(_, _) => false
    case WorkerFail(w) => w !in s.open
    case CloseQuit => false
    case _ => true
  }

  function MainRank(m: MainPhase): nat {
    match m
    case NoUdp => 0
    case MainDone => 0
    case Draining => 1
    case Failing => 2
    case Reading => 3
    case Sending(_, _, _) => 4
    case Touching(_, _) => 5
    case Lookup(_, _) => 6
    case HavePacket(_, _) => 7
    case Starting => 8
  }

  /** The sessions there can still be: at most one more, for a packet already read. */
  function SessionBudget(s: State): nat {
    |s.sessions| + Bit(s.main.HavePacket? || s.main.Lookup?)
  }

  lemma MainKeepsBudget(s: State, a: Action)
    requires IsMain(a) && Stopping(s) && Enabled(s, a) && ControlInv(s)
    ensures SessionBudget(Step(s, a)) <= SessionBudget(s)
  {
    if a.DrainOne? {
      DropLowers(s, a.key);
    }
  }

  lemma OthersKeepBudget(s: State, a: Action)
    requires !IsMain(a) && Enabled(s, a)
    ensures SessionBudget(Step(s, a)) <= SessionBudget(s)
  {
    if a.SweepOne? {
      DropLowers(s, a.key);
    }
  }

  lemma StoppingLasts(s: State, a: Action)
    requires ControlInv(s) && Stopping(s) && Enabled(s, a)
    ensures Stopping(Step(s, a))
    ensures SessionBudget(Step(s, a)) <= SessionBudget(s)
  {
    if IsMain(a) {
      MainKeepsBudget(s, a);
    } else {
      OthersKeepBudget(s, a);
    }
  }

  lemma DropLowers(s: State, k: Key)
    requires k in s.sessions
    ensures |Drop(s, k).sessions| < |s.sessions|
  {}

  /**
   The goroutines' own steps come in two kinds.  Progress is never undone.  A step that repeats is one
   more sweep, which needs another tick, or one more reply, which needs another datagram from a backend.
   */
  predicate Progress(a: Action) {
    (IsMain(a) && !a.Receive?) || a.AcceptFail? || a.ReaperQuit? || a.WorkerFail? || a.JoinDone?
  }

  predicate Repeats(a: Action) {
    a.LockForSweep? || a.SweepOne? || a.SweepEnd? || a.WorkerReply?
  }

  /** What is left to do before stop can return. */
  function Todo(s: State): nat {
    3 * MainRank(s.main) + Bit(s.acceptor.Accepting?) + Bit(ReaperLives(s.reaper))
    + |s.live| + |s.sessions| + Bit(s.stop.Joining?)
  }

  /** How many repeating steps are due at most before the next tick or datagram from a backend. */
  function Delay(s: State): nat {
    SweepLeft(s.reaper, SessionBudget(s)) + |s.inHand|
  }

  function SweepLeft(r: ReaperPhase, budget: nat): nat {
    match r
    case Ticked => 2 + budget
    case Sweeping(todo, _) => 1 + |todo|
    case _ => 0
  }

  lemma DialGrows(s: State)
    requires s.nextSock !in s.live && Enabled(s, DialOk)
    ensures var t := Step(s, DialOk);
      |t.sessions| == |s.sessions| + 1 && |t.live| == |s.live| + 1
  {}

  lemma MainLowersTodo(s: State, a: Action)
    requires IsMain(a) && ControlInv(s) && Stopping(s) && s.nextSock !in s.live && Enabled(s, a)
    ensures Todo(Step(s, a)) < Todo(s)
  {
    if a.DialOk? {
      DialGrows(s);
    } else if a.DrainOne? {
      DropLowers(s, a.key);
    }
  }

  lemma SweepKeepsTodo(s: State, k: Key)
    requires Enabled(s, SweepOne(k))
    ensures Todo(Step(s, SweepOne(k))) <= Todo(s)
  {
    DropLowers(s, k);
  }

  lemma WorkerFailLowersTodo(s: State, w: Sock)
    requires Enabled(s, WorkerFail(w))
    ensures Todo(Step(s, WorkerFail(w))) < Todo(s)
  {
    OneLess(s.live, w);
  }

  lemma OthersKeepTodo(s: State, a: Action)
    requires !IsMain(a) && !a.SweepOne? && !a.WorkerFail? && Stopping(s) && Enabled(s, a)
    ensures Todo(Step(s, a)) <= Todo(s)
    ensures Progress(a) ==> Todo(Step(s, a)) < Todo(s)
  {}

  /** Nothing, from inside or outside, raises what is left to do, and progress lowers it. */
  lemma StepTodo(s: State, a: Action)
    requires Inv(s) && Stopping(s) && Enabled(s, a)
    ensures Todo(Step(s, a)) <= Todo(s)
    ensures Progress(a) ==> Todo(Step(s, a)) < Todo(s)
  {
    if IsMain(a) {
      MainLowersTodo(s, a);
    } else if a.SweepOne? {
      SweepKeepsTodo(s, a.key);
    } else if a.WorkerFail? {
      WorkerFailLowersTodo(s, a.sock);
    } else {
      OthersKeepTodo(s, a);
    }
  }

  lemma OneLess<T>(s: set<T>, x: T)
    requires x in s
    ensures |s - {x}| == |s| - 1
  {}

  lemma SweepOneDelay(s: State, k: Key)
    requires Enabled(s, SweepOne(k))
    ensures var t := Step(s, SweepOne(k));
      t.reaper.Sweeping? && |t.reaper.todo| == |s.reaper.todo| - 1 && t.inHand == s.inHand
  {
    OneLess(s.reaper.todo, k);
  }

  lemma ReaperDelay(s: State, a: Action)
    requires a.ReaperQuit? || a.LockForSweep? || a.SweepEnd?
    requires ControlInv(s) && Enabled(s, a)
    ensures SweepLeft(Step(s, a).reaper, SessionBudget(Step(s, a))) + Bit(Repeats(a)) <=
            SweepLeft(s.reaper, SessionBudget(s))
    ensures Step(s, a).inHand == s.inHand
  {}

  lemma WorkerHands(s: State, a: Action)
    requires a.WorkerReply? || a.WorkerRead?
    requires Enabled(s, a)
    ensures |Step(s, a).inHand| + Bit(a.WorkerReply?) == |s.inHand| + Bit(a.WorkerRead?)
    ensures Step(s, a).reaper == s.reaper
  {
    if a.WorkerReply? {
      OneLess(s.inHand.Keys, a.sock);
      assert (s.inHand - {a.sock}).Keys == s.inHand.Keys - {a.sock};
    }
  }

  lemma RestDelay(s: State, a: Action)
    requires !IsMain(a) && !IsReaper(a) && !a.WorkerReply? && !a.WorkerRead? && Enabled(s, a)
    ensures Step(s, a).reaper == s.reaper && Step(s, a).inHand == s.inHand
  {}

  lemma MainDelay(s: State, a: Action)
    requires IsMain(a) && Enabled(s, a)
    ensures Step(s, a).reaper == if a.StartLoop? then Waiting else s.reaper
    ensures Step(s, a).inHand == s.inHand
  {}

  /** What an outside event adds to the delay, when a tick costs so much. */
  function Cost(a: Action, perTick: nat): nat {
    if a.ReaperTick? then perTick else Bit(a.WorkerRead?)
  }

  lemma ReaperStepDelay(s: State, a: Action)
    requires IsReaper(a) && ControlInv(s) && Enabled(s, a)
    ensures SweepLeft(Step(s, a).reaper, SessionBudget(Step(s, a))) + Bit(Repeats(a)) <=
            SweepLeft(s.reaper, SessionBudget(s)) + Cost(a, SessionBudget(s) + 2)
    ensures Step(s, a).inHand == s.inHand
  {
    if a.SweepOne? {
      SweepOneDelay(s, a.key);
    } else if !a.ReaperTick? {
      ReaperDelay(s, a);
    }
  }

  lemma OtherStepDelay(s: State, a: Action)
    requires !IsReaper(a) && Enabled(s, a) && SessionBudget(Step(s, a)) <= SessionBudget(s)
    ensures SweepLeft(Step(s, a).reaper, SessionBudget(Step(s, a))) <= SweepLeft(s.reaper, SessionBudget(s))
    ensures |Step(s, a).inHand| + Bit(Repeats(a)) == |s.inHand| + Cost(a, SessionBudget(s) + 2)
  {
    if a.WorkerReply? || a.WorkerRead? {
      WorkerHands(s, a);
    } else if IsMain(a) {
      MainDelay(s, a);
    } else {
      RestDelay(s, a);
    }
  }

  /** Repeating steps lower the delay; only a tick and a datagram from a backend raise it, by so much. */
  lemma StepDelay(s: State, a: Action)
    requires ControlInv(s) && Stopping(s) && Enabled(s, a)
    ensures Delay(Step(s, a)) + Bit(Repeats(a)) <= Delay(s) + Cost(a, SessionBudget(s) + 2)
  {
    if IsReaper(a) {
      ReaperStepDelay(s, a);
    } else {
      StoppingLasts(s, a);
      OtherStepDelay(s, a);
    }
  }

  /** An own step is progress, or brings progress nearer. */
  lemma OwnStepsLower(s: State, a: Action)
    requires Inv(s) && Stopping(s) && Enabled(s, a) && Internal(s, a)
    ensures Progress(a) || Repeats(a)
    ensures Todo(Step(s, a)) < Todo(s) || (Todo(Step(s, a)) == Todo(s) && Delay(Step(s, a)) < Delay(s))
  {
    StepTodo(s, a);
    StepDelay(s, a);
  }

  /** While stop waits for a positive count, some goroutine can take a step of its own. */
  lemma SomeoneCanStep(s: State) returns (a: Action)
    requires Inv(s) && s.stop.Joining?
    ensures Enabled(s, a) && Internal(s, a)
  {
    if s.wg == 0 {
      return JoinDone;
    }
    if s.acceptor.Accepting? {
      return AcceptFail;
    }
    match s.reaper {
      case Sweeping(todo, _) =>
        if todo == {} {
          return SweepEnd;
        }
        var k :| k in todo;
        return SweepOne(k);
      case _ =>
    }
    match s.main {
      case Starting => return StartLoop;
      case Reading => return ReceiveFail;
      case HavePacket(_, _) => return LockForPacket;
      case Lookup(k, _) => return if k in s.sessions then FindSession else DialFail;
      case Touching(_, _) => return Touch;
      case Sending(_, _, _) => return Send;
      case Failing => return LockForDrain;
      case Draining =>
        if s.sessions == map[] {
          return DrainEnd;
        }
        var k :| k in s.sessions;
        return DrainOne(k);
      case _ =>
    }
    if s.reaper.Waiting? {
      return ReaperQuit;
    }
    if s.reaper.Ticked? {
      return LockForSweep;
    }
    assert s.live != {};
    var w :| w in s.live;
    return if w in s.inHand then WorkerReply(w) else WorkerFail(w);
  }

  /** From wherever stop waits, progress can be made after at most so many repeating steps. */
  lemma {:induction false} ProgressComes(s: State) returns (acts: seq<Action>, t: State, a: Action)
    requires Inv(s) && s.stop.Joining?
    ensures Trace(s, acts, t) && |acts| <= Delay(s) && forall b | b in acts :: Repeats(b)
    ensures t.stop.Joining? && Enabled(t, a) && Internal(t, a) && Progress(a)
    decreases Delay(s)
  {
    a := SomeoneCanStep(s);
    acts, t := [], s;
    OwnStepsLower(s, a);
    if !Progress(a) {
      var first := a;
      var s1 := Step(s, first);
      StepInv(s, first);
      StepDelay(s, first);
      var rest: seq<Action>;
      rest, t, a := ProgressComes(s1);
      acts := [first] + rest;
      assert acts[1..] == rest;
    }
  }

  function Count(acts: seq<Action>, p: Action -> bool): nat {
    if acts == [] then 0 else Bit(p(acts[0])) + Count(acts[1..], p)
  }

  predicate IsTick(a: Action) { a.ReaperTick? }

  predicate IsRead(a: Action) { a.WorkerRead? }

  function Costs(acts: seq<Action>, perTick: nat): nat {
    if acts == [] then 0 else Cost(acts[0], perTick) + Costs(acts[1..], perTick)
  }

  lemma {:induction false} CostsAreCounts(acts: seq<Action>, perTick: nat)
    ensures Costs(acts, perTick) == Count(acts, IsTick) * perTick + Count(acts, IsRead)
  {
    if acts != [] {
      CostsAreCounts(acts[1..], perTick);
      var n := Count(acts[1..], IsTick);
      assert (n + 1) * perTick == n * perTick + perTick;
    }
  }

  lemma StepAccount(s: State, a: Action, perTick: nat)
    requires Inv(s) && Stopping(s) && Enabled(s, a) && SessionBudget(s) + 2 <= perTick
    ensures var s1 := Step(s, a);
      && Inv(s1) && Stopping(s1) && SessionBudget(s1) + 2 <= perTick
      && Bit(Progress(a)) + Todo(s1) <= Todo(s)
      && Bit(Repeats(a)) + Delay(s1) <= Delay(s) + Cost(a, perTick)
  {
    StepInv(s, a);
    StoppingLasts(s, a);
    StepTodo(s, a);
    StepDelay(s, a);
  }

  lemma {:induction false} RunAccount(s: State, acts: seq<Action>, t: State, perTick: nat)
    requires Inv(s) && Stopping(s) && Trace(s, acts, t) && SessionBudget(s) + 2 <= perTick
    ensures Inv(t) && Stopping(t)
    ensures Count(acts, Progress) + Todo(t) <= Todo(s)
    ensures Count(acts, Repeats) + Delay(t) <= Delay(s) + Costs(acts, perTick)
    decreases acts
  {
    if acts != [] {
      StepAccount(s, acts[0], perTick);
      RunAccount(Step(s, acts[0]), acts[1..], t, perTick);
    }
  }

  /**
   Stop always completes.  In every interleaving after stop starts to wait, whatever arrives from
   outside, the goroutines make at most Todo(s) progress steps, and Todo is zero only when stop has
   returned with everything closed.  What they do besides, sweeps and replies, is paid for by ticks and
   backend datagrams.  A state in which stop still waits always has an own step, and by ProgressComes
   progress after a bounded number of them.
   */
  lemma ShutdownCompletes(s: State, acts: seq<Action>, t: State)
    requires Reachable(s) && s.stop.Joining? && Trace(s, acts, t)
    ensures Count(acts, Progress) + Todo(t) <= Todo(s)
    ensures Count(acts, Repeats) <=
            Delay(s) + Count(acts, IsTick) * (SessionBudget(s) + 2) + Count(acts, IsRead)
    ensures Todo(t) == 0 || (forall a | Enabled(t, a) :: !Internal(t, a)) ==>
              t.stop.Returned? && t.open == {} && t.sessions == map[] && t.live == {} && t.wg == 0
  {
    ReachableInv(s);
    RunAccount(s, acts, t, SessionBudget(s) + 2);
    CostsAreCounts(acts, SessionBudget(s) + 2);
    if t.stop.Joining? {
      var a := SomeoneCanStep(t);
    }
  }

  /** Stop gets to its wait unaided: nothing the other goroutines do keeps it from closing what it has to close. */
  lemma StopReachesItsWait(s: State) returns (t: State)
    requires s.stop.NotStopped?
    ensures Trace(s, [CloseQuit, CloseTcp, CloseUdp], t)
    ensures t.stop.Joining? && !t.lnOpen && !t.pcOpen
  {
    var s1 := Step(s, CloseQuit);
    var s2 := Step(s1, CloseTcp);
    t := Step(s2, CloseUdp);
    assert [CloseTcp, CloseUdp][1..] == [CloseUdp];
    assert [CloseQuit, CloseTcp, CloseUdp][1..] == [CloseTcp, CloseUdp];
    assert Trace(s2, [CloseUdp], t) && Trace(s1, [CloseTcp, CloseUdp], t);
  }

  lemma ProgressMade(s: State) returns (acts: seq<Action>, t: State)
    requires Inv(s) && s.stop.Joining?
    ensures Trace(s, acts, t) && Inv(t) && Stopping(t) && Todo(t) < Todo(s)
  {
    var first, s1, a := ProgressComes(s);
    RunAccount(s, first, s1, SessionBudget(s) + 2);
    StepAccount(s1, a, SessionBudget(s1) + 2);
    t := Step(s1, a);
    assert [a][1..] == [] && Trace(t, [], t);
    TraceThen(s, first, s1, [a], t);
    acts := first + [a];
  }

  /** And from its wait it can always be brought to return, by the goroutines' own steps alone. */
  lemma {:induction false} StopCanReturn(s: State) returns (acts: seq<Action>, t: State)
    requires Inv(s) && Stopping(s)
    ensures Trace(s, acts, t) && t.stop.Returned?
    decreases Todo(s)
  {
    if s.stop.Returned? {
      return [], s;
    }
    var first, s1 := ProgressMade(s);
    var rest;
    rest, t := StopCanReturn(s1);
    TraceThen(s, first, s1, rest, t);
    acts := first + rest;
  }
}

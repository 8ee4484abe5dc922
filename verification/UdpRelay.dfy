/**
 One live forward (a listener of forward.go): the TCP accept loop, the UDP main loop, its idle
 reaper, one reverse worker per session, and the thread that calls stop.  The goroutines share the
 session map under a mutex, a quit channel and a WaitGroup.  Every statement that another goroutine
 can observe is one action, and a run is any interleaving of enabled actions.
 */
module UdpRelay {
  import opened Records

  /** udpSessionIdle, in nanoseconds. */
  const UDP_SESSION_IDLE: nat := 90_000_000_000

  type Key = string
  type Datagram = seq<byte>
  /** Backend sockets are numbered in the order they were dialled; a number is never reused. */
  type Sock = nat

  datatype Session = Session(back: Sock, last: nat)

  datatype Holder = Free | ByMain | ByReaper

  datatype AcceptPhase = NoTcp | Accepting | AcceptDone

  datatype MainPhase =
    | NoUdp
    | Starting
    | Reading
    | HavePacket(key: Key, data: Datagram)
    | Lookup(key: Key, data: Datagram)
    | Touching(key: Key, data: Datagram)
    | Sending(back: Sock, key: Key, data: Datagram)
    | Failing
    | Draining
    | MainDone

  datatype ReaperPhase = NoReaper | Waiting | Ticked | Sweeping(todo: set<Key>, since: nat) | ReaperDone

  datatype StopPhase = NotStopped | QuitClosed | TcpClosed | Joining | Returned

  datatype Event =
    | Received(from: Key, data: Datagram)
    | Lost(from: Key, data: Datagram)
    | Touched(key: Key, time: nat)
    | Reaped(key: Key, sock: Sock, time: nat)
    | Wrote(sock: Sock, from: Key, data: Datagram)
    | ReadBack(sock: Sock, data: Datagram)
    | Replied(to: Key, sock: Sock, data: Datagram)
    | Unsent(to: Key, sock: Sock, data: Datagram)

  /**
   `open` holds the backend sockets that are not closed, `live` the sockets whose reverse worker has
   not returned, `inHand` the datagram a worker has read and not yet passed on, and `client` the
   address each worker was started with.  `tickedAt` is when the last tick was taken and `sweptAt` when
   the last finished sweep began; both start with the loop.
   */
  datatype State = State(
    now: nat,
    tickedAt: nat,
    sweptAt: nat,
    sessions: map<Key, Session>,
    open: set<Sock>,
    nextSock: nat,
    mutex: Holder,
    main: MainPhase,
    reaper: ReaperPhase,
    acceptor: AcceptPhase,
    live: set<Sock>,
    inHand: map<Sock, Datagram>,
    client: map<Sock, Key>,
    lnOpen: bool,
    pcOpen: bool,
    stop: StopPhase,
    wg: int,
    log: seq<Event>)

  datatype Action =
    | Elapse(dt: nat)
    | Accept
    | AcceptFail
    | StartLoop
    | Receive(key: Key, data: Datagram)
    | ReceiveFail
    | LockForPacket
    | FindSession
    | DialOk
    | DialFail
    | Touch
    | Send
    | SendFails
    | LockForDrain
    | DrainOne(key: Key)
    | DrainEnd
    | ReaperTick
    | ReaperQuit
    | LockForSweep
    | SweepOne(key: Key)
    | SweepEnd
    | WorkerRead(sock: Sock, data: Datagram)
    | WorkerReply(sock: Sock)
    | WorkerFail(sock: Sock)
    | CloseQuit
    | CloseTcp
    | CloseUdp
    | JoinDone

  /** A listener right after startListener has begun the loops its protocol asks for. */
  function Init(tcp: bool, udp: bool, now: nat): State {
    State(now, now, now, map[], {}, 0, Free,
          if udp then Starting else NoUdp, NoReaper, if tcp then Accepting else NoTcp,
          {}, map[], map[], tcp, udp, NotStopped,
          (if tcp then 1 else 0) + (if udp then 1 else 0), [])
  }

  /**
   When an action can happen.  A read on a closed socket can only fail; a read or write on an open one
   may also fail.  The reaper's select may take the tick even when quit is closed.
   */
  predicate Enabled(s: State, a: Action) {
    match a
    case Elapse(_) => true
    case Accept => s.acceptor.Accepting? && s.lnOpen
    case AcceptFail => s.acceptor.Accepting?
    case StartLoop => s.main.Starting?
    case Receive(_, _) => s.main.Reading? && s.pcOpen
    case ReceiveFail => s.main.Reading?
    case LockForPacket => s.main.HavePacket? && s.mutex.Free?
    case FindSession => s.main.Lookup? && s.main.key in s.sessions
    case DialOk => s.main.Lookup? && s.main.key !in s.sessions
    case DialFail => s.main.Lookup? && s.main.key !in s.sessions
    case Touch => s.main.Touching? && s.main.key in s.sessions
    case Send => s.main.Sending?
    case SendFails => s.main.Sending?
    case LockForDrain => s.main.Failing? && s.mutex.Free?
    case DrainOne(k) => s.main.Draining? && k in s.sessions
    case DrainEnd => s.main.Draining? && s.sessions == map[]
    case ReaperTick => s.reaper.Waiting?
    case ReaperQuit => s.reaper.Waiting? && !s.stop.NotStopped?
    case LockForSweep => s.reaper.Ticked? && s.mutex.Free?
    case SweepOne(k) => s.reaper.Sweeping? && k in s.reaper.todo && k in s.sessions
    case SweepEnd => s.reaper.Sweeping? && s.reaper.todo == {}
    case WorkerRead(w, _) => w in s.live && w !in s.inHand && w in s.open
    case WorkerReply(w) => w in s.live && w in s.inHand && w in s.client
    case WorkerFail(w) => w in s.live && w !in s.inHand
    case CloseQuit => s.stop.NotStopped?
    case CloseTcp => s.stop.QuitClosed?
    case CloseUdp => s.stop.TcpClosed?
    case JoinDone => s.stop.Joining? && s.wg == 0
  }

  /** Closing a session's socket and forgetting it, as the reaper and the teardown both do. */
  function Drop(s: State, k: Key): State
    requires k in s.sessions
  {
    s.(open := s.open - {s.sessions[k].back}, sessions := s.sessions - {k})
  }

  function Step(s: State, a: Action): State
    requires Enabled(s, a)
  {
    match a
    case Elapse(dt) => s.(now := s.now + dt)
    case Accept => s
    case AcceptFail => s.(acceptor := AcceptDone, wg := s.wg - 1)
    case StartLoop => s.(main := Reading, reaper := Waiting, wg := s.wg + 1, tickedAt := s.now, sweptAt := s.now)
    case Receive(k, d) => s.(main := HavePacket(k, d), log := s.log + [Received(k, d)])
    case ReceiveFail => s.(main := Failing)
    case LockForPacket => s.(main := Lookup(s.main.key, s.main.data), mutex := ByMain)
    case FindSession => s.(main := Touching(s.main.key, s.main.data))
    case DialOk =>
      s.(main := Touching(s.main.key, s.main.data),
         sessions := s.sessions[s.main.key := Session(s.nextSock, s.now)],
         open := s.open + {s.nextSock},
         live := s.live + {s.nextSock},
         client := s.client[s.nextSock := s.main.key],
         nextSock := s.nextSock + 1,
         wg := s.wg + 1)
    case DialFail => s.(main := Reading, mutex := Free, log := s.log + [Lost(s.main.key, s.main.data)])
    case Touch =>
      var k := s.main.key;
      s.(main := Sending(s.sessions[k].back, k, s.main.data),
         sessions := s.sessions[k := s.sessions[k].(last := s.now)],
         mutex := Free,
         log := s.log + [Touched(k, s.now)])
    case Send =>
      s.(main := Reading,
         log := s.log + [if s.main.back in s.open then Wrote(s.main.back, s.main.key, s.main.data)
                         else Lost(s.main.key, s.main.data)])
    case SendFails => s.(main := Reading, log := s.log + [Lost(s.main.key, s.main.data)])
    case LockForDrain => s.(main := Draining, mutex := ByMain)
    case DrainOne(k) => Drop(s, k)
    case DrainEnd => s.(main := MainDone, mutex := Free, wg := s.wg - 1)
    case ReaperTick => s.(reaper := Ticked, tickedAt := s.now)
    case ReaperQuit => s.(reaper := ReaperDone, wg := s.wg - 1)
    case LockForSweep => s.(reaper := Sweeping(s.sessions.Keys, s.now), mutex := ByReaper)
    case SweepOne(k) =>
      var s1 := s.(reaper := s.reaper.(todo := s.reaper.todo - {k}));
      if s.now - s.sessions[k].last > UDP_SESSION_IDLE then
        Drop(s1, k).(log := s.log + [Reaped(k, s.sessions[k].back, s.now)])
      else s1
    case SweepEnd => s.(reaper := Waiting, mutex := Free, sweptAt := s.reaper.since)
    case WorkerRead(w, d) => s.(inHand := s.inHand[w := d], log := s.log + [ReadBack(w, d)])
    case WorkerReply(w) =>
      s.(inHand := s.inHand - {w},
         log := s.log + [if s.pcOpen then Replied(s.client[w], w, s.inHand[w])
                         else Unsent(s.client[w], w, s.inHand[w])])
    case WorkerFail(w) => s.(live := s.live - {w}, wg := s.wg - 1)
    case CloseQuit => s.(stop := QuitClosed)
    case CloseTcp => s.(stop := TcpClosed, lnOpen := false)
    case CloseUdp => s.(stop := Joining, pcOpen := false)
    case JoinDone => s.(stop := Returned)
  }

  /** `acts` is an interleaving that leads from s to t. */
  ghost predicate Trace(s: State, acts: seq<Action>, t: State)
    decreases acts
  {
    if acts == [] then s == t
    else Enabled(s, acts[0]) && Trace(Step(s, acts[0]), acts[1..], t)
  }

  ghost predicate Reachable(t: State) {
    exists tcp, udp, now, acts :: Trace(Init(tcp, udp, now), acts, t)
  }

  /// The inductive invariant, in four parts.

  ghost predicate ControlInv(s: State) {
    && (s.mutex.ByMain? <==> s.main.Lookup? || s.main.Touching? || s.main.Draining?)
    && (s.mutex.ByReaper? <==> s.reaper.Sweeping?)
    && (s.main.NoUdp? || s.main.Starting? <==> s.reaper.NoReaper?)
    && (s.reaper.ReaperDone? ==> !s.stop.NotStopped?)
    && (s.stop.TcpClosed? || s.stop.Joining? || s.stop.Returned? ==> !s.lnOpen)
    && (s.stop.Joining? || s.stop.Returned? ==> !s.pcOpen)
    && (s.reaper.Sweeping? ==> s.reaper.todo <= s.sessions.Keys)
    && (s.main.Touching? ==> s.main.key in s.sessions)
    && (s.main.NoUdp? || s.main.Starting? || s.main.MainDone? ==> s.sessions == map[])
  }

  /** Open backend sockets and mapped sessions are the same thing, one client per socket. */
  ghost predicate SocketsTied(sessions: map<Key, Session>, open: set<Sock>, client: map<Sock, Key>) {
    && (forall k | k in sessions :: sessions[k].back in open)
    && (forall k | k in sessions :: sessions[k].back in client && client[sessions[k].back] == k)
    && (forall w | w in open :: w in client && client[w] in sessions && sessions[client[w]].back == w)
  }

  ghost predicate WorkersTied(live: set<Sock>, inHand: map<Sock, Datagram>, client: map<Sock, Key>, nextSock: nat) {
    && (forall w | w in client :: w < nextSock)
    && live <= client.Keys
    && inHand.Keys <= live
  }

  ghost predicate SendTied(main: MainPhase, client: map<Sock, Key>) {
    main.Sending? ==> main.back in client && client[main.back] == main.key
  }

  ghost predicate SocketInv(s: State) {
    && SocketsTied(s.sessions, s.open, s.client)
    && WorkersTied(s.live, s.inHand, s.client, s.nextSock)
    && SendTied(s.main, s.client)
  }

  function Bit(b: bool): nat { if b then 1 else 0 }

  predicate MainLives(m: MainPhase) { !m.NoUdp? && !m.MainDone? }

  predicate ReaperLives(r: ReaperPhase) { !r.NoReaper? && !r.ReaperDone? }

  /** The goroutines that owe the WaitGroup a Done. */
  function Counted(s: State): nat {
    Bit(s.acceptor.Accepting?) + Bit(MainLives(s.main)) + Bit(ReaperLives(s.reaper)) + |s.live|
  }

  ghost predicate CountInv(s: State) {
    && s.wg == Counted(s)
    && (s.stop.Returned? ==> s.wg == 0)
  }

  ghost predicate EventTied(client: map<Sock, Key>, e: Event) {
    match e
    case Wrote(w, k, _) => w in client && client[w] == k
    case Replied(k, w, _) => w in client && client[w] == k
    case _ => true
  }

  ghost predicate LogTied(log: seq<Event>, client: map<Sock, Key>) {
    forall i | 0 <= i < |log| :: EventTied(client, log[i])
  }

  ghost predicate HandsRead(log: seq<Event>, inHand: map<Sock, Datagram>) {
    forall w | w in inHand :: ReadBack(w, inHand[w]) in log
  }

  /** A reply was read from that very socket earlier. */
  ghost predicate RepliesRead(log: seq<Event>) {
    forall i | 0 <= i < |log| && log[i].Replied? :: ReadBack(log[i].sock, log[i].data) in log[..i]
  }

  datatype Flow = Idle | Holding(from: Key, data: Datagram) | Broken

  /**
   Follows the datagrams through a log: each one received is, before the next, either written to a
   backend on behalf of its sender, unchanged, or lost.
   */
  function FlowOf(log: seq<Event>): Flow {
    if log == [] then Idle else NextFlow(FlowOf(log[..|log| - 1]), log[|log| - 1])
  }

  function NextFlow(f: Flow, e: Event): Flow {
    match e
    case Received(k, d) => if f.Idle? then Holding(k, d) else Broken
    case Wrote(_, k, d) => if f == Holding(k, d) then Idle else Broken
    case Lost(k, d) => if f == Holding(k, d) then Idle else Broken
    case _ => f
  }

  /** The datagram the main loop has in hand. */
  function InFlight(m: MainPhase): Flow {
    match m
    case HavePacket(k, d) => Holding(k, d)
    case Lookup(k, d) => Holding(k, d)
    case Touching(k, d) => Holding(k, d)
    case Sending(_, k, d) => Holding(k, d)
    case _ => Idle
  }

  ghost predicate LogInv(s: State) {
    && LogTied(s.log, s.client) && HandsRead(s.log, s.inHand) && RepliesRead(s.log)
    && FlowOf(s.log) == InFlight(s.main)
  }

  /** No session is older than the idle limit at the time the sweep in question began. */
  ghost predicate FreshSince(sessions: map<Key, Session>, spared: set<Key>, since: nat) {
    forall k | k in sessions && k !in spared :: since <= sessions[k].last + UDP_SESSION_IDLE
  }

  ghost predicate TouchesSeen(log: seq<Event>, sessions: map<Key, Session>, now: nat) {
    forall i | 0 <= i < |log| && log[i].Touched? ::
      log[i].time <= now && (log[i].key in sessions ==> log[i].time <= sessions[log[i].key].last)
  }

  /** Every reaped session had forwarded nothing from its client for more than the idle limit. */
  ghost predicate ReapsOnlyIdle(log: seq<Event>) {
    forall i, j | 0 <= i < j < |log| && log[i].Touched? && log[j].Reaped? && log[i].key == log[j].key ::
      log[i].time + UDP_SESSION_IDLE < log[j].time
  }

  ghost predicate LastsPast(sessions: map<Key, Session>, now: nat) {
    forall k | k in sessions :: sessions[k].last <= now
  }

  ghost predicate TimeInv(s: State) {
    && ClockInv(s)
    && FreshSince(s.sessions, {}, s.sweptAt)
    && (s.reaper.Sweeping? ==> FreshSince(s.sessions, s.reaper.todo, s.reaper.since))
    && TouchesSeen(s.log, s.sessions, s.now)
    && ReapsOnlyIdle(s.log)
  }

  ghost predicate Inv(s: State) {
    ControlInv(s) && SocketInv(s) && CountInv(s) && LogInv(s) && TimeInv(s)
  }

  /** The actions of the main loop. */
  predicate IsMain(a: Action) {
    a.StartLoop? || a.Receive? || a.ReceiveFail? || a.LockForPacket? || a.FindSession? || a.DialOk? || a.DialFail?
    || a.Touch? || a.Send? || a.SendFails? || a.LockForDrain? || a.DrainOne? || a.DrainEnd?
  }

  predicate IsReaper(a: Action) {
    a.ReaperTick? || a.ReaperQuit? || a.LockForSweep? || a.SweepOne? || a.SweepEnd?
  }

  lemma InitInv(tcp: bool, udp: bool, now: nat)
    ensures Inv(Init(tcp, udp, now))
  {}

  lemma MainStepControl(s: State, a: Action)
    requires IsMain(a) && Enabled(s, a) && ControlInv(s)
    ensures ControlInv(Step(s, a))
  {}

  lemma ReaperStepControl(s: State, a: Action)
    requires IsReaper(a) && Enabled(s, a) && ControlInv(s)
    ensures ControlInv(Step(s, a))
  {}

  lemma StopStepControl(s: State, a: Action)
    requires a.CloseQuit? || a.CloseTcp? || a.CloseUdp? || a.JoinDone?
    requires Enabled(s, a) && ControlInv(s)
    ensures ControlInv(Step(s, a))
  {}

  /** The rest touches nothing the control invariant speaks of. */
  lemma OtherStepControl(s: State, a: Action)
    requires !IsMain(a) && !IsReaper(a) && !a.CloseQuit? && !a.CloseTcp? && !a.CloseUdp? && !a.JoinDone?
    requires Enabled(s, a)
    ensures var t := Step(s, a);
      && t.mutex == s.mutex && t.main == s.main && t.reaper == s.reaper && t.stop == s.stop
      && t.lnOpen == s.lnOpen && t.pcOpen == s.pcOpen && t.sessions == s.sessions
  {}

  lemma StepControl(s: State, a: Action)
    requires Enabled(s, a) && ControlInv(s)
    ensures ControlInv(Step(s, a))
  {
    if IsMain(a) {
      MainStepControl(s, a);
    } else if IsReaper(a) {
      ReaperStepControl(s, a);
    } else if a.CloseQuit? || a.CloseTcp? || a.CloseUdp? || a.JoinDone? {
      StopStepControl(s, a);
    } else {
      OtherStepControl(s, a);
    }
  }

  lemma DropKeepsTied(s: State, k: Key)
    requires k in s.sessions && SocketsTied(s.sessions, s.open, s.client)
    ensures SocketsTied(Drop(s, k).sessions, Drop(s, k).open, s.client)
  {}

  lemma DialKeepsTied(sessions: map<Key, Session>, open: set<Sock>, client: map<Sock, Key>, k: Key, w: Sock, now: nat)
    requires SocketsTied(sessions, open, client) && k !in sessions && w !in client
    ensures SocketsTied(sessions[k := Session(w, now)], open + {w}, client[w := k])
  {}

  lemma TouchKeepsTied(sessions: map<Key, Session>, open: set<Sock>, client: map<Sock, Key>, k: Key, now: nat)
    requires SocketsTied(sessions, open, client) && k in sessions
    ensures SocketsTied(sessions[k := sessions[k].(last := now)], open, client)
  {}

  lemma StepSocketsTied(s: State, a: Action)
    requires Enabled(s, a) && SocketInv(s)
    ensures var t := Step(s, a); SocketsTied(t.sessions, t.open, t.client)
  {
    match a
    case DialOk => DialKeepsTied(s.sessions, s.open, s.client, s.main.key, s.nextSock, s.now);
    case Touch => TouchKeepsTied(s.sessions, s.open, s.client, s.main.key, s.now);
    case DrainOne(k) => DropKeepsTied(s, k);
    case SweepOne(k) => DropKeepsTied(s, k);
    case _ =>
  }

  lemma StepWorkersTied(s: State, a: Action)
    requires Enabled(s, a) && WorkersTied(s.live, s.inHand, s.client, s.nextSock)
    ensures var t := Step(s, a); WorkersTied(t.live, t.inHand, t.client, t.nextSock)
  {
    if a.DialOk? {
      DialKeepsWorkers(s.live, s.inHand, s.client, s.nextSock, s.main.key);
    } else if IsMain(a) {
      MainLeavesWorkers(s, a);
    } else {
      OtherKeepsWorkers(s, a);
    }
  }

  lemma MainLeavesWorkers(s: State, a: Action)
    requires IsMain(a) && !a.DialOk? && Enabled(s, a)
    ensures var t := Step(s, a);
      t.live == s.live && t.inHand == s.inHand && t.client == s.client && t.nextSock == s.nextSock
  {}

  lemma OtherKeepsWorkers(s: State, a: Action)
    requires !IsMain(a) && Enabled(s, a) && WorkersTied(s.live, s.inHand, s.client, s.nextSock)
    ensures var t := Step(s, a); WorkersTied(t.live, t.inHand, t.client, t.nextSock)
  {}

  lemma DialKeepsWorkers(live: set<Sock>, inHand: map<Sock, Datagram>, client: map<Sock, Key>, n: nat, k: Key)
    requires WorkersTied(live, inHand, client, n)
    ensures WorkersTied(live + {n}, inHand, client[n := k], n + 1)
  {}

  lemma StepSendTied(s: State, a: Action)
    requires Enabled(s, a) && SocketInv(s)
    ensures SendTied(Step(s, a).main, Step(s, a).client)
  {
    if a.Touch? {
      assert s.sessions[s.main.key].back in s.client;
    } else if a.DialOk? {
      assert !Step(s, a).main.Sending?;
    } else {
      assert Step(s, a).client == s.client;
    }
  }

  lemma StepSockets(s: State, a: Action)
    requires Enabled(s, a) && SocketInv(s)
    ensures SocketInv(Step(s, a))
  {
    StepSocketsTied(s, a);
    StepWorkersTied(s, a);
    StepSendTied(s, a);
  }

  lemma DialCounts(s: State)
    requires Enabled(s, DialOk) && s.nextSock !in s.live && CountInv(s)
    ensures CountInv(Step(s, DialOk))
  {}

  lemma MainStepCounts(s: State, a: Action)
    requires IsMain(a) && !a.DialOk? && Enabled(s, a) && ControlInv(s) && CountInv(s)
    ensures CountInv(Step(s, a))
  {}

  lemma WorkerFailCounts(s: State, w: Sock)
    requires Enabled(s, WorkerFail(w)) && CountInv(s)
    ensures CountInv(Step(s, WorkerFail(w)))
  {}

  lemma OtherStepCounts(s: State, a: Action)
    requires !IsMain(a) && !a.WorkerFail? && Enabled(s, a) && ControlInv(s) && CountInv(s)
    ensures CountInv(Step(s, a))
  {}

  lemma StepCount(s: State, a: Action)
    requires Enabled(s, a) && ControlInv(s) && s.nextSock !in s.live && CountInv(s)
    ensures CountInv(Step(s, a))
  {
    if a.DialOk? {
      DialCounts(s);
    } else if a.WorkerFail? {
      WorkerFailCounts(s, a.sock);
    } else if IsMain(a) {
      MainStepCounts(s, a);
    } else {
      OtherStepCounts(s, a);
    }
  }

  /** A log whose events were tied stays so when clients are added and a tied event is appended. */
  lemma TiedGrows(log: seq<Event>, client: map<Sock, Key>, log': seq<Event>, client': map<Sock, Key>)
    requires LogTied(log, client) && log <= log' && |log'| <= |log| + 1
    requires forall w | w in client :: w in client' && client'[w] == client[w]
    requires log != log' ==> EventTied(client', log'[|log|])
    ensures LogTied(log', client')
  {
    forall i | 0 <= i < |log'|
      ensures EventTied(client', log'[i])
    {
      if i < |log| {
        assert EventTied(client, log[i]);
      }
    }
  }

  lemma StepClients(s: State, a: Action)
    requires Enabled(s, a) && WorkersTied(s.live, s.inHand, s.client, s.nextSock)
    ensures forall w | w in s.client :: w in Step(s, a).client && Step(s, a).client[w] == s.client[w]
  {}

  lemma MainStepEvent(s: State, a: Action)
    requires IsMain(a) && Enabled(s, a) && SendTied(s.main, s.client)
    ensures var t := Step(s, a); s.log <= t.log && |t.log| <= |s.log| + 1
    ensures var t := Step(s, a); t.log != s.log ==> EventTied(t.client, t.log[|s.log|])
  {}

  lemma OtherStepEvent(s: State, a: Action)
    requires !IsMain(a) && Enabled(s, a)
    ensures var t := Step(s, a); s.log <= t.log && |t.log| <= |s.log| + 1
    ensures var t := Step(s, a); t.log != s.log ==> EventTied(t.client, t.log[|s.log|])
  {}

  lemma StepLogTied(s: State, a: Action)
    requires Enabled(s, a) && SocketInv(s) && LogTied(s.log, s.client)
    ensures LogTied(Step(s, a).log, Step(s, a).client)
  {
    var t := Step(s, a);
    StepClients(s, a);
    if IsMain(a) {
      MainStepEvent(s, a);
    } else {
      OtherStepEvent(s, a);
    }
    TiedGrows(s.log, s.client, t.log, t.client);
  }

  lemma StepHands(s: State, a: Action)
    requires Enabled(s, a) && HandsRead(s.log, s.inHand)
    ensures HandsRead(Step(s, a).log, Step(s, a).inHand)
  {
    var t := Step(s, a);
    forall w | w in t.inHand
      ensures ReadBack(w, t.inHand[w]) in t.log
    {
      if w in s.inHand && s.inHand[w] == t.inHand[w] {
        assert ReadBack(w, s.inHand[w]) in s.log;
      } else {
        assert t.log[|s.log|] == ReadBack(w, t.inHand[w]);
      }
    }
  }

  lemma AppendReply(log: seq<Event>, e: Event)
    requires RepliesRead(log) && (e.Replied? ==> ReadBack(e.sock, e.data) in log)
    ensures RepliesRead(log + [e])
  {
    var l := log + [e];
    forall i | 0 <= i < |l| && l[i].Replied?
      ensures ReadBack(l[i].sock, l[i].data) in l[..i]
    {
      assert l[..i] == log[..i];
      assert log[..|log|] == log;
    }
  }

  lemma StepReplies(s: State, a: Action)
    requires Enabled(s, a) && HandsRead(s.log, s.inHand) && RepliesRead(s.log)
    ensures RepliesRead(Step(s, a).log)
  {
    var t := Step(s, a);
    if t.log != s.log {
      assert t.log == s.log + [t.log[|s.log|]];
      AppendReply(s.log, t.log[|s.log|]);
    }
  }

  /** The clock never runs behind the sweeps or the sessions. */
  ghost predicate ClockInv(s: State) {
    && s.sweptAt <= s.now
    && (s.reaper.Sweeping? ==> s.sweptAt <= s.reaper.since <= s.now)
    && LastsPast(s.sessions, s.now)
  }

  lemma MainStepClock(s: State, a: Action)
    requires IsMain(a) && Enabled(s, a) && ClockInv(s)
    ensures ClockInv(Step(s, a))
  {}

  lemma OtherStepClock(s: State, a: Action)
    requires !IsMain(a) && Enabled(s, a) && ClockInv(s)
    ensures ClockInv(Step(s, a))
  {}

  lemma StepClock(s: State, a: Action)
    requires Enabled(s, a) && ClockInv(s)
    ensures ClockInv(Step(s, a))
  {
    if IsMain(a) {
      MainStepClock(s, a);
    } else {
      OtherStepClock(s, a);
    }
  }

  lemma LoggedStepFlow(s: State, a: Action)
    requires a.Receive? || a.DialFail? || a.Touch? || a.Send? || a.SendFails?
    requires Enabled(s, a) && FlowOf(s.log) == InFlight(s.main)
    ensures FlowOf(Step(s, a).log) == InFlight(Step(s, a).main)
  {}

  lemma QuietStepFlow(s: State, a: Action)
    requires IsMain(a) && !a.Receive? && !a.DialFail? && !a.Touch? && !a.Send? && !a.SendFails?
    requires Enabled(s, a)
    ensures Step(s, a).log == s.log && InFlight(Step(s, a).main) == InFlight(s.main)
  {}

  lemma OtherStepLog(s: State, a: Action)
    requires !IsMain(a) && Enabled(s, a)
    ensures Step(s, a).main == s.main
    ensures |Step(s, a).log| <= |s.log| + 1 && s.log <= Step(s, a).log
    ensures Step(s, a).log != s.log ==> NextFlow(FlowOf(s.log), Step(s, a).log[|s.log|]) == FlowOf(s.log)
  {}

  lemma OtherStepFlow(s: State, a: Action)
    requires !IsMain(a) && Enabled(s, a)
    ensures FlowOf(Step(s, a).log) == FlowOf(s.log) && Step(s, a).main == s.main
  {
    OtherStepLog(s, a);
    GrownLog(s.log, Step(s, a).log);
  }

  lemma GrownLog(before: seq<Event>, after: seq<Event>)
    requires |after| <= |before| + 1 && before <= after
    requires before != after ==> NextFlow(FlowOf(before), after[|before|]) == FlowOf(before)
    ensures FlowOf(after) == FlowOf(before)
  {}

  lemma StepFlow(s: State, a: Action)
    requires Enabled(s, a) && FlowOf(s.log) == InFlight(s.main)
    ensures FlowOf(Step(s, a).log) == InFlight(Step(s, a).main)
  {
    if a.Receive? || a.DialFail? || a.Touch? || a.Send? || a.SendFails? {
      LoggedStepFlow(s, a);
    } else if IsMain(a) {
      QuietStepFlow(s, a);
    } else {
      OtherStepFlow(s, a);
    }
  }

  lemma MainStepFresh(s: State, a: Action)
    requires IsMain(a) && Enabled(s, a) && ControlInv(s) && ClockInv(s) && FreshSince(s.sessions, {}, s.sweptAt)
    requires s.reaper.Sweeping? ==> FreshSince(s.sessions, s.reaper.todo, s.reaper.since)
    ensures FreshSince(Step(s, a).sessions, {}, Step(s, a).sweptAt)
  {}

  lemma OtherStepFresh(s: State, a: Action)
    requires !IsMain(a) && Enabled(s, a) && ClockInv(s) && FreshSince(s.sessions, {}, s.sweptAt)
    requires s.reaper.Sweeping? ==> FreshSince(s.sessions, s.reaper.todo, s.reaper.since)
    ensures FreshSince(Step(s, a).sessions, {}, Step(s, a).sweptAt)
  {}

  lemma StepFresh(s: State, a: Action)
    requires Enabled(s, a) && ControlInv(s) && ClockInv(s) && FreshSince(s.sessions, {}, s.sweptAt)
    requires s.reaper.Sweeping? ==> FreshSince(s.sessions, s.reaper.todo, s.reaper.since)
    ensures FreshSince(Step(s, a).sessions, {}, Step(s, a).sweptAt)
  {
    if IsMain(a) {
      MainStepFresh(s, a);
    } else {
      OtherStepFresh(s, a);
    }
  }

  lemma MainStepSweep(s: State, a: Action)
    requires IsMain(a) && Enabled(s, a) && ControlInv(s) && ClockInv(s)
    requires s.reaper.Sweeping? ==> FreshSince(s.sessions, s.reaper.todo, s.reaper.since)
    ensures var t := Step(s, a); t.reaper.Sweeping? ==> FreshSince(t.sessions, t.reaper.todo, t.reaper.since)
  {}

  lemma OtherStepSweep(s: State, a: Action)
    requires !IsMain(a) && Enabled(s, a) && ControlInv(s) && ClockInv(s)
    requires s.reaper.Sweeping? ==> FreshSince(s.sessions, s.reaper.todo, s.reaper.since)
    ensures var t := Step(s, a); t.reaper.Sweeping? ==> FreshSince(t.sessions, t.reaper.todo, t.reaper.since)
  {}

  lemma StepSweep(s: State, a: Action)
    requires Enabled(s, a) && ControlInv(s) && ClockInv(s)
    requires s.reaper.Sweeping? ==> FreshSince(s.sessions, s.reaper.todo, s.reaper.since)
    ensures var t := Step(s, a); t.reaper.Sweeping? ==> FreshSince(t.sessions, t.reaper.todo, t.reaper.since)
  {
    if IsMain(a) {
      MainStepSweep(s, a);
    } else {
      OtherStepSweep(s, a);
    }
  }

  /** No touch is newer than what its session, if it is still there, remembers. */
  lemma TouchesGrow(log: seq<Event>, sessions: map<Key, Session>, now: nat,
                    log': seq<Event>, sessions': map<Key, Session>, now': nat)
    requires TouchesSeen(log, sessions, now) && log <= log' && |log'| <= |log| + 1 && now <= now'
    requires forall k | k in sessions' ::
               if k in sessions then sessions[k].last <= sessions'[k].last else now <= sessions'[k].last
    requires log != log' && log'[|log|].Touched? ==>
               log'[|log|].time <= now' && log'[|log|].key in sessions'
               && log'[|log|].time <= sessions'[log'[|log|].key].last
    ensures TouchesSeen(log', sessions', now')
  {
    forall i | 0 <= i < |log'| && log'[i].Touched?
      ensures log'[i].time <= now'
      ensures log'[i].key in sessions' ==> log'[i].time <= sessions'[log'[i].key].last
    {
      if i < |log| {
        assert log'[i] == log[i];
      }
    }
  }

  /** A session is only ever refreshed; a new one starts now. */
  lemma MainStepLasts(s: State, a: Action, k: Key)
    requires IsMain(a) && Enabled(s, a) && LastsPast(s.sessions, s.now) && k in Step(s, a).sessions
    ensures var t := Step(s, a);
      if k in s.sessions then s.sessions[k].last <= t.sessions[k].last else s.now <= t.sessions[k].last
  {}

  lemma OtherStepLasts(s: State, a: Action, k: Key)
    requires !IsMain(a) && Enabled(s, a) && k in Step(s, a).sessions
    ensures k in s.sessions && Step(s, a).sessions[k] == s.sessions[k]
  {}

  lemma MainStepTouched(s: State, a: Action)
    requires IsMain(a) && Enabled(s, a)
    ensures var t := Step(s, a); s.log <= t.log && |t.log| <= |s.log| + 1 && s.now <= t.now
    ensures var t := Step(s, a);
      t.log != s.log && t.log[|s.log|].Touched? ==>
        a.Touch? && t.log[|s.log|] == Touched(s.main.key, s.now) && t.sessions[s.main.key].last == s.now
  {}

  lemma OtherStepTouched(s: State, a: Action)
    requires !IsMain(a) && Enabled(s, a)
    ensures var t := Step(s, a); s.log <= t.log && |t.log| <= |s.log| + 1 && s.now <= t.now
    ensures var t := Step(s, a); t.log != s.log ==> !t.log[|s.log|].Touched?
  {}

  lemma StepTouched(s: State, a: Action)
    requires Enabled(s, a)
    ensures var t := Step(s, a); s.log <= t.log && |t.log| <= |s.log| + 1 && s.now <= t.now
    ensures var t := Step(s, a);
      t.log != s.log && t.log[|s.log|].Touched? ==>
        a.Touch? && t.log[|s.log|] == Touched(s.main.key, s.now) && t.sessions[s.main.key].last == s.now
  {
    if IsMain(a) {
      MainStepTouched(s, a);
    } else {
      OtherStepTouched(s, a);
    }
  }

  lemma StepTouches(s: State, a: Action)
    requires Enabled(s, a) && LastsPast(s.sessions, s.now) && TouchesSeen(s.log, s.sessions, s.now)
    ensures var t := Step(s, a); TouchesSeen(t.log, t.sessions, t.now)
  {
    var t := Step(s, a);
    forall k | k in t.sessions
      ensures if k in s.sessions then s.sessions[k].last <= t.sessions[k].last else s.now <= t.sessions[k].last
    {
      if IsMain(a) {
        MainStepLasts(s, a, k);
      } else {
        OtherStepLasts(s, a, k);
      }
    }
    StepTouched(s, a);
    TouchesGrow(s.log, s.sessions, s.now, t.log, t.sessions, t.now);
  }

  lemma StepReaps(s: State, a: Action)
    requires Enabled(s, a) && TouchesSeen(s.log, s.sessions, s.now) && ReapsOnlyIdle(s.log)
    ensures ReapsOnlyIdle(Step(s, a).log)
  {
    var t := Step(s, a);
    forall i, j | 0 <= i < j < |t.log| && t.log[i].Touched? && t.log[j].Reaped? && t.log[i].key == t.log[j].key
      ensures t.log[i].time + UDP_SESSION_IDLE < t.log[j].time
    {
      assert t.log[i] == s.log[i];
      if j < |s.log| {
        assert t.log[j] == s.log[j];
      } else {
        assert a.SweepOne?;
      }
    }
  }

  lemma StepInv(s: State, a: Action)
    requires Enabled(s, a) && Inv(s)
    ensures Inv(Step(s, a))
  {
    StepControl(s, a);
    StepSockets(s, a);
    StepCount(s, a);
    StepLogTied(s, a);
    StepHands(s, a);
    StepReplies(s, a);
    StepFlow(s, a);
    StepClock(s, a);
    StepFresh(s, a);
    StepSweep(s, a);
    StepTouches(s, a);
    StepReaps(s, a);
  }

  lemma {:induction false} TraceInv(s: State, acts: seq<Action>, t: State)
    requires Inv(s) && Trace(s, acts, t)
    ensures Inv(t)
    decreases acts
  {
    if acts != [] {
      StepInv(s, acts[0]);
      TraceInv(Step(s, acts[0]), acts[1..], t);
    }
  }

  lemma ReachableInv(t: State)
    requires Reachable(t)
    ensures Inv(t)
  {
    var tcp, udp, now, acts :| Trace(Init(tcp, udp, now), acts, t);
    InitInv(tcp, udp, now);
    TraceInv(Init(tcp, udp, now), acts, t);
  }
}

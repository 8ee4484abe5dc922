/**
 The two-way byte relay of spliceTo and handleTCP: dial the backend, write the optional PROXY header
 and the replayed bytes, then copy both directions at once, half-closing each when its source ends.
 Every read, write and close is one action, and a run is any interleaving of them.
 */
module Relay {
  import opened Records

  type Bytes = seq<byte>

  datatype CopyPhase = NotStarted | Copying | Copied | HalfClosed | Signalled

  /**
   One direction.  `sent` is what its source has put on the wire, `fin` that it will send no more,
   `read` how much of it this program has taken, `hand` the bytes read and not yet written, and
   `delivered` what has been written to the destination.
   */
  datatype Pipe = Pipe(sent: Bytes, fin: bool, read: nat, hand: Bytes, delivered: Bytes, phase: CopyPhase)

  datatype Stage = Dialing | SendingHeader | SendingPrefix | Relaying | Closed

  /**
   `header` is what is announced to the backend first, empty when nothing is; `prefix` are the bytes
   that the peek has already read from the client.  `clean` says that nothing has failed so far.
   */
  datatype State = State(header: Bytes, prefix: Bytes, up: Pipe, down: Pipe, stage: Stage, clean: bool)

  datatype Side = Up | Down

  datatype Action =
    | PeerSends(d: Side, data: Bytes)
    | PeerEnds(d: Side)
    | DialOk
    | DialFails
    | HeaderOk
    | HeaderFails(written: nat)
    | PrefixOk
    | PrefixFails(written: nat)
    | CopyRead(d: Side, n: nat)
    | CopyWrite(d: Side)
    | CopyEnds(d: Side)
    | CopyFails(d: Side, written: nat)
    | CloseWrite(d: Side)
    | Signal(d: Side)
    | CloseBoth

  function Of(s: State, d: Side): Pipe { if d.Up? then s.up else s.down }

  function With(s: State, d: Side, p: Pipe): State { if d.Up? then s.(up := p) else s.(down := p) }

  /** `sent` is what the client has sent beyond the prefix so far, and `fin` that this is all of it. */
  function Init(header: Bytes, prefix: Bytes, sent: Bytes, fin: bool): State {
    State(header, prefix, Pipe(sent, fin, 0, [], [], NotStarted), Pipe([], false, 0, [], [], NotStarted), Dialing, true)
  }

  /** A write that fails may have got part of its bytes out; nothing is written when there is nothing to write. */
  predicate Enabled(s: State, a: Action) {
    match a
    case PeerSends(d, _) => !Of(s, d).fin && !s.stage.Closed? && (d.Down? ==> !s.stage.Dialing?)
    case PeerEnds(d) => !Of(s, d).fin && !s.stage.Closed? && (d.Down? ==> !s.stage.Dialing?)
    case DialOk => s.stage.Dialing?
    case DialFails => s.stage.Dialing?
    case HeaderOk => s.stage.SendingHeader?
    case HeaderFails(w) => s.stage.SendingHeader? && s.header != [] && w <= |s.header|
    case PrefixOk => s.stage.SendingPrefix?
    case PrefixFails(w) => s.stage.SendingPrefix? && s.prefix != [] && w <= |s.prefix|
    case CopyRead(d, n) => Of(s, d).phase.Copying? && Of(s, d).hand == [] && Of(s, d).read + n <= |Of(s, d).sent|
    case CopyWrite(d) => Of(s, d).phase.Copying? && Of(s, d).hand != []
    case CopyEnds(d) =>
      Of(s, d).phase.Copying? && Of(s, d).hand == [] && Of(s, d).fin && Of(s, d).read == |Of(s, d).sent|
    case CopyFails(d, w) => Of(s, d).phase.Copying? && w <= |Of(s, d).hand|
    case CloseWrite(d) => Of(s, d).phase.Copied?
    case Signal(d) => Of(s, d).phase.HalfClosed?
    case CloseBoth => s.stage.Relaying? && s.up.phase.Signalled? && s.down.phase.Signalled?
  }

  function Step(s: State, a: Action): State
    requires Enabled(s, a)
  {
    match a
    case PeerSends(d, data) => With(s, d, Of(s, d).(sent := Of(s, d).sent + data))
    case PeerEnds(d) => With(s, d, Of(s, d).(fin := true))
    case DialOk => s.(stage := SendingHeader)
    case DialFails => s.(stage := Closed, clean := false)
    case HeaderOk => s.(stage := SendingPrefix, up := s.up.(delivered := s.header))
    case HeaderFails(w) => s.(stage := Closed, clean := false, up := s.up.(delivered := s.header[..w]))
    case PrefixOk =>
      s.(stage := Relaying,
         up := s.up.(delivered := s.up.delivered + s.prefix, phase := Copying),
         down := s.down.(phase := Copying))
    case PrefixFails(w) =>
      s.(stage := Closed, clean := false, up := s.up.(delivered := s.up.delivered + s.prefix[..w]))
    case CopyRead(d, n) =>
      var p := Of(s, d);
      With(s, d, p.(hand := p.sent[p.read..p.read + n], read := p.read + n))
    case CopyWrite(d) =>
      var p := Of(s, d);
      With(s, d, p.(delivered := p.delivered + p.hand, hand := []))
    case CopyEnds(d) => With(s, d, Of(s, d).(phase := Copied))
    case CopyFails(d, w) =>
      var p := Of(s, d);
      With(s, d, p.(delivered := p.delivered + p.hand[..w], hand := p.hand[w..], phase := Copied)).(clean := false)
    case CloseWrite(d) => With(s, d, Of(s, d).(phase := HalfClosed))
    case Signal(d) => With(s, d, Of(s, d).(phase := Signalled))
    case CloseBoth => s.(stage := Closed)
  }

  ghost predicate Trace(s: State, acts: seq<Action>, t: State)
    decreases acts
  {
    if acts == [] then s == t
    else Enabled(s, acts[0]) && Trace(Step(s, acts[0]), acts[1..], t)
  }

  ghost predicate Reachable(s: State) {
    exists sent, fin, acts :: Trace(Init(s.header, s.prefix, sent, fin), acts, s)
  }

  /** What is delivered and in hand is `before` followed by what was read; an orderly end means all of it. */
  ghost predicate PipeInv(p: Pipe, before: Bytes, clean: bool) {
    && p.read <= |p.sent|
    && p.delivered + p.hand == before + p.sent[..p.read]
    && (!p.phase.Copying? && clean ==> p.fin && p.read == |p.sent| && p.hand == [])
  }

  ghost predicate Started(s: State) {
    && !s.up.phase.NotStarted? && !s.down.phase.NotStarted?
    && PipeInv(s.up, s.header + s.prefix, s.clean) && PipeInv(s.down, [], s.clean)
  }

  /** Not relaying yet: nothing beyond the header and the replayed bytes can have gone out. */
  ghost predicate Before(s: State) {
    && s.up.phase.NotStarted? && s.down.phase.NotStarted?
    && s.up.read == 0 && s.down.read == 0
    && s.up.hand == [] && s.down.hand == [] && s.down.delivered == []
    && s.up.delivered <= s.header + s.prefix
  }

  ghost predicate Inv(s: State) {
    && (if s.up.phase.NotStarted? then Before(s) else Started(s))
    && (s.up.phase.NotStarted? <==> s.stage.Dialing? || s.stage.SendingHeader? || s.stage.SendingPrefix?
                                    || (s.stage.Closed? && !s.clean && Before(s)))
    && (s.stage.SendingPrefix? ==> s.up.delivered == s.header)
    && (s.stage.Closed? ==> !s.up.phase.Copying? && !s.down.phase.Copying?)
  }

  lemma InitInv(header: Bytes, prefix: Bytes, sent: Bytes, fin: bool)
    ensures Inv(Init(header, prefix, sent, fin))
  {}

  lemma PipeStep(p: Pipe, before: Bytes, n: nat, data: Bytes, w: nat)
    requires p.read <= |p.sent| && p.delivered + p.hand == before + p.sent[..p.read]
    ensures (p.sent + data)[..p.read] == p.sent[..p.read]
    ensures p.hand == [] && p.read + n <= |p.sent| ==>
              p.delivered + p.sent[p.read..p.read + n] == before + p.sent[..p.read + n]
    ensures w <= |p.hand| ==> (p.delivered + p.hand[..w]) + p.hand[w..] == before + p.sent[..p.read]
    ensures (p.delivered + p.hand) + [] == before + p.sent[..p.read]
  {
    if p.read + n <= |p.sent| {
      assert p.sent[..p.read + n] == p.sent[..p.read] + p.sent[p.read..p.read + n];
      assert p.delivered + [] == p.delivered;
    }
  }

  lemma EarlyStepInv(s: State, a: Action)
    requires Inv(s) && Enabled(s, a) && !s.stage.Relaying?
    ensures Inv(Step(s, a))
  {}

  predicate Moves(a: Action, d: Side) {
    match a
    case PeerSends(e, _) => e == d
    case PeerEnds(e) => e == d
    case CopyRead(e, _) => e == d
    case CopyWrite(e) => e == d
    case CopyEnds(e) => e == d
    case CopyFails(e, _) => e == d
    case CloseWrite(e) => e == d
    case Signal(e) => e == d
    case _ => false
  }

  lemma CopyStepInv(s: State, a: Action, d: Side, before: Bytes)
    requires s.stage.Relaying? && Enabled(s, a) && Moves(a, d)
    requires PipeInv(Of(s, d), before, s.clean) && !Of(s, d).phase.NotStarted?
    ensures var t := Step(s, a);
      PipeInv(Of(t, d), before, t.clean) && !Of(t, d).phase.NotStarted? && (t.clean ==> s.clean)
  {
    PipeStep(Of(s, d), before, if a.CopyRead? then a.n else 0, if a.PeerSends? then a.data else [],
             if a.CopyFails? then a.written else 0);
  }

  lemma StepInv(s: State, a: Action)
    requires Inv(s) && Enabled(s, a)
    ensures Inv(Step(s, a))
  {
    if !s.stage.Relaying? {
      EarlyStepInv(s, a);
    } else if Moves(a, Up) {
      CopyStepInv(s, a, Up, s.header + s.prefix);
    } else if Moves(a, Down) {
      CopyStepInv(s, a, Down, []);
    }
  }

  lemma StepKeepsPrefix(s: State, a: Action)
    requires Enabled(s, a)
    ensures Step(s, a).header == s.header && Step(s, a).prefix == s.prefix
  {}

  lemma {:induction false} TraceInv(s: State, acts: seq<Action>, t: State)
    requires Inv(s) && Trace(s, acts, t)
    ensures Inv(t) && t.header == s.header && t.prefix == s.prefix
    decreases acts
  {
    if acts != [] {
      StepInv(s, acts[0]);
      StepKeepsPrefix(s, acts[0]);
      TraceInv(Step(s, acts[0]), acts[1..], t);
    }
  }

  lemma ReachableInv(s: State)
    requires Reachable(s)
    ensures Inv(s)
  {
    var sent, fin, acts :| Trace(Init(s.header, s.prefix, sent, fin), acts, s);
    InitInv(s.header, s.prefix, sent, fin);
    TraceInv(Init(s.header, s.prefix, sent, fin), acts, s);
  }

  /// One direction does not touch the other, and only failures make a run unclean.

  function Other(d: Side): Side { if d.Up? then Down else Up }

  lemma OtherSideUntouched(s: State, a: Action, d: Side)
    requires Enabled(s, a) && Moves(a, d)
    ensures Of(Step(s, a), Other(d)) == Of(s, Other(d)) && Step(s, a).stage == s.stage
  {}

  predicate Fails(a: Action) {
    a.DialFails? || a.HeaderFails? || a.PrefixFails? || a.CopyFails?
  }

  lemma {:induction false} CleanExactly(s: State, acts: seq<Action>, t: State)
    requires Trace(s, acts, t)
    ensures t.clean <==> s.clean && forall a | a in acts :: !Fails(a)
    decreases acts
  {
    if acts != [] {
      assert acts == [acts[0]] + acts[1..];
      assert Step(s, acts[0]).clean <==> s.clean && !Fails(acts[0]);
      CleanExactly(Step(s, acts[0]), acts[1..], t);
    }
  }

  /** What a peer sends while its direction is copied and caught up can be brought across. */
  lemma SentIsDelivered(s: State, d: Side, data: Bytes) returns (t: State)
    requires s.stage.Relaying? && Of(s, d).phase.Copying? && data != []
    requires Of(s, d).hand == [] && Of(s, d).read == |Of(s, d).sent| && !Of(s, d).fin
    ensures Trace(s, [PeerSends(d, data), CopyRead(d, |data|), CopyWrite(d)], t)
    ensures Of(t, d).delivered == Of(s, d).delivered + data && Of(t, d).sent == Of(s, d).sent + data
  {
    var s1 := Step(s, PeerSends(d, data));
    var s2 := Step(s1, CopyRead(d, |data|));
    t := Step(s2, CopyWrite(d));
    assert Of(s2, d).hand == data;
    ThreeSteps(s, PeerSends(d, data), CopyRead(d, |data|), CopyWrite(d));
  }

  /** And so can its end, which half-closes the other side. */
  lemma EndIsDelivered(s: State, d: Side) returns (t: State)
    requires s.stage.Relaying? && Of(s, d).phase.Copying?
    requires Of(s, d).hand == [] && Of(s, d).read == |Of(s, d).sent| && !Of(s, d).fin
    ensures Trace(s, [PeerEnds(d), CopyEnds(d), CloseWrite(d)], t) && Of(t, d).fin && Of(t, d).phase.HalfClosed?
  {
    t := Step(Step(Step(s, PeerEnds(d)), CopyEnds(d)), CloseWrite(d));
    ThreeSteps(s, PeerEnds(d), CopyEnds(d), CloseWrite(d));
  }

  lemma ThreeSteps(s: State, a: Action, b: Action, c: Action)
    requires Enabled(s, a) && Enabled(Step(s, a), b) && Enabled(Step(Step(s, a), b), c)
    ensures Trace(s, [a, b, c], Step(Step(Step(s, a), b), c))
  {
    var s1 := Step(s, a);
    var s2 := Step(s1, b);
    assert [b, c][1..] == [c] && [a, b, c][1..] == [b, c];
    assert Trace(s2, [c], Step(s2, c)) && Trace(s1, [b, c], Step(s2, c));
  }

  /** While a relay is under way and both ends have nothing more to send, it can go on without failing. */
  lemma SomeoneMoves(s: State) returns (a: Action)
    requires Inv(s) && !s.stage.Closed? && s.up.fin && s.down.fin
    ensures Enabled(s, a) && !Fails(a) && !a.PeerSends? && !a.PeerEnds? && Left(Step(s, a)) < Left(s)
  {
    match s.stage
    case Dialing => a := DialOk;
    case SendingHeader => a := HeaderOk;
    case SendingPrefix => a := PrefixOk;
    case Relaying =>
      if s.up.phase.Signalled? && s.down.phase.Signalled? {
        a := CloseBoth;
      } else {
        var d := if s.up.phase.Signalled? then Down else Up;
        a := SideMoves(s, d);
      }
  }

  lemma SideMoves(s: State, d: Side) returns (a: Action)
    requires Started(s) && Of(s, d).fin && !Of(s, d).phase.Signalled?
    ensures Enabled(s, a) && Moves(a, d) && !Fails(a) && !a.PeerSends? && !a.PeerEnds?
    ensures PipeLeft(Of(Step(s, a), d)) < PipeLeft(Of(s, d))
    ensures Of(Step(s, a), Other(d)) == Of(s, Other(d)) && Step(s, a).stage == s.stage
  {
    var p := Of(s, d);
    if p.phase.Copied? {
      a := CloseWrite(d);
    } else if p.phase.HalfClosed? {
      a := Signal(d);
    } else if p.hand != [] {
      a := CopyWrite(d);
    } else if p.read < |p.sent| {
      a := CopyRead(d, |p.sent| - p.read);
    } else {
      a := CopyEnds(d);
    }
  }

  function PipeLeft(p: Pipe): int {
    (match p.phase case NotStarted => 4 case Copying => 3 case Copied => 2 case HalfClosed => 1 case Signalled => 0)
    + 2 * (|p.sent| - p.read) + (if p.hand == [] then 0 else 1)
  }

  /** What is left to do before both connections are closed; see SomeoneMoves. */
  function Left(s: State): int {
    (match s.stage
     case Dialing => 4 case SendingHeader => 3 case SendingPrefix => 2 case Relaying => 1 case Closed => 0)
    + PipeLeft(s.up) + PipeLeft(s.down)
  }

  /** So a relay whose ends have finished comes to a clean end, with everything delivered. */
  lemma {:induction false} RelayCanFinish(s: State) returns (acts: seq<Action>, t: State)
    requires Inv(s) && s.up.fin && s.down.fin && s.clean && !s.stage.Closed?
    ensures Trace(s, acts, t) && t.stage.Closed? && t.clean
    decreases Left(s)
  {
    LeftIsNatural(s);
    var a := SomeoneMoves(s);
    var s1 := Step(s, a);
    StepInv(s, a);
    if s1.stage.Closed? {
      assert Trace(s1, [], s1) && [a][1..] == [];
      return [a], s1;
    }
    var rest;
    rest, t := RelayCanFinish(s1);
    acts := [a] + rest;
    assert acts[1..] == rest;
  }

  lemma LeftIsNatural(s: State)
    requires Inv(s)
    ensures Left(s) >= 0
  {}

  /**
   In every interleaving the backend has received a prefix of the header, the replayed bytes and what
   the client sent after them, and the client a prefix of what the backend sent.
   */
  lemma DeliveredIsPrefix(s: State)
    requires Reachable(s)
    ensures s.up.delivered <= s.header + s.prefix + s.up.sent
    ensures s.down.delivered <= s.down.sent
  {
    ReachableInv(s);
    if s.up.phase.NotStarted? {
      assert s.header + s.prefix <= s.header + s.prefix + s.up.sent;
    } else {
      assert s.up.delivered <= s.up.delivered + s.up.hand;
      assert s.header + s.prefix + s.up.sent[..s.up.read] <= s.header + s.prefix + s.up.sent;
      assert s.down.delivered <= s.down.delivered + s.down.hand == s.down.sent[..s.down.read];
    }
  }

  /** If nothing failed, both directions have arrived in full before the connections are closed. */
  lemma CleanEndDeliversAll(s: State)
    requires Reachable(s) && s.stage.Closed? && s.clean
    ensures s.up.delivered == s.header + s.prefix + s.up.sent && s.down.delivered == s.down.sent
    ensures s.up.fin && s.down.fin
  {
    ReachableInv(s);
    assert s.up.sent[..s.up.read] == s.up.sent && s.down.sent[..s.down.read] == s.down.sent;
    assert s.up.delivered + [] == s.up.delivered && s.down.delivered + [] == s.down.delivered;
    assert [] + s.down.sent == s.down.sent;
  }

  /**
   The end of one direction does not disturb the other: until both have signalled nothing is closed,
   and whatever has arrived in a direction still copying can be read and written.
   */
  lemma HalfCloseKeepsOther(s: State, d: Side)
    requires Reachable(s) && Of(s, d).phase.Copying?
    ensures s.stage.Relaying? && !Enabled(s, CloseBoth)
    ensures Of(s, d).hand != [] ==> Enabled(s, CopyWrite(d))
    ensures Of(s, d).hand == [] && Of(s, d).read < |Of(s, d).sent| ==> Enabled(s, CopyRead(d, 1))
    ensures Of(s, d).hand == [] && Of(s, d).read == |Of(s, d).sent| && Of(s, d).fin ==> Enabled(s, CopyEnds(d))
  {
    ReachableInv(s);
  }
}

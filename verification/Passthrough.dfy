/** A passed-through connection from its first byte: peek at it, dial, announce it, replay, and copy. */
module Passthrough {
  import opened Records
  import opened ProxyProtocol
  import opened SniPeek
  import Relay

  /** What the backend is sent before the client's own bytes. */
  function Announcement(src: Addr, dst: Addr, sendProxy: bool): seq<byte> {
    if sendProxy && Header(src, dst).Some? then Header(src, dst).value else []
  }

  /** In every run from s the backend gets these bytes and nothing else, all of them if nothing fails. */
  ghost predicate Delivers(s: Relay.State, bytes: seq<byte>) {
    forall acts, t | Relay.Trace(s, acts, t) ::
      t.up.delivered <= bytes && (t.stage.Closed? && t.clean ==> t.up.delivered == bytes)
  }

  /** A client that has no more to send than `sent` sends no more. */
  lemma {:induction false} SentStays(s: Relay.State, acts: seq<Relay.Action>, t: Relay.State)
    requires Relay.Trace(s, acts, t) && s.up.fin
    ensures t.up.fin && t.up.sent == s.up.sent && t.header == s.header && t.prefix == s.prefix
    decreases acts
  {
    if acts != [] {
      SentStays(Relay.Step(s, acts[0]), acts[1..], t);
    }
  }

  lemma RunsDeliver(header: seq<byte>, prefix: seq<byte>, sent: seq<byte>)
    ensures Delivers(Relay.Init(header, prefix, sent, true), header + (prefix + sent))
  {
    var s := Relay.Init(header, prefix, sent, true);
    Regroup(header, prefix, sent);
    forall acts, t | Relay.Trace(s, acts, t)
      ensures t.up.delivered <= header + (prefix + sent)
      ensures t.stage.Closed? && t.clean ==> t.up.delivered == header + (prefix + sent)
    {
      SentStays(s, acts, t);
      assert Relay.Reachable(t);
      Relay.DeliveredIsPrefix(t);
      if t.stage.Closed? && t.clean {
        Relay.CleanEndDeliversAll(t);
      }
    }
  }

  /**
   The whole of it: however the ClientHello arrives in pieces and whatever the interleaving afterwards,
   the backend receives the announcement followed by the client's stream from its very first byte, and a
   receiver that understands the PROXY protocol reads both endpoints and then exactly that stream.
   */
  method SpliceAfterPeek(c: Conn, tls: TLS, patience: nat, src: Addr, dst: Addr, sendProxy: bool)
    returns (sni: string, s: Relay.State)
    requires c.Valid() && c.pos == 0
    modifies c`pos, c`count, c`broken
    ensures c.Valid() && c.written == old(c.written) && s.stage.Dialing?
    ensures exists recorded :: recorded + c.Unread() == c.stream && sni == tls.serverName(recorded)
              && (tls.wants(recorded).None? || c.broken || c.count == old(c.count) + patience)
    ensures Delivers(s, Announcement(src, dst, sendProxy) + c.stream)
    ensures sendProxy && Usable(src) && Usable(dst) ==>
              var d := Decode(Announcement(src, dst, sendProxy) + c.stream);
              d.Some? && Announces(d.value, src, dst, c.stream)
  {
    var recorded;
    sni, recorded := PeekClientHelloSNI(c, tls, patience);
    var header := [];
    if sendProxy {
      var h := ProxyProtoV2Header(src, dst);
      if h.Some? {
        header := h.value;
      }
    }
    var rest := c.stream[c.pos..];
    s := Relay.Init(header, recorded, rest, true);
    RunsDeliver(header, recorded, rest);
    if sendProxy && Usable(src) && Usable(dst) {
      HeaderRoundTrip(src, dst, c.stream);
    }
  }
}

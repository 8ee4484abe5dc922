/** Peeking at a connection's ClientHello and replaying it, byte for byte, to whoever reads next. */
module SniPeek {
  import opened Records

  /**
   A client connection.  `stream` is everything the client will ever send and `pos` how much of it
   has been read; the network decides how much one Read returns, and when it fails.  `count` is how often
   it has been read from and `broken` whether a read has failed.
   */
  class Conn {
    const stream: seq<byte>
    var pos: nat
    var written: seq<byte>
    ghost var count: nat
    ghost var broken: bool

    ghost predicate Valid()
      reads this
    {
      pos <= |stream|
    }

    ghost function Unread(): seq<byte>
      reads this
      requires Valid()
    {
      stream[pos..]
    }

    constructor (stream: seq<byte>)
      ensures Valid() && this.stream == stream && pos == 0 && written == [] && count == 0 && !broken
    {
      this.stream, pos, written, count, broken := stream, 0, [], 0, false;
    }

    /** Returns some of the bytes that are due, no more than asked for, and possibly an error as well. */
    method Read(n: nat) returns (chunk: seq<byte>, failed: bool)
      requires Valid()
      modifies this`pos, this`count, this`broken
      ensures Valid() && |chunk| <= n
      ensures chunk + Unread() == old(Unread()) && pos == old(pos) + |chunk|
      ensures count == old(count) + 1 && broken == (old(broken) || failed)
    {
      var k: nat :| k <= n && pos + k <= |stream|;
      failed := *;
      chunk := stream[pos..pos + k];
      pos := pos + k;
      count, broken := count + 1, broken || failed;
    }

    method Write(p: seq<byte>)
      modifies this`written
      ensures written == old(written) + p
    {
      written := written + p;
    }
  }

  /** Records everything read and swallows writes. */
  class PeekConn {
    const conn: Conn
    var recorded: seq<byte>

    constructor (conn: Conn)
      ensures this.conn == conn && recorded == []
    {
      this.conn, recorded := conn, [];
    }

    method Read(n: nat) returns (chunk: seq<byte>, failed: bool)
      requires conn.Valid()
      modifies this`recorded, conn`pos, conn`count, conn`broken
      ensures conn.Valid() && |chunk| <= n
      ensures conn.count == old(conn.count) + 1 && conn.broken == (old(conn.broken) || failed)
      ensures recorded == old(recorded) + chunk
      ensures chunk + conn.Unread() == old(conn.Unread())
    {
      chunk, failed := conn.Read(n);
      if |chunk| > 0 {
        recorded := recorded + chunk;
      }
    }

    method Write(p: seq<byte>) returns (n: nat)
      ensures n == |p|
    {
      n := |p|;
    }
  }

  /** Replays the recorded bytes before reading on from the connection. */
  class PrefixConn {
    const conn: Conn
    const prefix: seq<byte>
    var off: nat

    ghost predicate Valid()
      reads this, conn
    {
      conn.Valid() && off <= |prefix|
    }

    /** What a reader has still to come. */
    ghost function Remaining(): seq<byte>
      reads this, conn
      requires Valid()
    {
      prefix[off..] + conn.Unread()
    }

    constructor (conn: Conn, prefix: seq<byte>)
      requires conn.Valid()
      ensures Valid() && this.conn == conn && this.prefix == prefix && Remaining() == prefix + conn.Unread()
    {
      this.conn, this.prefix, off := conn, prefix, 0;
    }

    method Read(n: nat) returns (chunk: seq<byte>, failed: bool)
      requires Valid()
      modifies this`off, conn`pos, conn`count, conn`broken
      ensures Valid() && |chunk| <= n
      ensures old(off) < |prefix| ==> conn.count == old(conn.count) && conn.pos == old(conn.pos)
      ensures old(off) == |prefix| ==> conn.count == old(conn.count) + 1 && conn.broken == (old(conn.broken) || failed)
      ensures chunk + Remaining() == old(Remaining())
      ensures old(off) <= off
      ensures old(off) < |prefix| ==>
                !failed && off == old(off) + |chunk|
                && |chunk| == (if n < |prefix| - old(off) then n else |prefix| - old(off))
    {
      if off < |prefix| {
        var k := if n < |prefix| - off then n else |prefix| - off;
        chunk, failed := prefix[off..off + k], false;
        off := off + k;
        assert prefix[old(off)..] == chunk + prefix[off..];
      } else {
        chunk, failed := conn.Read(n);
      }
    }
  }

  /**
   What the TLS library does with the bytes it has read so far: ask for so many more, or stop; which
   alert it writes when it stops; and the server name it has then found.
   */
  datatype TLS = TLS(
    wants: seq<byte> -> Option<nat>,
    alert: seq<byte> -> seq<byte>,
    serverName: seq<byte> -> string)

  lemma Regroup(a: seq<byte>, b: seq<byte>, c: seq<byte>)
    ensures (a + b) + c == a + (b + c)
  {}

  /**
   Runs the throwaway handshake until it stops, a read fails, or the read deadline has passed, which is
   `patience` reads away.  The client's stream is recorded exactly as far as it was consumed, and
   nothing is written to the client.
   */
  method PeekClientHelloSNI(c: Conn, tls: TLS, patience: nat) returns (sni: string, recorded: seq<byte>)
    requires c.Valid()
    modifies c`pos, c`count, c`broken
    ensures c.Valid() && recorded + c.Unread() == old(c.Unread())
    ensures sni == tls.serverName(recorded)
    ensures tls.wants(recorded).None? || c.broken || c.count == old(c.count) + patience
    ensures old(c.count) <= c.count <= old(c.count) + patience
  {
    ghost var stream := c.Unread();
    var pc := new PeekConn(c);
    var failed := false;
    var left := patience;
    var more := tls.wants(pc.recorded);
    while left > 0 && more.Some? && !failed
      invariant pc.conn == c && c.Valid() && fresh(pc)
      invariant pc.recorded + c.Unread() == stream
      invariant more == tls.wants(pc.recorded) && c.count + left == old(c.count) + patience && 0 <= left <= patience
      invariant failed ==> c.broken
      decreases left
    {
      ghost var before := pc.recorded;
      var chunk: seq<byte>;
      chunk, failed := pc.Read(more.value);
      Regroup(before, chunk, c.Unread());
      more := tls.wants(pc.recorded);
      left := left - 1;
    }
    var _ := pc.Write(tls.alert(pc.recorded));
    return tls.serverName(pc.recorded), pc.recorded;
  }

  function Sum(sizes: seq<nat>): nat {
    if sizes == [] then 0 else Sum(sizes[..|sizes| - 1]) + sizes[|sizes| - 1]
  }

  /**
   Reads with any sequence of buffer sizes.  The recorded bytes are handed out as fast as they are asked for;
   after that every read reaches the connection.
   */
  method ReadAll(p: PrefixConn, sizes: seq<nat>) returns (got: seq<byte>)
    requires p.Valid()
    modifies p`off, p.conn`pos, p.conn`count, p.conn`broken
    ensures p.Valid() && got + p.Remaining() == old(p.Remaining())
    ensures p.off < |p.prefix| ==> |got| == Sum(sizes)
    ensures old(p.off) == |p.prefix| ==> p.conn.count == old(p.conn.count) + |sizes|
  {
    got := [];
    for i := 0 to |sizes|
      invariant p.Valid() && got + p.Remaining() == old(p.Remaining()) && old(p.off) <= p.off
      invariant p.off < |p.prefix| ==> |got| == Sum(sizes[..i])
      invariant old(p.off) == |p.prefix| ==> p.conn.count == old(p.conn.count) + i
    {
      assert sizes[..i + 1][..i] == sizes[..i];
      var chunk, _ := p.Read(sizes[i]);
      Regroup(got, chunk, p.Remaining());
      got := got + chunk;
    }
    assert sizes[..|sizes|] == sizes;
  }

  /**
   Peek, then hand over: however the stream arrives in pieces and however it is read afterwards, the
   consumer sees the client's own bytes from the very first one, none lost, repeated or reordered,
   and the client has been sent nothing.
   */
  method PeekThenServe(c: Conn, tls: TLS, patience: nat, sizes: seq<nat>) returns (got: seq<byte>, p: PrefixConn)
    requires c.Valid() && c.pos == 0
    modifies c`pos, c`count, c`broken
    ensures p.Valid() && got + p.Remaining() == c.stream && c.written == old(c.written)
    ensures p.off < |p.prefix| ==> |got| == Sum(sizes)
  {
    var sni, recorded := PeekClientHelloSNI(c, tls, patience);
    p := new PrefixConn(c, recorded);
    got := ReadAll(p, sizes);
  }
}

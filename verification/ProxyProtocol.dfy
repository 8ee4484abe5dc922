/**
 The PROXY protocol version 2 header that announces the real client to a backend, and a decoder
 written from section 2.2 of the HAProxy PROXY protocol specification.
 */
module ProxyProtocol {
  import opened Records

  /** net.Addr: a TCP address, whose IP is 4 or 16 bytes long, or something else. */
  datatype Addr = TcpAddr(ip: seq<byte>, port: int) | OtherAddr

  const V4_IN_V6: seq<byte> := [0, 0, 0, 0, 0, 0, 0, 0, 0, 0, 0xFF, 0xFF]

  const SIGNATURE: seq<byte> := [0x0D, 0x0A, 0x0D, 0x0A, 0x00, 0x0D, 0x0A, 0x51, 0x55, 0x49, 0x54, 0x0A]

  /** IP.To4: the four bytes of an IPv4 address, also when it is written as IPv6; nil otherwise. */
  function To4(ip: seq<byte>): Option<seq<byte>> {
    if |ip| == 4 then Some(ip)
    else if |ip| == 16 && ip[..12] == V4_IN_V6 then Some(ip[12..])
    else None
  }

  /** IP.To16: the sixteen-byte form; nil, which appends nothing, for any other length. */
  function To16(ip: seq<byte>): seq<byte> {
    if |ip| == 4 then V4_IN_V6 + ip else if |ip| == 16 then ip else []
  }

  /** The two forms of an address, byte by byte. */
  lemma FormsExactly(ip: seq<byte>, x: seq<byte>)
    ensures To4(ip) == Some(x) <==> |x| == 4 && (ip == x || ip == [0, 0, 0, 0, 0, 0, 0, 0, 0, 0, 255, 255] + x)
    ensures |ip| == 4 ==> To16(ip) == [0, 0, 0, 0, 0, 0, 0, 0, 0, 0, 255, 255] + ip
    ensures |ip| == 16 ==> To16(ip) == ip
  {
    if |ip| == 16 {
      assert ip == ip[..12] + ip[12..];
    }
  }

  /** byte(p >> 8) and byte(p). */
  function PortBytes(p: int): seq<byte> {
    [((p / 256) % 256) as byte, (p % 256) as byte]
  }

  function Header(src: Addr, dst: Addr): Option<seq<byte>> {
    if src.OtherAddr? || dst.OtherAddr? then None
    else
      var s4, d4 := To4(src.ip), To4(dst.ip);
      var block :=
        if s4.Some? && d4.Some? then [0x11, 0x00, 0x0C] + s4.value + d4.value
        else [0x21, 0x00, 0x24] + To16(src.ip) + To16(dst.ip);
      Some(SIGNATURE + [0x21] + block + PortBytes(src.port) + PortBytes(dst.port))
  }

  /// The receiver's side

  datatype Announced = Announced(src: seq<byte>, dst: seq<byte>, srcPort: nat, dstPort: nat, payload: seq<byte>)

  function BigEndian(hi: byte, lo: byte): nat { hi as nat * 256 + lo as nat }

  function Block(b: seq<byte>, width: nat, payload: seq<byte>): Announced
    requires |b| >= 2 * width + 4
  {
    Announced(b[..width], b[width..2 * width],
              BigEndian(b[2 * width], b[2 * width + 1]), BigEndian(b[2 * width + 2], b[2 * width + 3]), payload)
  }

  /** CR LF CR LF NUL CR LF Q U I T LF, as the specification gives it. */
  const MAGIC: seq<byte> := [13, 10, 13, 10, 0, 13, 10, 81, 85, 73, 84, 10]

  /**
   Signature, version 2 with the PROXY command, family and transport, a big-endian length, then that
   many bytes: an address block followed by extensions, which are skipped.  Only streams over IPv4
   and IPv6 are understood; None stands for a header that is incomplete or not understood.
   */
  function Decode(input: seq<byte>): Option<Announced> {
    if |input| < 16 || input[..12] != MAGIC then None
    else if input[12] / 16 != 2 || input[12] % 16 != 1 then None
    else
      var length := BigEndian(input[14], input[15]);
      var family, transport := input[13] / 16, input[13] % 16;
      if |input| < 16 + length || transport != 1 then None
      else
        var block, payload := input[16..16 + length], input[16 + length..];
        if family == 1 && length >= 12 then Some(Block(block, 4, payload))
        else if family == 2 && length >= 36 then Some(Block(block, 16, payload))
        else None
  }

  predicate Usable(a: Addr) {
    a.TcpAddr? && (|a.ip| == 4 || |a.ip| == 16) && 0 <= a.port <= 65535
  }

  /** The announced addresses are the given ones, up to writing an IPv4 address as IPv6. */
  predicate Announces(d: Announced, src: Addr, dst: Addr, payload: seq<byte>)
    requires src.TcpAddr? && dst.TcpAddr?
  {
    && To16(d.src) == To16(src.ip) && d.srcPort == src.port
    && To16(d.dst) == To16(dst.ip) && d.dstPort == dst.port
    && d.payload == payload
  }

  lemma To4Is16(ip: seq<byte>)
    requires To4(ip).Some?
    ensures |To4(ip).value| == 4 && To16(To4(ip).value) == To16(ip)
  {}

  lemma PortRoundTrip(p: int)
    requires 0 <= p <= 65535
    ensures BigEndian(PortBytes(p)[0], PortBytes(p)[1]) == p
  {}

  /** Decoding the parts: what follows a well-formed start is read back as it was put together. */
  lemma DecodeParts(family: byte, length: byte, width: nat, s: seq<byte>, d: seq<byte>, sp: int, dp: int,
                    payload: seq<byte>)
    requires |s| == |d| == width && 0 <= sp <= 65535 && 0 <= dp <= 65535
    requires (family == 0x11 && length == 12 && width == 4) || (family == 0x21 && length == 36 && width == 16)
    ensures Decode(SIGNATURE + [0x21] + ([family, 0x00, length] + s + d) + PortBytes(sp) + PortBytes(dp) + payload)
         == Some(Announced(s, d, sp, dp, payload))
  {
    var input := SIGNATURE + [0x21] + ([family, 0x00, length] + s + d) + PortBytes(sp) + PortBytes(dp) + payload;
    var block := s + d + PortBytes(sp) + PortBytes(dp);
    assert input == SIGNATURE + [0x21, family, 0x00, length] + block + payload;
    assert input[..12] == SIGNATURE && input[12] == 0x21 && input[13] == family;
    assert input[14] == 0 && input[15] == length;
    assert |block| == length as nat;
    assert input[16..16 + length as nat] == block && input[16 + length as nat..] == payload;
    assert block[..width] == s && block[width..2 * width] == d;
    PortRoundTrip(sp);
    PortRoundTrip(dp);
  }

  /**
   Round trip: for usable addresses the header decodes to the same endpoints, takes exactly 28 or 52
   bytes, and leaves whatever follows it intact.
   */
  lemma HeaderRoundTrip(src: Addr, dst: Addr, payload: seq<byte>)
    requires Usable(src) && Usable(dst)
    ensures Header(src, dst).Some?
    ensures |Header(src, dst).value| == if To4(src.ip).Some? && To4(dst.ip).Some? then 28 else 52
    ensures var d := Decode(Header(src, dst).value + payload); d.Some? && Announces(d.value, src, dst, payload)
  {
    var s4, d4 := To4(src.ip), To4(dst.ip);
    if s4.Some? && d4.Some? {
      To4Is16(src.ip);
      To4Is16(dst.ip);
      DecodeParts(0x11, 12, 4, s4.value, d4.value, src.port, dst.port, payload);
    } else {
      DecodeParts(0x21, 36, 16, To16(src.ip), To16(dst.ip), src.port, dst.port, payload);
    }
  }

  /** And only for those: with any other length of IP the header is cut short. */
  lemma HeaderDecodesExactly(src: Addr, dst: Addr)
    requires src.TcpAddr? && dst.TcpAddr? && 0 <= src.port <= 65535 && 0 <= dst.port <= 65535
    ensures Decode(Header(src, dst).value).Some? <==> Usable(src) && Usable(dst)
  {}

  lemma HeaderIsRead(src: Addr, dst: Addr)
    ensures Usable(src) && Usable(dst) ==>
              var d := Decode(Header(src, dst).value); d.Some? && Announces(d.value, src, dst, [])
  {
    if Usable(src) && Usable(dst) {
      HeaderRoundTrip(src, dst, []);
      assert Header(src, dst).value + [] == Header(src, dst).value;
    }
  }

  /** The header as it is put together, and what a receiver reads in it. */
  method ProxyProtoV2Header(src: Addr, dst: Addr) returns (header: Option<seq<byte>>)
    ensures header == Header(src, dst)
    ensures header.None? <==> src.OtherAddr? || dst.OtherAddr?
    ensures Usable(src) && Usable(dst) ==>
              var d := Decode(header.value); d.Some? && Announces(d.value, src, dst, [])
  {
    HeaderIsRead(src, dst);
    if src.OtherAddr? || dst.OtherAddr? {
      return None;
    }
    var buf := SIGNATURE;
    buf := buf + [0x21];
    var s4, d4 := To4(src.ip), To4(dst.ip);
    if s4.Some? && d4.Some? {
      buf := buf + [0x11, 0x00, 0x0C];
      buf := buf + s4.value;
      buf := buf + d4.value;
    } else {
      buf := buf + [0x21, 0x00, 0x24];
      buf := buf + To16(src.ip);
      buf := buf + To16(dst.ip);
    }
    buf := buf + [((src.port / 256) % 256) as byte, (src.port % 256) as byte,
                  ((dst.port / 256) % 256) as byte, (dst.port % 256) as byte];
    assert buf == Header(src, dst).value;
    return Some(buf);
  }
}

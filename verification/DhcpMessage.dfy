/** DHCP messages as both sides of src/router/dhcp.rs build and read them: the 240-byte header
    of src/net/dhcp.rs, options, END, all inside a UDP frame. */
module DhcpMessage {
  import opened Wire
  import opened View
  import opened DhcpOptions
  import opened Frame

  const BOOTREQUEST: byte := 1
  const BOOTREPLY: byte := 2
  const COOKIE: u32 := 0x6382_5363
  const BROADCAST_FLAG: u16 := 0x8000

  const SERVER_PORT: Port := 67
  const CLIENT_PORT: Port := 68
  const PAYLOAD_MAX := 512
  const TTL: byte := 64
  const UNSPECIFIED: Ipv4 := 0
  const BROADCAST_IP: Ipv4 := 0xFFFF_FFFF
  const BROADCAST_MAC: seq<byte> := [255, 255, 255, 255, 255, 255]

  // ------------------------------------------------------------------ the header

  /** The header fields the two sides set; all others stay zero. */
  datatype Header = Header(op: byte, xid: u32, broadcast: bool, yourIp: Ipv4, serverIp: Ipv4, mac: seq<byte>)

  function Zeros(n: nat): (z: seq<byte>)
    ensures |z| == n && forall i | 0 <= i < n :: z[i] == 0
  {
    seq(n, _ => 0)
  }

  function Flags(broadcast: bool): u16 {
    if broadcast then BROADCAST_FLAG else 0
  }

  function HeaderBytes(h: Header): (b: seq<byte>)
    requires |h.mac| == 6
    ensures |b| == DHCP_LEN
  {
    [h.op, 1, 6, 0] + Bytes32(h.xid) + Zeros(2) + Bytes16(Flags(h.broadcast)) + Zeros(4)
    + Bytes32(h.yourIp) + Bytes32(h.serverIp) + Zeros(4) + h.mac + Zeros(202) + Bytes32(COOKIE)
  }

  /** A cleared buffer with these fields set starts with the header. */
  lemma HeaderFields(h: Header, g: seq<byte>)
    requires |h.mac| == 6 && |g| >= DHCP_LEN
    requires g[..4] == [h.op, 1, 6, 0] && g[4..8] == Bytes32(h.xid) && g[10..12] == Bytes16(Flags(h.broadcast))
    requires g[16..20] == Bytes32(h.yourIp) && g[20..24] == Bytes32(h.serverIp) && g[28..34] == h.mac
    requires g[236..240] == Bytes32(COOKIE)
    requires forall k | 8 <= k < 10 || 12 <= k < 16 || 24 <= k < 28 || 34 <= k < 236 :: g[k] == 0
    ensures g[..DHCP_LEN] == HeaderBytes(h)
  {
    hide Bytes16, Bytes32, Flags, Zeros;
    assert g[8..10] == Zeros(2) && g[12..16] == Zeros(4) && g[24..28] == Zeros(4) && g[34..236] == Zeros(202);
    assert g[..240] == g[..4] + g[4..8] + g[8..10] + g[10..12] + g[12..16] + g[16..20] + g[20..24] + g[24..28]
                       + g[28..34] + g[34..236] + g[236..240];
  }

  /** Set the header fields in place, in a cleared buffer. */
  method WriteHeader(buf: array<byte>, h: Header)
    requires |h.mac| == 6 && DHCP_LEN <= buf.Length && forall k | 0 <= k < DHCP_LEN :: buf[k] == 0
    modifies buf
    ensures buf[..] == HeaderBytes(h) + old(buf[DHCP_LEN..])
  {
    hide Bytes16, Bytes32, Flags, HeaderBytes;
    ghost var rest: seq<byte> := buf[DHCP_LEN..];
    WriteTransaction(buf, h);
    ghost var g: seq<byte> := buf[..];
    WriteIdentity(buf, h);
    ghost var g': seq<byte> := buf[..];
    assert g'[..4] == g[..4] && g'[4..8] == g[4..8] && g'[10..12] == g[10..12] && g'[236..240] == g[236..240];
    HeaderFields(h, buf[..]);
    assert buf[..] == buf[..DHCP_LEN] + rest;
  }

  method WriteTransaction(buf: array<byte>, h: Header)
    requires DHCP_LEN <= buf.Length
    modifies buf
    ensures buf[..4] == [h.op, 1, 6, 0] && buf[4..8] == Bytes32(h.xid)
    ensures buf[10..12] == Bytes16(Flags(h.broadcast)) && buf[236..240] == Bytes32(COOKIE)
    ensures forall k | 8 <= k < buf.Length && !(10 <= k < 12) && !(236 <= k < 240) :: buf[k] == old(buf[k])
  {
    hide Bytes16, Bytes32, Flags, Replace;
    CopyTo(buf, 0, [h.op, 1, 6, 0]);
    CopyTo(buf, 236, Bytes32(COOKIE));
    CopyTo(buf, 4, Bytes32(h.xid));
    CopyTo(buf, 10, Bytes16(Flags(h.broadcast)));
  }

  method WriteIdentity(buf: array<byte>, h: Header)
    requires |h.mac| == 6 && DHCP_LEN <= buf.Length
    modifies buf
    ensures buf[16..20] == Bytes32(h.yourIp) && buf[20..24] == Bytes32(h.serverIp) && buf[28..34] == h.mac
    ensures forall k | 0 <= k < buf.Length && !(16 <= k < 24) && !(28 <= k < 34) :: buf[k] == old(buf[k])
  {
    hide Bytes32, Replace;
    CopyTo(buf, 16, Bytes32(h.yourIp));
    CopyTo(buf, 20, Bytes32(h.serverIp));
    CopyTo(buf, 28, h.mac);
  }

  // -------------------------------------------------------------- whole messages

  function Payload(h: Header, os: seq<Opt>): seq<byte>
    requires |h.mac| == 6 && AllWritable(os)
  {
    HeaderBytes(h) + (EncodedAll(os) + [END])
  }

  /** What a receiver reads out of a DHCP message. */
  datatype Message = Message(xid: u32, broadcast: bool, clientIp: Ipv4, yourIp: Ipv4, mac: seq<byte>, options: seq<Opt>)

  function MessageAt(f: seq<byte>, v: Dhcp): (m: Message)
    requires v.start + DHCP_LEN <= |f| && v.options <= v.end <= |f|
    ensures |m.mac| == 6
  {
    Message(Be32(f, v.start + 4), Be16(f, v.start + 10) >= BROADCAST_FLAG, Be32(f, v.start + 12), Be32(f, v.start + 16),
            f[v.start + 28..v.start + 34], Items(f[v.options..v.end]))
  }

  function ReadMessage(f: seq<byte>): Option<Message> {
    var v := ParseDhcp(f);
    if v.Some? then Some(MessageAt(f, v.value)) else None
  }

  /** The header fields read back. */
  lemma HeaderReads(h: Header)
    requires |h.mac| == 6
    ensures
      var b := HeaderBytes(h);
      && Be32(b, 4) == h.xid && (Be16(b, 10) >= BROADCAST_FLAG <==> h.broadcast)
      && Be32(b, 12) == 0 && Be32(b, 16) == h.yourIp && b[28..34] == h.mac
  {
    var b := HeaderBytes(h);
    assert b[4..8] == Bytes32(h.xid) && b[10..12] == Bytes16(Flags(h.broadcast)) && b[12..16] == Zeros(4)
        && b[16..20] == Bytes32(h.yourIp) && b[28..34] == h.mac by {
      hide Bytes32, Bytes16, Flags, Zeros;
    }
    hide HeaderBytes, Bytes32, Bytes16;
    SliceBe32(b, 4, 8, 0);
    SliceBe32(b, 12, 16, 0);
    SliceBe32(b, 16, 20, 0);
    assert Be16(b[10..12], 0) == Be16(b, 10);
  }

  /** The header of RFC 2131, section 2, byte by byte: operation, Ethernet hardware type 1 with
      addresses of 6 bytes, no hops; seconds, client and relay address zero; the flags are
      0x8000 or 0; the server's address in bytes 20 to 23; the magic cookie 99.130.83.99. */
  lemma HeaderLiteral(h: Header)
    requires |h.mac| == 6
    ensures
      var b := HeaderBytes(h);
      && b[0] == h.op && b[1] == 1 && b[2] == 6 && b[3] == 0 && b[8] == 0 && b[9] == 0
      && b[10] == (if h.broadcast then 0x80 else 0) && b[11] == 0
      && Be32(b, 20) == h.serverIp && Be32(b, 24) == 0 && b[236..240] == [99, 130, 83, 99]
      && forall i | 34 <= i < 236 :: b[i] == 0
  {
    var b := HeaderBytes(h);
    assert b[..4] == [h.op, 1, 6, 0] && b[8..10] == Zeros(2) && b[10..12] == Bytes16(Flags(h.broadcast))
        && b[20..24] == Bytes32(h.serverIp) && b[24..28] == Zeros(4) && b[34..236] == Zeros(202)
        && b[236..240] == Bytes32(COOKIE) by {
      hide Bytes32, Bytes16, Flags, Zeros;
    }
    assert Bytes16(0x8000) == [0x80, 0] && Bytes16(0) == [0, 0] && Bytes32(COOKIE) == [99, 130, 83, 99];
    hide HeaderBytes, Bytes32, Bytes16;
    SliceBe32(b, 20, 24, 0);
    SliceBe32(b, 24, 28, 0);
    assert b[10] == b[10..12][0] && b[11] == b[10..12][1];
    assert forall i | 34 <= i < 236 :: b[i] == b[34..236][i - 34];
  }

  /** A message reads back through all the layers, whatever padding the link added. */
  lemma ReadsBack(p: UdpV4, h: Header, os: seq<Opt>, padding: seq<byte>)
    requires Addressed(p) && |h.mac| == 6 && AllWritable(os) && |Payload(h, os)| <= 65_527
    requires BootpPort(p.srcPort) || BootpPort(p.dstPort)
    ensures ReadMessage(Received(p, Payload(h, os), padding))
         == Some(Message(h.xid, h.broadcast, 0, h.yourIp, h.mac, os))
  {
    var payload := Payload(h, os);
    var f := Received(p, payload, padding);
    ParsesBack(p, payload, padding);
    FieldsOf(p, payload, padding);
    Pieces(p, payload, padding);
    HeaderReads(h);
    hide Received, HeaderBytes, Items, EncodedAll, Be16, Be32, ParseUdp;
    var end := 42 + |payload|;
    assert ParseDhcp(f) == Some(Dhcp(42, 282, end));
    ReadPieces(f, h, EncodedAll(os) + [END], end);
    RoundTrip(os, []);
    assert EncodedAll(os) + [END] + [] == EncodedAll(os) + [END];
  }

  lemma ReadPieces(f: seq<byte>, h: Header, region: seq<byte>, end: nat)
    requires |h.mac| == 6 && 282 <= end <= |f| && f[42..end] == HeaderBytes(h) + region
    ensures Be32(f, 46) == Be32(HeaderBytes(h), 4) && Be16(f, 52) == Be16(HeaderBytes(h), 10)
         && Be32(f, 54) == Be32(HeaderBytes(h), 12) && Be32(f, 58) == Be32(HeaderBytes(h), 16)
         && f[70..76] == HeaderBytes(h)[28..34] && f[282..end] == region
  {
    hide HeaderBytes, Be32, Be16;
    var b := HeaderBytes(h);
    assert f[42..282] == b by { assert f[42..282] == f[42..end][..240]; }
    SliceBe32(f, 42, 282, 4);
    SliceBe32(f, 42, 282, 12);
    SliceBe32(f, 42, 282, 16);
    SliceBe16(f, 42, 282, 10);
    SliceSlice(f, 42, 282, 28, 6);
    assert f[282..end] == f[42..end][240..];
  }
}

/** Building an Ethernet, IPv4 and UDP frame around a payload (src/router/frame.rs). */
module Frame {
  import opened Wire
  import opened Checksum
  import opened View
  import opened Nat
  import opened NatRewrite

  const HEADERS := 42

  /** Addressing of a datagram. */
  datatype UdpV4 = UdpV4(srcMac: seq<byte>, dstMac: seq<byte>, srcIp: Ipv4, dstIp: Ipv4,
                         srcPort: Port, dstPort: Port, ttl: byte)

  predicate Addressed(p: UdpV4) {
    |p.srcMac| == 6 && |p.dstMac| == 6
  }

  /** A length stored in a 16-bit field. */
  function Low16(n: nat): u16 {
    n % 0x1_0000
  }

  function EthernetOf(p: UdpV4): (h: seq<byte>)
    requires Addressed(p)
    ensures |h| == ETH_LEN
  {
    p.dstMac + p.srcMac + Bytes16(IPV4)
  }

  /** The IPv4 header around `n` bytes of payload, with `c` in its checksum field. */
  function IpOf(p: UdpV4, n: nat, c: u16): (h: seq<byte>)
    ensures |h| == IP_LEN
  {
    [0x45, 0] + Bytes16(Low16(n + 28)) + [0, 0, 0, 0] + [p.ttl, UDP] + Bytes16(c) + Bytes32(p.srcIp) + Bytes32(p.dstIp)
  }

  function UdpOf(p: UdpV4, n: nat, c: u16): (h: seq<byte>)
    ensures |h| == UDP_LEN
  {
    Bytes16(p.srcPort) + Bytes16(p.dstPort) + Bytes16(Low16(n + 8)) + Bytes16(c)
  }

  function IpChecksum(p: UdpV4, n: nat): u16 {
    ChecksumOf(IpOf(p, n, 0))
  }

  function UdpChecksum(p: UdpV4, payload: seq<byte>): u16 {
    UdpChecksumOf(Bytes32(p.srcIp), Bytes32(p.dstIp), UdpOf(p, |payload|, 0) + payload)
  }

  /** The frame: what the views, the checksums and the peer see. */
  function FrameOf(p: UdpV4, payload: seq<byte>): (f: seq<byte>)
    requires Addressed(p)
    ensures |f| == HEADERS + |payload|
  {
    EthernetOf(p) + IpOf(p, |payload|, IpChecksum(p, |payload|))
    + UdpOf(p, |payload|, UdpChecksum(p, payload)) + payload
  }

  // ------------------------------------------------------------- the builder

  method WriteEthernet(buf: array<byte>, p: UdpV4)
    requires Addressed(p) && HEADERS <= buf.Length
    modifies buf
    ensures buf[..] == Replace(old(buf[..]), 0, EthernetOf(p))
  {
    hide Bytes16, Replace;
    CopyTo(buf, 0, p.dstMac);
    CopyTo(buf, 6, p.srcMac);
    CopyTo(buf, 12, Bytes16(IPV4));
  }

  method WriteAddresses(buf: array<byte>, p: UdpV4)
    requires HEADERS <= buf.Length
    modifies buf
    ensures buf[26..30] == Bytes32(p.srcIp) && buf[30..34] == Bytes32(p.dstIp)
    ensures forall k | 0 <= k < buf.Length && !(26 <= k < 34) :: buf[k] == old(buf[k])
  {
    hide Bytes32, Replace;
    CopyTo(buf, 26, Bytes32(p.srcIp));
    CopyTo(buf, 30, Bytes32(p.dstIp));
  }

  /** Fill in the IPv4 fields that are not zero. */
  method WriteIp(buf: array<byte>, p: UdpV4, n: nat)
    requires HEADERS <= buf.Length && forall k | 14 <= k < 34 :: buf[k] == 0
    modifies buf
    ensures buf[..] == Replace(old(buf[..]), 14, IpOf(p, n, 0))
  {
    hide Bytes16, Bytes32, Low16, Replace, IpOf;
    ghost var f: seq<byte> := buf[..];
    assert forall k | 14 <= k < 34 :: f[k] == 0;
    CopyTo(buf, 14, [0x45]);
    CopyTo(buf, 16, Bytes16(Low16(n + 28)));
    CopyTo(buf, 22, [p.ttl]);
    CopyTo(buf, 23, [UDP]);
    WriteAddresses(buf, p);
    ghost var g: seq<byte> := buf[..];
    assert g[15] == g[18] == g[19] == g[20] == g[21] == g[24] == g[25] == 0;
    assert g[16..18] == Bytes16(Low16(n + 28));
    IpFields(p, n, g);
    assert g == Replace(f, 14, g[14..34]);
  }

  /** A header with these fields, and zero elsewhere, is the IPv4 header. */
  lemma IpFields(p: UdpV4, n: nat, g: seq<byte>)
    requires |g| >= 34 && g[14] == 0x45 && g[22] == p.ttl && g[23] == UDP
    requires g[16..18] == Bytes16(Low16(n + 28)) && g[26..30] == Bytes32(p.srcIp) && g[30..34] == Bytes32(p.dstIp)
    requires g[15] == g[18] == g[19] == g[20] == g[21] == g[24] == g[25] == 0
    ensures g[14..34] == IpOf(p, n, 0)
  {
    hide Bytes32, Low16;
    assert g[24..26] == Bytes16(0);
    assert g[14..34] == g[14..16] + g[16..18] + g[18..22] + g[22..24] + g[24..26] + g[26..30] + g[30..34];
  }

  method WriteUdp(buf: array<byte>, p: UdpV4, n: nat)
    requires HEADERS <= buf.Length && buf[40] == buf[41] == 0
    modifies buf
    ensures buf[..] == Replace(old(buf[..]), 34, UdpOf(p, n, 0))
  {
    assert buf[40..42] == Bytes16(0);
    hide Bytes16, Low16, Replace;
    CopyTo(buf, 34, Bytes16(p.srcPort));
    CopyTo(buf, 36, Bytes16(p.dstPort));
    CopyTo(buf, 38, Bytes16(Low16(n + 8)));
    assert buf[40..42] == Bytes16(0);
  }

  /** Zero the headers, then fill in the fields that are not zero. */
  method WriteHeaders(buf: array<byte>, p: UdpV4, n: nat)
    requires Addressed(p) && HEADERS <= buf.Length
    modifies buf
    ensures buf[..] == EthernetOf(p) + IpOf(p, n, 0) + UdpOf(p, n, 0) + old(buf[HEADERS..])
  {
    hide EthernetOf, IpOf, UdpOf, Replace;
    Clear(buf);
    WriteEthernet(buf, p);
    WriteIp(buf, p, n);
    WriteUdp(buf, p, n);
  }

  method Clear(buf: array<byte>)
    requires HEADERS <= buf.Length
    modifies buf
    ensures forall k | 0 <= k < buf.Length :: buf[k] == if k < HEADERS then 0 else old(buf[k])
  {
    var i := 0;
    while i < HEADERS
      invariant 0 <= i <= HEADERS
      invariant forall k | 0 <= k < buf.Length :: buf[k] == if k < i then 0 else old(buf[k])
    {
      buf[i] := 0;
      i := i + 1;
    }
  }

  /** Store the checksum of the IPv4 header that follows `eth`. */
  method SealIp(buf: array<byte>, p: UdpV4, n: nat, ghost eth: seq<byte>, ghost rest: seq<byte>)
    requires |eth| == 14 && buf[..] == eth + IpOf(p, n, 0) + rest
    modifies buf
    ensures buf[..] == eth + IpOf(p, n, IpChecksum(p, n)) + rest
  {
    hide IpOf, Replace, ChecksumOf, Bytes16;
    assert buf[14..34] == IpOf(p, n, 0);
    var c := Compute(buf[14..34]);
    CopyTo(buf, 24, Bytes16(c));
    SetIpChecksum(p, n, c);
    ReplaceInside(eth, IpOf(p, n, 0), rest, 10, Bytes16(c));
  }

  /** Store the checksum of the datagram that follows `front`. */
  method SealUdp(buf: array<byte>, p: UdpV4, payload: seq<byte>, ghost front: seq<byte>, ghost rest: seq<byte>)
    requires |front| == 34 && buf[..] == front + UdpOf(p, |payload|, 0) + (payload + rest)
    modifies buf
    ensures buf[..] == front + UdpOf(p, |payload|, UdpChecksum(p, payload)) + (payload + rest)
  {
    hide UdpOf, Replace, UdpChecksumOf, Bytes16, Bytes32;
    assert buf[34..42 + |payload|] == UdpOf(p, |payload|, 0) + payload;
    var c := UdpIpv4(Bytes32(p.srcIp), Bytes32(p.dstIp), buf[34..42 + |payload|]);
    CopyTo(buf, 40, Bytes16(c));
    SetUdpChecksum(p, |payload|, c);
    ReplaceInside(front, UdpOf(p, |payload|, 0), payload + rest, 6, Bytes16(c));
  }

  /** Build the frame at the front of `buf`, or refuse, changing nothing, if it does not fit. */
  method BuildUdpIpv4(buf: array<byte>, p: UdpV4, payload: seq<byte>) returns (total: Option<nat>)
    requires Addressed(p)
    modifies buf
    ensures total == if buf.Length < HEADERS + |payload| then None else Some(HEADERS + |payload|)
    ensures total.None? ==> buf[..] == old(buf[..])
    ensures total.Some? ==> buf[..] == FrameOf(p, payload) + old(buf[HEADERS + |payload|..])
  {
    hide EthernetOf, IpOf, UdpOf, Replace, IpChecksum, UdpChecksum;
    var n := |payload|;
    if buf.Length < HEADERS + n { return None; }
    ghost var eth, rest := EthernetOf(p), old(buf[HEADERS + n..]);
    WriteHeaders(buf, p, n);
    CopyTo(buf, HEADERS, payload);
    assert buf[..] == eth + IpOf(p, n, 0) + (UdpOf(p, n, 0) + (payload + rest));
    SealIp(buf, p, n, eth, UdpOf(p, n, 0) + (payload + rest));
    ghost var front := eth + IpOf(p, n, IpChecksum(p, n));
    assert buf[..] == front + UdpOf(p, n, 0) + (payload + rest);
    SealUdp(buf, p, payload, front, rest);
    assert buf[..] == FrameOf(p, payload) + rest;
    return Some(HEADERS + n);
  }

  lemma ReplaceInside(a: seq<byte>, b: seq<byte>, c: seq<byte>, off: nat, x: seq<byte>)
    requires off + |x| <= |b|
    ensures Replace(a + b + c, |a| + off, x) == a + Replace(b, off, x) + c
  {
  }

  lemma SetIpChecksum(p: UdpV4, n: nat, c: u16)
    ensures IpOf(p, n, c) == Replace(IpOf(p, n, 0), 10, Bytes16(c))
  {
    hide Bytes16, Bytes32, Low16;
  }

  lemma SetUdpChecksum(p: UdpV4, n: nat, c: u16)
    ensures UdpOf(p, n, c) == Replace(UdpOf(p, n, 0), 6, Bytes16(c))
  {
    hide Bytes16, Low16;
  }

  // ----------------------------------------------------------------- reading back

  /** The frame as it arrives, whatever padding the link added. */
  function Received(p: UdpV4, payload: seq<byte>, padding: seq<byte>): (f: seq<byte>)
    requires Addressed(p)
    ensures |f| == HEADERS + |payload| + |padding|
  {
    FrameOf(p, payload) + padding
  }

  /** Where the pieces of the frame lie. */
  lemma Pieces(p: UdpV4, payload: seq<byte>, padding: seq<byte>)
    requires Addressed(p)
    ensures
      var f, n := Received(p, payload, padding), |payload|;
      && f[..14] == EthernetOf(p)
      && f[14..34] == IpOf(p, n, IpChecksum(p, n))
      && f[34..42] == UdpOf(p, n, UdpChecksum(p, payload))
      && f[42..42 + n] == payload
  {
    hide EthernetOf, IpOf, UdpOf, IpChecksum, UdpChecksum;
  }

  lemma IpReads(p: UdpV4, n: nat, c: u16)
    ensures var h := IpOf(p, n, c);
            h[0] == 0x45 && h[9] == UDP && Be16(h, 2) == Low16(n + 28) && h[12..16] == Bytes32(p.srcIp) && h[16..20] == Bytes32(p.dstIp)
  {
    hide Bytes16, Bytes32, Low16;
    var h := IpOf(p, n, c);
    assert h[2..4] == Bytes16(Low16(n + 28));
    assert Be16(h[2..4], 0) == Be16(h, 2);
  }

  lemma UdpReads(p: UdpV4, n: nat, c: u16)
    ensures var h := UdpOf(p, n, c);
            Be16(h, 0) == p.srcPort && Be16(h, 2) == p.dstPort && Be16(h, 4) == Low16(n + 8)
  {
    hide Bytes16, Low16;
    var h := UdpOf(p, n, c);
    assert h[0..2] == Bytes16(p.srcPort) && h[2..4] == Bytes16(p.dstPort) && h[4..6] == Bytes16(Low16(n + 8));
    assert Be16(h[0..2], 0) == Be16(h, 0) && Be16(h[2..4], 0) == Be16(h, 2) && Be16(h[4..6], 0) == Be16(h, 4);
  }

  /** The fields the views look at. */
  lemma FieldsOf(p: UdpV4, payload: seq<byte>, padding: seq<byte>)
    requires Addressed(p)
    ensures
      var f, n := Received(p, payload, padding), |payload|;
      && Be16(f, 12) == IPV4 && f[14] == 0x45 && Be16(f, 16) == Low16(n + 28) && f[23] == UDP
      && Be16(f, 34) == p.srcPort && Be16(f, 36) == p.dstPort && Be16(f, 38) == Low16(n + 8)
  {
    var f, n := Received(p, payload, padding), |payload|;
    Pieces(p, payload, padding);
    IpReads(p, n, IpChecksum(p, n));
    UdpReads(p, n, UdpChecksum(p, payload));
    hide IpOf, UdpOf, Bytes16, Received, IpChecksum, UdpChecksum, Low16;
    assert f[..14][12..14] == Bytes16(IPV4);
    assert Be16(f[..14][12..14], 0) == Be16(f, 12);
    assert Be16(f[14..34], 2) == Be16(f, 16) && f[14..34][0] == f[14] && f[14..34][9] == f[23];
    assert Be16(f[34..42], 0) == Be16(f, 34) && Be16(f[34..42], 2) == Be16(f, 36) && Be16(f[34..42], 4) == Be16(f, 38);
  }

  /** The rest of the headers, byte by byte: the destination MAC comes first, then the source;
      type of service, identification and fragment bytes are zero; time to live in byte 22; the
      source address before the destination. */
  lemma HeaderBytesOf(p: UdpV4, payload: seq<byte>, padding: seq<byte>)
    requires Addressed(p)
    ensures
      var f := Received(p, payload, padding);
      && f[0..6] == p.dstMac && f[6..12] == p.srcMac
      && f[15] == 0 && f[18] == 0 && f[19] == 0 && f[20] == 0 && f[21] == 0 && f[22] == p.ttl
      && Be32(f, 26) == p.srcIp && Be32(f, 30) == p.dstIp
      && f[42..42 + |payload|] == payload
  {
    hide Bytes16, Bytes32, Low16, Received, IpChecksum, UdpChecksum, UdpOf;
    var f, n := Received(p, payload, padding), |payload|;
    Pieces(p, payload, padding);
    assert f[0..6] == f[..14][0..6] && f[6..12] == f[..14][6..12];
    var h := IpOf(p, n, IpChecksum(p, n));
    assert f[15] == h[1] && f[18] == h[4] && f[19] == h[5] && f[20] == h[6] && f[21] == h[7] && f[22] == h[8];
    IpReads(p, n, IpChecksum(p, n));
    SliceSlice(f, 14, 34, 12, 4);
    SliceSlice(f, 14, 34, 16, 4);
    SliceBe32(f, 26, 30, 0);
    SliceBe32(f, 30, 34, 0);
  }

  /** The views find the whole payload, and no padding, exactly for payloads of up to 65527
      bytes. Beyond 65507 the length field of the IPv4 header has wrapped to less than a
      header, so that the view falls back on the frame's end and the UDP length trims it;
      beyond 65527 that wraps too. */
  lemma ParsesBack(p: UdpV4, payload: seq<byte>, padding: seq<byte>)
    requires Addressed(p)
    ensures ParseUdp(Received(p, payload, padding)) == Some(Segment(34, 42, 42 + |payload|)) <==> |payload| <= 65_527
  {
    hide Received;
    var f, n := Received(p, payload, padding), |payload|;
    FieldsOf(p, payload, padding);
    assert ParseEthernet(f) == Some(Ethernet(IPV4, 14));
    var total := Low16(n + 28);
    assert ParseIpv4(f) == Some(Ipv4View(14, 34, if total >= 20 && 14 + total <= |f| then 14 + total else |f|));
  }

  /** Filling in the complement of a folded sum makes it verify, in either form of zero. */
  lemma ComplementVerifies(sum: nat, c: u16)
    requires 0 < sum && sum + ONES < WRAP
    requires c == ONES - Fold(sum) || (c == ONES && Fold(sum) == ONES)
    ensures SumVerifies(sum + c)
  {
    FoldSame(sum);
    hide Fold, SumVerifies, Same;
    var k := SameWitness(Fold(sum), sum);
    IsSame(sum + c, 0, if c == ONES - Fold(sum) then 1 - k else 2 - k);
    VerifiesIff(sum + c);
  }

  lemma IpSum(p: UdpV4, n: nat, c: u16)
    ensures WordSum(IpOf(p, n, c)) == WordSum(IpOf(p, n, 0)) + c && 0 < WordSum(IpOf(p, n, 0)) <= ONES * 10
  {
    hide WordSum, Replace, IpOf, Bytes16;
    var h := IpOf(p, n, 0);
    SetIpChecksum(p, n, c);
    ReplaceSum(h, 10, Bytes16(c));
    WordOfBytes(c);
    assert h[10..12] == Bytes16(0) by { IpChecksumField(p, n); }
    WordOfBytes(0);
    IpReads(p, n, 0);
    SumBound(h);
  }

  lemma IpChecksumField(p: UdpV4, n: nat)
    ensures IpOf(p, n, 0)[10..12] == Bytes16(0)
  {
    hide Bytes16, Bytes32, Low16;
  }

  /** The IPv4 header of a built frame verifies. */
  lemma IpChecksumGood(p: UdpV4, payload: seq<byte>, padding: seq<byte>)
    requires Addressed(p)
    ensures IpVerifies(Received(p, payload, padding), Packet(14, 34, Udp))
  {
    var n := |payload|;
    Pieces(p, payload, padding);
    hide WordSum, IpOf, Received, Fold, ChecksumOf, SumVerifies;
    IpSum(p, n, IpChecksum(p, n));
    ChecksumFits(IpOf(p, n, 0));
    ComplementVerifies(WordSum(IpOf(p, n, 0)), IpChecksum(p, n));
  }

  lemma UdpSum(p: UdpV4, payload: seq<byte>, c: u16)
    ensures WordSum(UdpOf(p, |payload|, c) + payload) == WordSum(UdpOf(p, |payload|, 0) + payload) + c
  {
    hide WordSum, Replace, UdpOf, Bytes16;
    var n := |payload|;
    var h := UdpOf(p, n, 0);
    SetUdpChecksum(p, n, c);
    ReplaceInside([], h, payload, 6, Bytes16(c));
    assert [] + h + payload == h + payload;
    assert [] + UdpOf(p, n, c) + payload == UdpOf(p, n, c) + payload;
    ReplaceSum(h + payload, 6, Bytes16(c));
    assert (h + payload)[6..8] == h[6..8] == Bytes16(0) by { UdpChecksumField(p, n); }
    WordOfBytes(c);
    WordOfBytes(0);
  }

  lemma UdpChecksumField(p: UdpV4, n: nat)
    ensures UdpOf(p, n, 0)[6..8] == Bytes16(0)
  {
    hide Bytes16, Low16;
  }

  /** The sum that the UDP checksum is computed over. */
  function BareSum(p: UdpV4, payload: seq<byte>): nat {
    PseudoSum(Bytes32(p.srcIp), Bytes32(p.dstIp), UDP, UdpOf(p, |payload|, 0) + payload)
  }

  lemma BareSumBound(p: UdpV4, payload: seq<byte>)
    requires |payload| <= 131_000
    ensures 0 < BareSum(p, payload) && BareSum(p, payload) + ONES < WRAP
  {
    hide WordSum, UdpOf, Bytes32;
    SumBound(Bytes32(p.srcIp));
    SumBound(Bytes32(p.dstIp));
    SumBound(UdpOf(p, |payload|, 0) + payload);
  }

  /** The UDP checksum of a built frame is present and verifies. */
  lemma UdpChecksumGood(p: UdpV4, payload: seq<byte>, padding: seq<byte>)
    requires Addressed(p) && |payload| <= 131_000
    ensures UdpChecksum(p, payload) != 0
    ensures L4Verifies(Received(p, payload, padding), Packet(14, 34, Udp), 42 + |payload|)
  {
    var f, n, c := Received(p, payload, padding), |payload|, UdpChecksum(p, payload);
    Pieces(p, payload, padding);
    IpReads(p, n, IpChecksum(p, n));
    BareSumBound(p, payload);
    UdpSum(p, payload, c);
    hide WordSum, IpOf, UdpOf, Received, Fold, SumVerifies, Bytes32, IpChecksum, BareSum;
    SliceSlice(f, 14, 34, 12, 4);
    SliceSlice(f, 14, 34, 16, 4);
    assert f[34..42 + n] == f[34..42] + f[42..42 + n];
    BareSumIs(p, payload);
    assert SegmentSum(f, Packet(14, 34, Udp), 42 + n) == BareSum(p, payload) + c;
    ComplementVerifies(BareSum(p, payload), c);
  }

  lemma BareSumIs(p: UdpV4, payload: seq<byte>)
    requires BareSum(p, payload) < WRAP
    ensures BareSum(p, payload) == WordSum(Bytes32(p.srcIp)) + WordSum(Bytes32(p.dstIp)) + UDP + (8 + |payload|)
                                   + WordSum(UdpOf(p, |payload|, 0) + payload)
    ensures UdpChecksum(p, payload)
         == var c := ONES - Fold(BareSum(p, payload));
            if c == 0 then ONES else c
  {
    hide WordSum, UdpOf, Fold, Bytes32, Add;
    AddNone(BareSum(p, payload));
  }

  lemma AddNone(n: nat)
    requires n < WRAP
    ensures Add(0, n) == n
  {
  }
}

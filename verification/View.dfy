/** The layered packet views of src/net/view.rs: each layer is a bounds check that yields the
    offsets of the next one. A frame is its bytes. */
module View {
  import opened Wire

  const IPV4 := 0x0800
  const VLAN := 0x8100
  const TCP := 6
  const UDP := 17

  const ETH_LEN := 14
  const IP_LEN := 20
  const TCP_LEN := 20
  const UDP_LEN := 8
  const DHCP_LEN := 240

  /** Ethernet: the ethertype behind one optional VLAN tag, and where layer 3 starts. */
  datatype Ethernet = Ethernet(ethertype: int, l3: nat)

  function ParseEthernet(f: seq<byte>): (v: Option<Ethernet>)
    ensures v.Some? ==> v.value.l3 <= |f|
  {
    if |f| < ETH_LEN then None
    else if Be16(f, 12) == VLAN then (if |f| < 18 then None else Some(Ethernet(Be16(f, 16), 18)))
    else Some(Ethernet(Be16(f, 12), 14))
  }

  /** IPv4: where the header starts, where layer 4 starts, and where the datagram ends,
      which trims Ethernet padding when the declared length is plausible. */
  datatype Ipv4View = Ipv4View(start: nat, l4: nat, end: nat)

  function ParseIpv4At(f: seq<byte>, start: nat): (v: Option<Ipv4View>)
    ensures v.Some? ==> v.value.start == start && start + IP_LEN <= v.value.l4 <= v.value.end <= |f|
  {
    if |f| < start + IP_LEN then None
    else
      var hlen := f[start] % 16 * 4;
      var total := Be16(f, start + 2);
      if hlen < IP_LEN || start + hlen > |f| then None
      else Some(Ipv4View(start, start + hlen, if total >= hlen && start + total <= |f| then start + total else |f|))
  }

  function ParseIpv4(f: seq<byte>): (v: Option<Ipv4View>)
    ensures v.Some? ==> v.value.start + IP_LEN <= v.value.l4 <= v.value.end <= |f|
  {
    var eth := ParseEthernet(f);
    if eth.Some? && eth.value.ethertype == IPV4 then ParseIpv4At(f, eth.value.l3) else None
  }

  function Protocol(f: seq<byte>, v: Ipv4View): byte
    requires v.start + IP_LEN <= |f|
  {
    f[v.start + 9]
  }

  /** A transport segment: its start, its payload, and its end. */
  datatype Segment = Segment(start: nat, payload: nat, end: nat)

  function ParseTcpAt(f: seq<byte>, start: nat, end: nat): (v: Option<Segment>)
    requires end <= |f|
    ensures v.Some? ==> v.value.start == start && start + TCP_LEN <= v.value.payload <= v.value.end == end
  {
    if |f| < start + TCP_LEN then None
    else
      var hlen := f[start + 12] / 16 * 4;
      if hlen < TCP_LEN || start + hlen > end then None else Some(Segment(start, start + hlen, end))
  }

  function ParseUdpAt(f: seq<byte>, start: nat, end: nat): (v: Option<Segment>)
    requires end <= |f|
    ensures v.Some? ==> v.value.start == start && start + UDP_LEN == v.value.payload <= v.value.end <= end
  {
    if |f| < start + UDP_LEN || start + UDP_LEN > end then None
    else
      var declared := Be16(f, start + 4);
      Some(Segment(start, start + UDP_LEN, if declared >= UDP_LEN && start + declared <= end then start + declared else end))
  }

  function ParseTcp(f: seq<byte>): (v: Option<Segment>)
    ensures v.Some? ==> v.value.start + TCP_LEN <= v.value.payload <= v.value.end <= |f|
  {
    var ip := ParseIpv4(f);
    if ip.Some? && Protocol(f, ip.value) == TCP then ParseTcpAt(f, ip.value.l4, ip.value.end) else None
  }

  function ParseUdp(f: seq<byte>): (v: Option<Segment>)
    ensures v.Some? ==> v.value.start + UDP_LEN == v.value.payload <= v.value.end <= |f|
  {
    var ip := ParseIpv4(f);
    if ip.Some? && Protocol(f, ip.value) == UDP then ParseUdpAt(f, ip.value.l4, ip.value.end) else None
  }

  /** A DHCP message: its 240-byte header and its options, which end with the datagram. */
  datatype Dhcp = Dhcp(start: nat, options: nat, end: nat)

  predicate BootpPort(p: int) {
    p == 67 || p == 68
  }

  function ParseDhcp(f: seq<byte>): (v: Option<Dhcp>)
    ensures v.Some? ==> v.value.options <= v.value.end <= |f| && v.value.start + DHCP_LEN <= |f|
  {
    var udp := ParseUdp(f);
    if udp.Some? && (BootpPort(Be16(f, udp.value.start)) || BootpPort(Be16(f, udp.value.start + 2)))
       && udp.value.payload + DHCP_LEN <= |f|
    then
      var start, end := udp.value.payload, udp.value.end;
      Some(Dhcp(start, if start + DHCP_LEN <= end then start + DHCP_LEN else end, end))
    else None
  }

  /** `parse_tcp_tuple` of src/router/app.rs: addresses, ports and flags of a TCP packet. */
  datatype Tuple = Tuple(srcIp: int, srcPort: int, dstIp: int, dstPort: int, flags: byte)

  function ParseTcpTuple(f: seq<byte>): (t: Option<Tuple>) {
    var ip := ParseIpv4(f);
    var tcp := ParseTcp(f);
    if ip.Some? && tcp.Some? then
      Some(Tuple(Be32(f, ip.value.start + 12), Be16(f, tcp.value.start), Be32(f, ip.value.start + 16),
                 Be16(f, tcp.value.start + 2), f[tcp.value.start + 13]))
    else None
  }

  // --------------------------------------------------------- frames made of their parts

  /** A link header: two MACs, maybe one VLAN tag, and the ethertype of what follows. */
  function LinkHeader(macs: seq<byte>, tag: seq<byte>, ethertype: u16): seq<byte> {
    macs + (if tag == [] then [] else [0x81, 0x00] + tag) + Bytes16(ethertype)
  }

  /** An IPv4 header of `4 * ihl` bytes around a segment, as section 3.1 of RFC 791 lays it out:
      version and length in byte 0, the total length in bytes 2 and 3, the protocol in byte 9. */
  predicate IpHeader(ip: seq<byte>, ihl: nat, segment: seq<byte>, proto: byte) {
    && 5 <= ihl <= 15 && |ip| == 4 * ihl && ip[0] == 0x40 + ihl && ip[9] == proto
    && Be16(ip, 2) as int == |ip| + |segment|
  }

  /** The link header is stripped, with or without a tag, and the ethertype is the inner one. */
  lemma EthernetAssembled(macs: seq<byte>, tag: seq<byte>, ethertype: u16, rest: seq<byte>)
    requires |macs| == 12 && (tag == [] || |tag| == 2) && (tag == [] ==> ethertype != 0x8100)
    ensures ParseEthernet(LinkHeader(macs, tag, ethertype) + rest)
         == Some(Ethernet(ethertype, if tag == [] then 14 else 18))
  {
    hide Bytes16;
    var f := LinkHeader(macs, tag, ethertype) + rest;
    if tag == [] {
      assert f[12..14] == Bytes16(ethertype);
      SliceBe16(f, 12, 14, 0);
    } else {
      assert f[12] == 0x81 && f[13] == 0x00;
      assert f[16..18] == Bytes16(ethertype);
      SliceBe16(f, 16, 18, 0);
    }
  }

  lemma Ipv4AtAssembled(f: seq<byte>, start: nat, ihl: nat, n: nat)
    requires 5 <= ihl <= 15 && start + 4 * ihl + n <= |f|
    requires f[start] == 0x40 + ihl && Be16(f, start + 2) as int == 4 * ihl + n
    ensures ParseIpv4At(f, start) == Some(Ipv4View(start, start + 4 * ihl, start + 4 * ihl + n))
  {
    hide Be16;
    assert f[start] % 16 == ihl;
  }

  /** The datagram of a frame: behind the link header, options included in the header, and the
      padding cut off. */
  lemma Ipv4Assembled(macs: seq<byte>, tag: seq<byte>, ip: seq<byte>, ihl: nat, proto: byte, segment: seq<byte>, padding: seq<byte>)
    requires |macs| == 12 && (tag == [] || |tag| == 2) && IpHeader(ip, ihl, segment, proto)
    ensures
      var link := LinkHeader(macs, tag, 0x0800);
      var l3 := if tag == [] then 14 else 18;
      && |link| == l3
      && ParseIpv4(link + ip + segment + padding) == Some(Ipv4View(l3, l3 + 4 * ihl, l3 + 4 * ihl + |segment|))
      && Protocol(link + ip + segment + padding, ParseIpv4(link + ip + segment + padding).value) == proto
  {
    hide Bytes16, Be16, ParseEthernet, ParseIpv4At;
    var link := LinkHeader(macs, tag, 0x0800);
    var f := link + ip + segment + padding;
    EthernetAssembled(macs, tag, 0x0800, ip + segment + padding);
    assert f == link + (ip + segment + padding);
    assert f[|link|..|link| + |ip|] == ip;
    SliceBe16(f, |link|, |link| + |ip|, 2);
    assert f[|link|] == ip[0] && f[|link| + 9] == ip[9];
    Ipv4AtAssembled(f, |link|, ihl, |segment|);
  }

  /** The whole way for TCP, as section 3.1 of RFC 9293 lays the header out: ports in bytes 0 to
      3, the data offset in the upper half of byte 12, the flags in byte 13. The tuple has the
      addresses of bytes 12 to 19 of the IPv4 header. */
  lemma TcpAssembled(macs: seq<byte>, tag: seq<byte>, ip: seq<byte>, ihl: nat, segment: seq<byte>, padding: seq<byte>)
    requires |macs| == 12 && (tag == [] || |tag| == 2) && IpHeader(ip, ihl, segment, 6)
    requires |segment| >= 20 && 20 <= segment[12] / 16 * 4 <= |segment|
    ensures
      var f := LinkHeader(macs, tag, 0x0800) + ip + segment + padding;
      var l4 := (if tag == [] then 14 else 18) + 4 * ihl;
      && ParseTcp(f) == Some(Segment(l4, l4 + segment[12] / 16 * 4, l4 + |segment|))
      && ParseTcpTuple(f) == Some(Tuple(Be32(ip, 12), Be16(segment, 0), Be32(ip, 16), Be16(segment, 2), segment[13]))
  {
    hide LinkHeader, Be16, Be32, ParseIpv4, IpHeader;
    var link := LinkHeader(macs, tag, 0x0800);
    var f := link + ip + segment + padding;
    Ipv4Assembled(macs, tag, ip, ihl, 6, segment, padding);
    Parts(link, ip, segment, padding, ihl, 6);
  }

  lemma Parts(link: seq<byte>, ip: seq<byte>, segment: seq<byte>, padding: seq<byte>, ihl: nat, proto: byte)
    requires IpHeader(ip, ihl, segment, proto) && |segment| >= 20
    ensures
      var f, l4 := link + ip + segment + padding, |link| + |ip|;
      && |ip| == 4 * ihl >= 20
      && Be32(f, |link| + 12) == Be32(ip, 12) && Be32(f, |link| + 16) == Be32(ip, 16)
      && Be16(f, l4) == Be16(segment, 0) && Be16(f, l4 + 2) == Be16(segment, 2)
      && f[l4 + 12] == segment[12] && f[l4 + 13] == segment[13]
  {
    hide Be32, Be16;
    var f, l4 := link + ip + segment + padding, |link| + |ip|;
    assert f[|link|..l4] == ip && f[l4..l4 + |segment|] == segment;
    SliceBe32(f, |link|, l4, 12);
    SliceBe32(f, |link|, l4, 16);
    SliceBe16(f, l4, l4 + |segment|, 0);
    SliceBe16(f, l4, l4 + |segment|, 2);
  }

  /** When the views refuse: a frame too short for the fixed header, a header length of fewer than
      five words, or one that runs past the end. A declared length that is implausible makes
      the datagram run to the end of the frame. */
  lemma Refused(f: seq<byte>, start: nat, end: nat)
    requires start + 20 <= end <= |f|
    ensures ParseIpv4At(f, start).None? <==> f[start] % 16 < 5 || start + f[start] % 16 * 4 > |f|
    ensures ParseIpv4At(f, start).Some? && Be16(f, start + 2) < f[start] % 16 * 4 ==> ParseIpv4At(f, start).value.end == |f|
    ensures ParseIpv4At(f, start).Some? && start + Be16(f, start + 2) as int > |f| ==> ParseIpv4At(f, start).value.end == |f|
    ensures ParseTcpAt(f, start, end).None? <==> f[start + 12] < 0x50 || start + f[start + 12] / 16 * 4 > end
    ensures forall k: nat | |f| - 20 < k :: ParseIpv4At(f, k).None? && ParseTcpAt(f, k, end).None?
    ensures forall k: nat | |f| - 8 < k :: ParseUdpAt(f, k, end).None?
  {
    hide Be16;
  }

  /** A datagram is DHCP if and only if one of its ports is 67 or 68 and a 240-byte header fits
      the frame behind the UDP header. The options start behind it and end with the datagram. */
  lemma DhcpRecognised(f: seq<byte>)
    ensures ParseDhcp(f).Some? <==>
              && ParseUdp(f).Some? && ParseUdp(f).value.start + 248 <= |f|
              && (Be16(f, ParseUdp(f).value.start) == 67 || Be16(f, ParseUdp(f).value.start) == 68
                  || Be16(f, ParseUdp(f).value.start + 2) == 67 || Be16(f, ParseUdp(f).value.start + 2) == 68)
    ensures ParseDhcp(f).Some? ==>
              && ParseDhcp(f).value.start == ParseUdp(f).value.start + 8 && ParseDhcp(f).value.end == ParseUdp(f).value.end
              && (ParseUdp(f).value.start + 248 <= ParseUdp(f).value.end ==>
                    ParseDhcp(f).value.options == ParseUdp(f).value.start + 248)
  {
    hide ParseUdp, Be16;
  }
}

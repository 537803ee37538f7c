/** Rewriting packets in place (`translate_egress`, `translate_ingress` and `apply_rewrite` of
    src/router/nat.rs): one IPv4 address, one port, and the two checksums, repaired
    incrementally. */
module NatRewrite {
  import opened Wire
  import opened Checksum
  import opened View
  import opened Nat

  /** A TCP or UDP packet: where its IPv4 header and its transport header start. */
  datatype Packet = Packet(ip: nat, l4: nat, proto: L4)

  function Classify(f: seq<byte>): (p: Option<Packet>)
    ensures p.Some? ==> p.value.ip + IP_LEN <= p.value.l4 && ChecksumOff(p.value) + 2 <= |f|
    ensures p.Some? ==> ParseIpv4(f).Some? && p.value.ip == ParseIpv4(f).value.start && p.value.l4 == ParseIpv4(f).value.l4
  {
    var ip := ParseIpv4(f);
    if ip.None? then None
    else if Protocol(f, ip.value) == TCP then
      (var t := ParseTcp(f); if t.Some? then Some(Packet(ip.value.start, t.value.start, Tcp)) else None)
    else if Protocol(f, ip.value) == UDP then
      (var u := ParseUdp(f); if u.Some? then Some(Packet(ip.value.start, u.value.start, Udp)) else None)
    else None
  }

  function ChecksumOff(p: Packet): (c: nat)
    ensures p.l4 + 6 <= c
  {
    p.l4 + if p.proto == Tcp then 16 else 6
  }

  /** Source or destination: the offsets of the address and the port that change. */
  datatype Side = Src | Dst

  function AddrOff(p: Packet, side: Side): (a: nat)
    ensures p.ip + 12 <= a <= p.ip + 16
  {
    p.ip + if side == Src then 12 else 16
  }

  function PortOff(p: Packet, side: Side): (q: nat)
    ensures p.l4 <= q <= p.l4 + 2
  {
    p.l4 + if side == Src then 0 else 2
  }

  /** A packet is what its IPv4 header says: protocol byte 6 for TCP, 17 for UDP; any other is
      not translated. */
  lemma ClassifiedByProtocol(f: seq<byte>)
    ensures Classify(f).Some? ==> f[Classify(f).value.ip + 9] == if Classify(f).value.proto == Tcp then 6 else 17
    ensures ParseTcp(f).Some? ==> Classify(f).Some? && Classify(f).value.proto == Tcp && Classify(f).value.l4 == ParseTcp(f).value.start
    ensures ParseUdp(f).Some? ==> Classify(f).Some? && Classify(f).value.proto == Udp && Classify(f).value.l4 == ParseUdp(f).value.start
    ensures Classify(f).Some? ==> ParseTcp(f).Some? || ParseUdp(f).Some?
  {
    hide ParseIpv4, ParseTcpAt, ParseUdpAt;
  }

  // --------------------------------------------------------------- the rewrite

  /** The transport checksum after the address and the port have changed. */
  function NewL4(c: u16, proto: L4, oldIp: seq<byte>, newIp: seq<byte>, oldPort: seq<byte>, newPort: seq<byte>): u16 {
    if proto == Udp && c == 0 then 0
    else
      var u := UpdateOf(UpdateOf(c, oldIp, newIp), oldPort, newPort);
      if proto == Udp && u == 0 then ONES else u
  }

  ghost predicate Fields(f: seq<byte>, p: Packet, newIp: seq<byte>, newPort: seq<byte>) {
    p.ip + IP_LEN <= p.l4 && ChecksumOff(p) + 2 <= |f| && |newIp| == 4 && |newPort| == 2
  }

  /** The frame after the rewrite: four fields replaced. */
  function Rewritten(f: seq<byte>, p: Packet, side: Side, newIp: seq<byte>, newPort: seq<byte>): (r: seq<byte>)
    requires Fields(f, p, newIp, newPort)
    ensures |r| == |f|
  {
    var a, q := AddrOff(p, side), PortOff(p, side);
    var oldIp, oldPort := f[a..a + 4], f[q..q + 2];
    var f1 := Replace(f, a, newIp);
    var f2 := Replace(f1, p.ip + 10, Bytes16(UpdateOf(Be16(f, p.ip + 10), oldIp, newIp)));
    var f3 := Replace(f2, q, newPort);
    Replace(f3, ChecksumOff(p), Bytes16(NewL4(Be16(f, ChecksumOff(p)), p.proto, oldIp, newIp, oldPort, newPort)))
  }

  method ApplyRewrite(frame: array<byte>, p: Packet, side: Side, oldIp: seq<byte>, newIp: seq<byte>,
                      oldPort: seq<byte>, newPort: seq<byte>)
    requires Fields(frame[..], p, newIp, newPort)
    requires oldIp == frame[AddrOff(p, side)..AddrOff(p, side) + 4]
    requires oldPort == frame[PortOff(p, side)..PortOff(p, side) + 2]
    modifies frame
    ensures frame[..] == Rewritten(old(frame[..]), p, side, newIp, newPort)
  {
    hide Replace, UpdateOf, Be16, Bytes16;
    ghost var f: seq<byte> := frame[..];
    var isUdp := p.proto == Udp;
    var ipc, l4c := p.ip + 10, ChecksumOff(p);
    CopyTo(frame, AddrOff(p, side), newIp);
    var c := Be16(frame[..], ipc);
    SameBe16(f, frame[..], ipc);
    c := Update(c, oldIp, newIp);
    CopyTo(frame, ipc, Bytes16(c));
    CopyTo(frame, PortOff(p, side), newPort);
    var t := Be16(frame[..], l4c);
    SameBe16(f, frame[..], l4c);
    if !(isUdp && t == 0) {
      var updated := Update(t, oldIp, newIp);
      updated := Update(updated, oldPort, newPort);
      if isUdp && updated == 0 {
        updated := ONES;
      }
      CopyTo(frame, l4c, Bytes16(updated));
    } else {
      RewriteSame(frame[..], l4c);
    }
  }

  /** Writing a field's own bytes changes nothing. */
  lemma RewriteSame(f: seq<byte>, off: nat)
    requires off + 2 <= |f|
    ensures Replace(f, off, Bytes16(Be16(f, off))) == f
  {
    BytesOfBe16(f, off);
  }

  lemma BytesOfBe16(f: seq<byte>, off: nat)
    requires off + 2 <= |f|
    ensures Bytes16(Be16(f, off)) == [f[off], f[off + 1]]
  {
  }

  // -------------------------------------------------------- what does not change

  /** Byte `i` is one the rewrite may change, by its place in the two headers: the address and
      the port of that side, bytes 10 and 11 of the IPv4 header, and bytes 16 and 17 of a TCP
      header or 6 and 7 of a UDP header. */
  predicate Touched(p: Packet, side: Side, i: int) {
    || (side == Src && (p.ip + 12 <= i < p.ip + 16 || p.l4 <= i < p.l4 + 2))
    || (side == Dst && (p.ip + 16 <= i < p.ip + 20 || p.l4 + 2 <= i < p.l4 + 4))
    || p.ip + 10 <= i < p.ip + 12
    || (p.proto == Tcp && p.l4 + 16 <= i < p.l4 + 18)
    || (p.proto == Udp && p.l4 + 6 <= i < p.l4 + 8)
  }

  /** Only the address, the port and the two checksums change. */
  lemma OnlyFourFields(f: seq<byte>, p: Packet, side: Side, newIp: seq<byte>, newPort: seq<byte>, i: nat)
    requires Fields(f, p, newIp, newPort) && i < |f| && !Touched(p, side, i)
    ensures Rewritten(f, p, side, newIp, newPort)[i] == f[i]
  {
    hide Replace, UpdateOf, Be16, Bytes16, NewL4;
  }

  /** In particular the rest of a TCP header: sequence and acknowledgement numbers, data offset,
      flags and window, and the urgent pointer. */
  lemma TcpHeaderKept(f: seq<byte>, p: Packet, side: Side, newIp: seq<byte>, newPort: seq<byte>)
    requires Classify(f) == Some(p) && p.proto == Tcp && Fields(f, p, newIp, newPort)
    ensures var g := Rewritten(f, p, side, newIp, newPort);
            p.l4 + 20 <= |f| && g[p.l4 + 4..p.l4 + 16] == f[p.l4 + 4..p.l4 + 16] && g[p.l4 + 18..] == f[p.l4 + 18..]
  {
    hide Rewritten;
    var g := Rewritten(f, p, side, newIp, newPort);
    forall i | p.l4 + 4 <= i < p.l4 + 16 || p.l4 + 18 <= i < |f| ensures g[i] == f[i] {
      OnlyFourFields(f, p, side, newIp, newPort, i);
    }
  }

  /** The address and the port read back as written, at their places in the headers. */
  lemma FieldsReadBack(f: seq<byte>, p: Packet, side: Side, newIp: seq<byte>, newPort: seq<byte>)
    requires Fields(f, p, newIp, newPort)
    ensures var g := Rewritten(f, p, side, newIp, newPort);
            if side == Src then g[p.ip + 12..p.ip + 16] == newIp && g[p.l4..p.l4 + 2] == newPort
            else g[p.ip + 16..p.ip + 20] == newIp && g[p.l4 + 2..p.l4 + 4] == newPort
  {
    hide Replace, UpdateOf, Be16, Bytes16, NewL4;
  }

  /** The bytes the views look at. */
  ghost predicate SameShape(f: seq<byte>, g: seq<byte>, p: Packet) {
    && |f| == |g| && p.ip + IP_LEN <= p.l4 && ChecksumOff(p) + 2 <= |f|
    && (forall i | 0 <= i < p.ip + 10 :: f[i] == g[i])
    && (forall i | p.l4 + 4 <= i < ChecksumOff(p) :: f[i] == g[i])
  }

  lemma ShapeKept(f: seq<byte>, p: Packet, side: Side, newIp: seq<byte>, newPort: seq<byte>)
    requires Fields(f, p, newIp, newPort)
    ensures SameShape(f, Rewritten(f, p, side, newIp, newPort), p)
  {
    hide Rewritten;
    var g := Rewritten(f, p, side, newIp, newPort);
    forall i | 0 <= i < p.ip + 10 || p.l4 + 4 <= i < ChecksumOff(p) ensures f[i] == g[i] {
      OnlyFourFields(f, p, side, newIp, newPort, i);
    }
  }

  /** The frame parses at the same offsets after the rewrite. */
  lemma ReparsesSame(f: seq<byte>, p: Packet, side: Side, newIp: seq<byte>, newPort: seq<byte>)
    requires Classify(f) == Some(p) && Fields(f, p, newIp, newPort)
    ensures var g := Rewritten(f, p, side, newIp, newPort);
            Classify(g) == Some(p) && ParseIpv4(g) == ParseIpv4(f) && ParseTcp(g) == ParseTcp(f) && ParseUdp(g) == ParseUdp(f)
  {
    hide Rewritten, Classify, SameShape, ParseIpv4, ParseTcp, ParseUdp;
    ShapeKept(f, p, side, newIp, newPort);
    SameViews(f, Rewritten(f, p, side, newIp, newPort), p);
  }

  lemma SameViews(f: seq<byte>, g: seq<byte>, p: Packet)
    requires Classify(f) == Some(p) && SameShape(f, g, p)
    ensures Classify(g) == Some(p) && ParseIpv4(g) == ParseIpv4(f) && ParseTcp(g) == ParseTcp(f) && ParseUdp(g) == ParseUdp(f)
  {
    assert ParseEthernet(g) == ParseEthernet(f);
    assert ParseIpv4(g) == ParseIpv4(f);
  }

  // ------------------------------------------------------------------ checksums

  /** The IPv4 header checksum verifies: the header, options included, sums to zero. */
  ghost predicate IpVerifies(f: seq<byte>, p: Packet)
    requires p.ip <= p.l4 <= |f|
  {
    SumVerifies(WordSum(f[p.ip..p.l4]))
  }

  /** The sum the transport checksum of the segment that ends at `end` covers. */
  function SegmentSum(f: seq<byte>, p: Packet, end: nat): nat
    requires p.ip + IP_LEN <= p.l4 <= end <= |f|
  {
    PseudoSum(f[p.ip + 12..p.ip + 16], f[p.ip + 16..p.ip + 20], if p.proto == Tcp then TCP else UDP, f[p.l4..end])
  }

  ghost predicate L4Verifies(f: seq<byte>, p: Packet, end: nat)
    requires p.ip + IP_LEN <= p.l4 <= end <= |f|
  {
    SumVerifies(SegmentSum(f, p, end))
  }

  lemma WordOfField(f: seq<byte>, off: nat)
    requires off + 2 <= |f|
    ensures WordSum(f[off..off + 2]) == Be16(f, off)
  {
    assert f[off..off + 2][2..] == [];
  }

  lemma WordOfBytes(v: u16)
    ensures WordSum(Bytes16(v)) == v
  {
    assert Bytes16(v)[2..] == [];
  }

  /** How the rewrite moves the sum of `data`, in which the field of `new_` sits at `a` and a
      16-bit checksum field at `c`. */
  lemma TwoFields(data: seq<byte>, a: nat, new_: seq<byte>, c: nat, v: u16)
    requires a % 2 == 0 && c % 2 == 0 && a + |new_| <= |data| && c + 2 <= |data|
    requires a + |new_| <= c || c + 2 <= a
    ensures var g := Replace(Replace(data, a, new_), c, Bytes16(v));
            WordSum(g) + WordSum(data[a..a + |new_|]) + Be16(data, c) == WordSum(data) + WordSum(new_) + v
  {
    hide WordSum, Replace;
    var g1 := Replace(data, a, new_);
    ReplaceSum(data, a, new_);
    ReplaceSum(g1, c, Bytes16(v));
    WordOfField(g1, c);
    WordOfBytes(v);
    SameBe16(data, g1, c);
  }

  /** The header of the rewritten frame. */
  lemma HeaderAfter(f: seq<byte>, p: Packet, side: Side, newIp: seq<byte>, newPort: seq<byte>)
    requires Fields(f, p, newIp, newPort)
    ensures
      var h, a := f[p.ip..p.l4], AddrOff(p, side);
      Rewritten(f, p, side, newIp, newPort)[p.ip..p.l4]
      == Replace(Replace(h, a - p.ip, newIp), 10, Bytes16(UpdateOf(Be16(f, p.ip + 10), f[a..a + 4], newIp)))
  {
    hide Replace, UpdateOf, Be16, Bytes16, NewL4, AddrOff, PortOff, ChecksumOff;
    var a, q := AddrOff(p, side), PortOff(p, side);
    var x := Bytes16(UpdateOf(Be16(f, p.ip + 10), f[a..a + 4], newIp));
    var y := Bytes16(NewL4(Be16(f, ChecksumOff(p)), p.proto, f[a..a + 4], newIp, f[q..q + 2], newPort));
    var f1 := Replace(f, a, newIp);
    var f2 := Replace(f1, p.ip + 10, x);
    var f3 := Replace(f2, q, newPort);
    ReplaceSlice(f, a, newIp, p.ip, p.l4);
    ReplaceSlice(f1, p.ip + 10, x, p.ip, p.l4);
    ReplaceSlice(f2, q, newPort, p.ip, p.l4);
    ReplaceSlice(f3, ChecksumOff(p), y, p.ip, p.l4);
  }

  lemma SegmentAfter(f: seq<byte>, p: Packet, side: Side, newIp: seq<byte>, newPort: seq<byte>, end: nat)
    requires Fields(f, p, newIp, newPort) && ChecksumOff(p) + 2 <= end <= |f|
    ensures
      var a, q := AddrOff(p, side), PortOff(p, side);
      var c := NewL4(Be16(f, ChecksumOff(p)), p.proto, f[a..a + 4], newIp, f[q..q + 2], newPort);
      Rewritten(f, p, side, newIp, newPort)[p.l4..end]
      == Replace(Replace(f[p.l4..end], q - p.l4, newPort), ChecksumOff(p) - p.l4, Bytes16(c))
  {
    hide Replace, UpdateOf, Be16, Bytes16, NewL4, AddrOff, PortOff, ChecksumOff;
    var a, q := AddrOff(p, side), PortOff(p, side);
    var x := Bytes16(UpdateOf(Be16(f, p.ip + 10), f[a..a + 4], newIp));
    var y := Bytes16(NewL4(Be16(f, ChecksumOff(p)), p.proto, f[a..a + 4], newIp, f[q..q + 2], newPort));
    var f1 := Replace(f, a, newIp);
    var f2 := Replace(f1, p.ip + 10, x);
    var f3 := Replace(f2, q, newPort);
    ReplaceSlice(f, a, newIp, p.l4, end);
    ReplaceSlice(f1, p.ip + 10, x, p.l4, end);
    ReplaceSlice(f2, q, newPort, p.l4, end);
    ReplaceSlice(f3, ChecksumOff(p), y, p.l4, end);
  }

  /** NAT neither breaks nor repairs the IPv4 header checksum. */
  lemma IpChecksumKept(f: seq<byte>, p: Packet, side: Side, newIp: seq<byte>, newPort: seq<byte>)
    requires Classify(f) == Some(p) && Fields(f, p, newIp, newPort)
    ensures IpVerifies(Rewritten(f, p, side, newIp, newPort), p) <==> IpVerifies(f, p)
  {
    hide WordSum, UpdateOf, Replace, Rewritten, Classify, Same, SumVerifies, Be16, Bytes16;
    var a, g := AddrOff(p, side), Rewritten(f, p, side, newIp, newPort);
    var h, h' := f[p.ip..p.l4], g[p.ip..p.l4];
    HeaderNonZero(f, p);
    ReparsesSame(f, p, side, newIp, newPort);
    HeaderNonZero(g, p);
    var c := Be16(f, p.ip + 10);
    var c' := UpdateOf(c, f[a..a + 4], newIp);
    HeaderAfter(f, p, side, newIp, newPort);
    TwoFields(h, a - p.ip, newIp, 10, c');
    SliceSlice(f, p.ip, p.l4, a - p.ip, 4);
    SliceBe16(f, p.ip, p.l4, 10);
    UpdateResidue(c, f[a..a + 4], newIp);
    var k := SameWitness(c' + WordSum(newIp), c + WordSum(f[a..a + 4]));
    IsSame(WordSum(h'), WordSum(h), k);
    VerifyTogether(WordSum(h'), WordSum(h));
  }

  /** A header has a non-zero first byte, and is short. */
  lemma HeaderNonZero(f: seq<byte>, p: Packet)
    requires Classify(f) == Some(p)
    ensures 0 < WordSum(f[p.ip..p.l4]) < WRAP
  {
    var h := f[p.ip..p.l4];
    assert h[0] == f[p.ip] && f[p.ip] != 0 && |h| <= 60;
    SumBound(h);
  }

  /** The transport checksum makes up for the address and the port together. */
  lemma NewL4Residue(c: u16, proto: L4, oldIp: seq<byte>, newIp: seq<byte>, oldPort: seq<byte>, newPort: seq<byte>)
    requires |oldIp| == |newIp| == 4 && |oldPort| == |newPort| == 2 && !(proto == Udp && c == 0)
    ensures Same(NewL4(c, proto, oldIp, newIp, oldPort, newPort) + WordSum(newIp) + WordSum(newPort),
                 c + WordSum(oldIp) + WordSum(oldPort))
    ensures proto == Udp ==> NewL4(c, proto, oldIp, newIp, oldPort, newPort) != 0
  {
    hide WordSum, UpdateOf, Same;
    var u := UpdateOf(c, oldIp, newIp);
    var v := UpdateOf(u, oldPort, newPort);
    UpdateResidue(c, oldIp, newIp);
    UpdateResidue(u, oldPort, newPort);
    var k := SameWitness(u + WordSum(newIp), c + WordSum(oldIp));
    var m := SameWitness(v + WordSum(newPort), u + WordSum(oldPort));
    var r := NewL4(c, proto, oldIp, newIp, oldPort, newPort);
    IsSame(r + WordSum(newIp) + WordSum(newPort), c + WordSum(oldIp) + WordSum(oldPort), k + m + if r == v then 0 else 1);
  }

  /** The sum of a segment and its pseudo-header after the rewrite. */
  lemma SegmentSumAfter(f: seq<byte>, p: Packet, side: Side, newIp: seq<byte>, newPort: seq<byte>, end: nat)
    requires Fields(f, p, newIp, newPort) && ChecksumOff(p) + 2 <= end <= |f|
    ensures
      var a, q, c := AddrOff(p, side), PortOff(p, side), Be16(f, ChecksumOff(p));
      var c' := NewL4(c, p.proto, f[a..a + 4], newIp, f[q..q + 2], newPort);
      SegmentSum(Rewritten(f, p, side, newIp, newPort), p, end) + WordSum(f[a..a + 4]) + WordSum(f[q..q + 2]) + c
      == SegmentSum(f, p, end) + WordSum(newIp) + WordSum(newPort) + c'
  {
    hide WordSum, UpdateOf, Replace, Rewritten, Be16, Bytes16, NewL4, SegmentSum, AddrOff, PortOff, ChecksumOff;
    AddressesAfter(f, p, side, newIp, newPort);
    SegmentWordsAfter(f, p, side, newIp, newPort, end);
    SegmentSumIs(f, p, end);
    SegmentSumIs(Rewritten(f, p, side, newIp, newPort), p, end);
  }

  lemma SegmentSumIs(f: seq<byte>, p: Packet, end: nat)
    requires p.ip + IP_LEN <= p.l4 <= end <= |f|
    ensures SegmentSum(f, p, end)
         == WordSum(f[p.ip + 12..p.ip + 16]) + WordSum(f[p.ip + 16..p.ip + 20])
            + (if p.proto == Tcp then TCP else UDP) + (end - p.l4) + WordSum(f[p.l4..end])
  {
    hide WordSum;
  }

  lemma SegmentWordsAfter(f: seq<byte>, p: Packet, side: Side, newIp: seq<byte>, newPort: seq<byte>, end: nat)
    requires Fields(f, p, newIp, newPort) && ChecksumOff(p) + 2 <= end <= |f|
    ensures
      var a, q, c := AddrOff(p, side), PortOff(p, side), Be16(f, ChecksumOff(p));
      var c' := NewL4(c, p.proto, f[a..a + 4], newIp, f[q..q + 2], newPort);
      WordSum(Rewritten(f, p, side, newIp, newPort)[p.l4..end]) + WordSum(f[q..q + 2]) + c
      == WordSum(f[p.l4..end]) + WordSum(newPort) + c'
  {
    hide WordSum, UpdateOf, Replace, Rewritten, Be16, Bytes16, NewL4;
    var a, q, c := AddrOff(p, side), PortOff(p, side), Be16(f, ChecksumOff(p));
    var c' := NewL4(c, p.proto, f[a..a + 4], newIp, f[q..q + 2], newPort);
    SegmentAfter(f, p, side, newIp, newPort, end);
    SegmentWords(f, p, end, q - p.l4, newPort, ChecksumOff(p) - p.l4, c');
    assert p.l4 + (q - p.l4) == q && p.l4 + (ChecksumOff(p) - p.l4) == ChecksumOff(p);
  }

  lemma SegmentWords(f: seq<byte>, p: Packet, end: nat, q: nat, newPort: seq<byte>, k: nat, v: u16)
    requires p.l4 + k + 2 <= end <= |f| && q + 2 <= k && q % 2 == 0 && k % 2 == 0 && |newPort| == 2
    ensures WordSum(Replace(Replace(f[p.l4..end], q, newPort), k, Bytes16(v)))
            + WordSum(f[p.l4 + q..p.l4 + q + 2]) + Be16(f, p.l4 + k)
         == WordSum(f[p.l4..end]) + WordSum(newPort) + v
  {
    hide WordSum, Replace, Be16, Bytes16;
    TwoFields(f[p.l4..end], q, newPort, k, v);
    SliceSlice(f, p.l4, end, q, 2);
    SliceBe16(f, p.l4, end, k);
  }

  lemma AddressesAfter(f: seq<byte>, p: Packet, side: Side, newIp: seq<byte>, newPort: seq<byte>)
    requires Fields(f, p, newIp, newPort)
    ensures
      var a, g := AddrOff(p, side), Rewritten(f, p, side, newIp, newPort);
      WordSum(g[p.ip + 12..p.ip + 16]) + WordSum(g[p.ip + 16..p.ip + 20]) + WordSum(f[a..a + 4])
      == WordSum(f[p.ip + 12..p.ip + 16]) + WordSum(f[p.ip + 16..p.ip + 20]) + WordSum(newIp)
  {
    hide WordSum, Rewritten;
    FieldsReadBack(f, p, side, newIp, newPort);
    OtherAddress(f, p, side, newIp, newPort);
  }

  /** The address on the other side stays. */
  lemma OtherAddress(f: seq<byte>, p: Packet, side: Side, newIp: seq<byte>, newPort: seq<byte>)
    requires Fields(f, p, newIp, newPort)
    ensures var b := AddrOff(p, if side == Src then Dst else Src);
            Rewritten(f, p, side, newIp, newPort)[b..b + 4] == f[b..b + 4]
  {
    hide Replace, UpdateOf, Be16, Bytes16, NewL4;
  }

  /** A disabled UDP checksum stays disabled; any other transport checksum verifies after the
      rewrite exactly if it did before, whatever the segment's end. */
  lemma L4ChecksumKept(f: seq<byte>, p: Packet, side: Side, newIp: seq<byte>, newPort: seq<byte>, end: nat)
    requires Classify(f) == Some(p) && Fields(f, p, newIp, newPort)
    requires ChecksumOff(p) + 2 <= end <= |f| && end - p.l4 <= 130_000
    ensures var g := Rewritten(f, p, side, newIp, newPort);
            if p.proto == Udp && Be16(f, p.l4 + 6) == 0 then Be16(g, p.l4 + 6) == 0
            else (L4Verifies(g, p, end) <==> L4Verifies(f, p, end)) && (p.proto == Udp ==> Be16(g, p.l4 + 6) != 0)
  {
    hide WordSum, UpdateOf, Replace, Rewritten, Classify, Same, SumVerifies, Be16, Bytes16, NewL4, SegmentSum;
    var a, q, c := AddrOff(p, side), PortOff(p, side), Be16(f, ChecksumOff(p));
    var g := Rewritten(f, p, side, newIp, newPort);
    if p.proto == Udp && c == 0 {
      DisabledStays(f, p, side, newIp, newPort);
    } else {
      var c' := NewL4(c, p.proto, f[a..a + 4], newIp, f[q..q + 2], newPort);
      SegmentSumAfter(f, p, side, newIp, newPort, end);
      NewL4Residue(c, p.proto, f[a..a + 4], newIp, f[q..q + 2], newPort);
      var k := SameWitness(c' + WordSum(newIp) + WordSum(newPort), c + WordSum(f[a..a + 4]) + WordSum(f[q..q + 2]));
      IsSame(SegmentSum(g, p, end), SegmentSum(f, p, end), k);
      SegmentFits(f, p, end);
      SegmentFits(g, p, end);
      VerifyTogether(SegmentSum(g, p, end), SegmentSum(f, p, end));
      if p.proto == Udp { EnabledStays(f, p, side, newIp, newPort); }
    }
  }

  lemma EnabledStays(f: seq<byte>, p: Packet, side: Side, newIp: seq<byte>, newPort: seq<byte>)
    requires Fields(f, p, newIp, newPort) && p.proto == Udp && Be16(f, ChecksumOff(p)) != 0
    ensures Be16(Rewritten(f, p, side, newIp, newPort), p.l4 + 6) != 0
  {
    hide UpdateOf, Bytes16;
    var g, a, q := Rewritten(f, p, side, newIp, newPort), AddrOff(p, side), PortOff(p, side);
    var c := NewL4(Be16(f, ChecksumOff(p)), p.proto, f[a..a + 4], newIp, f[q..q + 2], newPort);
    assert g[p.l4 + 6..p.l4 + 8] == Bytes16(c) by { hide Be16, NewL4, Replace; }
    SliceBe16(g, p.l4 + 6, p.l4 + 8, 0);
  }

  lemma DisabledStays(f: seq<byte>, p: Packet, side: Side, newIp: seq<byte>, newPort: seq<byte>)
    requires Fields(f, p, newIp, newPort) && p.proto == Udp && Be16(f, ChecksumOff(p)) == 0
    ensures Be16(Rewritten(f, p, side, newIp, newPort), ChecksumOff(p)) == 0
  {
    hide Replace, UpdateOf;
  }

  lemma SegmentFits(f: seq<byte>, p: Packet, end: nat)
    requires p.ip + IP_LEN <= p.l4 <= end <= |f| && end - p.l4 <= 130_000
    ensures 0 < SegmentSum(f, p, end) < WRAP
  {
    SumBound(f[p.ip + 12..p.ip + 16]);
    SumBound(f[p.ip + 16..p.ip + 20]);
    SumBound(f[p.l4..end]);
    hide WordSum;
  }

  // ------------------------------------------------------------- the translators

  /** The endpoint on one side of a packet, as its bytes say. */
  function EndpointOf(f: seq<byte>, p: Packet, side: Side): Endpoint
    requires p.ip + IP_LEN <= p.l4 && ChecksumOff(p) + 2 <= |f|
  {
    Endpoint(Be32(f, AddrOff(p, side)), Be16(f, PortOff(p, side)))
  }

  /** The frame with one side rewritten to `e`. */
  function Redirected(f: seq<byte>, p: Packet, side: Side, e: Endpoint): seq<byte>
    requires p.ip + IP_LEN <= p.l4 && ChecksumOff(p) + 2 <= |f|
  {
    Rewritten(f, p, side, Bytes32(e.ip), Bytes16(e.port))
  }

  /** Source NAT of an outbound packet: the packet's source endpoint goes through the table,
      and the frame is rewritten to the answer, or left alone when there is none. */
  method TranslateEgress(frame: array<byte>, shard: Nat) returns (r: Option<Endpoint>)
    requires shard.Valid()
    modifies frame, shard
    ensures shard.Valid()
    ensures
      var f: seq<byte> := old(frame[..]);
      var p := Classify(f);
      if p.None? then r.None? && shard.State() == old(shard.State())
      else Maps(old(shard.State()), p.value.proto, EndpointOf(f, p.value, Src), r, shard.State())
    ensures
      var f: seq<byte> := old(frame[..]);
      frame[..] == if r.Some? then Redirected(f, Classify(f).value, Src, r.value) else f
  {
    hide Classify, Rewritten, Maps;
    ghost var f: seq<byte> := frame[..];
    var p := Classify(frame[..]);
    if p.None? {
      return None;
    }
    var src := EndpointOf(frame[..], p.value, Src);
    r := shard.Egress(p.value.proto, src);
    if r.Some? {
      var a, q := AddrOff(p.value, Src), PortOff(p.value, Src);
      ApplyRewrite(frame, p.value, Src, frame[a..a + 4], Bytes32(r.value.ip), frame[q..q + 2], Bytes16(r.value.port));
    }
  }

  /** Reverse NAT of an inbound packet, by its destination port. */
  method TranslateIngress(frame: array<byte>, shard: Nat) returns (r: Option<Endpoint>)
    modifies frame
    ensures
      var f: seq<byte> := old(frame[..]);
      var p := Classify(f);
      r == if p.None? then None else Reverse(shard.State(), p.value.proto, EndpointOf(f, p.value, Dst).port)
    ensures
      var f: seq<byte> := old(frame[..]);
      frame[..] == if r.Some? then Redirected(f, Classify(f).value, Dst, r.value) else f
  {
    hide Classify, Rewritten, Maps;
    ghost var f: seq<byte> := frame[..];
    var p := Classify(frame[..]);
    if p.None? {
      return None;
    }
    r := shard.Ingress(p.value.proto, Be16(frame[..], PortOff(p.value, Dst)));
    if r.Some? {
      var a, q := AddrOff(p.value, Dst), PortOff(p.value, Dst);
      ApplyRewrite(frame, p.value, Dst, frame[a..a + 4], Bytes32(r.value.ip), frame[q..q + 2], Bytes16(r.value.port));
    }
  }

  /** Where the endpoints of a packet are read. */
  lemma EndpointBytes(f: seq<byte>, p: Packet)
    requires p.ip + IP_LEN <= p.l4 && ChecksumOff(p) + 2 <= |f|
    ensures EndpointOf(f, p, Src) == Endpoint(Be32(f, p.ip + 12), Be16(f, p.l4))
    ensures EndpointOf(f, p, Dst) == Endpoint(Be32(f, p.ip + 16), Be16(f, p.l4 + 2))
  {
    hide Be32, Be16;
  }

  /** An outbound packet leaves with the public address, and with the port answered, as its
      source; its destination is what it was. */
  lemma LeavesFromWan(s: Table, s': Table, f: seq<byte>, p: Packet, r: Endpoint)
    requires Inv(s) && Classify(f) == Some(p) && Maps(s, p.proto, EndpointOf(f, p, Src), Some(r), s')
    ensures var g := Redirected(f, p, Src, r);
            && Be32(g, p.ip + 12) == s.wanIp && Be16(g, p.l4) == r.port
            && Be32(g, p.ip + 16) == Be32(f, p.ip + 16) && Be16(g, p.l4 + 2) == Be16(f, p.l4 + 2)
  {
    hide Classify, Rewritten, Be32, Be16, Bytes16, Bytes32, Inv;
    var g := Redirected(f, p, Src, r);
    AnswerIsPublic(s, p.proto, EndpointOf(f, p, Src), r, s');
    EndpointReadBack(f, p, Src, r);
    EndpointBytes(g, p);
    forall i | p.ip + 16 <= i < p.ip + 20 || p.l4 + 2 <= i < p.l4 + 4 ensures g[i] == f[i] {
      OnlyFourFields(f, p, Src, Bytes32(r.ip), Bytes16(r.port), i);
    }
    SameBe32(f, g, p.ip + 16);
    SameBe16(f, g, p.l4 + 2);
  }

  lemma EndpointReadBack(f: seq<byte>, p: Packet, side: Side, e: Endpoint)
    requires p.ip + IP_LEN <= p.l4 && ChecksumOff(p) + 2 <= |f|
    ensures EndpointOf(Redirected(f, p, side, e), p, side) == e
  {
    hide Rewritten, Bytes16, Bytes32;
    FieldsReadBack(f, p, side, Bytes32(e.ip), Bytes16(e.port));
    var g, a, q := Redirected(f, p, side, e), AddrOff(p, side), PortOff(p, side);
    assert Be32(g, a) == Be32(g[a..a + 4], 0);
    assert Be16(g, q) == Be16(g[q..q + 2], 0);
  }

  /** What NAT translation promises of a packet, in one place: it parses as before, the
      rewritten side reads as the new endpoint, both checksums verify exactly if they did,
      and a disabled UDP checksum stays disabled. */
  lemma TranslationSound(f: seq<byte>, p: Packet, side: Side, e: Endpoint, end: nat)
    requires Classify(f) == Some(p)
    requires ChecksumOff(p) + 2 <= end <= |f| && end - p.l4 <= 130_000
    ensures var g := Redirected(f, p, side, e);
            && Classify(g) == Some(p) && EndpointOf(g, p, side) == e
            && (IpVerifies(g, p) <==> IpVerifies(f, p))
            && (if p.proto == Udp && Be16(f, p.l4 + 6) == 0 then Be16(g, p.l4 + 6) == 0
                else (L4Verifies(g, p, end) <==> L4Verifies(f, p, end)) && (p.proto == Udp ==> Be16(g, p.l4 + 6) != 0))
  {
    hide Classify, Rewritten, IpVerifies, L4Verifies, EndpointOf, Be16, Bytes16, Bytes32;
    ReparsesSame(f, p, side, Bytes32(e.ip), Bytes16(e.port));
    EndpointReadBack(f, p, side, e);
    IpChecksumKept(f, p, side, Bytes32(e.ip), Bytes16(e.port));
    L4ChecksumKept(f, p, side, Bytes32(e.ip), Bytes16(e.port), end);
  }

  /** Egress followed by the reply's ingress: a reply addressed to the endpoint that egress put
      into the packet is rewritten to the packet's original source. */
  lemma ReplyFindsItsWay(s: Table, s': Table, f: seq<byte>, p: Packet, r: Endpoint, reply: seq<byte>, rp: Packet)
    requires Inv(s) && Classify(f) == Some(p) && Classify(reply) == Some(rp) && rp.proto == p.proto
    requires Maps(s, p.proto, EndpointOf(f, p, Src), Some(r), s')
    requires EndpointOf(reply, rp, Dst).port == EndpointOf(Redirected(f, p, Src, r), p, Src).port
    ensures Reverse(s', rp.proto, EndpointOf(reply, rp, Dst).port) == Some(EndpointOf(f, p, Src))
  {
    hide Classify, Rewritten, EndpointOf, Maps, Inv, Reverse;
    EndpointReadBack(f, p, Src, r);
    RefusedIffExhausted(s, p.proto, EndpointOf(f, p, Src), Some(r), s');
  }
}

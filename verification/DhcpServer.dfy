/** The LAN DHCP server (src/router/dhcp.rs) over its shared pool and lease table
    (src/router/leases.rs). One call at a time; the interleaving of the separately locked
    steps of `assign` is the subject of module Leases. */
module DhcpServer {
  import opened Wire
  import View
  import opened DhcpOptions
  import opened Frame
  import opened DhcpMessage
  import Spans
  import Pool
  import L = Leases

  datatype Config = Config(serverIp: Ipv4, serverMac: seq<byte>, gateway: Ipv4, mask: Ipv4, dns: seq<Ipv4>, leaseSecs: u32)

  // ------------------------------------------------------------------- the replies

  /** The replies that fit the 512-byte scratch payload: any NAK, and the others as long as
      there are at most 60 DNS servers. */
  predicate Fits(cfg: Config, kind: MessageType) {
    kind == Nak || |cfg.dns| <= 60
  }

  function LeaseOptions(cfg: Config): (os: seq<Opt>)
    requires |cfg.dns| <= 60
    ensures AllWritable(os)
  {
    [Opt(LEASE_TIME, Bytes32(cfg.leaseSecs)), Opt(SUBNET_MASK, Bytes32(cfg.mask)), Opt(ROUTER, Bytes32(cfg.gateway))]
    + if cfg.dns == [] then [] else [Opt(DNS_SERVER, AddressBytes(cfg.dns))]
  }

  function ReplyOptions(cfg: Config, kind: MessageType): (os: seq<Opt>)
    requires Fits(cfg, kind)
    ensures AllWritable(os)
  {
    [Opt(MESSAGE_TYPE, [MessageByte(kind)]), Opt(SERVER_ID, Bytes32(cfg.serverIp))]
    + if kind == Nak then [] else LeaseOptions(cfg)
  }

  /** The options of a reply, byte by byte. But for a NAK they have the lease time, the mask, the
      router and, if there are any, the DNS servers. */
  lemma LeaseOptionBytes(cfg: Config)
    requires |cfg.dns| <= 60
    ensures EncodedAll(LeaseOptions(cfg))
         == ([51, 4] + Bytes32(cfg.leaseSecs)) + ([1, 4] + Bytes32(cfg.mask)) + ([3, 4] + Bytes32(cfg.gateway))
            + (if cfg.dns == [] then [] else [6, 4 * |cfg.dns|] + AddressBytes(cfg.dns))
  {
    hide Bytes32, EncodedAll, AddressBytes, Encoded;
    var a, b, c := Opt(51, Bytes32(cfg.leaseSecs)), Opt(1, Bytes32(cfg.mask)), Opt(3, Bytes32(cfg.gateway));
    EncodedOne(a);
    EncodedOne(b);
    EncodedOne(c);
    EncodedConcat([a], [b]);
    EncodedConcat([a] + [b], [c]);
    assert [a] + [b] + [c] == [a, b, c];
    if cfg.dns == [] {
      assert LeaseOptions(cfg) == [a, b, c];
    } else {
      var d := Opt(6, AddressBytes(cfg.dns));
      EncodedOne(d);
      EncodedConcat([a, b, c], [d]);
    }
  }

  /** All have the message type and the server's identity. */
  lemma ReplyOptionBytes(cfg: Config, kind: MessageType)
    requires Fits(cfg, kind)
    ensures EncodedAll(ReplyOptions(cfg, kind))
         == [53, 1, MessageByte(kind)] + ([54, 4] + Bytes32(cfg.serverIp))
            + (if kind == Nak then [] else EncodedAll(LeaseOptions(cfg)))
  {
    hide Bytes32, EncodedAll, LeaseOptions, MessageByte, Encoded;
    var a, b := Opt(53, [MessageByte(kind)]), Opt(54, Bytes32(cfg.serverIp));
    EncodedOne(a);
    EncodedOne(b);
    EncodedConcat([a], [b]);
    assert [a] + [b] == [a, b];
    if kind == Nak {
      assert ReplyOptions(cfg, kind) == [a, b];
    } else {
      EncodedConcat([a, b], LeaseOptions(cfg));
    }
  }

  datatype Reply = Reply(kind: MessageType, ip: Ipv4)

  function ReplyHeader(cfg: Config, m: Message, r: Reply): Header {
    Header(BOOTREPLY, m.xid, false, r.ip, cfg.serverIp, m.mac)
  }

  /** A client without an address cannot be sent a unicast packet: honour its broadcast
      flag, and always broadcast a NAK. */
  function ReplyAddressing(cfg: Config, m: Message, r: Reply): UdpV4 {
    var broadcast := m.broadcast || r.kind == Nak;
    UdpV4(cfg.serverMac, if broadcast then BROADCAST_MAC else m.mac, cfg.serverIp,
          if broadcast then BROADCAST_IP else r.ip, SERVER_PORT, CLIENT_PORT, TTL)
  }

  /** A reply goes to everyone if and only if the client asked for that or it is a NAK; otherwise
      to the client's MAC and the address it carries. It comes from the server's MAC and
      address, port 67, and goes to port 68. */
  lemma ReplyGoesTo(cfg: Config, m: Message, r: Reply)
    ensures var p := ReplyAddressing(cfg, m, r);
            && p.srcMac == cfg.serverMac && p.srcIp == cfg.serverIp && p.srcPort == 67 && p.dstPort == 68 && p.ttl == 64
            && (m.broadcast || r.kind == Nak ==> p.dstIp == 0xFFFF_FFFF && p.dstMac == [255, 255, 255, 255, 255, 255])
            && (!m.broadcast && r.kind != Nak ==> p.dstIp == r.ip && p.dstMac == m.mac)
  {
  }

  function ReplyPayload(cfg: Config, m: Message, r: Reply): seq<byte>
    requires |m.mac| == 6 && Fits(cfg, r.kind)
  {
    Payload(ReplyHeader(cfg, m, r), ReplyOptions(cfg, r.kind))
  }

  function ReplyFrame(cfg: Config, m: Message, r: Reply): seq<byte>
    requires |cfg.serverMac| == 6 && |m.mac| == 6 && Fits(cfg, r.kind)
  {
    FrameOf(ReplyAddressing(cfg, m, r), ReplyPayload(cfg, m, r))
  }

  /** `w` holds the encoding of `os`, at the end of the 240-byte header. */
  ghost predicate Holds(w: OptionsWriter, os: seq<Opt>)
    reads w, w.buf
  {
    w.Valid() && w.start == View.DHCP_LEN && AllWritable(os) && w.Written() == EncodedAll(os)
  }

  /** The options an OFFER or an ACK carries beyond those of a NAK. */
  method WriteLeaseOptions(w: OptionsWriter, cfg: Config, ghost os: seq<Opt>) returns (ok: bool)
    requires Holds(w, os) && w.len == 9 && w.buf.Length == PAYLOAD_MAX
    modifies w, w.buf
    ensures ok <==> |cfg.dns| <= 60
    ensures ok ==> Holds(w, os + LeaseOptions(cfg)) && w.len <= 271
    ensures forall k | 0 <= k < View.DHCP_LEN :: w.buf[k] == old(w.buf[k])
  {
    hide EncodedAll, Encoded, Bytes32, AddressBytes;
    ghost var o1, o2, o3 :=
      Opt(LEASE_TIME, Bytes32(cfg.leaseSecs)), Opt(SUBNET_MASK, Bytes32(cfg.mask)), Opt(ROUTER, Bytes32(cfg.gateway));
    EncodedAllAdd(os, o1);
    EncodedAllAdd(os + [o1], o2);
    EncodedAllAdd(os + [o1] + [o2], o3);
    ok := w.Word(LEASE_TIME, cfg.leaseSecs);
    if ok { ok := w.Word(SUBNET_MASK, cfg.mask); }
    if ok { ok := w.Word(ROUTER, cfg.gateway); }
    ghost var os' := os + [o1] + [o2] + [o3];
    assert Holds(w, os');
    if ok && cfg.dns != [] {
      ok := w.List(DNS_SERVER, cfg.dns);
      if ok {
        EncodedAllAdd(os', Opt(DNS_SERVER, AddressBytes(cfg.dns)));
        assert os' + [Opt(DNS_SERVER, AddressBytes(cfg.dns))] == os + LeaseOptions(cfg);
      }
    } else {
      assert os' == os + LeaseOptions(cfg);
    }
  }

  /** Build the payload in a cleared buffer; fails exactly if it does not fit. */
  method BuildPayload(cfg: Config, m: Message, r: Reply, buf: array<byte>) returns (n: Option<nat>)
    requires |m.mac| == 6 && buf.Length == PAYLOAD_MAX && forall k | 0 <= k < PAYLOAD_MAX :: buf[k] == 0
    modifies buf
    ensures n.Some? <==> Fits(cfg, r.kind)
    ensures n.Some? ==> n.value <= PAYLOAD_MAX && buf[..n.value] == ReplyPayload(cfg, m, r)
  {
    hide EncodedAll, Encoded, Bytes32, HeaderBytes, LeaseOptions, MessageByte;
    var h := ReplyHeader(cfg, m, r);
    WriteHeader(buf, h);
    var w := new OptionsWriter(buf, View.DHCP_LEN);
    ghost var o1, o2 := Opt(MESSAGE_TYPE, [MessageByte(r.kind)]), Opt(SERVER_ID, Bytes32(cfg.serverIp));
    ghost var os := [o1, o2];
    var ok := w.Message(r.kind);
    if ok { ok := w.Word(SERVER_ID, cfg.serverIp); }
    assert w.Written() == EncodedAll(os) by { EncodedTwo(o1, o2); }
    if ok && r.kind != Nak {
      ok := WriteLeaseOptions(w, cfg, os);
      if !ok { return None; }
      os := os + LeaseOptions(cfg);
    }
    assert os == ReplyOptions(cfg, r.kind);
    ok := w.End();
    assert buf[..View.DHCP_LEN] == HeaderBytes(h);
    n := Some(View.DHCP_LEN + w.len);
    assert buf[..n.value] == buf[..View.DHCP_LEN] + w.Written();
  }

  lemma EncodedTwo(o1: Opt, o2: Opt)
    requires Writable(o1) && Writable(o2)
    ensures AllWritable([o1, o2]) && EncodedAll([o1, o2]) == Encoded(o1) + Encoded(o2)
  {
    hide Encoded;
    EncodedAllAdd([], o1);
    EncodedAllAdd([] + [o1], o2);
    assert [] + [o1] + [o2] == [o1, o2] && EncodedAll([]) == [];
  }

  // -------------------------------------------------------- what one message does

  /** The effect of one message on the shared state, and the reply it earns. */
  ghost predicate Served(cfg: Config, s: L.Shared, m: Message, s': L.Shared, reply: Option<(MessageType, int)>) {
    match MessageTypeIn(m.options)
    case Some(Discover) =>
      && L.Handle(s, L.Assign(m.mac), s')
      && reply == if m.mac in s'.leases then Some((Offer, s'.leases[m.mac])) else None
    case Some(Request) =>
      var chosen := WordIn(m.options, SERVER_ID);
      var asked := WordIn(m.options, REQUESTED_IP);
      var requested := if asked.Some? then asked.value else m.clientIp;
      if chosen.Some? && chosen.value != cfg.serverIp then s' == s && reply == None
      else
        && L.Handle(s, L.Assign(m.mac), s')
        && reply == if m.mac !in s'.leases then None
                    else if requested == s'.leases[m.mac] then Some((Ack, requested))
                    else Some((Nak, UNSPECIFIED))
    case Some(Release) => L.Handle(s, L.GiveUp(m.mac), s') && reply == None
    case Some(Decline) => L.Handle(s, L.GiveUp(m.mac), s') && reply == None
    case _ => s' == s && reply == None
  }

  /** A DISCOVER (type 1) is answered with an OFFER of the client's address, if it has one or an
      address is free, and otherwise not at all. */
  lemma DiscoverMeans(cfg: Config, s: L.Shared, m: Message, s': L.Shared, reply: Option<(MessageType, int)>)
    requires Served(cfg, s, m, s', reply) && Carries(m.options, 1)
    ensures L.Handle(s, L.Assign(m.mac), s')
    ensures reply.Some? <==> m.mac in s.leases || s.free != {}
    ensures reply.Some? ==> m.mac in s'.leases && reply == Some((Offer, s'.leases[m.mac]))
  {
    CarriesType(m.options, 1);
    hide MessageTypeIn, L.Handle;
    L.AssignMeans(s, m.mac, s');
  }

  /** A REQUEST (type 3) that names another server (option 54) changes nothing and gets no answer.
      Any other is an assignment; it is answered with an ACK of the client's address if that is
      the one asked for (option 50, or else the client's own address), and with a NAK that
      carries 0.0.0.0 if it is not. */
  lemma RequestMeans(cfg: Config, s: L.Shared, m: Message, s': L.Shared, reply: Option<(MessageType, int)>)
    requires Served(cfg, s, m, s', reply) && Carries(m.options, 3)
    ensures WordIn(m.options, 54).Some? && WordIn(m.options, 54).value != cfg.serverIp ==> s' == s && reply == None
    ensures WordIn(m.options, 54).None? || WordIn(m.options, 54).value == cfg.serverIp ==>
              var asked := WordIn(m.options, 50);
              var wanted := if asked.Some? then asked.value else m.clientIp;
              && L.Handle(s, L.Assign(m.mac), s')
              && (reply.Some? <==> m.mac in s.leases || s.free != {})
              && (reply.Some? ==> m.mac in s'.leases
                                  && reply == if s'.leases[m.mac] == wanted then Some((Ack, wanted)) else Some((Nak, 0)))
  {
    CarriesType(m.options, 3);
    hide MessageTypeIn, L.Handle, WordIn;
    if L.Handle(s, L.Assign(m.mac), s') { L.AssignMeans(s, m.mac, s'); }
  }

  /** After a RELEASE (type 7) or a DECLINE (type 4) the client has no lease, and the address it
      had is free. There is no answer. */
  lemma ReleaseMeans(cfg: Config, s: L.Shared, m: Message, s': L.Shared, reply: Option<(MessageType, int)>)
    requires Served(cfg, s, m, s', reply) && (Carries(m.options, 7) || Carries(m.options, 4))
    ensures reply == None && m.mac !in s'.leases && s'.leases == s.leases - {m.mac}
    ensures s'.free == if m.mac in s.leases then s.free + {s.leases[m.mac]} else s.free
  {
    CarriesType(m.options, if Carries(m.options, 7) then 7 else 4);
    hide MessageTypeIn, L.Handle;
    L.GiveUpMeans(s, m.mac, s');
  }

  /** Any other message changes nothing and gets no answer. */
  lemma OthersMean(cfg: Config, s: L.Shared, m: Message, s': L.Shared, reply: Option<(MessageType, int)>)
    requires Served(cfg, s, m, s', reply)
    requires !Carries(m.options, 1) && !Carries(m.options, 3) && !Carries(m.options, 7) && !Carries(m.options, 4)
    ensures s' == s && reply == None
  {
  }

  /** What one client gives up another one gets: from an empty pool, a RELEASE and then another
      client's DISCOVER is answered with an OFFER of the released address. */
  lemma ReleasedIsOffered(cfg: Config, s: L.Shared, m: Message, s1: L.Shared, r1: Option<(MessageType, int)>,
                          cfg2: Config, m2: Message, s2: L.Shared, r2: Option<(MessageType, int)>)
    requires Served(cfg, s, m, s1, r1) && (Carries(m.options, 7) || Carries(m.options, 4)) && m.mac in s.leases
    requires Served(cfg2, s1, m2, s2, r2) && Carries(m2.options, 1) && m2.mac !in s.leases
    ensures r2.Some? && r2.value.0 == Offer && m2.mac in s2.leases && r2.value.1 == s2.leases[m2.mac]
    ensures r2.value.1 <= s.leases[m.mac]
    ensures s.free == {} ==> r2 == Some((Offer, s.leases[m.mac]))
  {
    hide Served, Carries, L.Handle;
    ReleaseMeans(cfg, s, m, s1, r1);
    DiscoverMeans(cfg2, s1, m2, s2, r2);
    L.AssignMeans(s1, m2.mac, s2);
    assert s.leases[m.mac] in s1.free;
  }

  /** No message leaks an address or binds one twice. */
  lemma ServedKeepsPartition(cfg: Config, s: L.Shared, m: Message, s': L.Shared, reply: Option<(MessageType, int)>,
                             lo: int, hi: int)
    requires L.Partition(s, lo, hi) && Served(cfg, s, m, s', reply)
    ensures L.Partition(s', lo, hi)
  {
    hide L.Partition, L.Handle;
    if L.Handle(s, L.Assign(m.mac), s') {
      L.HandleKeepsPartition(s, L.Assign(m.mac), s', lo, hi);
    } else if L.Handle(s, L.GiveUp(m.mac), s') {
      L.HandleKeepsPartition(s, L.GiveUp(m.mac), s', lo, hi);
    }
  }

  // ------------------------------------------------------------------- the objects

  class LeaseTable {
    var byMac: map<seq<byte>, Ipv4>
    /** History: the addresses `reserve` took out of the pool. */
    ghost var reserved: set<int>

    constructor ()
      ensures byMac == map[] && reserved == {}
    {
      byMac, reserved := map[], {};
    }

    method Lookup(mac: seq<byte>) returns (ip: Option<Ipv4>)
      ensures ip == if mac in byMac then Some(byMac[mac]) else None
    {
      ip := if mac in byMac then Some(byMac[mac]) else None;
    }

    method Insert(mac: seq<byte>, ip: Ipv4)
      modifies this`byMac
      ensures byMac == old(byMac)[mac := ip]
    {
      byMac := byMac[mac := ip];
    }

    method Remove(mac: seq<byte>) returns (ip: Option<Ipv4>)
      modifies this`byMac
      ensures byMac == old(byMac) - {mac}
      ensures ip == if mac in old(byMac) then Some(old(byMac)[mac]) else None
    {
      ip := if mac in byMac then Some(byMac[mac]) else None;
      byMac := byMac - {mac};
    }
  }

  ghost function FreeSet(p: Pool.AddressPool): (s: set<int>)
    reads p
  {
    set x: int | p.start as int <= x <= p.end as int && Pool.Free(p.intervals, x)
  }

  /** The free addresses of a pool lie in its range, and `take` counts them. */
  lemma FreeSetIs(p: Pool.AddressPool)
    requires p.Valid()
    ensures forall x :: x in FreeSet(p) <==> Pool.Free(p.intervals, x)
    ensures 1 <= Spans.Total(Pool.Runs(p.intervals)) <==> FreeSet(p) != {}
  {
    forall x | Pool.Free(p.intervals, x) ensures p.start as int <= x <= p.end as int {
      var i :| 0 <= i < |Pool.Runs(p.intervals)| && Spans.In(Pool.Runs(p.intervals)[i], x);
      assert p.start as int <= p.intervals[i].0 && p.intervals[i].1 <= p.end as int;
    }
    Pool.TotalCountsFree(p.intervals, FreeSet(p));
  }

  /** While all of IPv4 is free, in the one interval whose 32-bit width is zero, nothing is
      leased. */
  lemma WholeLeasesNothing(p: Pool.AddressPool, s: L.Shared)
    requires p.Valid() && p.intervals == Pool.WHOLE && s.free == FreeSet(p) && L.Partition(s, p.start, p.end)
    ensures s.leases == map[]
  {
    forall m | m in s.leases ensures false {
      var x := s.leases[m];
      assert L.Leased(s.leases, x);
      assert Pool.Runs(Pool.WHOLE)[0] == Spans.Span(0, Pool.MAX_ADDR + 1);
      assert Spans.In(Pool.Runs(Pool.WHOLE)[0], x);
    }
  }

  class Server {
    const cfg: Config
    const pool: Pool.AddressPool
    const leases: LeaseTable

    /** The state all servers over the same pool and lease table share. */
    ghost function State(): L.Shared
      reads pool, leases
    {
      L.Shared(FreeSet(pool), leases.byMac, leases.reserved)
    }

    /** Free, leased and reserved addresses partition the pool. */
    ghost predicate Valid()
      reads pool, leases
    {
      && |cfg.serverMac| == 6 && pool.Valid()
      && L.Partition(State(), pool.start, pool.end)
    }

    constructor (cfg: Config, pool: Pool.AddressPool, leases: LeaseTable)
      requires |cfg.serverMac| == 6 && pool.Valid()
      requires L.Partition(L.Shared(FreeSet(pool), leases.byMac, leases.reserved), pool.start, pool.end)
      ensures Valid() && this.cfg == cfg && this.pool == pool && this.leases == leases
    {
      this.cfg, this.pool, this.leases := cfg, pool, leases;
    }

    method Reserve(ip: Ipv4)
      requires Valid()
      modifies pool, leases
      ensures Valid() && L.Handle(old(State()), L.SetAside(ip), State())
    {
      hide L.Partition;
      ghost var s := State();
      FreeSetIs(pool);
      var r := pool.Reserve(ip);
      FreeSetIs(pool);
      assert FreeSet(pool) == s.free - {ip as int};
      if r.Some? {
        leases.reserved := leases.reserved + {ip as int};
      } else {
        assert FreeSet(pool) == s.free;
      }
      L.HandleKeepsPartition(s, L.SetAside(ip), State(), pool.start, pool.end);
    }

    /** The address bound to `mac`, taking the smallest free one on first contact. While all of
        IPv4 is free, `take(1)` fails, and so does this. */
    method Assign(mac: seq<byte>) returns (ip: Option<Ipv4>)
      requires Valid()
      modifies pool, leases
      ensures Valid()
      ensures old(pool.intervals) != Pool.WHOLE ==> L.Handle(old(State()), L.Assign(mac), State())
      ensures old(pool.intervals) == Pool.WHOLE ==> ip == None && State() == old(State())
      ensures ip == if mac in leases.byMac then Some(leases.byMac[mac]) else None
    {
      hide L.Partition, Pool.Free, Pool.Runs, Spans.Total;
      ghost var s := State();
      if pool.intervals == Pool.WHOLE { WholeLeasesNothing(pool, s); }
      ip := leases.Lookup(mac);
      if ip.Some? { return; }
      FreeSetIs(pool);
      var taken := pool.Take(1);
      if taken.None? { return None; }
      FreeSetIs(pool);
      var a := taken.value[0];
      assert taken.value == [a];
      assert a in taken.value && a !in FreeSet(pool);
      forall x ensures x in s.free <==> x == a || x in FreeSet(pool) {
        assert x in taken.value <==> x == a;
      }
      assert FreeSet(pool) == s.free - {a};
      assert L.IsLeast(s.free, a);
      ip := Some(a);
      leases.Insert(mac, a);
      assert L.Handle(s, L.Assign(mac), State());
      L.HandleKeepsPartition(s, L.Assign(mac), State(), pool.start, pool.end);
    }

    /** RELEASE and DECLINE: drop the binding and return its address to the pool. */
    method GiveUp(mac: seq<byte>)
      requires Valid()
      modifies pool, leases
      ensures Valid() && L.Handle(old(State()), L.GiveUp(mac), State())
      ensures leases.byMac == old(leases.byMac) - {mac}
      ensures mac in old(leases.byMac) ==> Pool.Free(pool.intervals, old(leases.byMac)[mac])
      ensures old(pool.intervals) == Pool.WHOLE ==> State() == old(State())
    {
      hide Pool.Free;
      if pool.intervals == Pool.WHOLE { WholeLeasesNothing(pool, State()); }
      ghost var s := State();
      FreeSetIs(pool);
      var ip := leases.Remove(mac);
      if ip.Some? {
        assert L.Leased(s.leases, ip.value);
        pool.Release(ip.value);
        FreeSetIs(pool);
        assert FreeSet(pool) == s.free + {ip.value as int};
      } else {
        assert leases.byMac == s.leases;
      }
      hide L.Partition;
      L.HandleKeepsPartition(s, L.GiveUp(mac), State(), pool.start, pool.end);
    }

    /** Build the reply frame into `out`, or fail, changing nothing, if it does not fit. */
    method BuildReply(m: Message, r: Reply, out: array<byte>) returns (n: Option<nat>)
      requires |cfg.serverMac| == 6 && |m.mac| == 6
      modifies out
      ensures Sent(cfg, m, r, old(out[..]), out[..], n)
    {
      hide FrameOf, Payload, ReplyHeader, ReplyOptions, ReplyAddressing;
      var scratch := new byte[PAYLOAD_MAX](_ => 0);
      var size := BuildPayload(cfg, m, r, scratch);
      if size.None? { return None; }
      AddressedReply(cfg, m, r);
      n := BuildUdpIpv4(out, ReplyAddressing(cfg, m, r), scratch[..size.value]);
    }

    /** Process one DHCP message. While all of IPv4 is free the server never answers. */
    method Handle(f: seq<byte>, v: View.Dhcp, out: array<byte>) returns (n: Option<nat>, ghost reply: Option<Reply>)
      requires Valid() && View.ParseDhcp(f) == Some(v)
      modifies pool, leases, out
      ensures Valid()
      ensures old(pool.intervals) != Pool.WHOLE ==>
                Served(cfg, old(State()), MessageAt(f, v), State(),
                       if reply.Some? then Some((reply.value.kind, reply.value.ip)) else None)
      ensures old(pool.intervals) == Pool.WHOLE ==> reply.None? && State() == old(State())
      ensures Carries(MessageAt(f, v).options, 7) || Carries(MessageAt(f, v).options, 4) ==>
                var mac := f[v.start + 28..v.start + 34];
                && n.None? && leases.byMac == old(leases.byMac) - {mac}
                && (mac in old(leases.byMac) ==> Pool.Free(pool.intervals, old(leases.byMac)[mac]))
      ensures reply.None? ==> n.None? && out[..] == old(out[..])
      ensures reply.Some? ==> Sent(cfg, MessageAt(f, v), reply.value, old(out[..]), out[..], n)
    {
      hide L.Partition, L.Handle, View.ParseDhcp, Items, Sent, FreeSet;
      var m := MessageAt(f, v);
      reply := None;
      match MessageTypeIn(m.options)
      case Some(Discover) =>
        var ip := Assign(m.mac);
        if ip.None? { return None, None; }
        reply := Some(Reply(Offer, ip.value));
        n := BuildReply(m, Reply(Offer, ip.value), out);
      case Some(Request) =>
        var chosen := WordIn(m.options, SERVER_ID);
        if chosen.Some? && chosen.value != cfg.serverIp { return None, None; }
        var asked := WordIn(m.options, REQUESTED_IP);
        var requested := if asked.Some? then asked.value else m.clientIp;
        var ip := Assign(m.mac);
        if ip.None? { return None, None; }
        var r := if requested == ip.value then Reply(Ack, ip.value) else Reply(Nak, UNSPECIFIED);
        reply := Some(r);
        n := BuildReply(m, r, out);
      case Some(Release) =>
        GiveUp(m.mac);
        n := None;
      case Some(Decline) =>
        GiveUp(m.mac);
        n := None;
      case _ =>
        n := None;
    }
  }

  /** What `build_reply` leaves in `out`: the whole frame in front, or nothing. */
  ghost predicate Sent(cfg: Config, m: Message, r: Reply, before: seq<byte>, after: seq<byte>, n: Option<nat>) {
    && |cfg.serverMac| == 6 && |m.mac| == 6
    && if Fits(cfg, r.kind) && |ReplyFrame(cfg, m, r)| <= |before|
       then
         && n == Some(|ReplyFrame(cfg, m, r)|)
         && after == ReplyFrame(cfg, m, r) + before[|ReplyFrame(cfg, m, r)|..]
       else n == None && after == before
  }

  lemma AddressedReply(cfg: Config, m: Message, r: Reply)
    requires |cfg.serverMac| == 6 && |m.mac| == 6
    ensures Addressed(ReplyAddressing(cfg, m, r))
  {
  }
}

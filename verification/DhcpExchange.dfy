/** DISCOVER, OFFER, REQUEST, ACK (section 3.1 of RFC 2131): the client of module DhcpClient
    against the server of module DhcpServer, through the bytes of the frames they exchange. */
module DhcpExchange {
  import opened Wire
  import opened View
  import opened DhcpOptions
  import opened Frame
  import opened DhcpMessage
  import opened DhcpServer
  import opened DhcpClient
  import Pool
  import L = Leases

  // ------------------------------------------------------------ options read back

  lemma MessageByteReads(kind: MessageType)
    ensures MessageOf(MessageByte(kind)) == Some(kind)
  {
  }

  /** The first option of both sides' messages is the message type. */
  lemma KindReads(os: seq<Opt>, kind: MessageType)
    requires os != [] && os[0] == Opt(MESSAGE_TYPE, [MessageByte(kind)])
    ensures MessageTypeIn(os) == Some(kind)
  {
    hide MessageByte, MessageOf;
    FirstValue(os, 0);
    MessageByteReads(kind);
  }

  lemma WordReads(os: seq<Opt>, i: nat, v: u32)
    requires i < |os| && os[i].value == Bytes32(v) && forall j | 0 <= j < i :: os[j].code != os[i].code
    ensures WordIn(os, os[i].code) == Some(v)
  {
    FirstValue(os, i);
    hide Bytes32;
  }

  lemma RouterReads(os: seq<Opt>, i: nat, v: u32)
    requires i < |os| && os[i] == Opt(ROUTER, Bytes32(v)) && forall j | 0 <= j < i :: os[j].code != ROUTER
    ensures AddressesIn(os, ROUTER) == [v]
  {
    FirstValue(os, i);
    hide Bytes32;
    var b := Bytes32(v);
    assert b[4..] == [] && Addresses(b) == [Be32(b, 0)] + Addresses([]);
  }

  lemma {:induction false} EncodedSize(os: seq<Opt>)
    requires AllWritable(os)
    ensures |EncodedAll(os)| <= 257 * |os|
  {
    if os == [] {
    } else {
      EncodedSize(os[1..]);
    }
  }

  /** What a server reads of a client's message. */
  lemma ClientReads(c: Client, kind: MessageType, padding: seq<byte>)
    requires |c.mac| == 6
    ensures ReadMessage(ClientFrame(c, kind) + padding)
         == Some(Message(c.xid, true, UNSPECIFIED, UNSPECIFIED, c.mac, ClientOptions(c, kind)))
    ensures MessageTypeIn(ClientOptions(c, kind)) == Some(kind)
  {
    hide ReadMessage, HeaderBytes, EncodedAll, FrameOf;
    var os := ClientOptions(c, kind);
    KindReads(os, kind);
    EncodedSize(os);
    ReadsBack(ClientAddressing(c), ClientHeader(c), os, padding);
  }

  /** What a client reads of a server's reply. */
  lemma ReplyReads(cfg: Config, m: Message, r: Reply, padding: seq<byte>)
    requires |cfg.serverMac| == 6 && |m.mac| == 6 && Fits(cfg, r.kind)
    ensures ReadMessage(ReplyFrame(cfg, m, r) + padding)
         == Some(Message(m.xid, false, UNSPECIFIED, r.ip, m.mac, ReplyOptions(cfg, r.kind)))
    ensures MessageTypeIn(ReplyOptions(cfg, r.kind)) == Some(r.kind)
    ensures WordIn(ReplyOptions(cfg, r.kind), SERVER_ID) == Some(cfg.serverIp)
  {
    hide ReadMessage, HeaderBytes, EncodedAll, FrameOf, LeaseOptions, MessageTypeIn, WordIn, Bytes32;
    var os := ReplyOptions(cfg, r.kind);
    KindReads(os, r.kind);
    WordReads(os, 1, cfg.serverIp);
    OptionCount(cfg);
    EncodedSize(os);
    AddressedReply(cfg, m, r);
    ReadsBack(ReplyAddressing(cfg, m, r), ReplyHeader(cfg, m, r), os, padding);
  }

  lemma OptionCount(cfg: Config)
    ensures |cfg.dns| <= 60 ==> |LeaseOptions(cfg)| <= 4
  {
  }

  /** The lease an ACK carries is the server's configuration. */
  lemma LeaseReads(cfg: Config, ip: Ipv4, m: Message)
    requires |cfg.dns| <= 60 && m.yourIp == ip && m.options == ReplyOptions(cfg, Ack)
    ensures LeaseFrom(m) == Lease(ip, Some(cfg.mask), Some(cfg.gateway), Some(cfg.serverIp), Some(cfg.leaseSecs))
  {
    hide WordIn, AddressesIn, Bytes32, MessageByte, AddressBytes;
    var os := m.options;
    assert os[1] == Opt(SERVER_ID, Bytes32(cfg.serverIp)) && os[2] == Opt(LEASE_TIME, Bytes32(cfg.leaseSecs))
        && os[3] == Opt(SUBNET_MASK, Bytes32(cfg.mask)) && os[4] == Opt(ROUTER, Bytes32(cfg.gateway));
    WordReads(os, 1, cfg.serverIp);
    WordReads(os, 2, cfg.leaseSecs);
    WordReads(os, 3, cfg.mask);
    RouterReads(os, 4, cfg.gateway);
  }

  /** And so are the DNS servers. */
  lemma DnsReads(cfg: Config)
    requires |cfg.dns| <= 60
    ensures AddressesIn(ReplyOptions(cfg, Ack), DNS_SERVER) == cfg.dns
  {
    hide Bytes32, MessageByte, AddressBytes, Addresses;
    var os := ReplyOptions(cfg, Ack);
    if cfg.dns != [] {
      assert os[5] == Opt(DNS_SERVER, AddressBytes(cfg.dns));
      FirstValue(os, 5);
      AddressesRoundTrip(cfg.dns);
    } else {
      NoValue(os, DNS_SERVER);
    }
  }

  lemma {:induction false} NoValue(os: seq<Opt>, code: byte)
    requires forall i | 0 <= i < |os| :: os[i].code != code
    ensures Value(os, code) == None
  {
    if os == [] {
    } else {
      NoValue(os[1..], code);
    }
  }

  /** A REQUEST names the offer it takes up. */
  lemma ChoiceReads(c: Client, ip: Ipv4, server: Ipv4)
    requires c.offeredIp == Some(ip) && c.serverId == Some(server)
    ensures WordIn(ClientOptions(c, Request), REQUESTED_IP) == Some(ip)
    ensures WordIn(ClientOptions(c, Request), SERVER_ID) == Some(server)
  {
    hide WordIn, Bytes32, MessageByte;
    var os := ClientOptions(c, Request);
    assert os[1] == Opt(REQUESTED_IP, Bytes32(ip)) && os[2] == Opt(SERVER_ID, Bytes32(server));
    WordReads(os, 1, ip);
    WordReads(os, 2, server);
  }

  // ---------------------------------------------------------- the frames on the wire

  /** A reply as it leaves, at fixed places of the frame: destination and source MAC, server and
      destination address, ports 67 and 68, operation 2, the client's transaction, the address
      given in bytes 58 to 61, and the options from byte 282 on. */
  lemma ReplyOnTheWire(cfg: Config, m: Message, r: Reply, padding: seq<byte>)
    requires |cfg.serverMac| == 6 && |m.mac| == 6 && Fits(cfg, r.kind)
    ensures
      var f, p := ReplyFrame(cfg, m, r) + padding, ReplyAddressing(cfg, m, r);
      && |f| >= 282 && f[0..6] == p.dstMac && f[6..12] == cfg.serverMac
      && Be32(f, 26) == cfg.serverIp && Be32(f, 30) == p.dstIp && Be16(f, 34) == 67 && Be16(f, 36) == 68
      && f[42..282] == HeaderBytes(Header(2, m.xid, false, r.ip, cfg.serverIp, m.mac))
      && f[282..282 + |EncodedAll(ReplyOptions(cfg, r.kind))| + 1] == EncodedAll(ReplyOptions(cfg, r.kind)) + [255]
  {
    hide HeaderBytes, EncodedAll, FrameOf, ReplyOptions, Be32, Be16;
    AddressedReply(cfg, m, r);
    var p, payload := ReplyAddressing(cfg, m, r), ReplyPayload(cfg, m, r);
    HeaderBytesOf(p, payload, padding);
    FieldsOf(p, payload, padding);
    PayloadParts(ReplyFrame(cfg, m, r) + padding, payload, HeaderBytes(ReplyHeader(cfg, m, r)), EncodedAll(ReplyOptions(cfg, r.kind)) + [END]);
  }

  /** A client's message as it leaves: from its MAC and 0.0.0.0 to everyone, ports 68 and 67,
      operation 1 with the broadcast flag, and the options from byte 282 on. */
  lemma ClientOnTheWire(c: Client, kind: MessageType, padding: seq<byte>)
    requires |c.mac| == 6
    ensures
      var f := ClientFrame(c, kind) + padding;
      && |f| >= 282 && f[0..6] == [255, 255, 255, 255, 255, 255] && f[6..12] == c.mac
      && Be32(f, 26) == 0 && Be32(f, 30) == 0xFFFF_FFFF && Be16(f, 34) == 68 && Be16(f, 36) == 67
      && f[42..282] == HeaderBytes(Header(1, c.xid, true, 0, 0, c.mac))
      && f[282..282 + |EncodedAll(ClientOptions(c, kind))| + 1] == EncodedAll(ClientOptions(c, kind)) + [255]
  {
    hide HeaderBytes, EncodedAll, FrameOf, ClientOptions, Be32, Be16;
    var p, payload := ClientAddressing(c), ClientPayload(c, kind);
    HeaderBytesOf(p, payload, padding);
    FieldsOf(p, payload, padding);
    PayloadParts(ClientFrame(c, kind) + padding, payload, HeaderBytes(ClientHeader(c)), EncodedAll(ClientOptions(c, kind)) + [END]);
  }

  lemma PayloadParts(f: seq<byte>, payload: seq<byte>, head: seq<byte>, tail: seq<byte>)
    requires payload == head + tail && |head| == 240 && 42 + |payload| <= |f| && f[42..42 + |payload|] == payload
    ensures f[42..282] == head && f[282..282 + |tail|] == tail
  {
    assert f[42..282] == f[42..42 + |payload|][..240];
    assert f[282..282 + |tail|] == f[42..42 + |payload|][240..];
  }

  // ------------------------------------------------------------- sizes of the frames

  /** The frame of an OFFER or an ACK. */
  function ReplySize(cfg: Config): nat {
    310 + if cfg.dns == [] then 0 else 2 + 4 * |cfg.dns|
  }

  lemma LeaseOptionsSize(cfg: Config)
    requires |cfg.dns| <= 60
    ensures 282 + 9 + |EncodedAll(LeaseOptions(cfg))| + 1 == ReplySize(cfg)
  {
    hide EncodedAll, Bytes32, AddressBytes;
    var a, b, c := Opt(LEASE_TIME, Bytes32(cfg.leaseSecs)), Opt(SUBNET_MASK, Bytes32(cfg.mask)), Opt(ROUTER, Bytes32(cfg.gateway));
    EncodedOne(a);
    EncodedOne(b);
    EncodedOne(c);
    EncodedConcat([a], [b]);
    EncodedConcat([a] + [b], [c]);
    assert [a] + [b] + [c] == [a, b, c];
    if cfg.dns == [] {
      assert LeaseOptions(cfg) == [a, b, c];
    } else {
      var d := Opt(DNS_SERVER, AddressBytes(cfg.dns));
      EncodedOne(d);
      EncodedConcat([a, b, c], [d]);
    }
  }

  lemma ReplyLength(cfg: Config, m: Message, r: Reply)
    requires |cfg.serverMac| == 6 && |m.mac| == 6 && |cfg.dns| <= 60 && r.kind != Nak
    ensures |ReplyFrame(cfg, m, r)| == ReplySize(cfg)
  {
    hide EncodedAll, Bytes32, HeaderBytes, LeaseOptions, FrameOf;
    var a, b := Opt(MESSAGE_TYPE, [MessageByte(r.kind)]), Opt(SERVER_ID, Bytes32(cfg.serverIp));
    LeaseOptionsSize(cfg);
    EncodedOne(a);
    EncodedOne(b);
    EncodedConcat([a], [b]);
    assert [a] + [b] == [a, b];
    EncodedConcat([a, b], LeaseOptions(cfg));
  }

  const DISCOVER_SIZE := 292
  const REQUEST_SIZE := 304

  lemma DiscoverLength(c: Client)
    requires |c.mac| == 6
    ensures |ClientFrame(c, Discover)| == DISCOVER_SIZE
  {
    hide EncodedAll, HeaderBytes, FrameOf;
    var a, z := Opt(MESSAGE_TYPE, [MessageByte(Discover)]), Opt(PARAMETER_LIST, WANTED);
    EncodedOne(a);
    EncodedOne(z);
    EncodedConcat([a], [z]);
    assert ClientOptions(c, Discover) == [a] + [z];
  }

  lemma RequestLength(c: Client)
    requires |c.mac| == 6 && c.offeredIp.Some? && c.serverId.Some?
    ensures |ClientFrame(c, Request)| == REQUEST_SIZE
  {
    hide EncodedAll, HeaderBytes, FrameOf, Bytes32;
    var a, z := Opt(MESSAGE_TYPE, [MessageByte(Request)]), Opt(PARAMETER_LIST, WANTED);
    var x, y := Opt(REQUESTED_IP, Bytes32(c.offeredIp.value)), Opt(SERVER_ID, Bytes32(c.serverId.value));
    EncodedOne(a);
    EncodedOne(x);
    EncodedOne(y);
    EncodedOne(z);
    EncodedConcat([x], [y]);
    EncodedConcat([a], [x] + [y]);
    EncodedConcat([a] + ([x] + [y]), [z]);
    assert ClientOptions(c, Request) == [a] + ([x] + [y]) + [z];
  }

  // ------------------------------------------------------------------ the exchange

  /** A server that can send its OFFER and its ACK through an output buffer of `room` bytes. */
  predicate Usable(cfg: Config, room: nat) {
    |cfg.serverMac| == 6 && |cfg.dns| <= 60 && ReplySize(cfg) <= room
  }

  /** Fed the frame `f` in state `s`, a server with an output buffer of `room` bytes ends in
      `s'` and sends the frame `g`. */
  ghost predicate Answers(cfg: Config, room: nat, s: L.Shared, f: seq<byte>, s': L.Shared, g: seq<byte>) {
    exists m, r :: AnswersWith(cfg, room, s, f, s', g, m, r)
  }

  ghost predicate AnswersWith(cfg: Config, room: nat, s: L.Shared, f: seq<byte>, s': L.Shared, g: seq<byte>,
                              m: Message, r: Reply) {
    && |cfg.serverMac| == 6 && ReadMessage(f) == Some(m) && Served(cfg, s, m, s', Some((r.kind, r.ip)))
    && |m.mac| == 6 && Fits(cfg, r.kind) && g == ReplyFrame(cfg, m, r) && |g| <= room
  }

  function Deliver(c: Client, f: seq<byte>): Client {
    var m := ReadMessage(f);
    if m.Some? then AfterReceiving(c, m.value) else c
  }

  function Discovering(mac: seq<byte>, xid: u32): Client {
    AfterSending(Fresh(mac, xid))
  }

  /** A server with a lease for the client, or with any free address, sends an offer. */
  lemma OfferComes(cfg: Config, room: nat, mac: seq<byte>, xid: u32, padding: seq<byte>,
                   s: L.Shared, s': L.Shared, lo: Ipv4, hi: Ipv4)
    returns (offer: seq<byte>)
    requires Usable(cfg, room) && |mac| == 6 && L.Partition(s, lo, hi) && (mac in s.leases || s.free != {})
    requires L.Handle(s, L.Assign(mac), s')
    ensures Answers(cfg, room, s, ClientFrame(Fresh(mac, xid), Discover) + padding, s', offer)
  {
    assert mac in s'.leases;
    LeaseInRange(s, L.Assign(mac), s', mac, lo, hi);
    hide ReadMessage, ReplyFrame, ClientFrame, MessageTypeIn, L.Partition;
    var c := Fresh(mac, xid);
    ClientReads(c, Discover, padding);
    var m := Message(xid, true, UNSPECIFIED, UNSPECIFIED, mac, ClientOptions(c, Discover));
    var r := Reply(Offer, s'.leases[mac]);
    offer := ReplyFrame(cfg, m, r);
    ReplyLength(cfg, m, r);
    assert AnswersWith(cfg, room, s, ClientFrame(c, Discover) + padding, s', offer, m, r);
  }

  lemma LeaseInRange(s: L.Shared, c: L.Call, s': L.Shared, mac: seq<byte>, lo: int, hi: int)
    requires L.Partition(s, lo, hi) && L.Handle(s, c, s') && mac in s'.leases
    ensures lo <= s'.leases[mac] <= hi
  {
    L.HandleKeepsPartition(s, c, s', lo, hi);
    assert L.Leased(s'.leases, s'.leases[mac]);
  }

  /** Any answer to the DISCOVER is an offer of the address now leased to the client. */
  lemma OfferArrives(cfg: Config, room: nat, mac: seq<byte>, xid: u32, padIn: seq<byte>, padOut: seq<byte>,
                     s: L.Shared, s': L.Shared, offer: seq<byte>)
    requires |mac| == 6
    requires Answers(cfg, room, s, ClientFrame(Fresh(mac, xid), Discover) + padIn, s', offer)
    ensures mac in s'.leases && 0 <= s'.leases[mac] < 0x1_0000_0000
    ensures Deliver(Discovering(mac, xid), offer + padOut)
         == Client(mac, xid, Requesting, Some(s'.leases[mac]), Some(cfg.serverIp), None)
  {
    hide ReadMessage, ReplyFrame, ClientFrame, MessageTypeIn, WordIn, L.Handle, ClientOptions, ReplyOptions;
    var c := Fresh(mac, xid);
    var f := ClientFrame(c, Discover) + padIn;
    var m, r :| AnswersWith(cfg, room, s, f, s', offer, m, r);
    ClientReads(c, Discover, padIn);
    ReplyReads(cfg, m, r, padOut);
  }

  /** The client has taken up the offer of `ip` by a server with this identity. */
  predicate TakesUp(c: Client, ip: Ipv4, serverIp: Ipv4) {
    |c.mac| == 6 && c.state == Requesting && c.offeredIp == Some(ip) && c.serverId == Some(serverIp)
  }

  /** As long as the lease stands, any answer to the REQUEST is an ACK that changes nothing
      and leaves the client bound to it, with all of the server's configuration. */
  lemma AckArrives(cfg: Config, room: nat, c: Client, ip: Ipv4, padIn: seq<byte>, padOut: seq<byte>,
                   s: L.Shared, s': L.Shared, ack: seq<byte>)
    requires TakesUp(c, ip, cfg.serverIp) && c.mac in s.leases && s.leases[c.mac] == ip
    requires Answers(cfg, room, s, ClientFrame(c, Request) + padIn, s', ack)
    ensures s' == s
    ensures Deliver(c, ack + padOut)
         == c.(state := Bound,
               lease := Some(Lease(ip, Some(cfg.mask), Some(cfg.gateway), Some(cfg.serverIp), Some(cfg.leaseSecs))))
  {
    hide ReadMessage, ReplyFrame, ClientFrame, MessageTypeIn, WordIn, LeaseFrom, ClientOptions, ReplyOptions;
    var f := ClientFrame(c, Request) + padIn;
    var m, r :| AnswersWith(cfg, room, s, f, s', ack, m, r);
    ClientReads(c, Request, padIn);
    ChoiceReads(c, ip, cfg.serverIp);
    ReplyReads(cfg, m, r, padOut);
    LeaseReads(cfg, ip, Message(m.xid, false, UNSPECIFIED, r.ip, m.mac, ReplyOptions(cfg, Ack)));
  }

  /** And the ACK does come. */
  lemma AckComes(cfg: Config, room: nat, c: Client, ip: Ipv4, padding: seq<byte>, s: L.Shared) returns (ack: seq<byte>)
    requires Usable(cfg, room) && TakesUp(c, ip, cfg.serverIp) && c.mac in s.leases && s.leases[c.mac] == ip
    ensures Answers(cfg, room, s, ClientFrame(c, Request) + padding, s, ack)
  {
    hide ReadMessage, ReplyFrame, ClientFrame, MessageTypeIn, WordIn, ClientOptions;
    ClientReads(c, Request, padding);
    ChoiceReads(c, ip, cfg.serverIp);
    var m := Message(c.xid, true, UNSPECIFIED, UNSPECIFIED, c.mac, ClientOptions(c, Request));
    var r := Reply(Ack, ip);
    ack := ReplyFrame(cfg, m, r);
    ReplyLength(cfg, m, r);
    assert AnswersWith(cfg, room, s, ClientFrame(c, Request) + padding, s, ack, m, r);
  }

  /** Where the exchange ends: the REQUEST answered, and the client bound to the address. */
  ghost predicate Completes(cfg: Config, room: nat, c: Client, s: L.Shared, padIn: seq<byte>, ack: seq<byte>, padOut: seq<byte>) {
    && |c.mac| == 6 && Due(c) == Some(Request) && |ClientFrame(c, Request)| == REQUEST_SIZE && c.mac in s.leases
    && Answers(cfg, room, s, ClientFrame(c, Request) + padIn, s, ack)
    && var done := Deliver(c, ack + padOut);
       && done.state == Bound && done.lease.Some? && done.lease.value.ip == s.leases[c.mac]
       && done.lease.value.mask == Some(cfg.mask) && done.lease.value.gateway == Some(cfg.gateway)
       && done.lease.value.serverId == Some(cfg.serverIp) && done.lease.value.secs == Some(cfg.leaseSecs)
  }

  lemma RequestCompletes(cfg: Config, room: nat, c: Client, ip: Ipv4, padIn: seq<byte>, padOut: seq<byte>, s: L.Shared)
    returns (ack: seq<byte>)
    requires Usable(cfg, room) && TakesUp(c, ip, cfg.serverIp) && c.mac in s.leases && s.leases[c.mac] == ip
    ensures Completes(cfg, room, c, s, padIn, ack, padOut)
  {
    hide Answers, Deliver, ClientFrame;
    RequestLength(c);
    ack := AckComes(cfg, room, c, ip, padIn, s);
    AckArrives(cfg, room, c, ip, padIn, padOut, s, s, ack);
  }

  /** A fresh client and servers that share a pool with a free address, each with at most 60
      DNS entries and room for its replies: in four messages the client is bound to the
      address leased to it. Between the two it sends, the servers may handle any calls but its
      own RELEASE; every frame may be padded; and the REQUEST may be answered by another
      server with the same identity, whose configuration the client then has. */
  lemma FourMessages(cfg: Config, room: nat, cfg2: Config, room2: nat, mac: seq<byte>, xid: u32, pads: seq<seq<byte>>,
                     ss: seq<L.Shared>, cs: seq<L.Call>, lo: Ipv4, hi: Ipv4)
    returns (offer: seq<byte>, ack: seq<byte>)
    requires Usable(cfg, room) && Usable(cfg2, room2) && cfg2.serverIp == cfg.serverIp
    requires |mac| == 6 && |pads| == 4 && L.Serial(ss, cs) && |ss| == |cs| + 1 > 1
    requires L.Partition(ss[0], lo, hi) && (mac in ss[0].leases || ss[0].free != {})
    requires cs[0] == L.Assign(mac) && forall k | 1 <= k < |cs| :: cs[k] != L.GiveUp(mac)
    ensures |ClientFrame(Fresh(mac, xid), Discover)| == DISCOVER_SIZE
    ensures Answers(cfg, room, ss[0], ClientFrame(Fresh(mac, xid), Discover) + pads[0], ss[1], offer)
    ensures Completes(cfg2, room2, Deliver(Discovering(mac, xid), offer + pads[1]), ss[|cs|], pads[2], ack, pads[3])
  {
    assert L.Handle(ss[0], cs[0], ss[1]);
    hide Answers, Deliver, ClientFrame, Discovering, Usable, L.Serial, L.Handle, L.Partition, Completes;
    DiscoverLength(Fresh(mac, xid));
    offer := OfferComes(cfg, room, mac, xid, pads[0], ss[0], ss[1], lo, hi);
    OfferArrives(cfg, room, mac, xid, pads[0], pads[1], ss[0], ss[1], offer);
    L.LeasePersists(ss, cs, mac, 1, |cs|);
    ack := RequestCompletes(cfg2, room2, Deliver(Discovering(mac, xid), offer + pads[1]), ss[1].leases[mac],
                            pads[2], pads[3], ss[|cs|]);
  }

  // ---------------------------------------------------- the objects and their buffers

  /** The server has a lease for the client, or a free address it can hand out. */
  ghost predicate CanLease(server: Server, mac: seq<byte>)
    reads server.pool, server.leases
  {
    server.pool.intervals != Pool.WHOLE && (mac in server.leases.byMac || FreeSet(server.pool) != {})
  }

  /** The first two messages, from `poll` through `handle` to `on_receive`. */
  method OfferLeg(client: DhcpClient, server: Server, clientOut: array<byte>, serverOut: array<byte>)
    returns (ok: bool)
    requires client.Value() == Fresh(client.mac, client.xid) && |client.mac| == 6
    requires server.Valid() && clientOut != serverOut
    modifies client, server.pool, server.leases, clientOut, serverOut
    ensures server.Valid()
    ensures ok <==> old(CanLease(server, client.mac)) && |server.cfg.dns| <= 60
                    && DISCOVER_SIZE <= clientOut.Length && ReplySize(server.cfg) <= serverOut.Length
    ensures ok ==> client.mac in server.leases.byMac
    ensures ok ==> client.Value() == Client(client.mac, client.xid, Requesting, Some(server.leases.byMac[client.mac]),
                                            Some(server.cfg.serverIp), None)
    ensures !ok ==> client.state == Init || client.state == Selecting
  {
    hide View.ParseDhcp, ClientFrame, ReplyFrame, L.Handle, L.Partition, MessageTypeIn, WordIn, Items, ClientOptions,
      ReplyOptions, FreeSet;
    ghost var c := client.Value();
    DiscoverLength(c);
    var n := client.Poll(clientOut);
    if n.None? { return false; }
    var f := clientOut[..n.value];
    assert f == ClientFrame(c, Discover) && f + [] == f;
    ClientReads(c, Discover, []);
    var n2;
    ghost var reply;
    ghost var s := server.State();
    ghost var whole := server.pool.intervals == Pool.WHOLE;
    n2, reply := server.Handle(f, View.ParseDhcp(f).value, serverOut);
    ghost var m := MessageAt(f, View.ParseDhcp(f).value);
    if !whole { AssignedIffPossible(s, c.mac, server.State()); }
    if reply.Some? && |server.cfg.dns| <= 60 { ReplyLength(server.cfg, m, reply.value); }
    if n2.None? { return false; }
    var g := serverOut[..n2.value];
    assert g == ReplyFrame(server.cfg, m, reply.value) && g + [] == g;
    assert AnswersWith(server.cfg, serverOut.Length, s, f, server.State(), g, m, reply.value);
    OfferArrives(server.cfg, serverOut.Length, c.mac, c.xid, [], [], s, server.State(), g);
    ReplyReads(server.cfg, m, reply.value, []);
    client.OnReceive(g, View.ParseDhcp(g).value);
    return true;
  }

  lemma AssignedIffPossible(s: L.Shared, mac: seq<byte>, s': L.Shared)
    ensures L.Handle(s, L.Assign(mac), s') ==> (mac in s'.leases <==> mac in s.leases || s.free != {})
  {
  }

  /** The last two messages. */
  method AckLeg(client: DhcpClient, server: Server, clientOut: array<byte>, serverOut: array<byte>)
    returns (ok: bool)
    requires server.Valid() && clientOut != serverOut && client.mac in server.leases.byMac
    requires TakesUp(client.Value(), server.leases.byMac[client.mac], server.cfg.serverIp)
    modifies client, server.pool, server.leases, clientOut, serverOut
    ensures server.Valid() && server.State() == old(server.State())
    ensures ok <==> |server.cfg.dns| <= 60 && REQUEST_SIZE <= clientOut.Length && ReplySize(server.cfg) <= serverOut.Length
    ensures ok <==> client.state == Bound
    ensures ok ==> client.lease == Some(Lease(server.leases.byMac[client.mac], Some(server.cfg.mask), Some(server.cfg.gateway),
                                              Some(server.cfg.serverIp), Some(server.cfg.leaseSecs)))
  {
    hide View.ParseDhcp, ClientFrame, ReplyFrame, L.Partition, MessageTypeIn, WordIn, Items, ClientOptions,
      ReplyOptions, FreeSet, LeaseFrom;
    ghost var c := client.Value();
    RequestLength(c);
    if server.pool.intervals == Pool.WHOLE { WholeLeasesNothing(server.pool, server.State()); }
    var n := client.Poll(clientOut);
    if n.None? { return false; }
    var f := clientOut[..n.value];
    assert f == ClientFrame(c, Request) && f + [] == f;
    ClientReads(c, Request, []);
    ChoiceReads(c, c.offeredIp.value, server.cfg.serverIp);
    var n2;
    ghost var reply;
    ghost var s := server.State();
    n2, reply := server.Handle(f, View.ParseDhcp(f).value, serverOut);
    ghost var m := MessageAt(f, View.ParseDhcp(f).value);
    if |server.cfg.dns| <= 60 { ReplyLength(server.cfg, m, reply.value); }
    if n2.None? { return false; }
    var g := serverOut[..n2.value];
    assert g == ReplyFrame(server.cfg, m, reply.value) && g + [] == g;
    assert AnswersWith(server.cfg, serverOut.Length, s, f, server.State(), g, m, reply.value);
    AckArrives(server.cfg, serverOut.Length, c, c.offeredIp.value, [], [], s, server.State(), g);
    ReplyReads(server.cfg, m, reply.value, []);
    client.OnReceive(g, View.ParseDhcp(g).value);
    return true;
  }

  /** The whole exchange on the real objects. A fresh client ends up bound if and only if the
      server has an address for it, both servers have at most 60 DNS entries, and the buffers
      hold a REQUEST and both servers' replies. */
  method Exchange(client: DhcpClient, server: Server, sibling: Server,
                  clientOut: array<byte>, serverOut: array<byte>)
    requires client.Value() == Fresh(client.mac, client.xid) && |client.mac| == 6
    requires server.Valid() && sibling.Valid() && clientOut != serverOut
    requires sibling.pool == server.pool && sibling.leases == server.leases && sibling.cfg.serverIp == server.cfg.serverIp
    modifies client, server.pool, server.leases, clientOut, serverOut
    ensures server.Valid() && sibling.Valid()
    ensures client.state == Bound <==>
              && old(CanLease(server, client.mac)) && |server.cfg.dns| <= 60 && |sibling.cfg.dns| <= 60
              && REQUEST_SIZE <= clientOut.Length
              && ReplySize(server.cfg) <= serverOut.Length && ReplySize(sibling.cfg) <= serverOut.Length
    ensures client.state == Bound ==> client.mac in server.leases.byMac
    ensures client.state == Bound ==>
              client.lease == Some(Lease(server.leases.byMac[client.mac], Some(sibling.cfg.mask), Some(sibling.cfg.gateway),
                                         Some(sibling.cfg.serverIp), Some(sibling.cfg.leaseSecs)))
  {
    hide L.Partition, FreeSet, ReplySize;
    var ok := OfferLeg(client, server, clientOut, serverOut);
    if ok {
      ok := AckLeg(client, sibling, clientOut, serverOut);
    }
  }
}

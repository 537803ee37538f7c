/** The WAN DHCP client (src/router/dhcp.rs): a four-state machine that broadcasts DISCOVER and
    REQUEST and listens for the replies to its own transaction. */
module DhcpClient {
  import opened Wire
  import View
  import opened DhcpOptions
  import opened Frame
  import opened DhcpMessage

  datatype ClientState = Init | Selecting | Requesting | Bound

  datatype Lease = Lease(ip: Ipv4, mask: Option<Ipv4>, gateway: Option<Ipv4>, serverId: Option<Ipv4>, secs: Option<u32>)

  datatype Client = Client(mac: seq<byte>, xid: u32, state: ClientState,
                           offeredIp: Option<Ipv4>, serverId: Option<Ipv4>, lease: Option<Lease>)

  const WANTED: seq<byte> := [SUBNET_MASK, ROUTER, DNS_SERVER, LEASE_TIME]

  function Fresh(mac: seq<byte>, xid: u32): Client {
    Client(mac, xid, Init, None, None, None)
  }

  // --------------------------------------------------------------- what it sends

  function WordOption(code: byte, v: Option<u32>): seq<Opt> {
    if v.Some? then [Opt(code, Bytes32(v.value))] else []
  }

  /** The offer a REQUEST takes up. */
  function ChoiceOptions(c: Client, kind: MessageType): (os: seq<Opt>)
    ensures AllWritable(os) && |os| <= 2
  {
    if kind == Request then WordOption(REQUESTED_IP, c.offeredIp) + WordOption(SERVER_ID, c.serverId) else []
  }

  function ClientOptions(c: Client, kind: MessageType): (os: seq<Opt>)
    ensures AllWritable(os) && |os| <= 4
  {
    [Opt(MESSAGE_TYPE, [MessageByte(kind)])] + ChoiceOptions(c, kind) + [Opt(PARAMETER_LIST, WANTED)]
  }

  function ClientHeader(c: Client): Header {
    Header(BOOTREQUEST, c.xid, true, UNSPECIFIED, UNSPECIFIED, c.mac)
  }

  /** The client has no address yet: from 0.0.0.0 to everyone. */
  function ClientAddressing(c: Client): UdpV4 {
    UdpV4(c.mac, BROADCAST_MAC, UNSPECIFIED, BROADCAST_IP, CLIENT_PORT, SERVER_PORT, TTL)
  }

  function ClientPayload(c: Client, kind: MessageType): seq<byte>
    requires |c.mac| == 6
  {
    Payload(ClientHeader(c), ClientOptions(c, kind))
  }

  function ClientFrame(c: Client, kind: MessageType): seq<byte>
    requires |c.mac| == 6
  {
    FrameOf(ClientAddressing(c), ClientPayload(c, kind))
  }

  /** What the client wants to send. */
  function Due(c: Client): Option<MessageType> {
    match c.state
    case Init => Some(Discover)
    case Requesting => Some(Request)
    case _ => None
  }

  function AfterSending(c: Client): Client {
    if c.state == Init then c.(state := Selecting) else c
  }

  // ------------------------------------------------------------ what it receives

  function LeaseFrom(m: Message): Lease {
    var routers := AddressesIn(m.options, ROUTER);
    Lease(m.yourIp, WordIn(m.options, SUBNET_MASK), if routers == [] then None else Some(routers[0]),
          WordIn(m.options, SERVER_ID), WordIn(m.options, LEASE_TIME))
  }

  function AfterReceiving(c: Client, m: Message): Client {
    if m.xid != c.xid then c
    else
      match MessageTypeIn(m.options)
      case Some(Offer) =>
        if c.state == Selecting
        then c.(offeredIp := Some(m.yourIp), serverId := WordIn(m.options, SERVER_ID), state := Requesting)
        else c
      case Some(Ack) => if c.state == Requesting then c.(lease := Some(LeaseFrom(m)), state := Bound) else c
      case Some(Nak) => c.(offeredIp := None, serverId := None, state := Init)
      case _ => c
  }

  /** How the client reacts, by the type byte of a message: to an OFFER (2) only while selecting,
      to an ACK (5) only while requesting, to a NAK (6) always, and to nothing of another
      transaction. After a NAK it starts over with a DISCOVER, and keeps the lease it has. */
  lemma Reacts(c: Client, m: Message)
    ensures m.xid != c.xid ==> AfterReceiving(c, m) == c
    ensures m.xid == c.xid && Carries(m.options, 2) ==>
              AfterReceiving(c, m) == if c.state != Selecting then c
                                      else Client(c.mac, c.xid, Requesting, Some(m.yourIp), WordIn(m.options, 54), c.lease)
    ensures m.xid == c.xid && Carries(m.options, 5) ==>
              AfterReceiving(c, m) == if c.state != Requesting then c
                                      else Client(c.mac, c.xid, Bound, c.offeredIp, c.serverId, Some(LeaseFrom(m)))
    ensures m.xid == c.xid && Carries(m.options, 6) ==>
              AfterReceiving(c, m) == Client(c.mac, c.xid, Init, None, None, c.lease) && Due(AfterReceiving(c, m)) == Some(Discover)
    ensures !Carries(m.options, 2) && !Carries(m.options, 5) && !Carries(m.options, 6) ==> AfterReceiving(c, m) == c
  {
    hide LeaseFrom, WordIn;
  }

  /** What the lease is read from: the address the server gives, option 1 for the mask, the first
      address of option 3 for the gateway, options 54 and 51 for server and time. */
  lemma LeaseFields(m: Message)
    ensures var l := LeaseFrom(m);
            && l.ip == m.yourIp && l.mask == WordIn(m.options, 1) && l.serverId == WordIn(m.options, 54) && l.secs == WordIn(m.options, 51)
            && l.gateway == (var v := Value(m.options, 3); if v.Some? && |v.value| >= 4 then Some(Be32(v.value, 0)) else None)
  {
    hide WordIn, Be32;
  }

  /** Where a client's message goes: from 0.0.0.0 port 68 to everyone's port 67. */
  lemma ClientGoesTo(c: Client)
    ensures var p := ClientAddressing(c);
            && p.srcMac == c.mac && p.dstMac == [255, 255, 255, 255, 255, 255] && p.srcIp == 0 && p.dstIp == 0xFFFF_FFFF
            && p.srcPort == 68 && p.dstPort == 67 && p.ttl == 64
  {
  }

  /** The options of a DISCOVER and of a REQUEST, byte by byte. */
  lemma DiscoverOptionBytes(c: Client)
    ensures EncodedAll(ClientOptions(c, Discover)) == [53, 1, 1] + [55, 4, 1, 3, 6, 51]
  {
    hide EncodedAll, Encoded;
    var first, last := Opt(53, [1]), Opt(55, [1, 3, 6, 51]);
    EncodedOne(first);
    EncodedOne(last);
    EncodedConcat([first], [last]);
    assert ClientOptions(c, Discover) == [first] + [last];
  }

  lemma RequestOptionBytes(c: Client)
    requires c.offeredIp.Some? && c.serverId.Some?
    ensures EncodedAll(ClientOptions(c, Request))
         == [53, 1, 3] + ([50, 4] + Bytes32(c.offeredIp.value)) + ([54, 4] + Bytes32(c.serverId.value)) + [55, 4, 1, 3, 6, 51]
  {
    hide EncodedAll, Encoded, Bytes32;
    var first, last := Opt(53, [3]), Opt(55, [1, 3, 6, 51]);
    var a, b := Opt(50, Bytes32(c.offeredIp.value)), Opt(54, Bytes32(c.serverId.value));
    EncodedOne(first);
    EncodedOne(a);
    EncodedOne(b);
    EncodedOne(last);
    EncodedConcat([first], [a]);
    EncodedConcat([first] + [a], [b]);
    EncodedConcat([first] + [a] + [b], [last]);
    assert ClientOptions(c, Request) == [first] + [a] + [b] + [last];
  }

  // ------------------------------------------------------------------- the object

  class DhcpClient {
    const mac: seq<byte>
    const xid: u32
    var state: ClientState
    var offeredIp: Option<Ipv4>
    var serverId: Option<Ipv4>
    var lease: Option<Lease>

    function Value(): Client
      reads this
    {
      Client(mac, xid, state, offeredIp, serverId, lease)
    }

    constructor (mac: seq<byte>, xid: u32)
      ensures Value() == Fresh(mac, xid)
    {
      this.mac, this.xid := mac, xid;
      state, offeredIp, serverId, lease := Init, None, None, None;
    }

    /** Append the offer taken up, to the options `os` already there. */
    method WriteChoice(w: OptionsWriter, ghost os: seq<Opt>) returns (ok: bool)
      requires w.Valid() && w.start + w.len + 12 <= w.buf.Length && AllWritable(os) && w.Written() == EncodedAll(os)
      modifies w, w.buf
      ensures ok && w.Valid() && w.len <= old(w.len) + 12
      ensures var all := os + ChoiceOptions(Value(), Request);
              AllWritable(all) && w.Written() == EncodedAll(all)
      ensures forall k | 0 <= k < w.start :: w.buf[k] == old(w.buf[k])
    {
      hide EncodedAll, Encoded, Bytes32;
      ghost var all := os;
      ok := true;
      if offeredIp.Some? {
        EncodedAllAdd(all, Opt(REQUESTED_IP, Bytes32(offeredIp.value)));
        all := all + [Opt(REQUESTED_IP, Bytes32(offeredIp.value))];
        ok := w.Word(REQUESTED_IP, offeredIp.value);
      }
      if ok && serverId.Some? {
        EncodedAllAdd(all, Opt(SERVER_ID, Bytes32(serverId.value)));
        all := all + [Opt(SERVER_ID, Bytes32(serverId.value))];
        ok := w.Word(SERVER_ID, serverId.value);
      }
      assert all == os + ChoiceOptions(Value(), Request);
    }

    /** Write the options; the scratch buffer always has room for them. */
    method WriteOptions(kind: MessageType, w: OptionsWriter) returns (ok: bool)
      requires w.Valid() && w.len == 0 && w.start + 32 <= w.buf.Length
      modifies w, w.buf
      ensures ok && w.Valid() && w.Written() == EncodedAll(ClientOptions(Value(), kind)) + [END]
      ensures forall k | 0 <= k < w.start :: w.buf[k] == old(w.buf[k])
    {
      hide EncodedAll, Encoded, Bytes32, MessageByte, WordOption;
      ghost var first, last := Opt(MESSAGE_TYPE, [MessageByte(kind)]), Opt(PARAMETER_LIST, WANTED);
      ghost var os := [first];
      EncodedAllAdd([], first);
      assert [] + [first] == os && EncodedAll(os) == Encoded(first) by { EncodedNone(); }
      ok := w.Message(kind);
      if ok && kind == Request {
        ok := WriteChoice(w, os);
        os := os + ChoiceOptions(Value(), kind);
      }
      assert os == [first] + ChoiceOptions(Value(), kind);
      EncodedAllAdd(os, last);
      if ok { ok := w.Option(PARAMETER_LIST, WANTED); }
      assert os + [last] == ClientOptions(Value(), kind);
      if ok { ok := w.End(); }
    }

    /** Build the message into `out`, or fail, changing nothing, if it does not fit. */
    method Build(kind: MessageType, out: array<byte>) returns (n: Option<nat>)
      requires |mac| == 6
      modifies out
      ensures Sent(Value(), kind, old(out[..]), out[..], n)
    {
      hide FrameOf, ClientOptions, HeaderBytes, EncodedAll;
      var c := Value();
      var scratch := new byte[PAYLOAD_MAX](_ => 0);
      WriteHeader(scratch, ClientHeader(c));
      var w := new OptionsWriter(scratch, View.DHCP_LEN);
      label L:
      assert scratch[..View.DHCP_LEN] == HeaderBytes(ClientHeader(c));
      var ok := WriteOptions(kind, w);
      assert scratch[..View.DHCP_LEN] == old@L(scratch[..View.DHCP_LEN]);
      var size := View.DHCP_LEN + w.len;
      assert scratch[..size] == scratch[..View.DHCP_LEN] + w.Written() == ClientPayload(c, kind);
      n := BuildUdpIpv4(out, ClientAddressing(c), scratch[..size]);
    }

    /** Produce the next message, if there is one and it fits. */
    method Poll(out: array<byte>) returns (n: Option<nat>)
      requires |mac| == 6
      modifies this, out
      ensures Due(old(Value())).None? ==> n.None? && Value() == old(Value()) && out[..] == old(out[..])
      ensures Due(old(Value())).Some? ==> Sent(old(Value()), Due(old(Value())).value, old(out[..]), out[..], n)
      ensures Value() == if n.Some? then AfterSending(old(Value())) else old(Value())
    {
      hide Sent;
      match state
      case Init =>
        n := Build(Discover, out);
        if n.Some? {
          state := Selecting;
        }
      case Requesting =>
        n := Build(Request, out);
      case _ =>
        n := None;
    }

    method OnReceive(f: seq<byte>, v: View.Dhcp)
      requires View.ParseDhcp(f) == Some(v)
      modifies this
      ensures Value() == AfterReceiving(old(Value()), MessageAt(f, v))
    {
      hide View.ParseDhcp, Items, WordIn;
      var m := MessageAt(f, v);
      if m.xid != xid { return; }
      match MessageTypeIn(m.options)
      case Some(Offer) =>
        if state == Selecting {
          offeredIp, serverId, state := Some(m.yourIp), WordIn(m.options, SERVER_ID), Requesting;
        }
      case Some(Ack) =>
        if state == Requesting {
          lease, state := Some(LeaseFrom(m)), Bound;
        }
      case Some(Nak) =>
        offeredIp, serverId, state := None, None, Init;
      case _ =>
    }
  }

  ghost predicate Sent(c: Client, kind: MessageType, before: seq<byte>, after: seq<byte>, n: Option<nat>) {
    && |c.mac| == 6
    && var f := ClientFrame(c, kind);
       if |f| <= |before| then n == Some(|f|) && after == f + before[|f|..] else n == None && after == before
  }

  lemma EncodedNone()
    ensures EncodedAll([]) == []
  {
  }

  // ---------------------------------------------------------------- whole runs

  datatype Event = Polled(fits: bool) | Heard(message: Message)

  function After(c: Client, e: Event): Client {
    match e
    case Polled(fits) => if fits then AfterSending(c) else c
    case Heard(m) => AfterReceiving(c, m)
  }

  function AfterAll(c: Client, es: seq<Event>): Client {
    if es == [] then c else After(AfterAll(c, es[..|es| - 1]), es[|es| - 1])
  }

  predicate Hears(e: Event, xid: u32, kind: MessageType) {
    e.Heard? && e.message.xid == xid && MessageTypeIn(e.message.options) == Some(kind)
  }

  ghost predicate Quiet(es: seq<Event>, from: nat, xid: u32) {
    forall k | from <= k < |es| :: !Hears(es[k], xid, Nak)
  }

  /** A REQUEST carries the address and the server of an OFFER to this very transaction,
      that no NAK has withdrawn since. */
  lemma {:induction false} RequestingHasOffer(mac: seq<byte>, xid: u32, es: seq<Event>) returns (i: nat)
    requires AfterAll(Fresh(mac, xid), es).state == Requesting
    ensures i < |es| && Hears(es[i], xid, Offer) && Quiet(es, i + 1, xid)
    ensures var c := AfterAll(Fresh(mac, xid), es);
            c.offeredIp == Some(es[i].message.yourIp) && c.serverId == WordIn(es[i].message.options, SERVER_ID)
  {
    hide WordIn, MessageTypeIn;
    SameIdentity(Fresh(mac, xid), es[..|es| - 1]);
    if AfterAll(Fresh(mac, xid), es[..|es| - 1]).state == Requesting {
      i := RequestingHasOffer(mac, xid, es[..|es| - 1]);
      QuietGrows(es, i + 1, xid);
    } else {
      i := |es| - 1;
    }
  }

  lemma QuietGrows(es: seq<Event>, from: nat, xid: u32)
    requires |es| > 0 && Quiet(es[..|es| - 1], from, xid) && !Hears(es[|es| - 1], xid, Nak)
    ensures Quiet(es, from, xid)
  {
    hide Hears;
    forall k | from <= k < |es| ensures !Hears(es[k], xid, Nak) {
      if k < |es| - 1 { assert es[..|es| - 1][k] == es[k]; }
    }
  }

  lemma {:induction false} SameIdentity(c: Client, es: seq<Event>)
    ensures AfterAll(c, es).mac == c.mac && AfterAll(c, es).xid == c.xid
  {
    if es == [] {
    } else {
      SameIdentity(c, es[..|es| - 1]);
    }
  }

  /** In every run: a bound client holds the lease of an ACK to its own transaction, which
      came after an OFFER to it, and no NAK has come since. */
  lemma {:induction false} BoundHasAck(mac: seq<byte>, xid: u32, es: seq<Event>) returns (i: nat, j: nat)
    requires AfterAll(Fresh(mac, xid), es).state == Bound
    ensures i < j < |es| && Hears(es[i], xid, Offer) && Hears(es[j], xid, Ack) && Quiet(es, i + 1, xid)
    ensures AfterAll(Fresh(mac, xid), es).lease == Some(LeaseFrom(es[j].message))
  {
    hide LeaseFrom, WordIn, MessageTypeIn;
    SameIdentity(Fresh(mac, xid), es[..|es| - 1]);
    if AfterAll(Fresh(mac, xid), es[..|es| - 1]).state == Bound {
      i, j := BoundHasAck(mac, xid, es[..|es| - 1]);
    } else {
      i := RequestingHasOffer(mac, xid, es[..|es| - 1]);
      j := |es| - 1;
    }
    QuietGrows(es, i + 1, xid);
  }

  /** The lease outlives the binding: it is there exactly if some ACK was accepted, even
      after a NAK has sent the client back to the start. */
  lemma {:induction false} LeaseIsEverBound(c: Client, es: seq<Event>)
    requires c.lease == None && c.state != Bound
    ensures AfterAll(c, es).lease.Some? <==> exists k :: 0 <= k <= |es| && AfterAll(c, es[..k]).state == Bound
  {
    if es == [] {
      assert es[..0] == es;
    } else {
      var pre := es[..|es| - 1];
      LeaseIsEverBound(c, pre);
      assert es[..|es|] == es;
      assert forall k | 0 <= k <= |pre| :: es[..k] == pre[..k];
      hide MessageTypeIn, LeaseFrom;
      BoundKeepsLease(c, pre);
      if AfterAll(c, es).lease.Some? && !AfterAll(c, pre).lease.Some? {
        assert AfterAll(c, es[..|es|]).state == Bound;
      }
    }
  }

  lemma {:induction false} BoundKeepsLease(c: Client, es: seq<Event>)
    requires c.lease == None && c.state != Bound
    ensures AfterAll(c, es).state == Bound ==> AfterAll(c, es).lease.Some?
    ensures AfterAll(c, es).lease.Some? && es != [] && AfterAll(c, es[..|es| - 1]).lease.None? ==> AfterAll(c, es).state == Bound
  {
    if es == [] {
    } else {
      BoundKeepsLease(c, es[..|es| - 1]);
    }
  }
}

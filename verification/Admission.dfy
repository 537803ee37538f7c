/** The table steps of `lan_egress_nat` and `wan_ingress_nat` (src/router/app.rs), which put the
    NAT table and connection tracking together into the router's admission rule.

    The tables are locked separately, so a worker handling a frame takes several steps:
    outbound, it reads the public address, updates connection tracking and then translates;
    inbound, it translates and then asks connection tracking. Workers, sweeps and address
    changes interleave freely. */
module Admission {
  import opened Wire
  import opened View
  import opened Nat
  import opened NatRewrite
  import CT = ConnTrack

  /** A frame between two of a worker's steps. */
  datatype Work =
    | Accepted(frame: seq<byte>)                                      // outbound, not yet tracked
    | Tracked(frame: seq<byte>)                                       // outbound, not yet translated
    | Translated(frame: seq<byte>, tuple: Tuple, to: Endpoint)        // inbound, already rewritten to `to`

  datatype Router = Router(table: Table, flows: CT.Flows, work: map<Tid, Work>)

  datatype Event =
    | LanRead(t: Tid, frame: seq<byte>)
    | LanTrack(t: Tid, now: nat)
    | LanTranslate(t: Tid, r: Option<Endpoint>)
    | WanTranslate(t: Tid, frame: seq<byte>)
    | WanCheck(t: Tid, now: nat)
    | Sweep(now: nat)
    | NewWan(ip: Ipv4)

  /** The flow a LAN packet belongs to: its source is the internal endpoint. */
  function LanKey(u: Tuple): CT.FlowKey {
    CT.FlowKey(u.srcIp, u.srcPort, u.dstIp, u.dstPort)
  }

  /** The flow a WAN packet belongs to once its destination is known to be `to`. */
  function WanKey(u: Tuple, to: Endpoint): CT.FlowKey {
    CT.FlowKey(to.ip, to.port, u.srcIp, u.srcPort)
  }

  /** What an event does to connection tracking. */
  function TrackEvent(s: Router, e: Event): Option<CT.Event> {
    match e
    case LanTrack(t, now) =>
      var u := if t in s.work && s.work[t].Accepted? then ParseTcpTuple(s.work[t].frame) else None;
      if u.Some? then Some(CT.Egress(LanKey(u.value), u.value.flags, now)) else None
    case WanCheck(t, now) =>
      if t in s.work && s.work[t].Translated?
      then Some(CT.Ingress(WanKey(s.work[t].tuple, s.work[t].to), s.work[t].tuple.flags, now)) else None
    case Sweep(now) => Some(CT.Sweep(now))
    case _ => None
  }

  function FlowsAfter(s: Router, e: Event): CT.Flows {
    var c := TrackEvent(s, e);
    if c.Some? then CT.Apply(s.flows, c.value) else s.flows
  }

  ghost predicate Step(s: Router, e: Event, s': Router) {
    s'.flows == FlowsAfter(s, e) &&
    match e
    case LanRead(t, frame) =>
      && t !in s.work && s'.table == s.table
      && s'.work == if s.table.wanIp == 0 then s.work else s.work[t := Accepted(frame)]
    case LanTrack(t, now) =>
      && t in s.work && s.work[t].Accepted? && s'.table == s.table
      && var f := s.work[t].frame;
      s'.work == if ParseTcpTuple(f).Some? then s.work[t := Tracked(f)] else s.work - {t}
    case LanTranslate(t, r) =>
      && t in s.work && s.work[t].Tracked? && Classify(s.work[t].frame).Some?
      && var p := Classify(s.work[t].frame).value;
      && Maps(s.table, p.proto, EndpointOf(s.work[t].frame, p, Src), r, s'.table)
      && s'.work == s.work - {t}
    case WanTranslate(t, frame) =>
      && t !in s.work && s'.table == s.table
      && if ParseTcpTuple(frame).None? then s'.work == s.work
         else
           && Classify(frame).Some?
           && var p := Classify(frame).value;
           && var to := Reverse(s.table, p.proto, EndpointOf(frame, p, Dst).port);
           && s'.work == if to.None? then s.work
                         else s.work[t := Translated(Redirected(frame, p, Dst, to.value), ParseTcpTuple(frame).value, to.value)]
    case WanCheck(t, now) =>
      t in s.work && s.work[t].Translated? && s'.table == s.table && s'.work == s.work - {t}
    case Sweep(now) => s'.table == s.table && s'.work == s.work
    case NewWan(ip) => s'.table == s.table.(wanIp := ip) && s'.work == s.work
  }

  /** The worker's check says yes: the packet goes on to neighbor resolution toward `to`. */
  ghost predicate Forwards(s: Router, e: Event) {
    e.WanCheck? && e.t in s.work && s.work[e.t].Translated?
    && CT.Admits(s.flows, WanKey(s.work[e.t].tuple, s.work[e.t].to))
  }

  ghost predicate Run(ss: seq<Router>, es: seq<Event>) {
    |ss| == |es| + 1 && forall k | 0 <= k < |es| :: Step(ss[k], es[k], ss[k + 1])
  }

  ghost predicate Initial(s: Router) {
    Inv(s.table) && s.flows == map[] && s.work == map[]
  }

  // ----------------------------------------------------------------- the binding

  /** Every translated packet in a worker's hands was sent to the port bound to its target,
      reads as addressed to that target, and that is still the binding. */
  ghost predicate WorkSound(s: Router) {
    forall t | t in s.work && s.work[t].Translated? ::
      && 0 <= s.work[t].tuple.dstPort < 0x1_0000
      && Reverse(s.table, Tcp, s.work[t].tuple.dstPort) == Some(s.work[t].to)
      && AddressedTo(s.work[t].frame, s.work[t].to)
  }

  ghost predicate AddressedTo(f: seq<byte>, e: Endpoint) {
    Classify(f).Some? && EndpointOf(f, Classify(f).value, Dst) == e
  }

  /** A frame that parses as TCP is classified as TCP, with the same endpoints. */
  lemma TupleIsPacket(f: seq<byte>)
    requires ParseTcpTuple(f).Some?
    ensures Classify(f).Some? && Classify(f).value.proto == Tcp
    ensures EndpointOf(f, Classify(f).value, Dst) == Endpoint(ParseTcpTuple(f).value.dstIp, ParseTcpTuple(f).value.dstPort)
    ensures EndpointOf(f, Classify(f).value, Src) == Endpoint(ParseTcpTuple(f).value.srcIp, ParseTcpTuple(f).value.srcPort)
  {
  }

  lemma StepKeepsTable(s: Router, e: Event, s': Router)
    requires Inv(s.table) && Step(s, e, s')
    ensures Inv(s'.table) && forall k | k in s.table.rev :: k in s'.table.rev && s'.table.rev[k] == s.table.rev[k]
  {
    match e
    case LanTranslate(t, r) =>
      var p := Classify(s.work[t].frame).value;
      StepKeeps(s.table, Send(p.proto, EndpointOf(s.work[t].frame, p, Src), r), s'.table);
    case NewWan(ip) =>
      StepKeeps(s.table, SetWan(ip), s'.table);
    case _ =>
  }

  lemma StepKeepsWork(s: Router, e: Event, s': Router)
    requires Inv(s.table) && WorkSound(s) && Step(s, e, s')
    ensures WorkSound(s')
  {
    hide Classify, EndpointOf, Redirected, ParseTcpTuple, Maps, FlowsAfter, AddressedTo, Inv;
    StepKeepsTable(s, e, s');
    if e.WanTranslate? && ParseTcpTuple(e.frame).Some? {
      TupleIsPacket(e.frame);
      var p := Classify(e.frame).value;
      var to := Reverse(s.table, p.proto, EndpointOf(e.frame, p, Dst).port);
      if to.Some? {
        RedirectedAddress(e.frame, p, to.value);
      }
    }
  }

  lemma RedirectedAddress(f: seq<byte>, p: Packet, e: Endpoint)
    requires Classify(f) == Some(p)
    ensures AddressedTo(Redirected(f, p, Dst, e), e)
  {
    hide Classify, Rewritten, EndpointOf;
    ReparsesSame(f, p, Dst, Bytes32(e.ip), Bytes16(e.port));
    EndpointReadBack(f, p, Dst, e);
  }

  /** What the translating steps do to the binding. An outbound packet is taken up if and only if
      there is a public address; its source endpoint then gets a port, under the public address of
      the moment, that leads back to it. An inbound packet goes to the endpoint its destination
      port is bound to, and is dropped if there is none. */
  lemma TranslationsMean(s: Router, e: Event, s': Router)
    requires Inv(s.table) && Step(s, e, s')
    ensures e.LanRead? ==> (e.t in s'.work <==> s.table.wanIp != 0)
    ensures e.LanTranslate? && e.r.Some? && ParseTcpTuple(s.work[e.t].frame).Some? ==>
              var sent := ParseTcpTuple(s.work[e.t].frame).value;
              && e.r.value.ip == s.table.wanIp
              && Reverse(s'.table, Tcp, e.r.value.port) == Some(Endpoint(sent.srcIp, sent.srcPort))
    ensures e.WanTranslate? && ParseTcpTuple(e.frame).Some? ==>
              var u := ParseTcpTuple(e.frame).value;
              && 0 <= u.dstPort < 0x1_0000
              && (e.t in s'.work <==> Reverse(s.table, Tcp, u.dstPort).Some?)
              && (e.t in s'.work ==> s'.work[e.t].Translated? && s'.work[e.t].tuple == u
                                     && Some(s'.work[e.t].to) == Reverse(s.table, Tcp, u.dstPort))
  {
    hide Classify, EndpointOf, Redirected, ParseTcpTuple, Maps, FlowsAfter, Inv;
    if e.LanTranslate? && e.r.Some? && ParseTcpTuple(s.work[e.t].frame).Some? {
      var f := s.work[e.t].frame;
      TupleIsPacket(f);
      var p := Classify(f).value;
      AnswerIsPublic(s.table, p.proto, EndpointOf(f, p, Src), e.r.value, s'.table);
      RefusedIffExhausted(s.table, p.proto, EndpointOf(f, p, Src), e.r, s'.table);
    }
    if e.WanTranslate? && ParseTcpTuple(e.frame).Some? {
      TupleIsPacket(e.frame);
    }
  }

  // ------------------------------------------------------------------- the flow

  /** The event is a LAN host's SYN, without ACK and RST, that opens flow `k`. */
  ghost predicate Opened(s: Router, e: Event, k: CT.FlowKey) {
    TrackEvent(s, e).Some? && CT.Opens(TrackEvent(s, e).value, k)
  }

  /** The event is an RST on flow `k` in either direction, a sweep that finds it expired, or the
      ACK that closes its second endpoint. */
  ghost predicate Ended(s: Router, e: Event, k: CT.FlowKey) {
    TrackEvent(s, e).Some? && CT.Ends(s.flows, TrackEvent(s, e).value, k)
  }

  /** What it takes to open the flow that an inbound packet belongs to, in terms of the packet sent:
      its source is the endpoint the inbound packet goes to, its destination is where that one
      comes from, and of its flags SYN (bit 1) is set, and neither ACK (bit 4) nor RST (bit 2). */
  lemma OpenedMeans(s: Router, e: Event, u: Tuple, to: Endpoint)
    requires Opened(s, e, WanKey(u, to))
    ensures e.LanTrack? && e.t in s.work && s.work[e.t].Accepted? && ParseTcpTuple(s.work[e.t].frame).Some?
    ensures var sent := ParseTcpTuple(s.work[e.t].frame).value;
            && sent.srcIp == to.ip && sent.srcPort == to.port && sent.dstIp == u.srcIp && sent.dstPort == u.srcPort
            && sent.flags % 4 >= 2 && sent.flags % 32 < 16 && sent.flags % 8 < 4
  {
    hide ParseTcpTuple;
    CT.FlagBits(TrackEvent(s, e).value.flags);
  }

  /** And to reset it: RST (bit 2) on a packet from the endpoint to that peer, or on one from that
      peer that NAT has translated to the endpoint. */
  lemma ResetMeans(s: Router, e: Event, u: Tuple, to: Endpoint)
    ensures
      (TrackEvent(s, e).Some? && CT.ResetOf(TrackEvent(s, e).value, WanKey(u, to)))
      <==>
      || (e.LanTrack? && e.t in s.work && s.work[e.t].Accepted? && ParseTcpTuple(s.work[e.t].frame).Some?
          && var sent := ParseTcpTuple(s.work[e.t].frame).value;
             sent.srcIp == to.ip && sent.srcPort == to.port && sent.dstIp == u.srcIp && sent.dstPort == u.srcPort
             && sent.flags % 8 >= 4)
      || (e.WanCheck? && e.t in s.work && s.work[e.t].Translated?
          && s.work[e.t].to == to && s.work[e.t].tuple.srcIp == u.srcIp && s.work[e.t].tuple.srcPort == u.srcPort
          && s.work[e.t].tuple.flags % 8 >= 4)
  {
    hide ParseTcpTuple;
    if TrackEvent(s, e).Some? && !TrackEvent(s, e).value.Sweep? {
      CT.FlagBits(TrackEvent(s, e).value.flags);
    }
  }

  /** Event `i` opened flow `k`, and nothing before event `n` has ended it since. */
  ghost predicate AliveSince(ss: seq<Router>, es: seq<Event>, i: nat, n: nat, k: CT.FlowKey)
    requires n <= |es| < |ss|
  {
    i < n && Opened(ss[i], es[i], k) && forall j | i < j < n :: !Ended(ss[j], es[j], k)
  }

  /** One event, seen from flow `k`. */
  lemma FlowEvent(s: Router, e: Event, s': Router, k: CT.FlowKey)
    requires CT.AllSane(s.flows) && Step(s, e, s')
    ensures CT.AllSane(s'.flows)
    ensures k !in s.flows ==> (k in s'.flows <==> Opened(s, e, k))
    ensures k in s.flows ==> (k !in s'.flows <==> Ended(s, e, k))
    ensures Opened(s, e, k) ==> k in s'.flows
  {
    var c := TrackEvent(s, e);
    hide ParseTcpTuple, Classify, Maps, Redirected, EndpointOf, CT.Apply, CT.Opens, CT.Ends, CT.AllSane;
    if c.Some? {
      CT.ApplySane(s.flows, c.value);
      if k in s.flows {
        CT.RemovedExactly(s.flows, c.value, k);
      } else {
        CT.CreatedExactly(s.flows, c.value, k);
      }
      if CT.Opens(c.value, k) { CT.OpeningStays(s.flows, c.value, k); }
    }
  }

  lemma {:induction false} RunSound(ss: seq<Router>, es: seq<Event>, n: nat)
    requires Run(ss, es) && Initial(ss[0]) && n < |ss|
    ensures Inv(ss[n].table) && WorkSound(ss[n]) && CT.AllSane(ss[n].flows)
  {
    if n == 0 {
    } else {
      RunSound(ss, es, n - 1);
      assert Step(ss[n - 1], es[n - 1], ss[n]);
      hide Step;
      StepKeepsTable(ss[n - 1], es[n - 1], ss[n]);
      StepKeepsWork(ss[n - 1], es[n - 1], ss[n]);
      FlowEvent(ss[n - 1], es[n - 1], ss[n], CT.FlowKey(0, 0, 0, 0));
    }
  }

  /** Every flow in the table was opened by an outbound SYN and not ended since. */
  lemma {:induction false} FlowHasOrigin(ss: seq<Router>, es: seq<Event>, n: nat, k: CT.FlowKey) returns (i: nat)
    requires Run(ss, es) && Initial(ss[0]) && n < |ss| && k in ss[n].flows
    ensures AliveSince(ss, es, i, n, k)
  {
    hide Step, Opened, Ended, Inv, WorkSound, CT.AllSane;
    RunSound(ss, es, n - 1);
    assert Step(ss[n - 1], es[n - 1], ss[n]);
    FlowEvent(ss[n - 1], es[n - 1], ss[n], k);
    if k in ss[n - 1].flows {
      i := FlowHasOrigin(ss, es, n - 1, k);
    } else {
      i := n - 1;
    }
  }

  /** And such a flow is in the table. */
  lemma {:induction false} FlowStays(ss: seq<Router>, es: seq<Event>, i: nat, n: nat, k: CT.FlowKey)
    requires Run(ss, es) && Initial(ss[0]) && n < |ss| && AliveSince(ss, es, i, n, k)
    ensures k in ss[n].flows
  {
    hide Step, Opened, Ended, Inv, WorkSound, CT.AllSane;
    RunSound(ss, es, n - 1);
    assert Step(ss[n - 1], es[n - 1], ss[n]);
    FlowEvent(ss[n - 1], es[n - 1], ss[n], k);
    if i == n - 1 {
    } else {
      FlowStays(ss, es, i, n - 1, k);
    }
  }

  /** The admission rule, exactly. A WAN packet that NAT has translated reaches neighbor
      resolution, toward the internal endpoint its destination port is bound to, if and only
      if that endpoint earlier sent a SYN (no ACK, no RST) to exactly the peer the packet
      comes from, and since then the flow has seen no RST, no sweep that found it expired,
      and no ACK that closed its second endpoint. The frame is addressed to that endpoint. */
  lemma AdmissionRule(ss: seq<Router>, es: seq<Event>, n: nat)
    requires Run(ss, es) && Initial(ss[0]) && n < |es| && es[n].WanCheck?
    ensures es[n].t in ss[n].work && ss[n].work[es[n].t].Translated?
    ensures var w := ss[n].work[es[n].t];
            && 0 <= w.tuple.dstPort < 0x1_0000 && Reverse(ss[n].table, Tcp, w.tuple.dstPort) == Some(w.to)
            && AddressedTo(w.frame, w.to)
    ensures var w := ss[n].work[es[n].t];
            Forwards(ss[n], es[n]) <==> exists i :: AliveSince(ss, es, i, n, WanKey(w.tuple, w.to))
  {
    assert Step(ss[n], es[n], ss[n + 1]);
    RunSound(ss, es, n);
    hide Run, Initial, Opened, Ended;
    var k := WanKey(ss[n].work[es[n].t].tuple, ss[n].work[es[n].t].to);
    if k in ss[n].flows {
      var i := FlowHasOrigin(ss, es, n, k);
    }
    if i :| AliveSince(ss, es, i, n, k) {
      FlowStays(ss, es, i, n, k);
    }
  }
}

/** TCP connection tracking (src/router/conntrack.rs): two endpoint state machines per flow,
    per section 3.3.2 of RFC 9293, kept in one table with idle timeouts. */
module ConnTrack {
  import opened Wire

  datatype TcpState =
    | Closed | Listen | SynSent | SynReceived | Established | FinWait1 | FinWait2 | CloseWait | Closing | LastAck | TimeWait

  /** The flow between a LAN endpoint and a public peer. */
  datatype FlowKey = FlowKey(intIp: int, intPort: int, extIp: int, extPort: int)

  datatype Conn = Conn(internal: TcpState, external: TcpState, lastSeen: nat)

  predicate Fin(flags: byte) { flags % 2 == 1 }
  predicate Syn(flags: byte) { flags / 2 % 2 == 1 }
  predicate Rst(flags: byte) { flags / 4 % 2 == 1 }
  predicate Ack(flags: byte) { flags / 16 % 2 == 1 }

  function IdleTimeout(s: TcpState): nat {
    match s
    case Closed => 10_000
    case Listen => 60_000
    case SynSent => 60_000
    case SynReceived => 60_000
    case Established => 86_400_000
    case FinWait1 => 60_000
    case FinWait2 => 60_000
    case CloseWait => 60_000
    case Closing => 60_000
    case LastAck => 30_000
    case TimeWait => 120_000
  }

  /** The sender of a packet with these flags. */
  function TransitionOnSend(s: TcpState, flags: byte): TcpState {
    if Rst(flags) then Closed else
    match s
    case Closed => if Syn(flags) && !Ack(flags) then SynSent else s
    case Listen => if Syn(flags) && Ack(flags) then SynReceived else s
    case Established => if Fin(flags) then FinWait1 else s
    case CloseWait => if Fin(flags) then LastAck else s
    case _ => s
  }

  /** The receiver of a packet with these flags. */
  function TransitionOnRecv(s: TcpState, flags: byte): TcpState {
    if Rst(flags) then Closed else
    match s
    case Closed => if Syn(flags) && !Ack(flags) then SynReceived else s
    case Listen => if Syn(flags) && !Ack(flags) then SynReceived else s
    case SynSent => if Syn(flags) && Ack(flags) then Established else if Syn(flags) then SynReceived else s
    case SynReceived => if Ack(flags) && !Fin(flags) then Established else s
    case Established => if Fin(flags) then CloseWait else s
    case FinWait1 =>
      if Fin(flags) && Ack(flags) then TimeWait else if Fin(flags) then Closing else if Ack(flags) then FinWait2 else s
    case FinWait2 => if Fin(flags) then TimeWait else s
    case Closing => if Ack(flags) then TimeWait else s
    case LastAck => if Ack(flags) then Closed else s
    case CloseWait => s
    case TimeWait => s
  }

  /** Which bits of the flag byte the four flags are: FIN is bit 0, SYN bit 1, RST bit 2 and ACK
      bit 4, as in section 3.1 of RFC 9293. Bit `n` is set exactly if the remainder modulo
      2^(n+1) is at least 2^n. */
  lemma FlagBits(flags: byte)
    ensures Fin(flags) <==> flags % 2 >= 1
    ensures Syn(flags) <==> flags % 4 >= 2
    ensures Rst(flags) <==> flags % 8 >= 4
    ensures Ack(flags) <==> flags % 32 >= 16
  {
    BitOne(flags);
    BitTwo(flags);
    BitFour(flags);
  }

  lemma BitOne(x: nat)
    ensures x / 2 % 2 == 1 <==> x % 4 >= 2
  {
    var q, r := x / 4, x % 4;
    assert x == 4 * q + r;
    assert x / 2 == 2 * q + r / 2;
  }

  lemma BitTwo(x: nat)
    ensures x / 4 % 2 == 1 <==> x % 8 >= 4
  {
    var q, r := x / 8, x % 8;
    assert x == 8 * q + r;
    assert x / 4 == 2 * q + r / 4;
  }

  lemma BitFour(x: nat)
    ensures x / 16 % 2 == 1 <==> x % 32 >= 16
  {
    var q, r := x / 32, x % 32;
    assert x == 32 * q + r;
    assert x / 16 == 2 * q + r / 16;
  }

  /** The state machine of section 3.3.2 of RFC 9293 as a matrix: one row per state, one column
      per combination of flags without RST, in the order none, FIN, SYN, SYN+FIN, ACK, ACK+FIN,
      ACK+SYN, ACK+SYN+FIN. The row of the endpoint that sends the packet. */
  function SendRow(s: TcpState): (row: seq<TcpState>)
    ensures |row| == 8
  {
    match s
    case Closed => [Closed, Closed, SynSent, SynSent, Closed, Closed, Closed, Closed]
    case Listen => [Listen, Listen, Listen, Listen, Listen, Listen, SynReceived, SynReceived]
    case Established =>
      [Established, FinWait1, Established, FinWait1, Established, FinWait1, Established, FinWait1]
    case CloseWait => [CloseWait, LastAck, CloseWait, LastAck, CloseWait, LastAck, CloseWait, LastAck]
    case _ => [s, s, s, s, s, s, s, s]
  }

  /** The row of the endpoint that receives it. */
  function RecvRow(s: TcpState): (row: seq<TcpState>)
    ensures |row| == 8
  {
    match s
    case Closed => [Closed, Closed, SynReceived, SynReceived, Closed, Closed, Closed, Closed]
    case Listen => [Listen, Listen, SynReceived, SynReceived, Listen, Listen, Listen, Listen]
    case SynSent => [SynSent, SynSent, SynReceived, SynReceived, SynSent, SynSent, Established, Established]
    case SynReceived =>
      [SynReceived, SynReceived, SynReceived, SynReceived, Established, SynReceived, Established, SynReceived]
    case Established =>
      [Established, CloseWait, Established, CloseWait, Established, CloseWait, Established, CloseWait]
    case FinWait1 => [FinWait1, Closing, FinWait1, Closing, FinWait2, TimeWait, FinWait2, TimeWait]
    case FinWait2 => [FinWait2, TimeWait, FinWait2, TimeWait, FinWait2, TimeWait, FinWait2, TimeWait]
    case CloseWait => [CloseWait, CloseWait, CloseWait, CloseWait, CloseWait, CloseWait, CloseWait, CloseWait]
    case Closing => [Closing, Closing, Closing, Closing, TimeWait, TimeWait, TimeWait, TimeWait]
    case LastAck => [LastAck, LastAck, LastAck, LastAck, Closed, Closed, Closed, Closed]
    case TimeWait => [TimeWait, TimeWait, TimeWait, TimeWait, TimeWait, TimeWait, TimeWait, TimeWait]
  }

  /** The column of a flag byte, from its bits 0, 1 and 4. */
  function Column(flags: byte): (k: nat)
    ensures k < 8
  {
    flags % 4 + if flags % 32 >= 16 then 4 else 0
  }

  /** Both transitions are that matrix, for all 256 flag bytes; bit 2, RST, closes. */
  lemma TransitionsExactly(s: TcpState, flags: byte)
    ensures TransitionOnSend(s, flags) == if flags % 8 >= 4 then Closed else SendRow(s)[Column(flags)]
    ensures TransitionOnRecv(s, flags) == if flags % 8 >= 4 then Closed else RecvRow(s)[Column(flags)]
  {
    FlagBits(flags);
    Columns(flags);
    hide Fin, Syn, Rst, Ack, Column;
  }

  lemma Columns(flags: byte)
    ensures Column(flags) == (if flags % 2 >= 1 then 1 else 0) + (if flags % 4 >= 2 then 2 else 0)
                             + (if flags % 32 >= 16 then 4 else 0)
  {
  }

  predicate FullyClosed(c: Conn) {
    c.internal == Closed && c.external == Closed
  }

  /** The longer of the two endpoints' timeouts. */
  function ConnTimeout(c: Conn): nat {
    var i, e := IdleTimeout(c.internal), IdleTimeout(c.external);
    if i < e then e else i
  }

  function Sent(c: Conn, flags: byte, now: nat): Conn {
    Conn(TransitionOnSend(c.internal, flags), TransitionOnRecv(c.external, flags), now)
  }

  function Received(c: Conn, flags: byte, now: nat): Conn {
    Conn(TransitionOnRecv(c.internal, flags), TransitionOnSend(c.external, flags), now)
  }

  // ------------------------------------------------------------ replay of a flow

  datatype Event =
    | Egress(key: FlowKey, flags: byte, now: nat)
    | Ingress(key: FlowKey, flags: byte, now: nat)
    | Sweep(now: nat)

  function Live(c: Conn): Option<Conn> {
    if FullyClosed(c) then None else Some(c)
  }

  /** What one event does to the one flow it concerns. */
  function FlowStep(c: Option<Conn>, e: Event): Option<Conn> {
    match e
    case Egress(_, flags, now) => Live(Sent(if c.Some? then c.value else Conn(Closed, Closed, now), flags, now))
    case Ingress(_, flags, now) => if c.Some? then Live(Received(c.value, flags, now)) else None
    case Sweep(now) => if c.Some? && Elapsed(now, c.value.lastSeen) < ConnTimeout(c.value) then c else None
  }

  predicate Concerns(e: Event, k: FlowKey) {
    e.Sweep? || e.key == k
  }

  /** The events of one flow: its packets, and every sweep. */
  function Of(k: FlowKey, es: seq<Event>): seq<Event> {
    if es == [] then []
    else Of(k, es[..|es| - 1]) + if Concerns(es[|es| - 1], k) then [es[|es| - 1]] else []
  }

  /** Replaying a flow's events, starting from `c`. */
  function Replay(c: Option<Conn>, es: seq<Event>): Option<Conn> {
    if es == [] then c else FlowStep(Replay(c, es[..|es| - 1]), es[|es| - 1])
  }

  // ------------------------------------------------------------------- the table

  type Flows = map<FlowKey, Conn>

  function Get(flows: Flows, k: FlowKey): Option<Conn> {
    if k in flows then Some(flows[k]) else None
  }

  /** `check_ingress` answers yes: the flow is there and not fully closed. */
  predicate Admits(flows: Flows, k: FlowKey) {
    k in flows && !FullyClosed(flows[k])
  }

  function Put(flows: Flows, k: FlowKey, c: Conn): Flows {
    if FullyClosed(c) then flows - {k} else flows[k := c]
  }

  /** The table after one call. */
  function Apply(flows: Flows, e: Event): Flows {
    match e
    case Egress(k, flags, now) =>
      Put(flows, k, Sent(if k in flows then flows[k] else Conn(Closed, Closed, now), flags, now))
    case Ingress(k, flags, now) =>
      if Admits(flows, k) then Put(flows, k, Received(flows[k], flags, now)) else flows
    case Sweep(now) =>
      map k | k in flows && Elapsed(now, flows[k].lastSeen) < ConnTimeout(flows[k]) :: flows[k]
  }

  function Table(es: seq<Event>): Flows {
    if es == [] then map[] else Apply(Table(es[..|es| - 1]), es[|es| - 1])
  }

  class ConnTrack {
    var flows: Flows

    constructor ()
      ensures flows == map[]
    {
      flows := map[];
    }

    method ObserveEgress(key: FlowKey, flags: byte, now: nat) returns (states: (TcpState, TcpState))
      modifies this
      ensures flows == Apply(old(flows), Egress(key, flags, now))
      ensures var c := Get(flows, key); states == if c.Some? then (c.value.internal, c.value.external) else (Closed, Closed)
    {
      if key !in flows {
        flows := flows[key := Conn(Closed, Closed, now)];
      }
      var conn := flows[key];
      conn := Conn(TransitionOnSend(conn.internal, flags), TransitionOnRecv(conn.external, flags), now);
      flows := flows[key := conn];
      states := (conn.internal, conn.external);
      if FullyClosed(conn) {
        flows := flows - {key};
      }
    }

    method CheckIngress(key: FlowKey, flags: byte, now: nat) returns (ok: bool)
      modifies this
      ensures flows == Apply(old(flows), Ingress(key, flags, now))
      ensures ok == Admits(old(flows), key)
    {
      if key !in flows {
        return false;
      }
      var conn := flows[key];
      if FullyClosed(conn) {
        return false;
      }
      conn := Conn(TransitionOnRecv(conn.internal, flags), TransitionOnSend(conn.external, flags), now);
      flows := flows[key := conn];
      if FullyClosed(conn) {
        flows := flows - {key};
      }
      ok := true;
    }

    /** `retain`: look at every entry, in no particular order, and keep the fresh ones. */
    method Sweep(now: nat)
      modifies this
      ensures flows == Apply(old(flows), Event.Sweep(now))
    {
      var todo := flows.Keys;
      while todo != {}
        invariant todo <= flows.Keys <= old(flows).Keys
        invariant forall k | k in flows :: flows[k] == old(flows)[k]
        invariant forall k | k in old(flows) :: k in flows <==>
                    k in todo || Elapsed(now, old(flows)[k].lastSeen) < ConnTimeout(old(flows)[k])
        decreases |todo|
      {
        var k :| k in todo;
        todo := todo - {k};
        if !(Elapsed(now, flows[k].lastSeen) < ConnTimeout(flows[k])) {
          flows := flows - {k};
        }
      }
    }

    method States(key: FlowKey) returns (r: Option<(TcpState, TcpState)>)
      ensures r == if key in flows then Some((flows[key].internal, flows[key].external)) else None
    {
      if key in flows {
        return Some((flows[key].internal, flows[key].external));
      }
      return None;
    }
  }

  // ---------------------------------------------------------------- refinement

  /** A table entry is never (Closed, Closed), and no endpoint is ever in `Listen`. */
  predicate Sane(c: Conn) {
    !FullyClosed(c) && c.internal != Listen && c.external != Listen
  }

  ghost predicate AllSane(flows: Flows) {
    forall k | k in flows :: Sane(flows[k])
  }

  /** One call touches each flow as the replay does, and other flows not at all. */
  lemma ApplyIsFlowStep(flows: Flows, e: Event, k: FlowKey)
    requires AllSane(flows)
    ensures Get(Apply(flows, e), k) == if Concerns(e, k) then FlowStep(Get(flows, k), e) else Get(flows, k)
  {
  }

  lemma ApplySane(flows: Flows, e: Event)
    requires AllSane(flows)
    ensures AllSane(Apply(flows, e))
  {
  }

  /** No stored entry is ever fully closed, so the stale-entry branch is never taken, and no
      endpoint ever listens. */
  lemma {:induction false} TableSane(es: seq<Event>)
    ensures AllSane(Table(es))
  {
    if es == [] {
    } else {
      TableSane(es[..|es| - 1]);
      ApplySane(Table(es[..|es| - 1]), es[|es| - 1]);
    }
  }

  /** The flow table refines a per-flow replay: what it says of a flow, and whether it admits
      an inbound packet, depends on that flow's own packets and the sweeps alone. */
  lemma {:induction false} TableIsReplay(es: seq<Event>, k: FlowKey)
    ensures Get(Table(es), k) == Replay(None, Of(k, es))
    ensures Admits(Table(es), k) <==> Replay(None, Of(k, es)).Some?
  {
    TableSane(es);
    if es == [] {
    } else {
      var pre, e := es[..|es| - 1], es[|es| - 1];
      TableIsReplay(pre, k);
      TableSane(pre);
      ApplyIsFlowStep(Table(pre), e, k);
      if Concerns(e, k) {
        assert Of(k, es) == Of(k, pre) + [e];
        assert (Of(k, pre) + [e])[..|Of(k, pre)|] == Of(k, pre);
      } else {
        assert Of(k, es) == Of(k, pre);
      }
    }
  }

  /** A flow comes into being only by an outbound SYN without ACK and RST. */
  lemma Creation(e: Event)
    ensures FlowStep(None, e).Some? <==> e.Egress? && Syn(e.flags) && !Ack(e.flags) && !Rst(e.flags)
  {
  }

  /** An RST on a flow ends it, whichever way it travels. */
  lemma ResetEnds(c: Option<Conn>, e: Event)
    requires !e.Sweep? && Rst(e.flags)
    ensures FlowStep(c, e) == None
  {
  }

  /** RST (0x04) and RST+ACK (0x14), out or in, remove the flow, whatever its state; PSH alone
      (0x08) changes no state; data (PSH+ACK, 0x18) leaves an established flow established. */
  lemma FlagBytes(flows: Flows, k: FlowKey, c: Conn, now: nat)
    requires AllSane(flows) && Sane(c)
    ensures k !in Apply(flows, Egress(k, 0x04, now)) && k !in Apply(flows, Ingress(k, 0x04, now))
    ensures k !in Apply(flows, Egress(k, 0x14, now)) && k !in Apply(flows, Ingress(k, 0x14, now))
    ensures FlowStep(Some(c), Egress(k, 0x08, now)) == FlowStep(Some(c), Ingress(k, 0x08, now)) == Some(c.(lastSeen := now))
    ensures c.internal == Established && c.external == Established ==>
              FlowStep(Some(c), Egress(k, 0x18, now)) == FlowStep(Some(c), Ingress(k, 0x18, now)) == Some(c.(lastSeen := now))
  {
    forall e | e in [Egress(k, 0x04, now), Ingress(k, 0x04, now), Egress(k, 0x14, now), Ingress(k, 0x14, now)]
      ensures k !in Apply(flows, e)
    {
      ApplyIsFlowStep(flows, e, k);
      ResetEnds(Get(flows, k), e);
    }
  }

  // -------------------------------------------------------- when a flow is admitted

  /** An outbound SYN without ACK and RST on flow `k`. */
  predicate Opens(e: Event, k: FlowKey) {
    e.Egress? && e.key == k && Syn(e.flags) && !Ack(e.flags) && !Rst(e.flags)
  }

  /** The ACK that closes the second endpoint of a flow whose first one has closed already. */
  predicate LastAckOf(flows: Flows, e: Event, k: FlowKey) {
    && !e.Sweep? && e.key == k && Ack(e.flags) && k in flows
    && if e.Egress? then flows[k].internal == Closed && flows[k].external == LastAck
       else flows[k].external == Closed && flows[k].internal == LastAck
  }

  predicate ResetOf(e: Event, k: FlowKey) {
    !e.Sweep? && e.key == k && Rst(e.flags)
  }

  predicate Expires(flows: Flows, e: Event, k: FlowKey) {
    e.Sweep? && k in flows && Elapsed(e.now, flows[k].lastSeen) >= ConnTimeout(flows[k])
  }

  /** What the table and the event say, before the call, of whether it ends flow `k`. */
  predicate Ends(flows: Flows, e: Event, k: FlowKey) {
    ResetOf(e, k) || Expires(flows, e, k) || LastAckOf(flows, e, k)
  }

  /** An event removes a flow exactly if it is an RST on it, a sweep that finds it expired, or
      the ACK that closes its second endpoint. */
  lemma RemovedExactly(flows: Flows, e: Event, k: FlowKey)
    requires AllSane(flows) && k in flows
    ensures k !in Apply(flows, e) <==> Ends(flows, e, k)
  {
  }

  /** Opened by event `i`, and not ended since. */
  ghost predicate OpenSince(es: seq<Event>, i: nat, k: FlowKey) {
    i < |es| && Opens(es[i], k) && forall j | i < j < |es| :: !Ends(Table(es[..j]), es[j], k)
  }

  /** The admission rule of the table, exactly: an inbound packet of a flow is admitted if and
      only if the flow was opened by an outbound SYN since which there has been no RST on it,
      no sweep that found it expired, and no ACK that closed its second endpoint. */
  lemma AdmittedExactly(es: seq<Event>, k: FlowKey)
    ensures Admits(Table(es), k) <==> exists i :: OpenSince(es, i, k)
  {
    TableSane(es);
    if Admits(Table(es), k) {
      var i := Origin(es, k);
    }
    if i :| OpenSince(es, i, k) {
      StaysOpen(es, i, k);
    }
  }

  lemma {:induction false} Origin(es: seq<Event>, k: FlowKey) returns (i: nat)
    requires k in Table(es)
    ensures OpenSince(es, i, k)
  {
    hide Ends, Opens;
    var pre, e := es[..|es| - 1], es[|es| - 1];
    TableSane(pre);
    if k in Table(pre) {
      i := Origin(pre, k);
      RemovedExactly(Table(pre), e, k);
      forall j | i < j < |es| ensures !Ends(Table(es[..j]), es[j], k) {
        if j < |pre| { assert es[..j] == pre[..j] && es[j] == pre[j]; }
      }
    } else {
      i := |es| - 1;
      CreatedExactly(Table(pre), e, k);
    }
  }

  lemma CreatedExactly(flows: Flows, e: Event, k: FlowKey)
    requires AllSane(flows) && k !in flows
    ensures k in Apply(flows, e) <==> Opens(e, k)
  {
  }

  lemma {:induction false} StaysOpen(es: seq<Event>, i: nat, k: FlowKey)
    requires OpenSince(es, i, k)
    ensures k in Table(es)
  {
    hide Ends, Opens;
    var pre, e := es[..|es| - 1], es[|es| - 1];
    TableSane(pre);
    if i == |es| - 1 {
      OpeningStays(Table(pre), e, k);
    } else {
      forall j | i < j < |pre| ensures !Ends(Table(pre[..j]), pre[j], k) {
        assert es[..j] == pre[..j] && es[j] == pre[j];
      }
      StaysOpen(pre, i, k);
      RemovedExactly(Table(pre), e, k);
    }
  }

  lemma OpeningStays(flows: Flows, e: Event, k: FlowKey)
    requires AllSane(flows) && Opens(e, k)
    ensures k in Apply(flows, e)
  {
  }

  // ----------------------------------------------------------------- life cycle

  /** Packets without FIN or RST, and sweeps less than `limit` after the last packet. */
  ghost predicate Calm(last: nat, es: seq<Event>, limit: nat, finOk: bool)
    decreases |es|
  {
    es == [] ||
    match es[0]
    case Sweep(now) => Elapsed(now, last) < limit && Calm(last, es[1..], limit, finOk)
    case Egress(_, flags, now) => !Rst(flags) && (finOk || !Fin(flags)) && Calm(now, es[1..], limit, finOk)
    case Ingress(_, flags, now) => !Rst(flags) && (finOk || !Fin(flags)) && Calm(now, es[1..], limit, finOk)
  }

  lemma {:induction false} ReplaySplit(c: Option<Conn>, es: seq<Event>)
    requires es != []
    ensures Replay(c, es) == Replay(FlowStep(c, es[0]), es[1..])
  {
    var pre := es[..|es| - 1];
    if |es| == 1 {
      assert es[1..] == [] && pre == [];
    } else {
      ReplaySplit(c, pre);
      assert es[1..][..|es[1..]| - 1] == pre[1..];
      assert pre[0] == es[0];
    }
  }

  /** An established flow stays established under packets without FIN and RST and sweeps less
      than 24 hours after the last packet. */
  lemma {:induction false} EstablishedPersists(c: Conn, es: seq<Event>)
    requires c.internal == Established && c.external == Established
    requires Calm(c.lastSeen, es, 86_400_000, false)
    ensures Replay(Some(c), es).Some?
    ensures Replay(Some(c), es).value.internal == Established && Replay(Some(c), es).value.external == Established
    decreases |es|
  {
    if es == [] {
    } else {
      ReplaySplit(Some(c), es);
      var d := FlowStep(Some(c), es[0]).value;
      EstablishedPersists(d, es[1..]);
    }
  }

  lemma {:induction false} OfConcat(k: FlowKey, a: seq<Event>, b: seq<Event>)
    ensures Of(k, a + b) == Of(k, a) + Of(k, b)
  {
    if b == [] {
      assert a + b == a;
    } else {
      assert (a + b)[..|a + b| - 1] == a + b[..|b| - 1];
      OfConcat(k, a, b[..|b| - 1]);
    }
  }

  /** The table after more events, from what it said of the flow before. */
  lemma TableContinues(es: seq<Event>, more: seq<Event>, k: FlowKey)
    ensures Get(Table(es + more), k) == Replay(Get(Table(es), k), Of(k, more))
  {
    TableIsReplay(es, k);
    TableIsReplay(es + more, k);
    OfConcat(k, es, more);
    ReplayConcat(None, Of(k, es), Of(k, more));
  }

  /** So in the table: whatever happens on other flows, an established flow stays. */
  lemma EstablishedStays(es: seq<Event>, more: seq<Event>, k: FlowKey)
    requires k in Table(es) && Table(es)[k].internal == Established && Table(es)[k].external == Established
    requires Calm(Table(es)[k].lastSeen, Of(k, more), 86_400_000, false)
    ensures k in Table(es + more)
    ensures Table(es + more)[k].internal == Established && Table(es + more)[k].external == Established
  {
    TableContinues(es, more, k);
    EstablishedPersists(Table(es)[k], Of(k, more));
  }

  /** And a flow with an endpoint in TIME-WAIT stays until an RST or a sweep 120 s later. */
  lemma TimeWaitStays(es: seq<Event>, more: seq<Event>, k: FlowKey)
    requires k in Table(es) && Waiting(Table(es)[k]) && Calm(Table(es)[k].lastSeen, Of(k, more), 120_000, true)
    ensures k in Table(es + more) && Waiting(Table(es + more)[k])
  {
    TableContinues(es, more, k);
    TimeWaitPersists(Table(es)[k], Of(k, more));
  }

  predicate Waiting(c: Conn) {
    c.internal == TimeWait || c.external == TimeWait
  }

  /** Once an endpoint is in TIME-WAIT, only an RST or a sweep at least 120 s after the last
      packet removes the flow. */
  lemma {:induction false} TimeWaitPersists(c: Conn, es: seq<Event>)
    requires Waiting(c) && Calm(c.lastSeen, es, 120_000, true)
    ensures Replay(Some(c), es).Some? && Waiting(Replay(Some(c), es).value)
    ensures c.internal == TimeWait ==> Replay(Some(c), es).value.internal == TimeWait
    ensures c.external == TimeWait ==> Replay(Some(c), es).value.external == TimeWait
    decreases |es|
  {
    if es == [] {
    } else {
      ReplaySplit(Some(c), es);
      TimeWaitPersists(FlowStep(Some(c), es[0]).value, es[1..]);
    }
  }

  /** When a sweep removes a flow, for every pair of states, in milliseconds since its last
      packet: the endpoint that lasts longest decides. */
  lemma ExpiresExactly(c: Conn, now: nat)
    ensures FlowStep(Some(c), Sweep(now)).None? <==>
              var either := {c.internal, c.external};
              Elapsed(now, c.lastSeen) >=
                if Established in either then 86_400_000
                else if TimeWait in either then 120_000
                else if either <= {Closed} then 10_000
                else if either <= {Closed, LastAck} then 30_000
                else 60_000
  {
  }

  /** When a flow with an endpoint in TIME-WAIT expires, exactly: 120 s after its last packet,
      or 24 hours after it while the other endpoint still counts as established. */
  lemma TimeWaitExpires(c: Conn, now: nat)
    requires Waiting(c)
    ensures FlowStep(Some(c), Sweep(now)).None? <==>
              Elapsed(now, c.lastSeen) >= if c.internal == Established || c.external == Established then 86_400_000 else 120_000
  {
  }

  /** That second case is reachable: a FIN sent before the ACK of the handshake, the peer's
      FIN+ACK, and then that ACK, which the tracker takes for the peer's handshake. */
  lemma WaitingBesideEstablished(k: FlowKey, t: nat)
    ensures Replay(None, [Egress(k, 0x02, t), Ingress(k, 0x12, t), Egress(k, 0x01, t), Ingress(k, 0x11, t)]
                         + [Egress(k, 0x10, t)])
         == Some(Conn(TimeWait, Established, t))
  {
    var es := [Egress(k, 0x02, t), Ingress(k, 0x12, t), Egress(k, 0x01, t), Ingress(k, 0x11, t)];
    ReplayFour(None, es);
    ReplayConcat(None, es, [Egress(k, 0x10, t)]);
    assert [Egress(k, 0x10, t)][..0] == [];
  }

  /** The three-way handshake, seen from a table without the flow, opens it on both ends. */
  lemma HandshakeOpens(k: FlowKey, syn: byte, synAck: byte, ack: byte, t: nat)
    requires Syn(syn) && !Ack(syn) && !Rst(syn)
    requires Syn(synAck) && Ack(synAck) && !Rst(synAck) && !Fin(synAck)
    requires Ack(ack) && !Syn(ack) && !Rst(ack) && !Fin(ack)
    ensures Replay(None, [Egress(k, syn, t), Ingress(k, synAck, t), Egress(k, ack, t)])
         == Some(Conn(Established, Established, t))
  {
    var es := [Egress(k, syn, t), Ingress(k, synAck, t), Egress(k, ack, t)];
    ReplaySplit(None, es);
    ReplaySplit(FlowStep(None, es[0]), es[1..]);
    ReplaySplit(FlowStep(FlowStep(None, es[0]), es[1]), es[1..][1..]);
  }

  /** Who closes first ends in TIME-WAIT and the other side in CLOSED, whichever it is, and
      with the peer's FIN on its own or together with the ACK. */
  lemma ActiveClose(k: FlowKey, c: Conn, fin: byte, ack: byte, peerFin: byte, last: byte, t: nat)
    requires c.internal == Established && c.external == Established
    requires Fin(fin) && !Rst(fin) && Ack(ack) && !Fin(ack) && !Rst(ack)
    requires Fin(peerFin) && !Rst(peerFin) && Ack(last) && !Fin(last) && !Rst(last)
    ensures Replay(Some(c), [Egress(k, fin, t), Ingress(k, ack, t), Ingress(k, peerFin, t), Egress(k, last, t)])
         == Some(Conn(TimeWait, Closed, t))
    ensures Replay(Some(c), [Ingress(k, fin, t), Egress(k, ack, t), Egress(k, peerFin, t), Ingress(k, last, t)])
         == Some(Conn(Closed, TimeWait, t))
    ensures Ack(peerFin) ==>
              (Replay(Some(c), [Egress(k, fin, t), Ingress(k, peerFin, t), Egress(k, last, t), Sweep(t)])
               == Some(Conn(TimeWait, Closed, t)))
  {
    ReplayFour(Some(c), [Egress(k, fin, t), Ingress(k, ack, t), Ingress(k, peerFin, t), Egress(k, last, t)]);
    ReplayFour(Some(c), [Ingress(k, fin, t), Egress(k, ack, t), Egress(k, peerFin, t), Ingress(k, last, t)]);
    ReplayFour(Some(c), [Egress(k, fin, t), Ingress(k, peerFin, t), Egress(k, last, t), Sweep(t)]);
  }

  /** FINs that cross: the inner side goes through CLOSING. */
  lemma CrossingClose(k: FlowKey, c: Conn, fin: byte, peerFin: byte, ack: byte, peerAck: byte, t: nat)
    requires c.internal == Established && c.external == Established
    requires Fin(fin) && !Rst(fin) && Fin(peerFin) && !Ack(peerFin) && !Rst(peerFin)
    requires Ack(ack) && !Fin(ack) && !Rst(ack) && Ack(peerAck) && !Fin(peerAck) && !Rst(peerAck)
    ensures Replay(Some(c), [Egress(k, fin, t), Ingress(k, peerFin, t), Egress(k, ack, t), Ingress(k, peerAck, t)])
         == Some(Conn(TimeWait, Closed, t))
  {
    ReplayFour(Some(c), [Egress(k, fin, t), Ingress(k, peerFin, t), Egress(k, ack, t), Ingress(k, peerAck, t)]);
  }

  /** How far an endpoint has come in its life. */
  function Stage(s: TcpState): nat {
    match s
    case Closed => 7
    case Listen => 0
    case SynSent => 1
    case SynReceived => 2
    case Established => 3
    case FinWait1 => 4
    case CloseWait => 4
    case FinWait2 => 5
    case Closing => 5
    case LastAck => 5
    case TimeWait => 6
  }

  /** In a flow of which neither end is closed, both endpoints only ever move forward, until
      one of them closes or the flow is gone. */
  lemma {:induction false} OnlyForward(c: Conn, es: seq<Event>)
    requires c.internal != Closed && c.external != Closed
    requires forall n | 0 <= n < |es| :: var d := Replay(Some(c), es[..n]);
             d.Some? && d.value.internal != Closed && d.value.external != Closed
    ensures var d := Replay(Some(c), es);
            d.Some? ==> Stage(c.internal) <= Stage(d.value.internal) && Stage(c.external) <= Stage(d.value.external)
  {
    if es == [] {
    } else {
      var pre := es[..|es| - 1];
      assert forall n | 0 <= n < |pre| :: pre[..n] == es[..n];
      OnlyForward(c, pre);
      var d := Replay(Some(c), pre).value;
      if !es[|es| - 1].Sweep? {
        MovesForward(d.internal, es[|es| - 1].flags);
        MovesForward(d.external, es[|es| - 1].flags);
      }
    }
  }

  lemma MovesForward(s: TcpState, flags: byte)
    requires s != Closed
    ensures Stage(s) <= Stage(TransitionOnSend(s, flags)) && Stage(s) <= Stage(TransitionOnRecv(s, flags))
  {
  }

  /** A concrete run of the third kind of end: a flow that was opened, never reset and never
      expired, and is gone. */
  lemma ClosesWithoutReset(k: FlowKey, t: nat)
    ensures Replay(None, Opening(k, t) + Closings(k, t)) == None
  {
    ReplayFour(None, Opening(k, t));
    assert Replay(None, Opening(k, t)) == Some(Conn(LastAck, SynReceived, t));
    ClosingsEnd(k, t);
    ReplayConcat(None, Opening(k, t), Closings(k, t));
  }

  /** SYN, SYN+ACK, the peer's early FIN, and our FIN+ACK. */
  function Opening(k: FlowKey, t: nat): seq<Event> {
    [Egress(k, 0x02, t), Ingress(k, 0x12, t), Ingress(k, 0x01, t), Egress(k, 0x11, t)]
  }

  /** ACK, a second FIN, the peer's FIN, and the two ACKs. */
  function Closings(k: FlowKey, t: nat): seq<Event> {
    [Egress(k, 0x10, t), Egress(k, 0x01, t), Ingress(k, 0x01, t), Ingress(k, 0x10, t)] + [Egress(k, 0x10, t)]
  }

  lemma ClosingsEnd(k: FlowKey, t: nat)
    ensures Replay(Some(Conn(LastAck, SynReceived, t)), Closings(k, t)) == None
  {
    var es := [Egress(k, 0x10, t), Egress(k, 0x01, t), Ingress(k, 0x01, t), Ingress(k, 0x10, t)];
    var c := Some(Conn(LastAck, SynReceived, t));
    ReplayFour(c, es);
    assert Replay(c, es) == Some(Conn(Closed, LastAck, t));
    ReplayConcat(c, es, [Egress(k, 0x10, t)]);
    assert Replay(Replay(c, es), [Egress(k, 0x10, t)]) == FlowStep(Replay(c, es), Egress(k, 0x10, t)) by {
      assert [Egress(k, 0x10, t)][..0] == [];
    }
  }

  lemma ReplayFour(c: Option<Conn>, es: seq<Event>)
    requires |es| == 4
    ensures Replay(c, es) == FlowStep(FlowStep(FlowStep(FlowStep(c, es[0]), es[1]), es[2]), es[3])
  {
    assert es[..3][..2] == es[..2] && es[..2][..1] == es[..1] && es[..1][..0] == [];
    assert Replay(c, es[..1]) == FlowStep(c, es[0]);
    assert Replay(c, es[..2]) == FlowStep(Replay(c, es[..1]), es[1]);
    assert Replay(c, es[..3]) == FlowStep(Replay(c, es[..2]), es[2]);
  }

  lemma {:induction false} ReplayConcat(c: Option<Conn>, a: seq<Event>, b: seq<Event>)
    ensures Replay(c, a + b) == Replay(Replay(c, a), b)
  {
    if b == [] {
      assert a + b == a;
    } else {
      assert (a + b)[..|a + b| - 1] == a + b[..|b| - 1];
      ReplayConcat(c, a, b[..|b| - 1]);
    }
  }
}

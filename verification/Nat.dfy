/** The source-NAT table of src/router/nat.rs: a forward map from internal endpoints to
    external ports, a reverse map, and a circular scan for a free port. */
module Nat {
  import opened Wire

  datatype L4 = Tcp | Udp

  datatype Endpoint = Endpoint(ip: Ipv4, port: Port)

  /** The table. `lo..hi` is the inclusive external port range. */
  datatype Table = Table(wanIp: Ipv4, lo: Port, hi: Port, next: int,
                         fwd: map<(L4, Endpoint), Port>, rev: map<(L4, Port), Endpoint>)

  /** The port `d` places after `from` on the circle lo..hi. */
  function Circle(lo: int, hi: int, from: int, d: int): int {
    if from + d <= hi then from + d else from + d - (hi - lo + 1)
  }

  /** The forward and reverse maps are mutually inverse, per protocol, and every external
      port lies in the range. */
  ghost predicate Inv(s: Table) {
    && 0 < s.lo <= s.next <= s.hi < 0x1_0000
    && (forall l4, e | (l4, e) in s.fwd :: (l4, s.fwd[(l4, e)]) in s.rev && s.rev[(l4, s.fwd[(l4, e)])] == e)
    && (forall l4, p | (l4, p) in s.rev :: (l4, s.rev[(l4, p)]) in s.fwd && s.fwd[(l4, s.rev[(l4, p)])] == p)
    && (forall l4, p | (l4, p) in s.rev :: s.lo <= p <= s.hi)
  }

  predicate Used(s: Table, l4: L4, p: int) {
    0 <= p < 0x1_0000 && (l4, p) in s.rev
  }

  ghost predicate AllUsed(s: Table, l4: L4) {
    forall p | s.lo <= p <= s.hi :: Used(s, l4, p)
  }

  /** `p` is the first free port of the circle, starting at `next`. */
  ghost predicate FirstFree(s: Table, l4: L4, p: int) {
    && !Used(s, l4, p)
    && exists d :: 0 <= d <= s.hi - s.lo && p == Circle(s.lo, s.hi, s.next, d)
         && forall j | 0 <= j < d :: Used(s, l4, Circle(s.lo, s.hi, s.next, j))
  }

  function Bound(s: Table, l4: L4, e: Endpoint, p: Port): Table {
    s.(fwd := s.fwd[(l4, e) := p], rev := s.rev[(l4, p) := e], next := Circle(s.lo, s.hi, p, 1))
  }

  /** What `egress` does: the old binding, or a new one on the first free port, or nothing when every
      port of that protocol is in use. */
  ghost predicate Maps(s: Table, l4: L4, e: Endpoint, r: Option<Endpoint>, s': Table) {
    if (l4, e) in s.fwd then s' == s && r == Some(Endpoint(s.wanIp, s.fwd[(l4, e)]))
    else if AllUsed(s, l4) then s' == s && r == None
    else r.Some? && r.value.ip == s.wanIp && FirstFree(s, l4, r.value.port) && s' == Bound(s, l4, e, r.value.port)
  }

  function Reverse(s: Table, l4: L4, p: Port): Option<Endpoint> {
    if (l4, p) in s.rev then Some(s.rev[(l4, p)]) else None
  }

  class Nat {
    var wanIp: Ipv4
    const portLo: Port
    const portHi: Port
    var nextPort: int
    var fwd: map<(L4, Endpoint), Port>
    var rev: map<(L4, Port), Endpoint>

    ghost function State(): Table
      reads this
    {
      Table(wanIp, portLo, portHi, nextPort, fwd, rev)
    }

    ghost predicate Valid()
      reads this
    {
      Inv(State())
    }

    constructor (wanIp: Ipv4, portLo: Port, portHi: Port)
      requires 0 < portLo <= portHi
      ensures Valid() && State() == Table(wanIp, portLo, portHi, portLo, map[], map[])
    {
      this.wanIp, this.portLo, this.portHi, this.nextPort := wanIp, portLo, portHi, portLo;
      fwd, rev := map[], map[];
    }

    method SetWanIp(ip: Ipv4)
      requires Valid()
      modifies this
      ensures Valid() && State() == old(State()).(wanIp := ip)
    {
      wanIp := ip;
    }

    /** The circular scan: a free port, or none exactly when all are in use. */
    method AllocPort(l4: L4) returns (r: Option<Port>)
      requires Valid()
      modifies this`nextPort
      ensures r.None? ==> AllUsed(old(State()), l4) && State() == old(State())
      ensures r.Some? ==> FirstFree(old(State()), l4, r.value)
                          && State() == old(State()).(next := Circle(portLo, portHi, r.value, 1))
    {
      var span := portHi as int - portLo + 1;
      var cand := nextPort;
      var i := 0;
      while i < span
        invariant 0 <= i <= span && portLo <= cand <= portHi
        invariant cand == if i < span then Circle(portLo, portHi, nextPort, i) else nextPort
        invariant State() == old(State())
        invariant forall j | 0 <= j < i :: Used(State(), l4, Circle(portLo, portHi, nextPort, j))
      {
        var port := cand;
        cand := if port >= portHi then portLo else port + 1;
        if (l4, port) !in rev {
          assert FirstFree(State(), l4, port);
          nextPort := cand;
          return Some(port);
        }
        i := i + 1;
      }
      forall p | portLo <= p <= portHi ensures Used(State(), l4, p) {
        var d := if p >= nextPort then p - nextPort else p + span - nextPort;
        assert Circle(portLo, portHi, nextPort, d) == p;
      }
      return None;
    }

    method Egress(l4: L4, e: Endpoint) returns (r: Option<Endpoint>)
      requires Valid()
      modifies this
      ensures Valid() && Maps(old(State()), l4, e, r, State())
    {
      var ext;
      if (l4, e) in fwd {
        ext := fwd[(l4, e)];
      } else {
        var p := AllocPort(l4);
        if p.None? {
          return None;
        }
        ext := p.value;
        FreePortInRange(old(State()), l4, ext);
        BindKeepsInv(old(State()), l4, e, ext);
        fwd := fwd[(l4, e) := ext];
        rev := rev[(l4, ext) := e];
      }
      r := Some(Endpoint(wanIp, ext));
    }

    method Ingress(l4: L4, p: Port) returns (r: Option<Endpoint>)
      ensures r == Reverse(State(), l4, p)
    {
      if (l4, p) in rev {
        return Some(rev[(l4, p)]);
      }
      return None;
    }
  }

  lemma FreePortInRange(s: Table, l4: L4, p: Port)
    requires Inv(s) && FirstFree(s, l4, p)
    ensures s.lo <= p <= s.hi && !AllUsed(s, l4)
  {
    assert s.lo <= p <= s.hi;
  }

  lemma BindKeepsInv(s: Table, l4: L4, e: Endpoint, p: Port)
    requires Inv(s) && (l4, e) !in s.fwd && !Used(s, l4, p) && s.lo <= p <= s.hi
    ensures Inv(Bound(s, l4, e, p))
  {
  }

  lemma EgressKeepsInv(s: Table, l4: L4, e: Endpoint, r: Option<Endpoint>, s': Table)
    requires Inv(s) && Maps(s, l4, e, r, s')
    ensures Inv(s')
  {
    if (l4, e) !in s.fwd && !AllUsed(s, l4) {
      FreePortInRange(s, l4, r.value.port);
      BindKeepsInv(s, l4, e, r.value.port);
    }
  }

  // ---------------------------------------------------------------- whole runs

  datatype Event = Send(l4: L4, e: Endpoint, r: Option<Endpoint>) | SetWan(ip: Ipv4)

  ghost predicate Step(s: Table, ev: Event, s': Table) {
    match ev
    case Send(l4, e, r) => Maps(s, l4, e, r, s')
    case SetWan(ip) => s' == s.(wanIp := ip)
  }

  ghost predicate Run(ss: seq<Table>, evs: seq<Event>) {
    |ss| == |evs| + 1 && forall k | 0 <= k < |evs| :: Step(ss[k], evs[k], ss[k + 1])
  }

  lemma StepKeeps(s: Table, ev: Event, s': Table)
    requires Inv(s) && Step(s, ev, s')
    ensures Inv(s') && s'.lo == s.lo && s'.hi == s.hi
    ensures forall k | k in s.fwd :: k in s'.fwd && s'.fwd[k] == s.fwd[k]
    ensures forall k | k in s.rev :: k in s'.rev && s'.rev[k] == s.rev[k]
  {
    if ev.Send? { EgressKeepsInv(s, ev.l4, ev.e, ev.r, s'); }
  }

  lemma {:induction false} RunKeepsInv(ss: seq<Table>, evs: seq<Event>, k: nat)
    requires Run(ss, evs) && Inv(ss[0]) && k < |ss|
    ensures Inv(ss[k])
  {
    hide Inv, Step;
    if k == 0 {
    } else {
      RunKeepsInv(ss, evs, k - 1);
      StepKeeps(ss[k - 1], evs[k - 1], ss[k]);
    }
  }

  /** Bindings never change once made, in either direction. */
  lemma {:induction false} BindingsPersist(ss: seq<Table>, evs: seq<Event>, i: nat, j: nat)
    requires Run(ss, evs) && Inv(ss[0]) && i <= j < |ss|
    ensures forall k | k in ss[i].fwd :: k in ss[j].fwd && ss[j].fwd[k] == ss[i].fwd[k]
    ensures forall k | k in ss[i].rev :: k in ss[j].rev && ss[j].rev[k] == ss[i].rev[k]
  {
    if i == j {
    } else {
      BindingsPersist(ss, evs, i, j - 1);
      RunKeepsInv(ss, evs, j - 1);
      StepKeeps(ss[j - 1], evs[j - 1], ss[j]);
    }
  }

  /** Return traffic recovers the endpoint: a port once answered for an endpoint leads back to
      that endpoint for ever, and two endpoints never share a port. */
  lemma AnsweredPortLeadsBack(ss: seq<Table>, evs: seq<Event>, i: nat, j: nat)
    requires Run(ss, evs) && Inv(ss[0]) && i < j < |ss| && evs[i].Send? && evs[i].r.Some?
    ensures Reverse(ss[j], evs[i].l4, evs[i].r.value.port) == Some(evs[i].e)
  {
    RunKeepsInv(ss, evs, i);
    assert Step(ss[i], evs[i], ss[i + 1]);
    RunKeepsInv(ss, evs, i + 1);
    assert (evs[i].l4, evs[i].e) in ss[i + 1].fwd;
    BindingsPersist(ss, evs, i + 1, j);
  }

  // ---------------------------------------------------------- counting the bindings

  /** The bound endpoints of a protocol, and the ports they are bound to. */
  ghost function Endpoints(s: Table, l4: L4): set<(L4, Endpoint)> {
    set k | k in s.fwd && k.0 == l4
  }

  ghost function Ports(s: Table, l4: L4): set<(L4, Port)> {
    set k | k in s.rev && k.0 == l4
  }

  /** The maps pair the two sets off. */
  lemma {:induction false} PairedOff(s: Table, a: set<(L4, Endpoint)>, b: set<(L4, Port)>)
    requires Inv(s)
    requires forall k | k in a :: k in s.fwd && (k.0, s.fwd[k]) in b
    requires forall q | q in b :: q in s.rev && (q.0, s.rev[q]) in a
    ensures |a| == |b|
  {
    if a == {} {
      assert b == {};
    } else {
      var k :| k in a;
      var q := (k.0, s.fwd[k]);
      assert s.rev[q] == k.1;
      forall j | j in a - {k} ensures (j.0, s.fwd[j]) in b - {q} {
        assert (j.0, s.fwd[j]) in s.rev && s.rev[(j.0, s.fwd[j])] == j.1;
      }
      forall j | j in b - {q} ensures (j.0, s.rev[j]) in a - {k} {
        assert (j.0, s.rev[j]) in s.fwd && s.fwd[(j.0, s.rev[j])] == j.1;
      }
      PairedOff(s, a - {k}, b - {q});
    }
  }

  ghost function PortRange(l4: L4, lo: int, hi: int): set<(L4, Port)>
    requires 0 <= lo && hi < 0x1_0000
  {
    set p: Port | lo <= p <= hi :: (l4, p)
  }

  lemma {:induction false} RangeSize(l4: L4, lo: int, hi: int)
    requires 0 <= lo <= hi + 1 <= 0x1_0000
    ensures |PortRange(l4, lo, hi)| == hi - lo + 1
    decreases hi - lo
  {
    if hi < lo {
      assert PortRange(l4, lo, hi) == {};
    } else {
      RangeSize(l4, lo, hi - 1);
      var top: Port := hi;
      assert PortRange(l4, lo, hi) == PortRange(l4, lo, hi - 1) + {(l4, top)};
    }
  }

  lemma SubsetOfSize(a: set<(L4, Port)>, b: set<(L4, Port)>)
    requires a <= b
    ensures |a| <= |b| && (|a| == |b| ==> a == b)
  {
    assert b == a + (b - a);
  }

  /** All ports of a protocol are in use exactly if as many of its endpoints are bound as there
      are ports. */
  lemma UsedUpExactly(s: Table, l4: L4)
    requires Inv(s)
    ensures |Endpoints(s, l4)| <= s.hi as int - s.lo as int + 1
    ensures AllUsed(s, l4) <==> |Endpoints(s, l4)| == s.hi as int - s.lo as int + 1
  {
    PairedOff(s, Endpoints(s, l4), Ports(s, l4));
    RangeSize(l4, s.lo, s.hi);
    SubsetOfSize(Ports(s, l4), PortRange(l4, s.lo, s.hi));
    if AllUsed(s, l4) {
      forall k | k in PortRange(l4, s.lo, s.hi) ensures k in Ports(s, l4) { assert Used(s, l4, k.1); }
      assert Ports(s, l4) == PortRange(l4, s.lo, s.hi);
    }
    if Ports(s, l4) == PortRange(l4, s.lo, s.hi) {
      forall p | s.lo <= p <= s.hi ensures Used(s, l4, p) { assert (l4, p) in PortRange(l4, s.lo, s.hi); }
    }
  }

  /** `egress` refuses exactly when the endpoint is new and as many endpoints of its protocol
      are bound as there are ports. Any answer is a port of the range that leads back. */
  lemma RefusedIffExhausted(s: Table, l4: L4, e: Endpoint, r: Option<Endpoint>, s': Table)
    requires Inv(s) && Maps(s, l4, e, r, s')
    ensures r.None? <==> (l4, e) !in s.fwd && |Endpoints(s, l4)| == s.hi as int - s.lo as int + 1
    ensures r.Some? ==> s.lo <= r.value.port <= s.hi && Reverse(s', l4, r.value.port) == Some(e)
  {
    hide Endpoints;
    UsedUpExactly(s, l4);
    if (l4, e) in s.fwd {
      assert (l4, s.fwd[(l4, e)]) in s.rev;
    } else if !AllUsed(s, l4) {
      FreePortInRange(s, l4, r.value.port);
    }
  }

  /** An answer is the public address of the moment, with the port the table then has for the
      endpoint. */
  lemma AnswerIsPublic(s: Table, l4: L4, e: Endpoint, r: Endpoint, s': Table)
    requires Maps(s, l4, e, Some(r), s')
    ensures r.ip == s.wanIp && (l4, e) in s'.fwd && s'.fwd[(l4, e)] == r.port
  {
  }

  /** Which port a new endpoint gets: the first one that is free at or after the cursor, going
      round at the end of the range. The cursor, shared by both protocols, then stands behind
      that port. */
  lemma NewPortExactly(s: Table, l4: L4, e: Endpoint, r: Endpoint, s': Table)
    requires Inv(s) && Maps(s, l4, e, Some(r), s') && (l4, e) !in s.fwd
    ensures s.lo <= r.port <= s.hi && !Used(s, l4, r.port)
    ensures s.next <= r.port ==> forall q | s.next <= q < r.port as int :: Used(s, l4, q)
    ensures r.port < s.next ==> forall q | s.next <= q <= s.hi as int || s.lo as int <= q < r.port as int :: Used(s, l4, q)
    ensures s'.next == if r.port < s.hi then r.port as int + 1 else s.lo
  {
    FreePortInRange(s, l4, r.port);
    var d :| 0 <= d <= s.hi as int - s.lo as int && r.port == Circle(s.lo, s.hi, s.next, d)
             && forall j | 0 <= j < d :: Used(s, l4, Circle(s.lo, s.hi, s.next, j));
    forall q | s.next <= q < r.port as int && s.next <= r.port ensures Used(s, l4, q) {
      assert Circle(s.lo, s.hi, s.next, q - s.next) == q;
    }
    forall q | r.port < s.next && (s.next <= q <= s.hi as int || s.lo as int <= q < r.port as int) ensures Used(s, l4, q) {
      var j := if s.next <= q then q - s.next else q + (s.hi as int - s.lo as int + 1) - s.next;
      assert Circle(s.lo, s.hi, s.next, j) == q;
    }
  }
}

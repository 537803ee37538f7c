/** The ARP neighbor table (src/router/neighbor.rs): a cache with a reverse index, bounded
    queues of packets waiting for an address, retransmits and aging. */
module Neighbor {
  import opened Wire

  const MAX_PENDING := 4
  const REQUEST_INTERVAL := 1000
  const MAX_ATTEMPTS := 3
  const CACHE_TTL := 300_000
  /** Length of an Ethernet ARP frame; a shorter buffer gets no request. */
  const ARP_FRAME := 42

  datatype Ip = Ip(bits: int)
  datatype Mac = Mac(bits: int)

  datatype Cached = Cached(mac: Mac, learnedAt: nat)
  datatype Pending<P> = Pending(packets: seq<P>, lastRequest: nat, attempts: nat)

  type Queues<P> = map<Ip, Pending<P>>

  datatype Action<P> = Forward(mac: Mac, packet: P) | Queued(requestLen: Option<nat>) | Drop(packet: P)

  // ------------------------------------------------------------ packets in queues

  /** All packets of all queues. */
  ghost function Packets<P>(q: Queues<P>): multiset<P> {
    if q.Keys == {} then multiset{}
    else
      var ip :| ip in q.Keys;
      multiset(q[ip].packets) + Packets(q - {ip})
  }

  /** In whatever order one goes through the queues. */
  lemma {:induction false} PacketsSplit<P>(q: Queues<P>, ip: Ip)
    requires ip in q
    ensures Packets(q) == multiset(q[ip].packets) + Packets(q - {ip})
  {
    var k :| k in q.Keys && Packets(q) == multiset(q[k].packets) + Packets(q - {k});
    if k != ip {
      PacketsSplit(q - {k}, ip);
      PacketsSplit(q - {ip}, k);
      assert q - {k} - {ip} == q - {ip} - {k};
    }
  }

  lemma PacketsPut<P>(q: Queues<P>, ip: Ip, p: Pending<P>)
    ensures Packets(q[ip := p]) == multiset(p.packets) + Packets(q - {ip})
  {
    PacketsSplit(q[ip := p], ip);
    assert q[ip := p] - {ip} == q - {ip};
  }

  // ----------------------------------------------------------------- one sweep

  predicate Due<P>(p: Pending<P>, now: nat) {
    Elapsed(now, p.lastRequest) >= REQUEST_INTERVAL
  }

  predicate GivenUp<P>(p: Pending<P>, now: nat) {
    Due(p, now) && p.attempts >= MAX_ATTEMPTS
  }

  function Retried<P>(p: Pending<P>, now: nat): Pending<P> {
    if Due(p, now) then p.(attempts := p.attempts + 1, lastRequest := now) else p
  }

  /** The queues a sweep keeps, with those that are due retried, and the ones it gives up. */
  function Kept<P>(q: Queues<P>, now: nat): Queues<P> {
    map ip | ip in q && !GivenUp(q[ip], now) :: Retried(q[ip], now)
  }

  function Lost<P>(q: Queues<P>, now: nat): Queues<P> {
    map ip | ip in q && GivenUp(q[ip], now) :: q[ip]
  }

  function Fresh(cache: map<Ip, Cached>, now: nat): map<Ip, Cached> {
    map ip | ip in cache && Elapsed(now, cache[ip].learnedAt) < CACHE_TTL :: cache[ip]
  }

  function Pointing(resolved: map<Mac, Ip>, cache: map<Ip, Cached>): map<Mac, Ip> {
    map m | m in resolved && resolved[m] in cache :: resolved[m]
  }

  lemma KeptSplit<P>(q: Queues<P>, ip: Ip, now: nat)
    requires ip in q
    ensures Packets(Kept(q, now))
         == (if GivenUp(q[ip], now) then multiset{} else multiset(q[ip].packets)) + Packets(Kept(q - {ip}, now))
  {
    hide Packets;
    if GivenUp(q[ip], now) {
      assert Kept(q, now) == Kept(q - {ip}, now);
    } else {
      assert Kept(q, now) - {ip} == Kept(q - {ip}, now);
      PacketsSplit(Kept(q, now), ip);
    }
  }

  lemma LostSplit<P>(q: Queues<P>, ip: Ip, now: nat)
    requires ip in q
    ensures Packets(Lost(q, now))
         == (if GivenUp(q[ip], now) then multiset(q[ip].packets) else multiset{}) + Packets(Lost(q - {ip}, now))
  {
    hide Packets;
    if GivenUp(q[ip], now) {
      assert Lost(q, now) - {ip} == Lost(q - {ip}, now);
      PacketsSplit(Lost(q, now), ip);
    } else {
      assert Lost(q, now) == Lost(q - {ip}, now);
    }
  }

  /** A sweep neither loses nor invents a packet. */
  lemma {:induction false} SweepConserves<P>(q: Queues<P>, now: nat)
    ensures Packets(q) == Packets(Kept(q, now)) + Packets(Lost(q, now))
    decreases |q|
  {
    if q.Keys == {} {
      assert Kept(q, now) == map[] && Lost(q, now) == map[];
    } else {
      hide Packets, Kept, Lost, GivenUp;
      var ip :| ip in q.Keys;
      PacketsSplit(q, ip);
      SweepConserves(q - {ip}, now);
      KeptSplit(q, ip, now);
      LostSplit(q, ip, now);
    }
  }

  // ------------------------------------------------------------------ the table

  datatype Table<P> = Table(resolved: map<Mac, Ip>, cache: map<Ip, Cached>, pending: Queues<P>)

  /** Every queue holds 1 to 4 packets and counts 1 to 3 request attempts. */
  ghost predicate QueuesOk<P>(q: Queues<P>) {
    forall ip | ip in q :: 1 <= |q[ip].packets| <= MAX_PENDING && 1 <= q[ip].attempts <= MAX_ATTEMPTS
  }

  function QueueOf<P>(s: Table<P>, ip: Ip): seq<P> {
    if ip in s.pending then s.pending[ip].packets else []
  }

  /** The table after `resolve`, and what it answers. */
  function AfterResolve<P>(s: Table<P>, ip: Ip, packet: P, now: nat): Table<P> {
    if ip in s.cache || |QueueOf(s, ip)| >= MAX_PENDING then s
    else if QueueOf(s, ip) == [] then s.(pending := s.pending[ip := Pending([packet], now, 1)])
    else s.(pending := s.pending[ip := s.pending[ip].(packets := s.pending[ip].packets + [packet])])
  }

  function Answer<P>(s: Table<P>, ip: Ip, packet: P, bufLen: nat): Action<P> {
    if ip in s.cache then Forward(s.cache[ip].mac, packet)
    else if |QueueOf(s, ip)| >= MAX_PENDING then Drop(packet)
    else Queued(if QueueOf(s, ip) == [] && bufLen >= ARP_FRAME then Some(ARP_FRAME) else None)
  }

  function AfterLearn<P>(s: Table<P>, ip: Ip, mac: Mac, now: nat): Table<P> {
    s.(cache := s.cache[ip := Cached(mac, now)], resolved := s.resolved[mac := ip])
  }

  function AfterArp<P>(s: Table<P>, ip: Ip, mac: Mac, now: nat): Table<P> {
    AfterLearn(s, ip, mac, now).(pending := s.pending - {ip})
  }

  function AfterSweep<P>(s: Table<P>, now: nat): Table<P> {
    Table(Pointing(s.resolved, Fresh(s.cache, now)), Fresh(s.cache, now), Kept(s.pending, now))
  }

  class NeighborTable<P(==)> {
    var resolved: map<Mac, Ip>
    var cache: map<Ip, Cached>
    var pending: Queues<P>

    ghost function State(): Table<P>
      reads this
    {
      Table(resolved, cache, pending)
    }

    ghost predicate Valid()
      reads this
    {
      QueuesOk(pending)
    }

    constructor ()
      ensures Valid() && State() == Table(map[], map[], map[])
    {
      resolved, cache, pending := map[], map[], map[];
    }

    method Lookup(ip: Ip) returns (r: Option<Mac>)
      ensures r == if ip in cache then Some(cache[ip].mac) else None
    {
      if ip in cache { return Some(cache[ip].mac); }
      return None;
    }

    method ReverseLookup(mac: Mac) returns (r: Option<Ip>)
      ensures r == if mac in resolved then Some(resolved[mac]) else None
    {
      if mac in resolved { return Some(resolved[mac]); }
      return None;
    }

    method Insert(ip: Ip, mac: Mac, now: nat)
      requires Valid()
      modifies this
      ensures Valid() && State() == AfterLearn(old(State()), ip, mac, now)
    {
      cache := cache[ip := Cached(mac, now)];
      resolved := resolved[mac := ip];
    }

    method Resolve(ip: Ip, packet: P, bufLen: nat, now: nat) returns (r: Action<P>)
      requires Valid()
      modifies this
      ensures Valid() && State() == AfterResolve(old(State()), ip, packet, now)
      ensures r == Answer(old(State()), ip, packet, bufLen)
    {
      if ip in cache {
        return Forward(cache[ip].mac, packet);
      }
      if ip !in pending {
        pending := pending[ip := Pending([], now, 0)];
      }
      var entry := pending[ip];
      if |entry.packets| >= MAX_PENDING {
        return Drop(packet);
      }
      var firstMiss := entry.packets == [];
      entry := entry.(packets := entry.packets + [packet]);
      var requestLen := None;
      if firstMiss {
        entry := entry.(attempts := 1, lastRequest := now);
        requestLen := if bufLen >= ARP_FRAME then Some(ARP_FRAME) else None;
      }
      pending := pending[ip := entry];
      assert firstMiss ==> entry == Pending([packet], now, 1);
      assert pending == old(pending)[ip := entry];
      r := Queued(requestLen);
    }

    /** Learn a mapping and hand out what was waiting for it. */
    method OnArp(ip: Ip, mac: Mac, now: nat) returns (r: Option<(Mac, seq<P>)>)
      requires Valid()
      modifies this
      ensures Valid() && State() == AfterArp(old(State()), ip, mac, now)
      ensures var q := QueueOf(old(State()), ip); r == if q == [] then None else Some((mac, q))
    {
      cache := cache[ip := Cached(mac, now)];
      resolved := resolved[mac := ip];
      r := None;
      if ip in pending {
        var drained := pending[ip].packets;
        pending := pending - {ip};
        if drained != [] {
          r := Some((mac, drained));
        }
      } else {
        assert pending == pending - {ip};
      }
    }

    /** The first `retain` of `sweep`: retry or give up, entry by entry, in any order. */
    method SweepPending(now: nat) returns (dropped: seq<P>, requests: seq<Ip>)
      modifies this`pending
      ensures pending == Kept(old(pending), now)
      ensures multiset(dropped) == Packets(Lost(old(pending), now))
      ensures Requested(old(pending), {}, now, requests)
    {
      hide Packets, Lost, Kept, GivenUp, Due, Retried, Halfway, Requested;
      var todo := pending.Keys;
      dropped, requests := [], [];
      ghost var q := pending;
      SweepStarts(q, now);
      while todo != {}
        invariant todo <= q.Keys && Halfway(q, pending, todo, now)
        invariant multiset(dropped) == Packets(Lost(q - todo, now))
        invariant Requested(q, todo, now, requests)
        decreases |todo|
      {
        var ip :| ip in todo;
        HalfwayStep(q, pending, todo, ip, now);
        RequestedStep(q, todo, ip, now, requests);
        LostStep(q, todo, ip, now);
        todo := todo - {ip};
        var lost, retried := RetryOne(ip, now);
        dropped := dropped + lost;
        if retried {
          requests := requests + [ip];
        }
      }
      HalfwayEnd(q, pending, now);
      assert q - {} == q;
    }

    /** The closure of that `retain`, on one entry. */
    method RetryOne(ip: Ip, now: nat) returns (lost: seq<P>, retried: bool)
      requires ip in pending
      modifies this`pending
      ensures var p := old(pending)[ip];
              && pending == (if GivenUp(p, now) then old(pending) - {ip} else old(pending)[ip := Retried(p, now)])
              && lost == (if GivenUp(p, now) then p.packets else [])
              && retried == (Due(p, now) && !GivenUp(p, now))
    {
      lost, retried := [], false;
      var p := pending[ip];
      if Elapsed(now, p.lastRequest) < REQUEST_INTERVAL {
        assert pending == pending[ip := p];
        return;
      }
      if p.attempts >= MAX_ATTEMPTS {
        lost := p.packets;
        pending := pending - {ip};
        return;
      }
      pending := pending[ip := p.(attempts := p.attempts + 1, lastRequest := now)];
      retried := true;
    }

    method Sweep(now: nat) returns (dropped: seq<P>, requests: seq<Ip>)
      requires Valid()
      modifies this
      ensures Valid() && State() == AfterSweep(old(State()), now)
      ensures multiset(dropped) == Packets(Lost(old(pending), now))
      ensures Requested(old(pending), {}, now, requests)
    {
      dropped, requests := SweepPending(now);
      cache := Fresh(cache, now);
      resolved := Pointing(resolved, cache);
    }
  }

  /** In the middle of the sweep: the entries in `todo` are untouched, the others done. */
  ghost predicate Halfway<P>(q: Queues<P>, pending: Queues<P>, todo: set<Ip>, now: nat) {
    && todo <= pending.Keys <= q.Keys
    && (forall ip | ip in todo :: pending[ip] == q[ip])
    && (forall ip | ip in q && ip !in todo :: ip in pending <==> !GivenUp(q[ip], now))
    && (forall ip | ip in pending && ip !in todo :: pending[ip] == Retried(q[ip], now))
  }

  /** Every entry outside `todo` that was due and not given up got one request. */
  ghost predicate Requested<P>(q: Queues<P>, todo: set<Ip>, now: nat, requests: seq<Ip>) {
    && (forall ip :: ip in requests <==> ip in q && ip !in todo && Due(q[ip], now) && !GivenUp(q[ip], now))
    && (forall i, j | 0 <= i < j < |requests| :: requests[i] != requests[j])
  }

  lemma SweepStarts<P>(q: Queues<P>, now: nat)
    ensures Halfway(q, q, q.Keys, now) && Requested(q, q.Keys, now, [])
    ensures Packets(Lost(q - q.Keys, now)) == multiset{}
  {
    assert Lost(q - q.Keys, now) == map[];
  }

  lemma HalfwayStep<P>(q: Queues<P>, pending: Queues<P>, todo: set<Ip>, ip: Ip, now: nat)
    requires Halfway(q, pending, todo, now) && ip in todo
    ensures ip in pending && pending[ip] == q[ip]
    ensures Halfway(q, if GivenUp(q[ip], now) then pending - {ip} else pending[ip := Retried(q[ip], now)], todo - {ip}, now)
  {
  }

  lemma HalfwayEnd<P>(q: Queues<P>, pending: Queues<P>, now: nat)
    requires Halfway(q, pending, {}, now)
    ensures pending == Kept(q, now)
  {
  }

  lemma RequestedStep<P>(q: Queues<P>, todo: set<Ip>, ip: Ip, now: nat, requests: seq<Ip>)
    requires Requested(q, todo, now, requests) && ip in todo && ip in q
    ensures Requested(q, todo - {ip}, now,
                      if Due(q[ip], now) && !GivenUp(q[ip], now) then requests + [ip] else requests)
  {
  }

  lemma LostStep<P>(q: Queues<P>, todo: set<Ip>, ip: Ip, now: nat)
    requires ip in todo && ip in q
    ensures Packets(Lost(q - (todo - {ip}), now))
         == (if GivenUp(q[ip], now) then multiset(q[ip].packets) else multiset{}) + Packets(Lost(q - todo, now))
  {
    hide Packets, Lost, GivenUp;
    LostSplit(q - (todo - {ip}), ip, now);
    assert q - (todo - {ip}) - {ip} == q - todo;
  }

  // ---------------------------------------------------------------- whole runs

  datatype Event<P> =
    | Resolve(ip: Ip, packet: P, now: nat)
    | Arp(ip: Ip, mac: Mac, now: nat)
    | Insert(ip: Ip, mac: Mac, now: nat)
    | Sweep(now: nat)

  /** The table with its history: what became of every packet given to `resolve`, and the
      request times of every pending episode. */
  datatype World<P> = World(table: Table<P>, given: multiset<P>, forwarded: multiset<P>, refused: multiset<P>,
                            drained: multiset<P>, returned: multiset<P>, attempts: map<Ip, seq<nat>>)

  ghost function After<P>(w: World<P>, e: Event<P>): World<P> {
    var s := w.table;
    match e
    case Resolve(ip, packet, now) =>
      var a := Answer(s, ip, packet, ARP_FRAME);
      w.(table := AfterResolve(s, ip, packet, now), given := w.given + multiset{packet},
         forwarded := w.forwarded + (if a.Forward? then multiset{packet} else multiset{}),
         refused := w.refused + (if a.Drop? then multiset{packet} else multiset{}),
         attempts := if a.Queued? && QueueOf(s, ip) == [] then w.attempts[ip := [now]] else w.attempts)
    case Arp(ip, mac, now) =>
      w.(table := AfterArp(s, ip, mac, now), drained := w.drained + multiset(QueueOf(s, ip)), attempts := w.attempts - {ip})
    case Insert(ip, mac, now) => w.(table := AfterLearn(s, ip, mac, now))
    case Sweep(now) =>
      w.(table := AfterSweep(s, now), returned := w.returned + Packets(Lost(s.pending, now)),
         attempts := Continued(w.attempts, s.pending, now))
  }

  /** The request times of the episodes a sweep keeps. */
  function Continued<P>(attempts: map<Ip, seq<nat>>, q: Queues<P>, now: nat): map<Ip, seq<nat>> {
    map ip | ip in attempts && ip in q && !GivenUp(q[ip], now) ::
      if Due(q[ip], now) then attempts[ip] + [now] else attempts[ip]
  }

  ghost function WorldAfter<P>(es: seq<Event<P>>): World<P> {
    if es == []
    then World(Table(map[], map[], map[]), multiset{}, multiset{}, multiset{}, multiset{}, multiset{}, map[])
    else After(WorldAfter(es[..|es| - 1]), es[|es| - 1])
  }

  /** Each packet given to `resolve` is in exactly one place. */
  ghost predicate Conserved<P>(w: World<P>) {
    w.given == w.forwarded + w.refused + w.drained + w.returned + Packets(w.table.pending)
  }

  /** The recorded request times of an episode are its attempts, at least a second apart. */
  ghost predicate Episode<P>(times: seq<nat>, p: Pending<P>) {
    && |times| == p.attempts > 0 && times[|times| - 1] == p.lastRequest
    && forall i | 0 <= i < |times| - 1 :: times[i] + REQUEST_INTERVAL <= times[i + 1]
  }

  ghost predicate Episodes<P>(w: World<P>) {
    w.attempts.Keys == w.table.pending.Keys
    && forall ip | ip in w.table.pending :: Episode(w.attempts[ip], w.table.pending[ip])
  }

  lemma ResolveConserves<P>(w: World<P>, ip: Ip, packet: P, now: nat)
    requires Conserved(w)
    ensures Conserved(After(w, Resolve(ip, packet, now)))
  {
    hide Packets;
    var q := w.table.pending;
    var q' := AfterResolve(w.table, ip, packet, now).pending;
    if Answer(w.table, ip, packet, ARP_FRAME).Queued? {
      assert Packets(q') == Packets(q) + multiset{packet} by { QueuedAdds(w.table, ip, packet, now); }
    }
  }

  lemma QueueGrows<P>(q: Queues<P>, ip: Ip, p: Pending<P>, packet: P)
    requires p.packets == (if ip in q then q[ip].packets else []) + [packet]
    ensures Packets(q[ip := p]) == Packets(q) + multiset{packet}
  {
    hide Packets;
    PacketsPut(q, ip, p);
    if ip in q {
      PacketsSplit(q, ip);
    } else {
      assert q - {ip} == q;
    }
  }

  lemma QueuedAdds<P>(s: Table<P>, ip: Ip, packet: P, now: nat)
    requires Answer(s, ip, packet, ARP_FRAME).Queued?
    ensures Packets(AfterResolve(s, ip, packet, now).pending) == Packets(s.pending) + multiset{packet}
  {
    hide Packets;
    if QueueOf(s, ip) == [] {
      QueueGrows(s.pending, ip, Pending([packet], now, 1), packet);
    } else {
      var p := s.pending[ip];
      QueueGrows(s.pending, ip, p.(packets := p.packets + [packet]), packet);
    }
  }

  lemma ArpConserves<P>(w: World<P>, ip: Ip, mac: Mac, now: nat)
    requires Conserved(w)
    ensures Conserved(After(w, Arp(ip, mac, now)))
  {
    hide Packets;
    var q := w.table.pending;
    if ip in q {
      PacketsSplit(q, ip);
    } else {
      assert q - {ip} == q;
    }
  }

  lemma EventConserves<P>(w: World<P>, e: Event<P>)
    requires Conserved(w)
    ensures Conserved(After(w, e))
  {
    match e
    case Resolve(ip, packet, now) => ResolveConserves(w, ip, packet, now);
    case Arp(ip, mac, now) => ArpConserves(w, ip, mac, now);
    case Insert(ip, mac, now) =>
    case Sweep(now) =>
      hide Packets, Kept, Lost;
      SweepConserves(w.table.pending, now);
  }

  /** Queues and recorded attempts that fit together. */
  ghost predicate Booked<P>(q: Queues<P>, attempts: map<Ip, seq<nat>>) {
    && attempts.Keys == q.Keys && QueuesOk(q)
    && forall ip | ip in q :: Episode(attempts[ip], q[ip])
  }

  lemma BookedPut<P>(q: Queues<P>, attempts: map<Ip, seq<nat>>, ip: Ip, p: Pending<P>, times: seq<nat>)
    requires Booked(q, attempts) && Episode(times, p)
    requires 1 <= |p.packets| <= MAX_PENDING && 1 <= p.attempts <= MAX_ATTEMPTS
    ensures Booked(q[ip := p], attempts[ip := times])
  {
    hide Episode;
  }

  lemma ResolveBooked<P>(s: Table<P>, attempts: map<Ip, seq<nat>>, ip: Ip, packet: P, now: nat)
    requires Booked(s.pending, attempts)
    ensures var a := Answer(s, ip, packet, ARP_FRAME);
            Booked(AfterResolve(s, ip, packet, now).pending,
                   if a.Queued? && QueueOf(s, ip) == [] then attempts[ip := [now]] else attempts)
  {
    if Answer(s, ip, packet, ARP_FRAME).Queued? {
      if QueueOf(s, ip) == [] {
        BookedPut(s.pending, attempts, ip, Pending([packet], now, 1), [now]);
      } else {
        var p := s.pending[ip];
        BookedPut(s.pending, attempts, ip, p.(packets := p.packets + [packet]), attempts[ip]);
        assert attempts[ip := attempts[ip]] == attempts;
      }
    }
  }

  lemma EpisodeGrows<P>(times: seq<nat>, p: Pending<P>, now: nat)
    requires Episode(times, p) && Due(p, now)
    ensures Episode(times + [now], Retried(p, now))
  {
    var longer := times + [now];
    forall i | 0 <= i < |longer| - 1 ensures longer[i] + REQUEST_INTERVAL <= longer[i + 1] {
      assert i < |times| - 1 ==> times[i] + REQUEST_INTERVAL <= times[i + 1];
    }
  }

  lemma SweepBooked<P>(q: Queues<P>, attempts: map<Ip, seq<nat>>, now: nat)
    requires Booked(q, attempts)
    ensures Booked(Kept(q, now), Continued(attempts, q, now))
  {
    hide Episode;
    var k, c := Kept(q, now), Continued(attempts, q, now);
    assert c.Keys == k.Keys;
    forall ip | ip in k ensures Episode(c[ip], k[ip]) {
      if Due(q[ip], now) { EpisodeGrows(attempts[ip], q[ip], now); }
    }
  }

  lemma EventKeepsEpisodes<P>(w: World<P>, e: Event<P>)
    requires QueuesOk(w.table.pending) && Episodes(w)
    ensures QueuesOk(After(w, e).table.pending) && Episodes(After(w, e))
  {
    hide Kept, Continued, AfterResolve, Answer, Episode;
    assert Booked(w.table.pending, w.attempts);
    match e
    case Resolve(ip, packet, now) => ResolveBooked(w.table, w.attempts, ip, packet, now);
    case Arp(ip, mac, now) => ArpBooked(w.table.pending, w.attempts, ip);
    case Insert(ip, mac, now) =>
    case Sweep(now) => SweepBooked(w.table.pending, w.attempts, now);
  }

  lemma ArpBooked<P>(q: Queues<P>, attempts: map<Ip, seq<nat>>, ip: Ip)
    requires Booked(q, attempts)
    ensures Booked(q - {ip}, attempts - {ip})
  {
    hide Episode;
  }

  /** Packet conservation over every run: each packet given to `resolve` is exactly one of
      forwarded, refused, still queued, drained by an ARP, or handed back by a sweep; every
      queue holds 1 to 4 packets; every pending episode counts at most 3 attempts, at least
      1000 ms apart. */
  lemma {:induction false} PacketsConserved<P>(es: seq<Event<P>>)
    ensures Conserved(WorldAfter(es))
    ensures QueuesOk(WorldAfter(es).table.pending) && Episodes(WorldAfter(es))
  {
    if es == [] {
    } else {
      PacketsConserved(es[..|es| - 1]);
      EventConserves(WorldAfter(es[..|es| - 1]), es[|es| - 1]);
      EventKeepsEpisodes(WorldAfter(es[..|es| - 1]), es[|es| - 1]);
    }
  }

  ghost predicate Apart<P>(s: Table<P>) {
    s.cache.Keys !! s.pending.Keys
  }

  /** The event inserts a mapping directly, for an address that packets wait for. */
  ghost predicate InsertsWaiting<P>(s: Table<P>, e: Event<P>) {
    e.Insert? && e.ip in s.pending
  }

  lemma EventApart<P>(w: World<P>, e: Event<P>)
    requires Apart(w.table)
    ensures Apart(After(w, e).table) <==> !InsertsWaiting(w.table, e)
  {
    hide Packets, Lost, Continued, Pointing;
    if InsertsWaiting(w.table, e) {
      assert e.ip in After(w, e).table.cache.Keys && e.ip in After(w, e).table.pending.Keys;
    }
  }

  /** No address is ever cached and waited for at once if and only if no mapping is inserted
      directly for an address that packets wait for. */
  lemma {:induction false} ApartExactly<P>(es: seq<Event<P>>, n: nat)
    requires n <= |es|
    ensures (forall k | 0 <= k <= n :: Apart(WorldAfter(es[..k]).table))
       <==> (forall k | 0 <= k < n :: !InsertsWaiting(WorldAfter(es[..k]).table, es[k]))
  {
    hide After, Apart, InsertsWaiting, WorldAfter;
    if n == 0 {
      assert es[..0] == [];
      EmptyApart<P>();
    } else {
      ApartExactly(es, n - 1);
      WorldStep(es, n);
      assert (forall k | 0 <= k <= n :: Apart(WorldAfter(es[..k]).table))
        <==> (forall k | 0 <= k <= n - 1 :: Apart(WorldAfter(es[..k]).table)) && Apart(WorldAfter(es[..n]).table);
      if Apart(WorldAfter(es[..n - 1]).table) {
        EventApart(WorldAfter(es[..n - 1]), es[n - 1]);
      }
    }
  }

  lemma EmptyApart<P>()
    ensures Apart(WorldAfter<P>([]).table)
  {
  }

  // ------------------------------------------------------------- what resolve answers

  predicate Learns<P>(e: Event<P>, ip: Ip) {
    (e.Arp? || e.Insert?) && e.ip == ip
  }

  /** Event `n` is the last to learn `ip`, and no sweep since was 300 seconds or more later. */
  ghost predicate StillCached<P>(es: seq<Event<P>>, n: nat, ip: Ip) {
    && n < |es| && Learns(es[n], ip)
    && forall k | n < k < |es| :: !Learns(es[k], ip) && (es[k].Sweep? ==> es[k].now < es[n].now + 300_000)
  }

  function Entry<P>(s: Table<P>, ip: Ip): Option<Cached> {
    if ip in s.cache then Some(s.cache[ip]) else None
  }

  /** The cache entry of `ip` after one event. */
  lemma EntryAfter<P>(w: World<P>, e: Event<P>, ip: Ip)
    ensures var was, now_ := Entry(w.table, ip), Entry(After(w, e).table, ip);
            if Learns(e, ip) then now_ == Some(Cached(e.mac, e.now))
            else if e.Sweep? && was.Some? && e.now >= was.value.learnedAt + 300_000 then now_ == None
            else now_ == was
  {
    hide Packets, Kept, Lost, Continued, Pointing;
  }

  lemma {:induction false} CachedFrom<P>(es: seq<Event<P>>, ip: Ip) returns (n: nat)
    requires Entry(WorldAfter(es).table, ip).Some?
    ensures StillCached(es, n, ip) && Entry(WorldAfter(es).table, ip) == Some(Cached(es[n].mac, es[n].now))
  {
    hide After;
    var pre, e := es[..|es| - 1], es[|es| - 1];
    EntryAfter(WorldAfter(pre), e, ip);
    if Learns(e, ip) {
      n := |es| - 1;
    } else {
      n := CachedFrom(pre, ip);
    }
  }

  lemma {:induction false} StaysCached<P>(es: seq<Event<P>>, n: nat, ip: Ip)
    requires StillCached(es, n, ip)
    ensures Entry(WorldAfter(es).table, ip) == Some(Cached(es[n].mac, es[n].now))
  {
    hide After;
    var pre, e := es[..|es| - 1], es[|es| - 1];
    EntryAfter(WorldAfter(pre), e, ip);
    if n == |es| - 1 {
    } else {
      StaysCached(pre, n, ip);
    }
  }

  /** What `resolve` answers after any run. It forwards if and only if the address was learned
      and no sweep since found it 300 seconds old, and then to the MAC learned last; it drops
      if and only if it cannot forward and four packets wait; and otherwise it queues, asking
      for the address only with the first packet. The packet it hands back is the one given. */
  lemma ResolvesExactly<P>(es: seq<Event<P>>, ip: Ip, packet: P, bufLen: nat)
    ensures var a := Answer(WorldAfter(es).table, ip, packet, bufLen);
            && (a.Forward? <==> exists n: nat :: StillCached(es, n, ip))
            && (forall n: nat | StillCached(es, n, ip) :: a == Forward(es[n].mac, packet))
    ensures var a, waiting := Answer(WorldAfter(es).table, ip, packet, bufLen), QueueOf(WorldAfter(es).table, ip);
            && (a.Drop? <==> |waiting| == 4 && forall n: nat :: !StillCached(es, n, ip))
            && (a.Drop? ==> a.packet == packet)
            && (a.Queued? ==> (a.requestLen.Some? <==> waiting == [] && bufLen >= 42) && |waiting| < 4)
  {
    PacketsConserved(es);
    hide WorldAfter, Conserved;
    var s := WorldAfter(es).table;
    if ip in s.cache {
      var n := CachedFrom(es, ip);
    }
    forall n: nat | StillCached(es, n, ip) ensures Entry(s, ip) == Some(Cached(es[n].mac, es[n].now)) {
      StaysCached(es, n, ip);
    }
  }

  // ----------------------------------------------------------------- order of packets

  /** What one event does to the packets waiting for `ip`. */
  lemma QueueAfter<P>(w: World<P>, e: Event<P>, ip: Ip)
    ensures var was, now_ := QueueOf(w.table, ip), QueueOf(After(w, e).table, ip);
            if e.Resolve? && e.ip == ip && ip !in w.table.cache && |was| < 4 then now_ == was + [e.packet]
            else if e.Arp? && e.ip == ip then now_ == []
            else if e.Sweep? && ip in w.table.pending && e.now >= w.table.pending[ip].lastRequest + 1000
                    && w.table.pending[ip].attempts >= 3 then now_ == []
            else now_ == was
  {
    hide Packets, Lost, Continued, Pointing, Fresh;
  }

  /** The packets that wait for an address were given to `resolve` for it in that very order. */
  lemma {:induction false} WaitInOrder<P>(es: seq<Event<P>>, ip: Ip) returns (at: seq<nat>)
    ensures var q := QueueOf(WorldAfter(es).table, ip);
            && |at| == |q| && (forall i, j | 0 <= i < j < |at| :: at[i] < at[j])
            && forall j | 0 <= j < |at| :: at[j] < |es| && es[at[j]].Resolve? && es[at[j]].ip == ip && es[at[j]].packet == q[j]
  {
    if es == [] {
      at := [];
    } else {
      hide After;
      var pre, e := es[..|es| - 1], es[|es| - 1];
      at := WaitInOrder(pre, ip);
      QueueAfter(WorldAfter(pre), e, ip);
      var was, now_ := QueueOf(WorldAfter(pre).table, ip), QueueOf(WorldAfter(es).table, ip);
      if now_ == was {
      } else if now_ == [] {
        at := [];
      } else {
        at := at + [|es| - 1];
      }
    }
  }

  /** What a sweep does to one pending entry, in milliseconds: nothing before 1000 have passed
      since its last request; then one more request, until three were made; then it gives up. */
  lemma SweepExactly<P>(q: Queues<P>, now: nat, ip: Ip)
    requires ip in q
    ensures ip !in Kept(q, now) <==> now >= q[ip].lastRequest + 1000 && q[ip].attempts >= 3
    ensures ip in Kept(q, now) && now >= q[ip].lastRequest + 1000 ==>
              Kept(q, now)[ip] == Pending(q[ip].packets, now, q[ip].attempts + 1)
    ensures ip in Kept(q, now) && now < q[ip].lastRequest + 1000 ==> Kept(q, now)[ip] == q[ip]
    ensures ip in Lost(q, now) <==> ip !in Kept(q, now)
    ensures ip in Lost(q, now) ==> Lost(q, now)[ip] == q[ip]
  {
  }

  /** And to the index: what points to an address that stays cached stays, the rest goes. */
  lemma SweepPrunes<P>(s: Table<P>, now: nat, m: Mac)
    ensures var t := AfterSweep(s, now);
            && (m in t.resolved <==> m in s.resolved && s.resolved[m] in s.cache
                                     && now < s.cache[s.resolved[m]].learnedAt + 300_000)
            && (m in t.resolved ==> t.resolved[m] == s.resolved[m] && t.resolved[m] in t.cache)
  {
    hide Kept;
  }

  // ------------------------------------------------------------ the reverse index

  /** The index has the MAC of the cached address `ip`, and points to a cached address learned
      no earlier. */
  ghost predicate Found<P>(s: Table<P>, ip: Ip)
    requires ip in s.cache
  {
    && s.cache[ip].mac in s.resolved && s.resolved[s.cache[ip].mac] in s.cache
    && s.cache[ip].learnedAt <= s.cache[s.resolved[s.cache[ip].mac]].learnedAt
  }

  /** So for every cached address. */
  ghost predicate Indexed<P>(s: Table<P>) {
    forall ip | ip in s.cache :: Found(s, ip)
  }

  /** `x` is not `ip`, and is found through `ip` once that is learned for `mac`. */
  ghost predicate FoundThrough<P>(s: Table<P>, ip: Ip, mac: Mac, x: Ip)
    requires x in s.cache && Found(s, x)
  {
    x != ip && (s.cache[x].mac == mac || s.resolved[s.cache[x].mac] == ip)
  }

  /** What the table says, before a mapping is learned, of whether the index stays complete:
      no cached address that will be found through `ip` was learned later than `now`. These
      are the other addresses of `mac`, and those indexed to `ip` already. */
  ghost predicate LearnsInTime<P>(s: Table<P>, ip: Ip, mac: Mac, now: nat)
    requires Indexed(s)
  {
    forall x | x in s.cache :: FoundThrough(s, ip, mac, x) ==> s.cache[x].learnedAt <= now
  }

  lemma FoundAfter<P>(s: Table<P>, ip: Ip, mac: Mac, now: nat, x: Ip)
    requires x in s.cache && Found(s, x)
    ensures Found(AfterLearn(s, ip, mac, now), x) <==> (FoundThrough(s, ip, mac, x) ==> s.cache[x].learnedAt <= now)
  {
  }

  /** Learning keeps the index complete exactly then. */
  lemma LearnIndexes<P>(s: Table<P>, ip: Ip, mac: Mac, now: nat)
    requires Indexed(s)
    ensures Indexed(AfterLearn(s, ip, mac, now)) <==> LearnsInTime(s, ip, mac, now)
  {
    hide Found, FoundThrough;
    var t := AfterLearn(s, ip, mac, now);
    forall x | x in s.cache
      ensures Found(t, x) <==> (FoundThrough(s, ip, mac, x) ==> s.cache[x].learnedAt <= now)
    {
      FoundAfter(s, ip, mac, now, x);
    }
    FoundItself(s, ip, mac, now);
    assert t.cache.Keys == s.cache.Keys + {ip};
  }

  lemma FoundItself<P>(s: Table<P>, ip: Ip, mac: Mac, now: nat)
    ensures Found(AfterLearn(s, ip, mac, now), ip)
  {
  }

  /** Aging keeps it complete whatever the clock says. */
  lemma SweepIndexes<P>(s: Table<P>, now: nat)
    requires Indexed(s)
    ensures Indexed(AfterSweep(s, now))
  {
    hide Found;
    var t := AfterSweep(s, now);
    forall ip | ip in t.cache ensures Found(t, ip) {
      FoundStays(s, now, ip);
    }
  }

  lemma FoundStays<P>(s: Table<P>, now: nat, ip: Ip)
    requires ip in Fresh(s.cache, now) && Found(s, ip)
    ensures Found(AfterSweep(s, now), ip)
  {
    hide Kept;
    assert s.resolved[s.cache[ip].mac] in Fresh(s.cache, now);
  }

  lemma IndexCarries<P>(s: Table<P>, t: Table<P>)
    requires s.cache == t.cache && s.resolved == t.resolved
    ensures Indexed(s) <==> Indexed(t)
  {
  }

  /** The event learns nothing, or learns in time. */
  ghost predicate InTime<P>(s: Table<P>, e: Event<P>)
    requires Indexed(s)
  {
    e.Arp? || e.Insert? ==> LearnsInTime(s, e.ip, e.mac, e.now)
  }

  lemma EventIndexes<P>(w: World<P>, e: Event<P>)
    requires Indexed(w.table)
    ensures Indexed(After(w, e).table) <==> InTime(w.table, e)
  {
    hide Packets, Kept, Lost, Fresh, Pointing, Continued, Indexed, LearnsInTime;
    match e
    case Resolve(_, _, _) => IndexCarries(w.table, After(w, e).table);
    case Arp(ip, mac, now) =>
      LearnIndexes(w.table, ip, mac, now);
      IndexCarries(AfterLearn(w.table, ip, mac, now), After(w, e).table);
    case Insert(ip, mac, now) => LearnIndexes(w.table, ip, mac, now);
    case Sweep(now) => SweepIndexes(w.table, now);
  }

  /** The index is complete after each of the first `n` events. */
  ghost predicate AlwaysIndexed<P>(es: seq<Event<P>>, n: nat)
    requires n <= |es|
  {
    forall k | 0 <= k <= n :: Indexed(WorldAfter(es[..k]).table)
  }

  /** Each of the first `n` events that learns a mapping learns it in time. */
  ghost predicate AlwaysInTime<P>(es: seq<Event<P>>, n: nat)
    requires n <= |es|
  {
    forall k | 0 <= k < n :: Indexed(WorldAfter(es[..k]).table) ==> InTime(WorldAfter(es[..k]).table, es[k])
  }

  /** Over every run, with any clock: the reverse index is complete all along if and only if
      every mapping is learned in time. */
  lemma {:induction false} IndexedExactly<P>(es: seq<Event<P>>, n: nat)
    requires n <= |es|
    ensures AlwaysIndexed(es, n) <==> AlwaysInTime(es, n)
  {
    hide Indexed, InTime, After, WorldAfter;
    if n == 0 {
      assert es[..0] == [];
      EmptyIndexed<P>();
    } else {
      IndexedExactly(es, n - 1);
      WorldStep(es, n);
      assert AlwaysIndexed(es, n) <==> AlwaysIndexed(es, n - 1) && Indexed(WorldAfter(es[..n]).table);
      if Indexed(WorldAfter(es[..n - 1]).table) {
        EventIndexes(WorldAfter(es[..n - 1]), es[n - 1]);
      }
    }
  }

  lemma WorldStep<P>(es: seq<Event<P>>, n: nat)
    requires 0 < n <= |es|
    ensures WorldAfter(es[..n]) == After(WorldAfter(es[..n - 1]), es[n - 1])
  {
    hide After;
    assert es[..n][..n - 1] == es[..n - 1];
  }

  lemma EmptyIndexed<P>()
    ensures Indexed(WorldAfter<P>([]).table)
  {
  }

  /** Nothing was learned after `clock`. */
  ghost predicate LearnedBy<P>(s: Table<P>, clock: nat) {
    forall ip | ip in s.cache :: s.cache[ip].learnedAt <= clock
  }

  /** Times never go back. */
  ghost predicate Timely<P>(es: seq<Event<P>>) {
    forall i, j | 0 <= i < j < |es| :: es[i].now <= es[j].now
  }

  /** Nothing is learned later than the last event. */
  lemma {:induction false} LearnedByNow<P>(es: seq<Event<P>>, clock: nat)
    requires Timely(es) && (es != [] ==> es[|es| - 1].now <= clock)
    ensures LearnedBy(WorldAfter(es).table, clock)
  {
    if es == [] {
    } else {
      hide After, LearnedBy;
      var e := es[|es| - 1];
      LearnedByNow(es[..|es| - 1], e.now);
      EventLearns(WorldAfter(es[..|es| - 1]), e, clock);
    }
  }

  lemma EventLearns<P>(w: World<P>, e: Event<P>, clock: nat)
    requires LearnedBy(w.table, e.now) && e.now <= clock
    ensures LearnedBy(After(w, e).table, clock)
  {
    hide Packets, Kept, Lost, Continued, Pointing;
  }

  /** So under non-decreasing time the reverse index is complete in every reachable state. */
  lemma IndexComplete<P>(es: seq<Event<P>>)
    requires Timely(es)
    ensures Indexed(WorldAfter(es).table)
  {
    hide Indexed, WorldAfter;
    forall k | 0 <= k < |es| && Indexed(WorldAfter(es[..k]).table) ensures InTime(WorldAfter(es[..k]).table, es[k]) {
      LearnedByNow(es[..k], es[k].now);
    }
    IndexedExactly(es, |es|);
    assert es[..|es|] == es;
  }

  /** A concrete run with a mapping learned out of time: one learned "earlier" than another of
      the same MAC takes over the index and, when it ages out, leaves the other cached
      address without an entry. */
  lemma BackwardTimeLosesIndex<P>(a: Ip, b: Ip, m: Mac)
    requires a != b
    ensures var s := WorldAfter<P>([Arp(a, m, 10), Arp(b, m, 5), Sweep(CACHE_TTL + 6)]).table;
            a in s.cache && s.cache[a].mac == m && m !in s.resolved
  {
    var es: seq<Event<P>> := [Arp(a, m, 10), Arp(b, m, 5), Sweep(CACHE_TTL + 6)];
    assert es[..2][..1] == es[..1] && es[..1][..0] == [];
    assert WorldAfter(es[..1]) == After(WorldAfter([]), es[0]);
    assert WorldAfter(es[..2]) == After(WorldAfter(es[..1]), es[1]);
  }
}

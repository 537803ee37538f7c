/** Lease assignment over one shared pool and one shared lease table, by any number of
    DHCP servers (src/router/dhcp.rs, src/router/leases.rs).

    `assign` takes three separately locked steps: look the MAC up, take an address from the
    pool, record the lease. A RELEASE or DECLINE takes two: remove the lease, give the
    address back. Between its steps a server thread holds an address that is neither free
    nor leased. The steps below are those critical sections; a run interleaves them freely. */
module Leases {
  import opened Wire

  type Mac = seq<byte>

  /** Where a server thread stands inside `handle`. */
  datatype Thread =
    | Idle
    | Missed(mac: Mac)            // lookup found no lease; about to take an address
    | Took(mac: Mac, ip: int)     // address taken; about to record the lease
    | Removed(ip: int)            // lease removed; about to give the address back

  /** `owner` is history: the MAC an address was last taken from the pool for. */
  datatype Lan = Lan(free: set<int>, leases: map<Mac, int>, threads: map<Tid, Thread>, owner: map<int, Mac>)

  datatype Event =
    | Lookup(t: Tid, mac: Mac)
    | Take(t: Tid)
    | Record(t: Tid)
    | Remove(t: Tid, mac: Mac)
    | GiveBack(t: Tid)
    | Reserve(ip: int)

  function At(s: Lan, t: Tid): Thread {
    if t in s.threads then s.threads[t] else Idle
  }

  ghost predicate IsLeast(free: set<int>, ip: int) {
    ip in free && forall x | x in free :: ip <= x
  }

  /** Thread `t` takes `ip` out of the pool for `mac`. */
  ghost function Taken(s: Lan, t: Tid, mac: Mac, ip: int): Lan {
    s.(free := s.free - {ip}, owner := s.owner[ip := mac], threads := s.threads[t := Took(mac, ip)])
  }

  /** One critical section. `answer` is the address `assign` returns in it, if it does. */
  ghost predicate Step(s: Lan, e: Event, s': Lan, answer: Option<(Mac, int)>) {
    match e
    case Lookup(t, mac) =>
      && At(s, t) == Idle
      && if mac in s.leases then s' == s && answer == Some((mac, s.leases[mac]))
         else s' == s.(threads := s.threads[t := Missed(mac)]) && answer == None
    case Take(t) =>
      && At(s, t).Missed? && answer == None
      && if s.free == {} then s' == s.(threads := s.threads[t := Idle])
         else exists ip :: IsLeast(s.free, ip) && s' == Taken(s, t, At(s, t).mac, ip)
    case Record(t) =>
      && At(s, t).Took? && answer == Some((At(s, t).mac, At(s, t).ip))
      && s' == s.(leases := s.leases[At(s, t).mac := At(s, t).ip], threads := s.threads[t := Idle])
    case Remove(t, mac) =>
      && At(s, t) == Idle && answer == None
      && if mac in s.leases
         then s' == s.(leases := s.leases - {mac}, threads := s.threads[t := Removed(s.leases[mac])])
         else s' == s
    case GiveBack(t) =>
      && At(s, t).Removed? && answer == None
      && s' == s.(free := s.free + {At(s, t).ip}, threads := s.threads[t := Idle])
    case Reserve(ip) => s' == s.(free := s.free - {ip}) && answer == None
  }

  /** The address a thread holds between its steps. */
  ghost predicate Holds(s: Lan, t: Tid, ip: int) {
    t in s.threads && ((s.threads[t].Took? && s.threads[t].ip == ip) || (s.threads[t].Removed? && s.threads[t].ip == ip))
  }

  /** Every address is in at most one place: the pool, one lease, or one thread's hands. And
      a lease, or an address on its way to one, belongs to the MAC it was taken for. */
  ghost predicate Inv(s: Lan) {
    && (forall m | m in s.leases :: s.leases[m] !in s.free)
    && (forall m, m' | m in s.leases && m' in s.leases && m != m' :: s.leases[m] != s.leases[m'])
    && (forall t, ip | Holds(s, t, ip) :: ip !in s.free)
    && (forall t, ip, m | Holds(s, t, ip) && m in s.leases :: s.leases[m] != ip)
    && (forall t, t', ip | Holds(s, t, ip) && Holds(s, t', ip) :: t == t')
    && (forall m | m in s.leases :: s.leases[m] in s.owner && s.owner[s.leases[m]] == m)
    && (forall t, ip | Holds(s, t, ip) && s.threads[t].Took? :: ip in s.owner && s.owner[ip] == s.threads[t].mac)
  }

  lemma TakenKeepsInv(s: Lan, t: Tid, mac: Mac, ip: int)
    requires Inv(s) && At(s, t) == Missed(mac) && ip in s.free
    ensures Inv(Taken(s, t, mac, ip))
  {
    var s' := Taken(s, t, mac, ip);
    forall u, x ensures Holds(s', u, x) <==> (if u == t then x == ip else Holds(s, u, x)) {
    }
  }

  lemma RecordKeepsInv(s: Lan, t: Tid, mac: Mac, ip: int)
    requires Inv(s) && At(s, t) == Took(mac, ip)
    ensures Inv(s.(leases := s.leases[mac := ip], threads := s.threads[t := Idle]))
  {
    var s' := s.(leases := s.leases[mac := ip], threads := s.threads[t := Idle]);
    assert Holds(s, t, ip);
    forall u, x ensures Holds(s', u, x) <==> u != t && Holds(s, u, x) {
    }
  }

  lemma RemoveKeepsInv(s: Lan, t: Tid, mac: Mac)
    requires Inv(s) && At(s, t) == Idle && mac in s.leases
    ensures Inv(s.(leases := s.leases - {mac}, threads := s.threads[t := Removed(s.leases[mac])]))
  {
    var s' := s.(leases := s.leases - {mac}, threads := s.threads[t := Removed(s.leases[mac])]);
    forall u, x ensures Holds(s', u, x) <==> (if u == t then x == s.leases[mac] else Holds(s, u, x)) {
    }
  }

  lemma GiveBackKeepsInv(s: Lan, t: Tid, ip: int)
    requires Inv(s) && At(s, t) == Removed(ip)
    ensures Inv(s.(free := s.free + {ip}, threads := s.threads[t := Idle]))
  {
    var s' := s.(free := s.free + {ip}, threads := s.threads[t := Idle]);
    assert Holds(s, t, ip);
    forall u, x ensures Holds(s', u, x) <==> u != t && Holds(s, u, x) {
    }
  }

  /** A thread that holds nothing may change its mind. */
  lemma IdleKeepsInv(s: Lan, t: Tid, to: Thread)
    requires Inv(s) && (At(s, t).Idle? || At(s, t).Missed?) && (to.Idle? || to.Missed?)
    ensures Inv(s.(threads := s.threads[t := to]))
  {
    var s' := s.(threads := s.threads[t := to]);
    forall u, x ensures Holds(s', u, x) <==> Holds(s, u, x) {
    }
  }

  lemma ReserveKeepsInv(s: Lan, ip: int)
    requires Inv(s)
    ensures Inv(s.(free := s.free - {ip}))
  {
    var s' := s.(free := s.free - {ip});
    forall u, x ensures Holds(s', u, x) <==> Holds(s, u, x) {
    }
  }

  lemma StepKeepsInv(s: Lan, e: Event, s': Lan, answer: Option<(Mac, int)>)
    requires Inv(s) && Step(s, e, s', answer)
    ensures Inv(s')
  {
    hide Inv;
    match e
    case Lookup(t, mac) => IdleKeepsInv(s, t, Missed(mac));
    case Take(t) =>
      if s.free == {} {
        IdleKeepsInv(s, t, Idle);
      } else {
        var ip :| IsLeast(s.free, ip) && s' == Taken(s, t, At(s, t).mac, ip);
        TakenKeepsInv(s, t, At(s, t).mac, ip);
      }
    case Record(t) => RecordKeepsInv(s, t, At(s, t).mac, At(s, t).ip);
    case Remove(t, mac) => if mac in s.leases { RemoveKeepsInv(s, t, mac); }
    case GiveBack(t) => GiveBackKeepsInv(s, t, At(s, t).ip);
    case Reserve(ip) => ReserveKeepsInv(s, ip);
  }

  // ---------------------------------------------------------------- whole runs

  ghost predicate Run(ss: seq<Lan>, es: seq<Event>, answers: seq<Option<(Mac, int)>>) {
    && |ss| == |es| + 1 && |answers| == |es|
    && forall k | 0 <= k < |es| :: Step(ss[k], es[k], ss[k + 1], answers[k])
  }

  /** Nothing is leased and no call is under way; the pool may hold any addresses. */
  ghost predicate Initial(s: Lan) {
    s.leases == map[] && s.threads == map[]
  }

  lemma {:induction false} RunKeepsInv(ss: seq<Lan>, es: seq<Event>, answers: seq<Option<(Mac, int)>>, k: nat)
    requires Run(ss, es, answers) && Initial(ss[0]) && k < |ss|
    ensures Inv(ss[k])
  {
    if k == 0 {
    } else {
      RunKeepsInv(ss, es, answers, k - 1);
      StepKeepsInv(ss[k - 1], es[k - 1], ss[k], answers[k - 1]);
    }
  }

  /** No address is ever bound to two MACs, however the servers' steps interleave. */
  lemma NeverTwoMacs(ss: seq<Lan>, es: seq<Event>, answers: seq<Option<(Mac, int)>>, k: nat, m: Mac, m': Mac)
    requires Run(ss, es, answers) && Initial(ss[0]) && k < |ss|
    requires m in ss[k].leases && m' in ss[k].leases && ss[k].leases[m] == ss[k].leases[m']
    ensures m == m'
  {
    RunKeepsInv(ss, es, answers, k);
  }

  /** What a thread gives back is not free: the pool's `release` is only ever called where it
      keeps the interval list canonical. */
  lemma GiveBackIsSafe(ss: seq<Lan>, es: seq<Event>, answers: seq<Option<(Mac, int)>>, k: nat)
    requires Run(ss, es, answers) && Initial(ss[0]) && k < |es| && es[k].GiveBack?
    ensures At(ss[k], es[k].t).Removed? && At(ss[k], es[k].t).ip !in ss[k].free
  {
    RunKeepsInv(ss, es, answers, k);
    assert Step(ss[k], es[k], ss[k + 1], answers[k]);
    assert Holds(ss[k], es[k].t, At(ss[k], es[k].t).ip);
  }

  /** An address leaves the pool for one MAC and is answered to that MAC only, until it has
      been given back: two answers for one address with no taking of it in between name
      the same MAC. */
  lemma AnswersAgree(ss: seq<Lan>, es: seq<Event>, answers: seq<Option<(Mac, int)>>, i: nat, j: nat)
    requires Run(ss, es, answers) && Initial(ss[0]) && i <= j < |es|
    requires answers[i].Some? && answers[j].Some? && answers[i].value.1 == answers[j].value.1
    requires forall k | i <= k < j :: !Takes(ss[k], ss[k + 1], answers[i].value.1)
    ensures answers[i].value.0 == answers[j].value.0
  {
    AnsweredToOwner(ss, es, answers, i);
    AnsweredToOwner(ss, es, answers, j);
    OwnerStays(ss, es, answers, i, j, answers[i].value.1);
  }

  /** The step takes `ip` out of the pool for some MAC. */
  ghost predicate Takes(s: Lan, s': Lan, ip: int) {
    exists t, mac :: IsLeast(s.free, ip) && s' == Taken(s, t, mac, ip)
  }

  lemma AnsweredToOwner(ss: seq<Lan>, es: seq<Event>, answers: seq<Option<(Mac, int)>>, k: nat)
    requires Run(ss, es, answers) && Initial(ss[0]) && k < |es| && answers[k].Some?
    ensures answers[k].value.1 in ss[k].owner && ss[k].owner[answers[k].value.1] == answers[k].value.0
  {
    RunKeepsInv(ss, es, answers, k);
    assert Step(ss[k], es[k], ss[k + 1], answers[k]);
    assert es[k].Record? ==> Holds(ss[k], es[k].t, answers[k].value.1);
  }

  lemma {:induction false} OwnerStays(ss: seq<Lan>, es: seq<Event>, answers: seq<Option<(Mac, int)>>, i: nat, j: nat, ip: int)
    requires Run(ss, es, answers) && i <= j < |ss| && ip in ss[i].owner
    requires forall k | i <= k < j :: !Takes(ss[k], ss[k + 1], ip)
    ensures ip in ss[j].owner && ss[j].owner[ip] == ss[i].owner[ip]
  {
    if i == j {
    } else {
      OwnerStays(ss, es, answers, i, j - 1, ip);
      assert Step(ss[j - 1], es[j - 1], ss[j], answers[j - 1]) && !Takes(ss[j - 1], ss[j], ip);
    }
  }

  // ------------------------------------------------------- when an address is lost

  /** The address is in the pool, in a lease, or in a thread's hands. */
  ghost predicate Placed(s: Lan, x: int) {
    x in s.free || Leased(s.leases, x) || exists t :: Holds(s, t, x)
  }

  /** The step records a lease for a MAC that already has one. */
  ghost predicate Overwrites(s: Lan, e: Event) {
    e.Record? && At(s, e.t).Took? && At(s, e.t).mac in s.leases
  }

  /** The step sets the free address `x` aside. */
  ghost predicate TakesAside(s: Lan, e: Event, x: int) {
    e == Reserve(x) && x in s.free
  }

  lemma LeasedBy(leases: map<Mac, int>, m: Mac)
    requires m in leases
    ensures Leased(leases, leases[m])
  {
  }

  /** An overwritten lease's address is nowhere afterwards. */
  lemma OverwriteLoses(s: Lan, e: Event, s': Lan, answer: Option<(Mac, int)>)
    requires Inv(s) && Step(s, e, s', answer) && Overwrites(s, e)
    ensures var x := s.leases[At(s, e.t).mac]; Placed(s, x) && !Placed(s', x)
  {
    var t, mac, ip := e.t, At(s, e.t).mac, At(s, e.t).ip;
    var x := s.leases[mac];
    LeasedBy(s.leases, mac);
    assert Holds(s, t, ip);
    forall u ensures !Holds(s', u, x) {
      assert Holds(s', u, x) ==> Holds(s, u, x);
    }
    forall m | m in s'.leases ensures s'.leases[m] != x {
      assert m != mac ==> m in s.leases;
    }
  }

  /** Any other step moves addresses about and loses none, but for the one set aside. */
  lemma OthersKeepPlaces(s: Lan, e: Event, s': Lan, answer: Option<(Mac, int)>, x: int)
    requires Step(s, e, s', answer) && !Overwrites(s, e) && Placed(s, x)
    ensures Placed(s', x) || TakesAside(s, e, x)
  {
    if x in s.free {
      FreeKeepsPlace(s, e, s', answer, x);
    } else if Leased(s.leases, x) {
      var m :| m in s.leases && s.leases[m] == x;
      LeaseKeepsPlace(s, e, s', answer, m);
    } else {
      var t :| Holds(s, t, x);
      HeldKeepsPlace(s, e, s', answer, t, x);
    }
  }

  lemma FreeKeepsPlace(s: Lan, e: Event, s': Lan, answer: Option<(Mac, int)>, x: int)
    requires Step(s, e, s', answer) && x in s.free
    ensures Placed(s', x) || TakesAside(s, e, x)
  {
    if e.Take? {
      var ip :| IsLeast(s.free, ip) && s' == Taken(s, e.t, At(s, e.t).mac, ip);
      assert Holds(s', e.t, ip);
    }
  }

  lemma LeaseKeepsPlace(s: Lan, e: Event, s': Lan, answer: Option<(Mac, int)>, m: Mac)
    requires Step(s, e, s', answer) && !Overwrites(s, e) && m in s.leases
    ensures Placed(s', s.leases[m])
  {
    if e.Remove? && e.mac == m {
      assert Holds(s', e.t, s.leases[m]);
    } else {
      assert m in s'.leases && s'.leases[m] == s.leases[m];
      LeasedBy(s'.leases, m);
    }
  }

  lemma HeldKeepsPlace(s: Lan, e: Event, s': Lan, answer: Option<(Mac, int)>, t: Tid, x: int)
    requires Step(s, e, s', answer) && !Overwrites(s, e) && Holds(s, t, x)
    ensures Placed(s', x)
  {
    if e == Record(t) {
      LeasedBy(s'.leases, At(s, t).mac);
    } else if e == GiveBack(t) {
      assert x in s'.free;
    } else {
      assert Holds(s', t, x);
    }
  }

  /** Nothing comes from nowhere. */
  lemma PlacesFromPlaces(s: Lan, e: Event, s': Lan, answer: Option<(Mac, int)>, x: int)
    requires Step(s, e, s', answer) && Placed(s', x)
    ensures Placed(s, x)
  {
    if e.Record? || e.GiveBack? { assert Holds(s, e.t, At(s, e.t).ip); }
    if e.Remove? && e.mac in s.leases { LeasedBy(s.leases, e.mac); }
    if Leased(s'.leases, x) {
      var m :| m in s'.leases && s'.leases[m] == x;
      if m in s.leases { LeasedBy(s.leases, m); }
    }
    if t :| Holds(s', t, x) {
      assert Holds(s, t, x) || t == e.t;
    }
  }

  /** A step loses an address exactly if it records a lease for a MAC that already has one. */
  lemma StepLosesExactly(s: Lan, e: Event, s': Lan, answer: Option<(Mac, int)>)
    requires Inv(s) && Step(s, e, s', answer)
    ensures (forall x | Placed(s, x) :: Placed(s', x) || TakesAside(s, e, x)) <==> !Overwrites(s, e)
  {
    if Overwrites(s, e) {
      OverwriteLoses(s, e, s', answer);
    } else {
      forall x | Placed(s, x) ensures Placed(s', x) || TakesAside(s, e, x) {
        OthersKeepPlaces(s, e, s', answer, x);
      }
    }
  }

  /** `x` was set aside, while free, in one of the first `n` steps. */
  ghost predicate Aside(ss: seq<Lan>, es: seq<Event>, n: nat, x: int)
    requires n <= |es| < |ss|
  {
    exists k :: 0 <= k < n && TakesAside(ss[k], es[k], x)
  }

  /** Each address the pool began with is placed or was set aside, after `n` steps. */
  ghost predicate NoneLost(ss: seq<Lan>, es: seq<Event>, n: nat)
    requires n <= |es| < |ss|
  {
    forall x | x in ss[0].free :: Placed(ss[n], x) || Aside(ss, es, n, x)
  }

  ghost predicate NeverOverwrites(ss: seq<Lan>, es: seq<Event>, n: nat)
    requires n <= |es| < |ss|
  {
    forall k | 0 <= k < n :: !Overwrites(ss[k], es[k])
  }

  /** An address set aside is not placed again, and no address comes from outside the pool. */
  lemma {:induction false} PlacesAreLeft(ss: seq<Lan>, es: seq<Event>, answers: seq<Option<(Mac, int)>>, n: nat, x: int)
    requires Run(ss, es, answers) && Initial(ss[0]) && n <= |es| && Placed(ss[n], x)
    ensures x in ss[0].free && !Aside(ss, es, n, x)
  {
    if n == 0 {
      assert forall t :: !Holds(ss[0], t, x);
    } else {
      var s, e, s' := ss[n - 1], es[n - 1], ss[n];
      assert Step(s, e, s', answers[n - 1]);
      hide Step;
      PlacesFromPlaces(s, e, s', answers[n - 1], x);
      PlacesAreLeft(ss, es, answers, n - 1, x);
      RunKeepsInv(ss, es, answers, n - 1);
      if TakesAside(s, e, x) {
        AsideIsNowhere(s, x, s', answers[n - 1]);
        assert false;
      }
    }
  }

  lemma AsideIsNowhere(s: Lan, x: int, s': Lan, answer: Option<(Mac, int)>)
    requires Inv(s) && x in s.free && Step(s, Reserve(x), s', answer)
    ensures !Placed(s', x)
  {
    assert forall t :: Holds(s', t, x) <==> Holds(s, t, x);
  }

  /** Over every run, for every interleaving: no address is ever lost if and only if no server
      ever records a lease for a MAC that already has one. */
  lemma {:induction false} LostExactly(ss: seq<Lan>, es: seq<Event>, answers: seq<Option<(Mac, int)>>, n: nat)
    requires Run(ss, es, answers) && Initial(ss[0]) && n <= |es|
    ensures (forall k | 0 <= k <= n :: NoneLost(ss, es, k)) <==> NeverOverwrites(ss, es, n)
  {
    if n == 0 {
    } else {
      LostExactly(ss, es, answers, n - 1);
      assert (forall k | 0 <= k <= n :: NoneLost(ss, es, k))
        <==> (forall k | 0 <= k <= n - 1 :: NoneLost(ss, es, k)) && NoneLost(ss, es, n);
      assert NeverOverwrites(ss, es, n) <==> NeverOverwrites(ss, es, n - 1) && !Overwrites(ss[n - 1], es[n - 1]);
      if NoneLost(ss, es, n - 1) {
        NextLosesExactly(ss, es, answers, n);
      }
    }
  }

  lemma NextLosesExactly(ss: seq<Lan>, es: seq<Event>, answers: seq<Option<(Mac, int)>>, n: nat)
    requires Run(ss, es, answers) && Initial(ss[0]) && 0 < n <= |es| && NoneLost(ss, es, n - 1)
    ensures NoneLost(ss, es, n) <==> !Overwrites(ss[n - 1], es[n - 1])
  {
    var s, e, s' := ss[n - 1], es[n - 1], ss[n];
    assert Step(s, e, s', answers[n - 1]);
    hide Step, Placed, Inv;
    RunKeepsInv(ss, es, answers, n - 1);
    if Overwrites(s, e) {
      OverwriteLoses(s, e, s', answers[n - 1]);
      var x := s.leases[At(s, e.t).mac];
      PlacesAreLeft(ss, es, answers, n - 1, x);
      assert !Aside(ss, es, n, x);
    } else {
      forall x | x in ss[0].free ensures Placed(s', x) || Aside(ss, es, n, x) {
        if Placed(s, x) {
          OthersKeepPlaces(s, e, s', answers[n - 1], x);
        }
      }
    }
  }

  // ---------------------------------------------------- serialised `handle` calls

  /** The shared state between complete calls, with the addresses `reserve` took out. */
  datatype Shared = Shared(free: set<int>, leases: map<Mac, int>, reserved: set<int>)

  datatype Call = Assign(mac: Mac) | GiveUp(mac: Mac) | SetAside(ip: int)

  /** A whole call: DISCOVER or REQUEST (`assign`), RELEASE or DECLINE, and `reserve`. */
  ghost predicate Handle(s: Shared, c: Call, s': Shared) {
    match c
    case Assign(mac) =>
      if mac in s.leases || s.free == {} then s' == s
      else exists ip :: IsLeast(s.free, ip) && s' == s.(free := s.free - {ip}, leases := s.leases[mac := ip])
    case GiveUp(mac) =>
      if mac in s.leases then s' == s.(free := s.free + {s.leases[mac]}, leases := s.leases - {mac}) else s' == s
    case SetAside(ip) =>
      if ip in s.free then s' == s.(free := s.free - {ip}, reserved := s.reserved + {ip}) else s' == s
  }

  /** An assignment leaves the client with a lease if and only if it had one or an address was
      free. It keeps the one it had; a new one is the smallest free address, and nothing else
      changes. */
  lemma AssignMeans(s: Shared, mac: Mac, s': Shared)
    requires Handle(s, Assign(mac), s')
    ensures mac in s'.leases <==> mac in s.leases || s.free != {}
    ensures mac in s.leases || s.free == {} ==> s' == s
    ensures mac !in s.leases && mac in s'.leases ==>
              && s'.leases[mac] in s.free && (forall x | x in s.free :: s'.leases[mac] <= x)
              && s'.free == s.free - {s'.leases[mac]} && s'.leases - {mac} == s.leases && s'.reserved == s.reserved
  {
    if mac !in s.leases && s.free != {} {
      var ip :| IsLeast(s.free, ip) && s' == s.(free := s.free - {ip}, leases := s.leases[mac := ip]);
    }
  }

  /** Afterwards the client has no lease, and the address it had, if any, is free. */
  lemma GiveUpMeans(s: Shared, mac: Mac, s': Shared)
    requires Handle(s, GiveUp(mac), s')
    ensures mac !in s'.leases && s'.leases == s.leases - {mac} && s'.reserved == s.reserved
    ensures s'.free == if mac in s.leases then s.free + {s.leases[mac]} else s.free
  {
    if mac !in s.leases {
      assert s.leases == s.leases - {mac};
    }
  }

  /** A free address set aside is free no longer, and reserved; any other stays as it is. */
  lemma SetAsideMeans(s: Shared, ip: int, s': Shared)
    requires Handle(s, SetAside(ip), s')
    ensures s'.free == s.free - {ip} && s'.leases == s.leases
    ensures s'.reserved == if ip in s.free then s.reserved + {ip} else s.reserved
  {
  }

  ghost predicate Leased(leases: map<Mac, int>, ip: int) {
    exists m :: m in leases && leases[m] == ip
  }

  /** Free, leased and reserved addresses partition the pool range. */
  ghost predicate Partition(s: Shared, lo: int, hi: int) {
    && (forall m, m' | m in s.leases && m' in s.leases && m != m' :: s.leases[m] != s.leases[m'])
    && (forall ip :: lo <= ip <= hi <==> ip in s.free || Leased(s.leases, ip) || ip in s.reserved)
    && (forall ip :: !(ip in s.free && Leased(s.leases, ip)))
    && (forall ip :: !(ip in s.free && ip in s.reserved))
    && (forall ip :: !(Leased(s.leases, ip) && ip in s.reserved))
  }

  lemma LeasedAfter(leases: map<Mac, int>, mac: Mac, ip: int, x: int)
    requires forall m, m' | m in leases && m' in leases && m != m' :: leases[m] != leases[m']
    ensures mac !in leases ==> (Leased(leases[mac := ip], x) <==> Leased(leases, x) || x == ip)
    ensures mac in leases ==> (Leased(leases - {mac}, x) <==> Leased(leases, x) && x != leases[mac])
  {
    if Leased(leases, x) {
      var m :| m in leases && leases[m] == x;
      if mac !in leases { assert m in leases[mac := ip] && leases[mac := ip][m] == x; }
      if mac in leases && x != leases[mac] { assert m in leases - {mac} && (leases - {mac})[m] == x; }
    }
    if mac !in leases { assert mac in leases[mac := ip] && leases[mac := ip][mac] == ip; }
    if mac in leases && Leased(leases - {mac}, x) {
      var m :| m in leases - {mac} && (leases - {mac})[m] == x;
      assert m in leases && leases[m] == x;
    }
  }

  lemma HandleKeepsPartition(s: Shared, c: Call, s': Shared, lo: int, hi: int)
    requires Partition(s, lo, hi) && Handle(s, c, s')
    ensures Partition(s', lo, hi)
  {
    match c
    case Assign(mac) =>
      if mac !in s.leases && s.free != {} {
        var ip :| IsLeast(s.free, ip) && s' == s.(free := s.free - {ip}, leases := s.leases[mac := ip]);
        forall x ensures Leased(s'.leases, x) <==> Leased(s.leases, x) || x == ip { LeasedAfter(s.leases, mac, ip, x); }
        assert forall m | m in s.leases :: Leased(s.leases, s.leases[m]);
      }
    case GiveUp(mac) =>
      if mac in s.leases {
        forall x ensures Leased(s'.leases, x) <==> Leased(s.leases, x) && x != s.leases[mac] {
          LeasedAfter(s.leases, mac, 0, x);
        }
        assert Leased(s.leases, s.leases[mac]);
      }
    case SetAside(ip) =>
  }

  ghost predicate Serial(ss: seq<Shared>, cs: seq<Call>) {
    |ss| == |cs| + 1 && forall k | 0 <= k < |cs| :: Handle(ss[k], cs[k], ss[k + 1])
  }

  /** When calls are serialised, nothing leaks: the range stays partitioned for ever. */
  lemma {:induction false} SerialPartition(ss: seq<Shared>, cs: seq<Call>, lo: int, hi: int, k: nat)
    requires Serial(ss, cs) && k < |ss|
    requires ss[0].leases == map[] && ss[0].reserved == {} && forall ip :: ip in ss[0].free <==> lo <= ip <= hi
    ensures Partition(ss[k], lo, hi)
  {
    if k == 0 {
    } else {
      SerialPartition(ss, cs, lo, hi, k - 1);
      HandleKeepsPartition(ss[k - 1], cs[k - 1], ss[k], lo, hi);
    }
  }

  /** A lease stays what it is, whatever all servers do, until its own MAC gives it up. */
  lemma {:induction false} LeasePersists(ss: seq<Shared>, cs: seq<Call>, mac: Mac, i: nat, j: nat)
    requires Serial(ss, cs) && i <= j < |ss| && mac in ss[i].leases
    requires forall k | i <= k < j :: cs[k] != GiveUp(mac)
    ensures mac in ss[j].leases && ss[j].leases[mac] == ss[i].leases[mac]
  {
    if i == j {
    } else {
      LeasePersists(ss, cs, mac, i, j - 1);
      assert Handle(ss[j - 1], cs[j - 1], ss[j]);
    }
  }

  /** A call is its critical sections run back to back by one thread. */
  lemma AssignIsItsSteps(a: Lan, b: Lan, c: Lan, d: Lan, t: Tid, mac: Mac, r1: Option<(Mac, int)>,
                         r2: Option<(Mac, int)>, r3: Option<(Mac, int)>, reserved: set<int>)
    requires mac !in a.leases && a.free != {}
    requires Step(a, Lookup(t, mac), b, r1) && Step(b, Take(t), c, r2) && Step(c, Record(t), d, r3)
    ensures Handle(Shared(a.free, a.leases, reserved), Assign(mac), Shared(d.free, d.leases, reserved))
    ensures r3 == Some((mac, d.leases[mac]))
  {
    assert At(b, t) == Missed(mac);
    var ip :| IsLeast(b.free, ip) && c == Taken(b, t, mac, ip);
    assert At(c, t) == Took(mac, ip);
  }

  lemma GiveUpIsItsSteps(a: Lan, b: Lan, c: Lan, t: Tid, mac: Mac, r1: Option<(Mac, int)>, r2: Option<(Mac, int)>,
                         reserved: set<int>)
    requires mac in a.leases && Step(a, Remove(t, mac), b, r1) && Step(b, GiveBack(t), c, r2)
    ensures Handle(Shared(a.free, a.leases, reserved), GiveUp(mac), Shared(c.free, c.leases, reserved))
  {
    assert At(b, t) == Removed(a.leases[mac]);
  }

  /** The six steps of two servers that assign to one MAC at once. */
  lemma Race(mac: Mac) returns (a: Lan, b: Lan, c: Lan, d: Lan, e: Lan, f: Lan, g: Lan)
    ensures Initial(a) && 1 in a.free
    ensures Step(a, Lookup(0, mac), b, None) && Step(b, Lookup(1, mac), c, None)
    ensures Step(c, Take(0), d, None) && Step(d, Take(1), e, None)
    ensures Step(e, Record(0), f, Some((mac, 1))) && Step(f, Record(1), g, Some((mac, 2)))
    ensures 1 !in g.free && g.leases == map[mac := 2] && g.threads == map[0 := Idle, 1 := Idle]
  {
    a := Lan({1, 2}, map[], map[], map[]);
    b := a.(threads := map[0 := Missed(mac)]);
    c := b.(threads := map[0 := Missed(mac), 1 := Missed(mac)]);
    assert IsLeast(c.free, 1);
    d := Taken(c, 0, mac, 1);
    assert d.free == {2} && IsLeast(d.free, 2);
    e := Taken(d, 1, mac, 2);
    f := e.(leases := map[mac := 1], threads := e.threads[0 := Idle]);
    g := f.(leases := map[mac := 2], threads := f.threads[1 := Idle]);
    assert g.threads == map[0 := Idle, 1 := Idle];
  }

  /** Serialising matters: when two servers assign to one MAC at once, the second lease
      replaces the first, whose address is then in nobody's hands. */
  lemma RaceLeaksAnAddress(mac: Mac) returns (ss: seq<Lan>, es: seq<Event>, answers: seq<Option<(Mac, int)>>)
    ensures Run(ss, es, answers) && Initial(ss[0]) && 1 in ss[0].free
    ensures var s := ss[|es|]; 1 !in s.free && !Leased(s.leases, 1) && forall t :: !Holds(s, t, 1)
  {
    hide Step;
    var a, b, c, d, e, f, g := Race(mac);
    ss := [a, b, c, d, e, f, g];
    es := [Lookup(0, mac), Lookup(1, mac), Take(0), Take(1), Record(0), Record(1)];
    answers := [None, None, None, None, Some((mac, 1)), Some((mac, 2))];
  }
}

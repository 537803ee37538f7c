/** The two spinlocks of src/core/spinlock.rs as step systems: any number of threads, one
    atomic access per step, any interleaving. A compare-exchange may also fail for no
    reason, as the weak form allows. */
module SpinLocks {
  import opened Wire

  const WORD := 0x1_0000_0000_0000_0000

  /** Atomic addition and subtraction wrap at the width of the word. */
  function Wrap(x: int): int {
    if x >= WORD then x - WORD else if x < 0 then x + WORD else x
  }

  // --------------------------------------------------------- reader-writer lock

  /** Where a thread stands. A reader remembers, as history, the data it found on entry. */
  datatype Pc<D> = Out | Loaded(seen: int) | Reading(entry: D) | Writing

  datatype Lock<D> = Lock(word: int, data: D, threads: map<Tid, Pc<D>>)

  datatype Event<D> =
    | ReadLoad(t: Tid)
    | ReadCas(t: Tid, spurious: bool)
    | ReadExit(t: Tid)
    | WriteCas(t: Tid, spurious: bool)
    | Mutate(t: Tid, value: D)
    | WriteExit(t: Tid)

  ghost predicate Step<D(!new)>(s: Lock<D>, e: Event<D>, s': Lock<D>) {
    e.t in s.threads &&
    match e
    case ReadLoad(t) =>
      s.threads[t].Out? && s' == if s.word % 2 == 0 then s.(threads := s.threads[t := Loaded(s.word)]) else s
    case ReadCas(t, spurious) =>
      && s.threads[t].Loaded?
      && s' == if s.word == s.threads[t].seen && !spurious
               then s.(word := Wrap(s.word + 2), threads := s.threads[t := Reading(s.data)])
               else s.(threads := s.threads[t := Out])
    case ReadExit(t) =>
      s.threads[t].Reading? && s' == s.(word := Wrap(s.word - 2), threads := s.threads[t := Out])
    case WriteCas(t, spurious) =>
      s.threads[t].Out? && s' == if s.word == 0 && !spurious then s.(word := 1, threads := s.threads[t := Writing]) else s
    case Mutate(t, value) => s.threads[t].Writing? && s' == s.(data := value)
    case WriteExit(t) => s.threads[t].Writing? && s' == s.(word := 0, threads := s.threads[t := Out])
  }

  ghost function Readers<D(!new)>(threads: map<Tid, Pc<D>>): set<Tid> {
    set t | t in threads && threads[t].Reading?
  }

  ghost function Writers<D(!new)>(threads: map<Tid, Pc<D>>): set<Tid> {
    set t | t in threads && threads[t].Writing?
  }

  /** The lock word is 1 when one writer and no reader is inside, and otherwise twice the
      number of readers; a thread that has loaded the word saw no writer bit; and no reader
      has seen the data change under it. */
  ghost predicate Inv<D(!new)>(s: Lock<D>) {
    && 2 * |s.threads| < WORD
    && (if Writers(s.threads) == {} then s.word == 2 * |Readers(s.threads)|
        else |Writers(s.threads)| == 1 && Readers(s.threads) == {} && s.word == 1)
    && (forall t | t in s.threads && s.threads[t].Loaded? :: s.threads[t].seen % 2 == 0)
    && (forall t | t in s.threads && s.threads[t].Reading? :: s.threads[t].entry == s.data)
  }

  lemma Bounded<D(!new)>(threads: map<Tid, Pc<D>>)
    ensures |Readers(threads)| <= |threads|
  {
    Subset(Readers(threads), threads.Keys);
  }

  lemma {:induction false} Subset(a: set<Tid>, b: set<Tid>)
    requires a <= b
    ensures |a| <= |b|
  {
    assert b == a + (b - a);
  }

  /** How the two sets change when one thread moves. */
  lemma Moves<D(!new)>(threads: map<Tid, Pc<D>>, t: Tid, pc: Pc<D>)
    requires t in threads
    ensures Readers(threads[t := pc]) == if pc.Reading? then Readers(threads) + {t} else Readers(threads) - {t}
    ensures Writers(threads[t := pc]) == if pc.Writing? then Writers(threads) + {t} else Writers(threads) - {t}
    ensures |threads[t := pc]| == |threads|
  {
    assert threads[t := pc].Keys == threads.Keys;
  }

  /** The sets after a step, from the sets before. */
  lemma SetsAfter<D(!new)>(s: Lock<D>, e: Event<D>, s': Lock<D>)
    requires Step(s, e, s')
    ensures |s'.threads| == |s.threads| && |Readers(s'.threads)| <= |s'.threads| && e.t in s'.threads
    ensures Readers(s'.threads) == if s'.threads[e.t].Reading? then Readers(s.threads) + {e.t} else Readers(s.threads) - {e.t}
    ensures Writers(s'.threads) == if s'.threads[e.t].Writing? then Writers(s.threads) + {e.t} else Writers(s.threads) - {e.t}
    ensures s.threads[e.t].Reading? <==> e.t in Readers(s.threads)
    ensures s.threads[e.t].Writing? <==> e.t in Writers(s.threads)
  {
    Bounded(s'.threads);
    Moves(s.threads, e.t, s'.threads[e.t]);
    assert s'.threads == s.threads[e.t := s'.threads[e.t]];
  }

  lemma WordKept<D(!new)>(s: Lock<D>, e: Event<D>, s': Lock<D>)
    requires Inv(s) && Step(s, e, s')
    ensures if Writers(s'.threads) == {} then s'.word == 2 * |Readers(s'.threads)|
            else |Writers(s'.threads)| == 1 && Readers(s'.threads) == {} && s'.word == 1
  {
    SetsAfter(s, e, s');
    hide Readers, Writers;
    match e
    case ReadLoad(_) =>
    case ReadCas(_, _) =>
    case ReadExit(_) =>
    case WriteCas(_, _) =>
    case Mutate(_, _) =>
    case WriteExit(t) =>
      OnlyMember(Writers(s.threads), t);
  }

  lemma StepKeepsInv<D(!new)>(s: Lock<D>, e: Event<D>, s': Lock<D>)
    requires Inv(s) && Step(s, e, s')
    ensures Inv(s')
  {
    hide Readers, Writers;
    WordKept(s, e, s');
    SetsAfter(s, e, s');
    forall r | r in s'.threads && s'.threads[r].Reading? ensures s'.threads[r].entry == s'.data {
      if e.Mutate? { ReaderListed(s.threads, r); }
    }
  }

  lemma ReaderListed<D(!new)>(threads: map<Tid, Pc<D>>, r: Tid)
    ensures r in Readers(threads) <==> r in threads && threads[r].Reading?
  {
  }

  lemma OnlyMember(a: set<Tid>, t: Tid)
    requires |a| == 1 && t in a
    ensures a == {t}
  {
    Subset({t}, a);
    assert a == {t} + (a - {t});
  }

  ghost predicate Initial<D(!new)>(s: Lock<D>) {
    s.word == 0 && 2 * |s.threads| < WORD && forall t | t in s.threads :: s.threads[t].Out?
  }

  ghost predicate Run<D(!new)>(ss: seq<Lock<D>>, es: seq<Event<D>>) {
    |ss| == |es| + 1 && forall k | 0 <= k < |es| :: Step(ss[k], es[k], ss[k + 1])
  }

  lemma {:induction false} RunKeepsInv<D(!new)>(ss: seq<Lock<D>>, es: seq<Event<D>>, k: nat)
    requires Run(ss, es) && Initial(ss[0]) && k < |ss|
    ensures Inv(ss[k])
  {
    if k > 0 {
      RunKeepsInv(ss, es, k - 1);
      StepKeepsInv(ss[k - 1], es[k - 1], ss[k]);
    } else {
      assert Readers(ss[0].threads) == {} && Writers(ss[0].threads) == {};
    }
  }

  /** Writers exclude everyone, the word says exactly who is inside, and the data a reader
      found on entry is the data until it leaves, in every reachable state. */
  lemma WritersExclude<D(!new)>(ss: seq<Lock<D>>, es: seq<Event<D>>, k: nat, w: Tid, t: Tid)
    requires Run(ss, es) && Initial(ss[0]) && k < |ss| && w in ss[k].threads && t in ss[k].threads
    ensures ss[k].threads[w].Writing? && t != w ==> !ss[k].threads[t].Writing? && !ss[k].threads[t].Reading?
    ensures ss[k].word == 1 <==> exists x :: x in ss[k].threads && ss[k].threads[x].Writing?
    ensures ss[k].word != 1 ==> ss[k].word == 2 * |Readers(ss[k].threads)|
    ensures ss[k].threads[t].Reading? ==> ss[k].data == ss[k].threads[t].entry
  {
    RunKeepsInv(ss, es, k);
    var s := ss[k];
    if s.threads[w].Writing? {
      assert w in Writers(s.threads);
      OnlyMember(Writers(s.threads), w);
      assert s.threads[t].Writing? ==> t in Writers(s.threads);
      assert s.threads[t].Reading? ==> t in Readers(s.threads);
    }
    if x :| x in s.threads && s.threads[x].Writing? { assert x in Writers(s.threads); }
    if s.word == 1 { var x :| x in Writers(s.threads); assert s.threads[x].Writing?; }
  }

  /** Who gets in, in every reachable state: a writer's compare-exchange that does not fail for no
      reason succeeds if and only if nobody is inside; a reader gets past its load if and only if
      no writer is inside, and past its compare-exchange if and only if the word is still the
      one it loaded. Leaving always works. */
  lemma EntersExactly<D(!new)>(ss: seq<Lock<D>>, es: seq<Event<D>>, k: nat)
    requires Run(ss, es) && Initial(ss[0]) && k < |es|
    ensures es[k].WriteCas? && !es[k].spurious ==>
              (ss[k + 1].threads[es[k].t].Writing? <==> Readers(ss[k].threads) == {} && Writers(ss[k].threads) == {})
    ensures es[k].ReadLoad? ==> (ss[k + 1].threads[es[k].t].Loaded? <==> Writers(ss[k].threads) == {})
    ensures es[k].ReadCas? && !es[k].spurious ==>
              (ss[k + 1].threads[es[k].t].Reading? <==> ss[k].threads[es[k].t].seen == ss[k].word)
    ensures es[k].ReadExit? || es[k].WriteExit? ==> ss[k + 1].threads[es[k].t].Out?
    ensures es[k].Mutate? ==> ss[k + 1].data == es[k].value
  {
    RunKeepsInv(ss, es, k);
    assert Step(ss[k], es[k], ss[k + 1]);
    hide Readers, Writers, Run, Initial;
  }

  // ------------------------------------------------------------------ plain lock

  datatype Mutex<D> = Mutex(locked: bool, data: D, inside: set<Tid>)

  datatype MutexEvent<D> = Acquire(t: Tid, spurious: bool) | Change(t: Tid, value: D) | Unlock(t: Tid)

  ghost predicate MutexStep<D(!new)>(s: Mutex<D>, e: MutexEvent<D>, s': Mutex<D>) {
    match e
    case Acquire(t, spurious) =>
      t !in s.inside && s' == if !s.locked && !spurious then s.(locked := true, inside := s.inside + {t}) else s
    case Change(t, value) => t in s.inside && s' == s.(data := value)
    case Unlock(t) => t in s.inside && s' == s.(locked := false, inside := s.inside - {t})
  }

  /** The flag is set exactly while one thread is inside, and there is never a second. */
  ghost predicate MutexInv<D(!new)>(s: Mutex<D>) {
    |s.inside| == if s.locked then 1 else 0
  }

  lemma {:induction false} MutualExclusion<D(!new)>(ss: seq<Mutex<D>>, es: seq<MutexEvent<D>>, k: nat)
    requires |ss| == |es| + 1 && forall i | 0 <= i < |es| :: MutexStep(ss[i], es[i], ss[i + 1])
    requires !ss[0].locked && ss[0].inside == {} && k < |ss|
    ensures MutexInv(ss[k])
    ensures forall t, u | t in ss[k].inside && u in ss[k].inside :: t == u
  {
    if k == 0 {
    } else {
      MutualExclusion(ss, es, k - 1);
      assert MutexStep(ss[k - 1], es[k - 1], ss[k]);
    }
    forall t, u | t in ss[k].inside && u in ss[k].inside ensures t == u { OnlyMember(ss[k].inside, t); }
  }

  /** What a holder finds is what the last holder left: the data moves only under the lock. */
  lemma {:induction false} DataStable<D(!new)>(ss: seq<Mutex<D>>, es: seq<MutexEvent<D>>, i: nat, j: nat)
    requires |ss| == |es| + 1 && forall k | 0 <= k < |es| :: MutexStep(ss[k], es[k], ss[k + 1])
    requires !ss[0].locked && ss[0].inside == {} && i <= j < |ss|
    requires forall k | i <= k < j :: !ss[k].locked
    ensures ss[j].data == ss[i].data
  {
    if i == j {
    } else {
      DataStable(ss, es, i, j - 1);
      MutualExclusion(ss, es, j - 1);
      assert MutexStep(ss[j - 1], es[j - 1], ss[j]);
    }
  }

  /** Taking the plain lock succeeds, but for no reason, if and only if nobody is inside. */
  lemma AcquiresExactly<D(!new)>(ss: seq<Mutex<D>>, es: seq<MutexEvent<D>>, k: nat)
    requires |ss| == |es| + 1 && forall i | 0 <= i < |es| :: MutexStep(ss[i], es[i], ss[i + 1])
    requires !ss[0].locked && ss[0].inside == {} && k < |es|
    ensures es[k].Acquire? && !es[k].spurious ==> (es[k].t in ss[k + 1].inside <==> ss[k].inside == {})
    ensures es[k].Unlock? ==> es[k].t !in ss[k + 1].inside
    ensures es[k].Change? ==> ss[k + 1].data == es[k].value
  {
    MutualExclusion(ss, es, k);
    assert MutexStep(ss[k], es[k], ss[k + 1]);
  }
}

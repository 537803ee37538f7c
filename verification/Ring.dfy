/** The lock-free single-producer single-consumer ring of src/mem/ring.rs, as a step system:
    every atomic load or store and every slot access is one step, and the producer and the
    consumer interleave freely. `pushed` and `popped` are history: what has been published
    and what has been handed out, in order. */
module Ring {
  import opened Wire

  datatype Producer<T> =
    | PIdle
    | PLoaded(item: T, head: int)    // head loaded; about to load tail and test for full
    | PReady(item: T, head: int)     // not full; about to fill slot `head`
    | PFilled(item: T, head: int)    // slot filled; about to store the new head

  datatype Consumer<T> =
    | CIdle
    | CLoaded(tail: int)                      // tail loaded; about to load head and test for empty
    | CReady(tail: int)                       // not empty; about to take slot `tail`
    | CTaken(tail: int, item: Option<T>)      // slot taken; about to store the new tail

  datatype State<T> = State(head: int, tail: int, buffer: seq<Option<T>>, p: Producer<T>, c: Consumer<T>,
                            pushed: seq<T>, popped: seq<T>)

  datatype Event<T> = PushStart(item: T) | PushTest | PushFill | PushStore | PopStart | PopTest | PopTake | PopStore

  function Items<T>(o: Option<T>): seq<T> {
    if o.Some? then [o.value] else []
  }

  /** One step of the ring with `n` slots. */
  ghost predicate Step<T(!new)>(n: nat, s: State<T>, e: Event<T>, s': State<T>)
    requires n >= 1
  {
    match e
    case PushStart(item) => s.p.PIdle? && s' == s.(p := PLoaded(item, s.head))
    case PushTest =>
      && s.p.PLoaded?
      && s' == s.(p := if (s.p.head + 1) % n == s.tail then PIdle else PReady(s.p.item, s.p.head))
    case PushFill =>
      && s.p.PReady? && 0 <= s.p.head < |s.buffer|
      && s' == s.(buffer := s.buffer[s.p.head := Some(s.p.item)], p := PFilled(s.p.item, s.p.head))
    case PushStore =>
      && s.p.PFilled?
      && s' == s.(head := (s.p.head + 1) % n, pushed := s.pushed + [s.p.item], p := PIdle)
    case PopStart => s.c.CIdle? && s' == s.(c := CLoaded(s.tail))
    case PopTest =>
      s.c.CLoaded? && s' == s.(c := if s.c.tail == s.head then CIdle else CReady(s.c.tail))
    case PopTake =>
      && s.c.CReady? && 0 <= s.c.tail < |s.buffer|
      && s' == s.(buffer := s.buffer[s.c.tail := None], c := CTaken(s.c.tail, s.buffer[s.c.tail]))
    case PopStore =>
      && s.c.CTaken?
      && s' == s.(tail := (s.c.tail + 1) % n, popped := s.popped + Items(s.c.item), c := CIdle)
  }

  ghost predicate Initial<T(!new)>(n: nat, s: State<T>) {
    && s.head == 0 && s.tail == 0 && |s.buffer| == n && s.p == PIdle && s.c == CIdle
    && s.pushed == [] && s.popped == []
  }

  /** `len()` of the source: how many items sit between `tail` and `head`. */
  function Len(n: nat, head: int, tail: int): int
    requires n >= 1
  {
    (head + n - tail) % n
  }

  /** Slot `i` places after `tail`. */
  function Slot(n: nat, tail: int, i: int): int {
    if tail + i < n then tail + i else tail + i - n
  }

  function Count(n: nat, head: int, tail: int): int {
    if head >= tail then head - tail else head + n - tail
  }

  lemma ModSmall(x: int, n: nat)
    requires 0 <= x < 2 * n
    ensures x % n == if x < n then x else x - n
  {
    if x < n {
      assert x / n == 0;
    } else {
      assert x == n + (x - n);
      assert (x - n) / n == 0;
      assert x / n == 1;
    }
  }

  /** How many published items have not been handed out. */
  ghost function Held<T>(s: State<T>): int {
    |s.pushed| - |s.popped|
  }

  /** Slot `i` after `tail` holds the `i`-th item not yet handed out. */
  ghost predicate SlotHolds<T(!new)>(n: nat, s: State<T>, i: int)
    requires 0 <= s.tail < n && |s.buffer| == n && 0 <= i < n && 0 <= |s.popped| + i < |s.pushed|
  {
    s.buffer[Slot(n, s.tail, i)] == Some(s.pushed[|s.popped| + i])
  }

  ghost predicate Inv<T(!new)>(n: nat, s: State<T>) {
    && n >= 1 && 0 <= s.head < n && 0 <= s.tail < n && |s.buffer| == n
    && Held(s) == Count(n, s.head, s.tail) && 0 <= Held(s) <= n - 1
    && s.popped <= s.pushed
    && (forall i | (if s.c.CTaken? then 1 else 0) <= i < Held(s) :: SlotHolds(n, s, i))
    && (!s.p.PIdle? ==> s.p.head == s.head)
    && (s.p.PReady? || s.p.PFilled? ==> Held(s) < n - 1)
    && (s.p.PFilled? ==> s.buffer[s.head] == Some(s.p.item))
    && (!s.c.CIdle? ==> s.c.tail == s.tail)
    && (s.c.CReady? || s.c.CTaken? ==> Held(s) >= 1)
    && (s.c.CTaken? ==> s.c.item == Some(s.pushed[|s.popped|]))
  }

  lemma StepKeepsInv<T(!new)>(n: nat, s: State<T>, e: Event<T>, s': State<T>)
    requires Inv(n, s) && Step(n, s, e, s')
    ensures Inv(n, s')
  {
    match e
    case PushStart(_) =>
      assert forall i | (if s.c.CTaken? then 1 else 0) <= i < Held(s) :: SlotHolds(n, s, i) ==> SlotHolds(n, s', i);
    case PushTest =>
      ModSmall(s.head + 1, n);
      assert forall i | (if s.c.CTaken? then 1 else 0) <= i < Held(s) :: SlotHolds(n, s, i) ==> SlotHolds(n, s', i);
    case PushFill =>
      FillKeepsInv(n, s, s');
    case PushStore =>
      ModSmall(s.head + 1, n);
      StoreKeepsInv(n, s, s');
    case PopStart =>
      assert forall i | 0 <= i < Held(s) :: SlotHolds(n, s, i) ==> SlotHolds(n, s', i);
    case PopTest =>
      assert forall i | 0 <= i < Held(s) :: SlotHolds(n, s, i) ==> SlotHolds(n, s', i);
    case PopTake =>
      TakeKeepsInv(n, s, s');
    case PopStore =>
      ModSmall(s.tail + 1, n);
      PopKeepsInv(n, s, s');
  }

  lemma FillKeepsInv<T(!new)>(n: nat, s: State<T>, s': State<T>)
    requires Inv(n, s) && Step(n, s, PushFill, s')
    ensures Inv(n, s')
  {
    forall i | (if s'.c.CTaken? then 1 else 0) <= i < Held(s') ensures SlotHolds(n, s', i) {
      assert SlotHolds(n, s, i);
    }
  }

  lemma StoreKeepsInv<T(!new)>(n: nat, s: State<T>, s': State<T>)
    requires Inv(n, s) && Step(n, s, PushStore, s') && (s.head + 1) % n == Slot(n, s.head, 1)
    ensures Inv(n, s')
  {
    forall i | (if s'.c.CTaken? then 1 else 0) <= i < Held(s') ensures SlotHolds(n, s', i) {
      assert i < Held(s) ==> SlotHolds(n, s, i);
    }
  }

  lemma TakeKeepsInv<T(!new)>(n: nat, s: State<T>, s': State<T>)
    requires Inv(n, s) && Step(n, s, PopTake, s')
    ensures Inv(n, s')
  {
    assert SlotHolds(n, s, 0);
    forall i | 1 <= i < Held(s') ensures SlotHolds(n, s', i) {
      assert SlotHolds(n, s, i);
    }
  }

  lemma PopKeepsInv<T(!new)>(n: nat, s: State<T>, s': State<T>)
    requires Inv(n, s) && Step(n, s, PopStore, s') && (s.tail + 1) % n == Slot(n, s.tail, 1)
    ensures Inv(n, s')
  {
    forall i | 0 <= i < Held(s') ensures SlotHolds(n, s', i) {
      assert SlotHolds(n, s, i + 1);
    }
  }

  // ---------------------------------------------------------------- whole runs

  ghost predicate Run<T(!new)>(n: nat, ss: seq<State<T>>, es: seq<Event<T>>)
    requires n >= 1
  {
    |ss| == |es| + 1 && forall k | 0 <= k < |es| :: Step(n, ss[k], es[k], ss[k + 1])
  }

  lemma {:induction false} RunKeepsInv<T(!new)>(n: nat, ss: seq<State<T>>, es: seq<Event<T>>, k: nat)
    requires n >= 1 && Run(n, ss, es) && Initial(n, ss[0]) && k < |ss|
    ensures Inv(n, ss[k])
  {
    if k == 0 {
    } else {
      RunKeepsInv(n, ss, es, k - 1);
      StepKeepsInv(n, ss[k - 1], es[k - 1], ss[k]);
    }
  }

  /** The items in the ring, read slot by slot from the consumer's position. */
  ghost function Contents<T(!new)>(n: nat, s: State<T>): seq<T>
    requires Inv(n, s)
  {
    var from := if s.c.CTaken? then 1 else 0;
    assert forall i | from <= i < Held(s) :: SlotHolds(n, s, i);
    seq(Held(s) - from, i requires 0 <= i < Held(s) - from =>
      assert SlotHolds(n, s, from + i); s.buffer[Slot(n, s.tail, from + i)].value)
  }

  /** Order and conservation for every interleaving: what was handed out, the item being
      taken, and the slots from the consumer's position on are exactly what was published,
      in order. At most n - 1 items are held. */
  lemma FifoConservation<T(!new)>(n: nat, ss: seq<State<T>>, es: seq<Event<T>>, k: nat)
    requires n >= 1 && Run(n, ss, es) && Initial(n, ss[0]) && k < |ss|
    ensures Inv(n, ss[k])
    ensures var s := ss[k];
            s.pushed == s.popped + (if s.c.CTaken? then Items(s.c.item) else []) + Contents(n, s)
    ensures 0 <= Held(ss[k]) <= n - 1
  {
    RunKeepsInv(n, ss, es, k);
    var s := ss[k];
    var from := if s.c.CTaken? then 1 else 0;
    var all := s.popped + (if s.c.CTaken? then Items(s.c.item) else []) + Contents(n, s);
    assert |all| == |s.pushed|;
    forall j | 0 <= j < |all| ensures all[j] == s.pushed[j] {
      if j >= |s.popped| + from { assert SlotHolds(n, s, j - |s.popped|); }
    }
  }

  /** The items handed to pushes that ran to their end, in order, as the events tell. */
  ghost function Delivered<T(!new)>(ss: seq<State<T>>, es: seq<Event<T>>, k: nat): seq<T>
    requires k <= |es| < |ss|
  {
    if k == 0 then []
    else Delivered(ss, es, k - 1) + if es[k - 1].PushStore? && ss[k - 1].p.PFilled? then [ss[k - 1].p.item] else []
  }

  /** The item a push is at work on is the one it was last called with. */
  ghost predicate GivenBy<T(!new)>(es: seq<Event<T>>, j: nat, k: nat, item: T)
    requires k <= |es|
  {
    j < k && es[j] == PushStart(item) && forall i | j < i < k :: !es[i].PushStart?
  }

  lemma {:induction false} PushedItem<T(!new)>(n: nat, ss: seq<State<T>>, es: seq<Event<T>>, k: nat) returns (j: nat)
    requires n >= 1 && Run(n, ss, es) && Initial(n, ss[0]) && k < |ss| && !ss[k].p.PIdle?
    ensures GivenBy(es, j, k, ss[k].p.item)
  {
    assert Step(n, ss[k - 1], es[k - 1], ss[k]);
    if es[k - 1].PushStart? {
      j := k - 1;
    } else {
      j := PushedItem(n, ss, es, k - 1);
    }
  }

  /** No push is lost: what has been published is exactly what the pushes that ran to their end
      were called with, in order, and each such push makes the ring one item fuller. */
  lemma {:induction false} PushesArePublished<T(!new)>(n: nat, ss: seq<State<T>>, es: seq<Event<T>>, k: nat)
    requires n >= 1 && Run(n, ss, es) && Initial(n, ss[0]) && k < |ss|
    ensures ss[k].pushed == Delivered(ss, es, k)
    ensures k > 0 && es[k - 1].PushStore? ==> Held(ss[k]) == Held(ss[k - 1]) + 1
    ensures k > 0 && es[k - 1].PopStore? ==> Held(ss[k]) == Held(ss[k - 1]) - 1
  {
    if k == 0 {
    } else {
      PushesArePublished(n, ss, es, k - 1);
      RunKeepsInv(n, ss, es, k - 1);
      assert Step(n, ss[k - 1], es[k - 1], ss[k]);
    }
  }

  /** The two sides never touch one slot at the same time, every slot access is in bounds,
      and the consumer always finds an item. */
  lemma SlotsAreExclusive<T(!new)>(n: nat, ss: seq<State<T>>, es: seq<Event<T>>, k: nat)
    requires n >= 1 && Run(n, ss, es) && Initial(n, ss[0]) && k < |ss|
    ensures ss[k].p.PReady? ==> 0 <= ss[k].p.head < |ss[k].buffer|
    ensures ss[k].c.CReady? ==> 0 <= ss[k].c.tail < |ss[k].buffer| && ss[k].buffer[ss[k].c.tail].Some?
    ensures ss[k].p.PReady? && ss[k].c.CReady? ==> ss[k].p.head != ss[k].c.tail
    ensures ss[k].c.CTaken? ==> ss[k].c.item.Some?
  {
    RunKeepsInv(n, ss, es, k);
    if ss[k].c.CReady? { assert SlotHolds(n, ss[k], 0); }
  }

  /** A push fails exactly when the ring is full at the load of `tail`, and a pop exactly
      when it is empty at the load of `head`. */
  lemma FailsOnlyWhenFullOrEmpty<T(!new)>(n: nat, ss: seq<State<T>>, es: seq<Event<T>>, k: nat)
    requires n >= 1 && Run(n, ss, es) && Initial(n, ss[0]) && k < |es|
    ensures es[k].PushTest? ==> (ss[k + 1].p.PIdle? <==> Held(ss[k]) == n - 1)
    ensures es[k].PopTest? ==> (ss[k + 1].c.CIdle? <==> ss[k].pushed == ss[k].popped)
  {
    RunKeepsInv(n, ss, es, k);
    assert Step(n, ss[k], es[k], ss[k + 1]);
    ModSmall(ss[k].head + 1, n);
  }

  /** `len` called by the consumer, which loads `head` first and its own `tail` later, is the
      number of items held when `head` was loaded; called by the producer, whose own `head`
      stands still, it is the number held when `tail` was loaded. */
  lemma {:induction false} LenIsExact<T(!new)>(n: nat, ss: seq<State<T>>, es: seq<Event<T>>, i: nat, j: nat)
    requires n >= 1 && Run(n, ss, es) && Initial(n, ss[0]) && i <= j < |ss|
    ensures (forall k | i <= k < j :: !es[k].PopStore?) ==> Len(n, ss[i].head, ss[j].tail) == Held(ss[i])
    ensures (forall k | i <= k < j :: !es[k].PushStore?) ==> Len(n, ss[i].head, ss[j].tail) == Held(ss[j])
  {
    RunKeepsInv(n, ss, es, i);
    RunKeepsInv(n, ss, es, j);
    Standing(n, ss, es, i, j);
    ModSmall(ss[i].head + n - ss[i].tail, n);
    ModSmall(ss[j].head + n - ss[j].tail, n);
  }

  lemma {:induction false} Standing<T(!new)>(n: nat, ss: seq<State<T>>, es: seq<Event<T>>, i: nat, j: nat)
    requires n >= 1 && Run(n, ss, es) && i <= j < |ss|
    ensures (forall k | i <= k < j :: !es[k].PopStore?) ==> ss[j].tail == ss[i].tail
    ensures (forall k | i <= k < j :: !es[k].PushStore?) ==> ss[j].head == ss[i].head
  {
    if i == j {
    } else {
      Standing(n, ss, es, i, j - 1);
      assert Step(n, ss[j - 1], es[j - 1], ss[j]);
    }
  }
}

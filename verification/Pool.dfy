/** The DHCP address pool of src/router/pool.rs: a list of inclusive intervals of free
    addresses, edited in place. Additions to an address wrap at 32 bits, as they do in a
    release build. */
module Pool {
  import opened Wire
  import opened Spans

  const MAX_ADDR := 0xFFFF_FFFF

  type Interval = (int, int)

  function Plus(a: int, n: int): int {
    (a + n) % 0x1_0000_0000
  }

  /** The intervals as half-open runs. */
  function Runs(iv: seq<Interval>): (s: seq<Span>)
    ensures |s| == |iv|
    ensures forall i | 0 <= i < |iv| :: s[i] == Span(iv[i].0, iv[i].1 + 1)
  {
    seq(|iv|, i requires 0 <= i < |iv| => Span(iv[i].0, iv[i].1 + 1))
  }

  /** The pool would hand out `x`. */
  ghost predicate Free(iv: seq<Interval>, x: int) {
    Has(Runs(iv), x)
  }

  /** Sorted, disjoint, never adjacent, and inside the pool. */
  ghost predicate Good(iv: seq<Interval>, start: Ipv4, end: Ipv4) {
    && Canonical(Runs(iv))
    && forall i | 0 <= i < |iv| :: start <= iv[i].0 && iv[i].1 <= end
  }

  /** `partition_point`: how many leading intervals start below `limit`. */
  function StartsBelow(iv: seq<Interval>, limit: int): (n: nat)
    ensures n <= |iv|
    ensures forall i | 0 <= i < n :: iv[i].0 < limit
    ensures n < |iv| ==> limit <= iv[n].0
  {
    if iv == [] || iv[0].0 >= limit then 0 else
      assert forall i | 0 < i < |iv| :: iv[i] == iv[1..][i - 1];
      1 + StartsBelow(iv[1..], limit)
  }

  /** A free-address set has one interval list. */
  lemma OneList(iv: seq<Interval>, jv: seq<Interval>)
    requires Canonical(Runs(iv)) && Canonical(Runs(jv)) && forall x :: Free(iv, x) <==> Free(jv, x)
    ensures iv == jv
  {
    forall x ensures Has(Runs(iv), x) <==> Has(Runs(jv), x) { assert Free(iv, x) <==> Free(jv, x); }
    Unique(Runs(iv), Runs(jv));
    forall i | 0 <= i < |iv| ensures iv[i] == jv[i] {
      assert Runs(iv)[i] == Runs(jv)[i];
    }
  }

  // -------------------------------------------------------------------- taking

  function Range(lo: int, hi: int): (r: seq<int>)
    requires lo <= hi
    ensures |r| == hi - lo && forall i | 0 <= i < |r| :: r[i] == lo + i
  {
    seq(hi - lo, i => lo + i)
  }

  /** The first `n` members of a list, in order. */
  function Smallest(s: seq<Span>, n: nat): seq<int>
    requires Canonical(s)
  {
    if s == [] || n == 0 then []
    else if s[0].hi - s[0].lo <= n
    then Range(s[0].lo, s[0].hi) + Smallest(s[1..], n - (s[0].hi - s[0].lo))
    else Range(s[0].lo, s[0].lo + n)
  }

  /** The list without them. */
  function Without(s: seq<Span>, n: nat): seq<Span>
    requires Canonical(s)
  {
    if s == [] || n == 0 then s
    else if s[0].hi - s[0].lo <= n then Without(s[1..], n - (s[0].hi - s[0].lo))
    else [Span(s[0].lo + n, s[0].hi)] + s[1..]
  }

  ghost predicate Increasing(a: seq<int>) {
    forall i, j | 0 <= i < j < |a| :: a[i] < a[j]
  }

  /** What taking the first `n` means: they are `n` increasing members, each smaller than
      every member that stays, and nothing else goes. */
  lemma {:induction false} TakenAreSmallest(s: seq<Span>, n: nat)
    requires Canonical(s) && n <= Total(s)
    ensures |Smallest(s, n)| == n && Increasing(Smallest(s, n))
    ensures Canonical(Without(s, n)) && Total(Without(s, n)) == Total(s) - n
    ensures forall x :: Has(s, x) <==> x in Smallest(s, n) || Has(Without(s, n), x)
    ensures forall x, y | x in Smallest(s, n) && Has(Without(s, n), y) :: x < y
  {
    if s == [] || n == 0 {
    } else {
      var w := s[0].hi - s[0].lo;
      if w <= n {
        TakenAreSmallest(s[1..], n - w);
        TakeWhole(s, n);
      } else {
        TakePart(s, n);
      }
    }
  }

  lemma TakeWhole(s: seq<Span>, n: nat)
    requires Canonical(s) && s != [] && 0 < s[0].hi - s[0].lo <= n <= Total(s)
    requires var rest, m := s[1..], n - (s[0].hi - s[0].lo);
             && |Smallest(rest, m)| == m && Increasing(Smallest(rest, m)) && Canonical(Without(rest, m))
             && (forall x :: Has(rest, x) <==> x in Smallest(rest, m) || Has(Without(rest, m), x))
             && (forall x, y | x in Smallest(rest, m) && Has(Without(rest, m), y) :: x < y)
    ensures Increasing(Smallest(s, n))
    ensures forall x :: Has(s, x) <==> x in Smallest(s, n) || Has(Without(s, n), x)
    ensures forall x, y | x in Smallest(s, n) && Has(Without(s, n), y) :: x < y
  {
    var rest, m := s[1..], n - (s[0].hi - s[0].lo);
    var here, more := Range(s[0].lo, s[0].hi), Smallest(rest, m);
    assert Smallest(s, n) == here + more && Without(s, n) == Without(rest, m);
    forall x ensures x in here <==> In(s[0], x) { assert In(s[0], x) ==> here[x - s[0].lo] == x; }
    forall x ensures Has(rest, x) ==> s[0].hi < x {
      if Has(rest, x) { var i :| 0 <= i < |rest| && In(rest[i], x); assert rest[i] == s[i + 1]; }
    }
    forall x ensures Has(s, x) <==> In(s[0], x) || Has(rest, x) { TailHas(s, x); assert In(s[0], x) ==> Has(s, x); }
    forall i | 0 <= i < m ensures s[0].hi < more[i] { assert more[i] in more; }
  }

  lemma TakePart(s: seq<Span>, n: nat)
    requires Canonical(s) && s != [] && 0 < n < s[0].hi - s[0].lo
    ensures |Smallest(s, n)| == n && Increasing(Smallest(s, n))
    ensures Canonical(Without(s, n)) && Total(Without(s, n)) == Total(s) - n
    ensures forall x :: Has(s, x) <==> x in Smallest(s, n) || Has(Without(s, n), x)
    ensures forall x, y | x in Smallest(s, n) && Has(Without(s, n), y) :: x < y
  {
    var c := Without(s, n);
    var here := Range(s[0].lo, s[0].lo + n);
    assert c == Carve(s, 0, s[0].lo, s[0].lo + n);
    CarveRemoves(s, 0, s[0].lo, s[0].lo + n);
    assert c[1..] == s[1..];
    forall x ensures x in here <==> s[0].lo <= x < s[0].lo + n {
      assert s[0].lo <= x < s[0].lo + n ==> here[x - s[0].lo] == x;
    }
    forall x | x in here ensures Has(s, x) { assert In(s[0], x); }
    forall y | Has(c, y) ensures s[0].lo + n <= y {
      var i :| 0 <= i < |c| && In(c[i], y);
    }
  }

  // ------------------------------------------------------------------ the pool

  class AddressPool {
    const start: Ipv4
    const end: Ipv4
    var intervals: seq<Interval>

    ghost predicate Valid()
      reads this
    {
      start <= end && Good(intervals, start, end)
    }

    constructor (start: Ipv4, end: Ipv4)
      requires start <= end
      ensures Valid() && this.start == start && this.end == end
      ensures forall x :: Free(intervals, x) <==> start <= x <= end
    {
      this.start, this.end := start, end;
      intervals := [(start, end)];
      new;
      assert Runs(intervals) == [Span(start, end + 1)];
      forall x ensures Free(intervals, x) <==> start <= x <= end { HasOne(Span(start, end + 1), x); }
    }

    /** Take one address out of the pool, if it is free. */
    method Reserve(addr: Ipv4) returns (r: Option<int>)
      requires Valid()
      modifies this
      ensures Valid()
      ensures r == if old(Free(intervals, addr)) then Some(addr) else None
      ensures forall x :: Free(intervals, x) <==> old(Free(intervals, x)) && x != addr
      ensures r == None ==> intervals == old(intervals)
    {
      hide Canonical, Has, Free, Runs;
      var pos := StartsBelow(intervals, addr + 1);
      if pos == 0 {
        NotFree(intervals, addr, pos);
        return None;
      }
      var idx := pos - 1;
      var (from, to) := intervals[idx];
      if addr > to {
        NotFree(intervals, addr, pos);
        return None;
      }
      Recarve(intervals, start, end, idx, addr);
      if from == addr && to == addr {
        intervals := intervals[..idx] + intervals[idx + 1..];
      } else if from == addr {
        intervals := intervals[idx := (Plus(addr, 1), to)];
      } else if to == addr {
        intervals := intervals[idx := (from, addr - 1)];
      } else {
        intervals := intervals[..idx + 1] + [(Plus(addr, 1), to)] + intervals[idx + 1..];
        intervals := intervals[idx := (from, addr - 1)];
      }
      assert intervals == Cut(old(intervals), idx, addr);
      r := Some(addr);
    }

    /** Give `ip` back. The list stays canonical exactly when `ip` was not free: releasing
        a free address leaves it in two intervals. */
    method Release(ip: Ipv4)
      requires Valid() && start <= ip <= end
      modifies this
      ensures Valid() <==> !old(Free(intervals, ip))
      ensures !old(Free(intervals, ip)) ==> forall x :: Free(intervals, x) <==> old(Free(intervals, x)) || x == ip
    {
      hide Canonical, Has, Free, Runs;
      var pos := StartsBelow(intervals, ip);
      var leftAdj := pos > 0 && Plus(intervals[pos - 1].1, 1) == ip;
      var rightAdj := pos < |intervals| && intervals[pos].0 == Plus(ip, 1);
      Rejoin(intervals, start, end, ip);
      if leftAdj && rightAdj {
        intervals := intervals[pos - 1 := (intervals[pos - 1].0, intervals[pos].1)];
        intervals := intervals[..pos] + intervals[pos + 1..];
      } else if leftAdj {
        intervals := intervals[pos - 1 := (intervals[pos - 1].0, ip)];
      } else if rightAdj {
        intervals := intervals[pos := (ip, intervals[pos].1)];
      } else {
        intervals := intervals[..pos] + [(ip, ip)] + intervals[pos..];
      }
      assert intervals == Joined(old(intervals), ip);
    }

    /** Whether at least `n` addresses are free, counting only as far as needed. */
    method Enough(n: nat) returns (yes: bool)
      requires Valid()
      ensures intervals != WHOLE ==> yes == (n <= Total(Runs(intervals)))
      ensures intervals == WHOLE ==> yes == (n == 0)
    {
      ghost var s := Runs(intervals);
      var available, k := 0, 0;
      assert s[0..] == s;
      while k < |intervals|
        invariant 0 <= k <= |intervals|
        invariant intervals != WHOLE ==> available + Total(s[k..]) == Total(s)
        invariant intervals == WHOLE ==> available == 0
      {
        WidthExact(intervals, start, end, k);
        assert s[k..][1..] == s[k + 1..];
        available := available + Width(intervals[k]);
        k := k + 1;
        if available >= n { break; }
      }
      TotalPositive(s, k);
      yes := available >= n;
    }

    /** The consuming loop of `take`: the addresses, and the list that is left. */
    method Collect(n: nat) returns (out: seq<int>, consumed: nat, rest: seq<Interval>)
      requires Valid() && (intervals != WHOLE ==> n <= Total(Runs(intervals)))
      ensures intervals != WHOLE ==> out == Smallest(Runs(intervals), n) && Runs(rest) == Without(Runs(intervals), n)
      ensures intervals == WHOLE ==> out == Range(0, MAX_ADDR + 1) && rest == []
    {
      hide Smallest, Without, Total, Canonical, Width;
      ghost var s := Runs(intervals);
      rest := intervals;
      out, consumed := [], 0;
      var remaining: nat := n;
      assert s[0..] == s;
      while consumed < |rest|
        invariant consumed <= |rest| && rest == intervals
        invariant intervals != WHOLE ==> Pending(s, consumed, remaining, out, n)
        invariant intervals == WHOLE ==> remaining == n && out == if consumed == 0 then [] else Range(0, MAX_ADDR + 1)
      {
        WidthExact(intervals, start, end, consumed);
        var (from, to) := rest[consumed];
        var span := Width(rest[consumed]);
        if span <= remaining {
          if intervals != WHOLE { PendingWhole(s, consumed, remaining, out, n); }
          out := Push(out, from, to + 1);
          consumed := consumed + 1;
          remaining := remaining - span;
          if remaining == 0 {
            rest := rest[consumed..];
            assert Runs(rest) == s[consumed..];
            return;
          }
        } else {
          if intervals != WHOLE { PendingPart(s, consumed, remaining, out, n); }
          out := Push(out, from, from + remaining);
          rest := rest[consumed := (Plus(from, remaining), to)][consumed..];
          assert intervals != WHOLE ==> Runs(rest) == s[consumed := Span(from + remaining, to + 1)][consumed..];
          return;
        }
      }
      if intervals != WHOLE { PendingEnd(s, remaining, out, n); }
      rest := rest[consumed..];
    }

    static method Push(had: seq<int>, lo: int, hi: int) returns (out: seq<int>)
      requires lo <= hi
      ensures out == had + Range(lo, hi)
    {
      out := had;
      var v := lo;
      while v < hi
        invariant lo <= v <= hi && out == had + Range(lo, v)
      {
        out := out + [v];
        v := v + 1;
      }
    }

    /** Take the `n` smallest free addresses, or nothing at all. The pool of all addresses has
        one interval, whose 32-bit width is zero: it refuses every request but the empty one,
        to which it hands out everything. */
    method Take(n: nat) returns (r: Option<seq<int>>)
      requires Valid()
      modifies this
      ensures old(intervals) != WHOLE ==> Valid() && (r.Some? <==> n <= Total(old(Runs(intervals))))
      ensures old(intervals) != WHOLE && r.Some? ==>
                && |r.value| == n && Increasing(r.value)
                && (forall x :: old(Free(intervals, x)) <==> x in r.value || Free(intervals, x))
                && (forall x, y | x in r.value && Free(intervals, y) :: x < y)
      ensures old(intervals) == WHOLE && n > 0 ==> r.None?
      ensures old(intervals) == WHOLE && n == 0 ==> Valid() && intervals == [] && r == Some(Range(0, MAX_ADDR + 1))
      ensures r.None? ==> intervals == old(intervals)
    {
      var enough := Enough(n);
      if !enough {
        return None;
      }
      var out, consumed, rest := Collect(n);
      if intervals != WHOLE {
        TakeGood(intervals, start, end, n, rest);
      }
      intervals := rest;
      r := Some(out);
    }
  }

  // ------------------------------------------------------------------- reserve

  /** What is left of interval `idx` without `addr`, and the list with that in its place. */
  function Pieces(iv: Interval, addr: int): seq<Interval> {
    (if iv.0 < addr then [(iv.0, addr - 1)] else []) + (if addr < iv.1 then [(addr + 1, iv.1)] else [])
  }

  function Cut(iv: seq<Interval>, idx: nat, addr: int): seq<Interval>
    requires idx < |iv|
  {
    iv[..idx] + Pieces(iv[idx], addr) + iv[idx + 1..]
  }

  lemma RunsConcat(a: seq<Interval>, b: seq<Interval>)
    ensures Runs(a + b) == Runs(a) + Runs(b)
  {
  }

  lemma Recarve(iv: seq<Interval>, start: Ipv4, end: Ipv4, idx: nat, addr: int)
    requires Good(iv, start, end) && idx < |iv| && iv[idx].0 <= addr <= iv[idx].1
    ensures Free(iv, addr) && Good(Cut(iv, idx, addr), start, end)
    ensures forall x :: Free(Cut(iv, idx, addr), x) <==> Free(iv, x) && x != addr
  {
    var s := Runs(iv);
    assert In(s[idx], addr);
    CarveRemoves(s, idx, addr, addr + 1);
    var mid := Pieces(iv[idx], addr);
    RunsConcat(iv[..idx] + mid, iv[idx + 1..]);
    RunsConcat(iv[..idx], mid);
    assert Runs(mid) == Remnants(s[idx], addr, addr + 1);
    assert Runs(iv[..idx]) == s[..idx] && Runs(iv[idx + 1..]) == s[idx + 1..];
    var c := Cut(iv, idx, addr);
    forall i | 0 <= i < |c| ensures start <= c[i].0 && c[i].1 <= end {
      assert c[i] in iv[..idx] || c[i] in mid || c[i] in iv[idx + 1..];
    }
  }

  /** An address outside the last interval that starts at or below it is not free. */
  lemma NotFree(iv: seq<Interval>, addr: Ipv4, pos: nat)
    requires Canonical(Runs(iv)) && pos == StartsBelow(iv, addr + 1)
    requires pos > 0 ==> iv[pos - 1].1 < addr
    ensures !Free(iv, addr)
  {
    var s := Runs(iv);
    forall i | 0 <= i < |s| ensures !In(s[i], addr) {
      if i < pos - 1 { assert s[i].hi < s[pos - 1].lo; }
      if i > pos { assert s[pos].lo < s[pos].hi < s[i].lo; }
    }
  }

  // ------------------------------------------------------------------- release

  /** The intervals `release` replaces, and the one it puts there. */
  function JoinFrom(iv: seq<Interval>, ip: int): nat {
    var pos := StartsBelow(iv, ip);
    if pos > 0 && Plus(iv[pos - 1].1, 1) == ip then pos - 1 else pos
  }

  function JoinTo(iv: seq<Interval>, ip: int): nat {
    var pos := StartsBelow(iv, ip);
    if pos < |iv| && iv[pos].0 == Plus(ip, 1) then pos + 1 else pos
  }

  function Join(iv: seq<Interval>, ip: int): Interval {
    var pos := StartsBelow(iv, ip);
    (if JoinFrom(iv, ip) < pos then iv[pos - 1].0 else ip, if pos < JoinTo(iv, ip) then iv[pos].1 else ip)
  }

  /** The list `release` produces. */
  function Joined(iv: seq<Interval>, ip: int): seq<Interval> {
    iv[..JoinFrom(iv, ip)] + [Join(iv, ip)] + iv[JoinTo(iv, ip)..]
  }

  lemma Rejoin(iv: seq<Interval>, start: Ipv4, end: Ipv4, ip: int)
    requires Good(iv, start, end) && start <= ip <= end
    ensures Good(Joined(iv, ip), start, end) <==> !Free(iv, ip)
    ensures !Free(iv, ip) ==> forall x :: Free(Joined(iv, ip), x) <==> Free(iv, x) || x == ip
  {
    if Free(iv, ip) {
      RejoinFree(iv, start, end, ip);
    } else {
      RejoinTaken(iv, start, end, ip);
    }
  }

  lemma RunsSplice(iv: seq<Interval>, a: nat, m: Interval, b: nat)
    requires a <= b <= |iv|
    ensures Runs(iv[..a] + [m] + iv[b..]) == Runs(iv)[..a] + [Span(m.0, m.1 + 1)] + Runs(iv)[b..]
  {
    RunsConcat(iv[..a] + [m], iv[b..]);
    RunsConcat(iv[..a], [m]);
    assert Runs([m]) == [Span(m.0, m.1 + 1)];
  }

  /** An address that is not free lies between the intervals below it and those above. */
  lemma AroundTaken(iv: seq<Interval>, ip: int, i: nat)
    requires Canonical(Runs(iv)) && !Free(iv, ip) && i < |iv|
    ensures i < StartsBelow(iv, ip) ==> iv[i].1 < ip
    ensures StartsBelow(iv, ip) <= i ==> ip < iv[i].0
    ensures iv[i].0 <= iv[i].1
  {
    hide StartsBelow;
    var s, pos := Runs(iv), StartsBelow(iv, ip);
    assert !In(s[i], ip);
    assert i > pos ==> s[pos].lo < s[pos].hi < s[i].lo;
  }

  /** There, the 32-bit neighbour tests are exact. */
  lemma JoinExact(iv: seq<Interval>, ip: int, pos: nat)
    requires Canonical(Runs(iv)) && 0 <= ip <= MAX_ADDR && pos == StartsBelow(iv, ip)
    requires pos > 0 ==> 0 <= iv[pos - 1].1 < ip
    requires pos < |iv| ==> ip < iv[pos].0 <= MAX_ADDR
    ensures First(Runs(iv), pos, ip) == JoinFrom(iv, ip) && Last(Runs(iv), pos, ip + 1) == JoinTo(iv, ip)
    ensures Merged(Runs(iv), pos, ip, ip + 1) == Span(Join(iv, ip).0, Join(iv, ip).1 + 1)
  {
    hide StartsBelow, Canonical;
  }

  lemma JoinedRuns(iv: seq<Interval>, ip: int, pos: nat)
    requires Canonical(Runs(iv)) && 0 <= ip <= MAX_ADDR && pos == StartsBelow(iv, ip)
    requires pos > 0 ==> 0 <= iv[pos - 1].1 < ip
    requires pos < |iv| ==> ip < iv[pos].0 <= MAX_ADDR
    ensures Runs(Joined(iv, ip)) == Insert(Runs(iv), pos, ip, ip + 1)
    ensures JoinFrom(iv, ip) <= pos <= JoinTo(iv, ip) <= |iv|
    ensures Join(iv, ip) == (if JoinFrom(iv, ip) < pos then iv[pos - 1].0 else ip, if pos < JoinTo(iv, ip) then iv[pos].1 else ip)
  {
    hide StartsBelow, Canonical;
    JoinExact(iv, ip, pos);
    RunsSplice(iv, JoinFrom(iv, ip), Join(iv, ip), JoinTo(iv, ip));
  }

  lemma RejoinTaken(iv: seq<Interval>, start: Ipv4, end: Ipv4, ip: int)
    requires Good(iv, start, end) && start <= ip <= end && !Free(iv, ip)
    ensures Good(Joined(iv, ip), start, end)
    ensures forall x :: Free(Joined(iv, ip), x) <==> Free(iv, x) || x == ip
  {
    hide StartsBelow, Canonical, Has, Insert, First, Last, Merged, Join, JoinFrom, JoinTo;
    var s, pos := Runs(iv), StartsBelow(iv, ip);
    forall i | 0 <= i < |s| ensures i < pos ==> s[i].hi <= ip
                            ensures pos <= i ==> ip + 1 <= s[i].lo
    {
      AroundTaken(iv, ip, i);
    }
    if pos > 0 { AroundTaken(iv, ip, pos - 1); }
    if pos < |iv| { AroundTaken(iv, ip, pos); }
    JoinedRuns(iv, ip, pos);
    InsertAdds(s, pos, ip, ip + 1);
    var j := Joined(iv, ip);
    forall i | 0 <= i < |j| ensures start <= j[i].0 && j[i].1 <= end {
      assert j[i] in iv[..JoinFrom(iv, ip)] || j[i] == Join(iv, ip) || j[i] in iv[JoinTo(iv, ip)..];
    }
  }

  lemma Ordered(s: seq<Span>, i: nat, j: nat)
    requires Canonical(s) && i < j < |s|
    ensures s[i].lo < s[i].hi < s[j].lo < s[j].hi
  {
  }

  /** A free address is in the interval just below or at `StartsBelow`, and nothing touches
      it from outside. */
  lemma AroundFree(iv: seq<Interval>, ip: int)
    requires Canonical(Runs(iv)) && Free(iv, ip)
    ensures var pos := StartsBelow(iv, ip);
            if pos < |iv| && iv[pos].0 == ip then pos > 0 ==> iv[pos - 1].1 + 1 < ip
            else pos > 0 && ip <= iv[pos - 1].1 && (pos < |iv| ==> ip + 1 < iv[pos].0)
  {
    hide StartsBelow;
    var s, pos := Runs(iv), StartsBelow(iv, ip);
    forall i | 0 <= i < |s| ensures In(s[i], ip) ==> i == pos - 1 || (i == pos && s[i].lo == ip) {
      if i + 1 < pos { Ordered(s, i, pos - 1); }
      if pos < i { Ordered(s, pos, i); }
    }
    if 0 < pos < |s| { Ordered(s, pos - 1, pos); }
  }

  lemma NoJoin(iv: seq<Interval>, ip: int, pos: nat)
    requires pos == StartsBelow(iv, ip) && 0 <= ip <= MAX_ADDR
    requires pos > 0 ==> 0 <= iv[pos - 1].0 && iv[pos - 1].1 <= MAX_ADDR
                         && (iv[pos - 1].1 + 1 < ip || ip <= iv[pos - 1].1)
    requires pos < |iv| ==> iv[pos].0 == ip || ip + 1 < iv[pos].0 <= MAX_ADDR
    requires pos > 0 ==> 0 <= iv[pos - 1].1
    ensures JoinFrom(iv, ip) == pos && JoinTo(iv, ip) == pos
  {
    hide StartsBelow;
  }

  lemma RejoinFree(iv: seq<Interval>, start: Ipv4, end: Ipv4, ip: int)
    requires Good(iv, start, end) && Free(iv, ip) && 0 <= ip <= MAX_ADDR
    ensures !Canonical(Runs(Joined(iv, ip)))
  {
    hide StartsBelow, JoinFrom, JoinTo, Free;
    var s, pos := Runs(iv), StartsBelow(iv, ip);
    AroundFree(iv, ip);
    assert pos > 0 ==> s[pos - 1].lo < s[pos - 1].hi;
    assert pos < |s| ==> s[pos].lo < s[pos].hi;
    NoJoin(iv, ip, pos);
    RunsSplice(iv, pos, (ip, ip), pos);
    Overlap(s, pos, ip);
  }

  lemma Overlap(s: seq<Span>, pos: nat, ip: int)
    requires pos <= |s|
    requires (pos > 0 && ip < s[pos - 1].hi) || (pos < |s| && s[pos].lo <= ip)
    ensures !Canonical(s[..pos] + [Span(ip, ip + 1)] + s[pos..])
  {
    var t := s[..pos] + [Span(ip, ip + 1)] + s[pos..];
    assert t[pos] == Span(ip, ip + 1);
    if pos > 0 && ip < s[pos - 1].hi {
      assert t[pos - 1] == s[pos - 1];
    } else {
      assert t[pos + 1] == s[pos];
    }
  }

  // ---------------------------------------------------------------------- take

  /** The pool of all 2^32 addresses: the one list whose width does not fit in 32 bits. */
  const WHOLE: seq<Interval> := [(0, MAX_ADDR)]

  /** The width of an interval, computed in 32 bits. */
  function Width(i: Interval): nat {
    Plus(i.1 - i.0, 1)
  }

  lemma WidthExact(iv: seq<Interval>, start: Ipv4, end: Ipv4, k: nat)
    requires Good(iv, start, end) && k < |iv|
    ensures Width(iv[k]) == (if iv == WHOLE then 0 else iv[k].1 - iv[k].0 + 1)
  {
    var s := Runs(iv);
    assert s[k].lo < s[k].hi;
    assert k > 0 ==> s[0].lo < s[0].hi < s[k].lo;
    assert k + 1 < |s| ==> s[k].hi < s[k + 1].lo;
    assert iv[k] == (0, MAX_ADDR) ==> iv == WHOLE;
  }

  lemma {:induction false} TotalPositive(s: seq<Span>, k: nat)
    requires Canonical(s) && k <= |s|
    ensures Total(s[k..]) >= |s| - k
    decreases |s| - k
  {
    if k == |s| {
    } else {
      assert s[k..][1..] == s[k + 1..];
      TotalPositive(s, k + 1);
    }
  }

  /** After `k` whole intervals, `out` and what is still to be taken make up the answer. */
  ghost predicate Pending(s: seq<Span>, k: nat, remaining: nat, out: seq<int>, n: nat)
    requires k <= |s| && Canonical(s)
  {
    && Canonical(s[k..]) && remaining <= Total(s[k..])
    && out + Smallest(s[k..], remaining) == Smallest(s, n)
    && Without(s[k..], remaining) == Without(s, n)
  }

  lemma PendingWhole(s: seq<Span>, k: nat, remaining: nat, out: seq<int>, n: nat)
    requires Canonical(s) && k < |s| && s[k].hi - s[k].lo <= remaining && Pending(s, k, remaining, out, n)
    ensures var m := remaining - (s[k].hi - s[k].lo); var out' := out + Range(s[k].lo, s[k].hi);
            && Pending(s, k + 1, m, out', n)
            && (m == 0 ==> out' == Smallest(s, n) && s[k + 1..] == Without(s, n))
  {
    var m := remaining - (s[k].hi - s[k].lo);
    assert s[k..][1..] == s[k + 1..] && s[k..][0] == s[k];
    assert Smallest(s[k..], remaining) == Range(s[k].lo, s[k].hi) + Smallest(s[k + 1..], m);
    assert out + (Range(s[k].lo, s[k].hi) + Smallest(s[k + 1..], m))
        == out + Range(s[k].lo, s[k].hi) + Smallest(s[k + 1..], m);
  }

  lemma PendingEnd(s: seq<Span>, remaining: nat, out: seq<int>, n: nat)
    requires Canonical(s) && Pending(s, |s|, remaining, out, n)
    ensures out == Smallest(s, n) && [] == Without(s, n)
  {
    assert s[|s|..] == [];
    assert out + [] == out;
  }

  lemma PendingPart(s: seq<Span>, k: nat, remaining: nat, out: seq<int>, n: nat)
    requires Canonical(s) && k < |s| && remaining < s[k].hi - s[k].lo && Pending(s, k, remaining, out, n)
    ensures out + Range(s[k].lo, s[k].lo + remaining) == Smallest(s, n)
    ensures s[k := Span(s[k].lo + remaining, s[k].hi)][k..] == Without(s, n)
  {
    var t := s[k..];
    assert t[0] == s[k];
    assert s[k := Span(s[k].lo + remaining, s[k].hi)][k..] == [Span(s[k].lo + remaining, s[k].hi)] + t[1..];
    if remaining == 0 {
      assert t == [s[k]] + t[1..];
      assert Smallest(t, 0) == [] && out + [] == out;
    } else {
      assert Smallest(t, remaining) == Range(s[k].lo, s[k].lo + remaining);
    }
  }

  lemma TakeGood(iv: seq<Interval>, start: Ipv4, end: Ipv4, n: nat, rest: seq<Interval>)
    requires Good(iv, start, end) && n <= Total(Runs(iv)) && Runs(rest) == Without(Runs(iv), n)
    ensures Good(rest, start, end)
    ensures |Smallest(Runs(iv), n)| == n && Increasing(Smallest(Runs(iv), n))
    ensures forall x :: Free(iv, x) <==> x in Smallest(Runs(iv), n) || Free(rest, x)
    ensures forall x, y | x in Smallest(Runs(iv), n) && Free(rest, y) :: x < y
  {
    TakenAreSmallest(Runs(iv), n);
    var s, t := Runs(iv), Runs(rest);
    forall i | 0 <= i < |rest| ensures start <= rest[i].0 && rest[i].1 <= end {
      assert t[i].lo < t[i].hi;
      InPool(iv, start, end, rest, t[i].lo);
      InPool(iv, start, end, rest, t[i].hi - 1);
      assert In(t[i], t[i].lo) && In(t[i], t[i].hi - 1);
    }
  }

  lemma InPool(iv: seq<Interval>, start: Ipv4, end: Ipv4, rest: seq<Interval>, x: int)
    requires Good(iv, start, end) && (Free(rest, x) ==> Free(iv, x))
    ensures Free(rest, x) ==> start <= x <= end
  {
    if Free(rest, x) {
      var i :| 0 <= i < |Runs(iv)| && In(Runs(iv)[i], x);
    }
  }

  // ------------------------------------------------------------- consequences

  /** `release` undoes `reserve`, down to the interval list itself. */
  lemma ReleaseUndoesReserve(iv: seq<Interval>, start: Ipv4, end: Ipv4, idx: nat, addr: int)
    requires Good(iv, start, end) && idx < |iv| && iv[idx].0 <= addr <= iv[idx].1
    ensures Joined(Cut(iv, idx, addr), addr) == iv
  {
    var cut := Cut(iv, idx, addr);
    Recarve(iv, start, end, idx, addr);
    assert !Free(cut, addr);
    RejoinTaken(cut, start, end, addr);
    forall x ensures Free(Joined(cut, addr), x) <==> Free(iv, x) { assert Free(cut, x) <==> Free(iv, x) && x != addr; }
    OneList(Joined(cut, addr), iv);
  }

  /** `take(n)` fails exactly when fewer than `n` addresses are free: `Total` counts them. */
  lemma TotalCountsFree(iv: seq<Interval>, free: set<int>)
    requires Canonical(Runs(iv)) && forall x :: x in free <==> Free(iv, x)
    ensures Total(Runs(iv)) == |free|
  {
    TotalCounts(Runs(iv), free);
  }

  /** Releasing a free address, at its smallest: the address is then listed twice. */
  lemma ReleasedTwice(ip: Ipv4)
    ensures Good([(ip, ip)], ip, ip) && Free([(ip, ip)], ip)
    ensures Joined([(ip, ip)], ip) == [(ip, ip), (ip, ip)] && !Good([(ip, ip), (ip, ip)], ip, ip)
  {
    var iv: seq<Interval> := [(ip, ip)];
    assert In(Runs(iv)[0], ip);
    assert StartsBelow(iv, ip) == 0;
    var twice: seq<Interval> := [(ip, ip), (ip, ip)];
    assert Runs(twice)[0].hi == ip + 1 && Runs(twice)[1].lo == ip;
  }
}

/** Canonical lists of half-open integer spans.

    Two parts of the router keep free space as a sorted list of maximal runs: the
    free-list allocator (address-sorted holes) and the DHCP address pool (free
    intervals). Both take a piece out of one run, leaving an optional front and back
    remnant, and both give a piece back, merging it with the runs it touches. The set
    reading of those two edits is proved once, here. */
module Spans {

  datatype Span = Span(lo: int, hi: int)

  /** Sorted, non-empty, and never touching: between two runs there is a gap. */
  ghost predicate Canonical(s: seq<Span>) {
    && (forall i | 0 <= i < |s| :: s[i].lo < s[i].hi)
    && (forall i, j | 0 <= i < j < |s| :: s[i].hi < s[j].lo)
  }

  ghost predicate In(p: Span, x: int) {
    p.lo <= x < p.hi
  }

  /** `x` lies in one of the runs. */
  ghost predicate Has(s: seq<Span>, x: int) {
    exists i :: 0 <= i < |s| && In(s[i], x)
  }

  /** Every run of `s` ends strictly before every run of `t` starts. */
  ghost predicate Before(s: seq<Span>, t: seq<Span>) {
    forall i, j | 0 <= i < |s| && 0 <= j < |t| :: s[i].hi < t[j].lo
  }

  lemma HasConcat(s: seq<Span>, t: seq<Span>, x: int)
    ensures Has(s + t, x) <==> Has(s, x) || Has(t, x)
  {
    var c := s + t;
    if Has(c, x) {
      var k :| 0 <= k < |c| && In(c[k], x);
      assert if k < |s| then In(s[k], x) else In(t[k - |s|], x);
    }
    if Has(s, x) {
      var k :| 0 <= k < |s| && In(s[k], x);
      assert In(c[k], x);
    }
    if Has(t, x) {
      var k :| 0 <= k < |t| && In(t[k], x);
      assert In(c[k + |s|], x);
    }
  }

  lemma CanonicalConcat(s: seq<Span>, t: seq<Span>)
    ensures Canonical(s + t) <==> Canonical(s) && Canonical(t) && Before(s, t)
  {
    var c := s + t;
    assert forall k | 0 <= k < |s| :: c[k] == s[k];
    assert forall k | 0 <= k < |t| :: c[k + |s|] == t[k];
    assert Canonical(s) && Canonical(t) && Before(s, t) ==> Canonical(c);
  }

  lemma HasOne(p: Span, x: int)
    ensures Has([p], x) <==> In(p, x)
  {
    assert In(p, x) ==> In([p][0], x);
  }

  lemma HasThree(pre: seq<Span>, mid: seq<Span>, post: seq<Span>, x: int)
    ensures Has(pre + mid + post, x) <==> Has(pre, x) || Has(mid, x) || Has(post, x)
  {
    HasConcat(pre + mid, post, x);
    HasConcat(pre, mid, x);
  }

  /** Replacing the runs `mid` by the runs `mid'` inside a canonical list. */
  lemma Substitute(pre: seq<Span>, mid: seq<Span>, mid': seq<Span>, post: seq<Span>)
    requires Canonical(pre + mid + post)
    requires Canonical(mid') && Before(pre, mid') && Before(mid', post)
    requires Before(pre, post)
    ensures Canonical(pre + mid' + post)
  {
    CanonicalConcat(pre + mid, post);
    CanonicalConcat(pre, mid);
    CanonicalConcat(pre, mid');
    CanonicalConcat(pre + mid', post);
  }

  /** What is left of one run when [lo, hi) is taken out of it. */
  function Remnants(p: Span, lo: int, hi: int): seq<Span> {
    (if p.lo < lo then [Span(p.lo, lo)] else []) + (if hi < p.hi then [Span(hi, p.hi)] else [])
  }

  /** Take [lo, hi) out of run `i`. */
  function Carve(s: seq<Span>, i: nat, lo: int, hi: int): seq<Span>
    requires i < |s|
  {
    s[..i] + Remnants(s[i], lo, hi) + s[i + 1..]
  }

  lemma RemnantsHas(p: Span, lo: int, hi: int, x: int)
    requires p.lo <= lo < hi <= p.hi
    ensures Has(Remnants(p, lo, hi), x) <==> In(p, x) && !(lo <= x < hi)
  {
    var front := if p.lo < lo then [Span(p.lo, lo)] else [];
    var back := if hi < p.hi then [Span(hi, p.hi)] else [];
    HasConcat(front, back, x);
    HasOne(Span(p.lo, lo), x);
    HasOne(Span(hi, p.hi), x);
  }

  lemma CarveRemoves(s: seq<Span>, i: nat, lo: int, hi: int)
    requires Canonical(s) && i < |s|
    requires s[i].lo <= lo < hi <= s[i].hi
    ensures Canonical(Carve(s, i, lo, hi))
    ensures forall x :: Has(Carve(s, i, lo, hi), x) <==> Has(s, x) && !(lo <= x < hi)
  {
    var pre, mid, post := s[..i], Remnants(s[i], lo, hi), s[i + 1..];
    assert s == pre + [s[i]] + post;
    Substitute(pre, [s[i]], mid, post);
    forall x ensures Has(Carve(s, i, lo, hi), x) <==> Has(s, x) && !(lo <= x < hi) {
      HasThree(pre, mid, post, x);
      HasThree(pre, [s[i]], post, x);
      RemnantsHas(s[i], lo, hi, x);
      HasOne(s[i], x);
      Elsewhere(s, i, x);
    }
  }

  /** Runs are disjoint: a point of run `i` is in no other run. */
  lemma Elsewhere(s: seq<Span>, i: nat, x: int)
    requires Canonical(s) && i < |s|
    ensures In(s[i], x) ==> !Has(s[..i], x) && !Has(s[i + 1..], x)
  {
  }

  /** One run put in place of the runs `a` to `b`. */
  lemma Splice(s: seq<Span>, a: nat, b: nat, m: Span)
    requires Canonical(s) && a <= b <= |s| && m.lo < m.hi
    requires forall i | 0 <= i < a :: s[i].hi < m.lo
    requires forall i | b <= i < |s| :: m.hi < s[i].lo
    ensures Canonical(s[..a] + [m] + s[b..])
  {
    var c := s[..a] + [m] + s[b..];
    assert forall k | 0 <= k < a :: c[k] == s[k];
    assert forall k | a < k < |c| :: c[k] == s[k - a - 1 + b];
  }

  /** The first and one past the last run that [lo, hi), placed in front of run `p`,
      merges with, and the run that results. */
  function First(s: seq<Span>, p: nat, lo: int): (a: nat)
    requires p <= |s|
  {
    if p > 0 && s[p - 1].hi == lo then p - 1 else p
  }

  function Last(s: seq<Span>, p: nat, hi: int): (b: nat)
    requires p <= |s|
  {
    if p < |s| && hi == s[p].lo then p + 1 else p
  }

  function Merged(s: seq<Span>, p: nat, lo: int, hi: int): Span
    requires p <= |s|
  {
    Span(if First(s, p, lo) < p then s[p - 1].lo else lo, if Last(s, p, hi) > p then s[p].hi else hi)
  }

  /** Give [lo, hi) back in front of run `p`, merging with the runs it touches. */
  function Insert(s: seq<Span>, p: nat, lo: int, hi: int): seq<Span>
    requires p <= |s|
  {
    s[..First(s, p, lo)] + [Merged(s, p, lo, hi)] + s[Last(s, p, hi)..]
  }

  lemma InsertAdds(s: seq<Span>, p: nat, lo: int, hi: int)
    requires Canonical(s) && p <= |s| && lo < hi
    requires forall i | 0 <= i < p :: s[i].hi <= lo
    requires forall i | p <= i < |s| :: hi <= s[i].lo
    ensures Canonical(Insert(s, p, lo, hi))
    ensures forall x :: Has(Insert(s, p, lo, hi), x) <==> Has(s, x) || lo <= x < hi
  {
    MergedApart(s, p, lo, hi);
    Splice(s, First(s, p, lo), Last(s, p, hi), Merged(s, p, lo, hi));
    forall x ensures Has(Insert(s, p, lo, hi), x) <==> Has(s, x) || lo <= x < hi {
      InsertHas(s, p, lo, hi, x);
    }
  }

  lemma MergedApart(s: seq<Span>, p: nat, lo: int, hi: int)
    requires Canonical(s) && p <= |s| && lo < hi
    requires forall i | 0 <= i < p :: s[i].hi <= lo
    requires forall i | p <= i < |s| :: hi <= s[i].lo
    ensures Merged(s, p, lo, hi).lo < Merged(s, p, lo, hi).hi
    ensures forall i | 0 <= i < First(s, p, lo) :: s[i].hi < Merged(s, p, lo, hi).lo
    ensures forall i | Last(s, p, hi) <= i < |s| :: Merged(s, p, lo, hi).hi < s[i].lo
  {
  }

  lemma InsertHas(s: seq<Span>, p: nat, lo: int, hi: int, x: int)
    requires Canonical(s) && p <= |s| && lo < hi
    ensures Has(Insert(s, p, lo, hi), x) <==> Has(s, x) || lo <= x < hi
  {
    var a, b, m := First(s, p, lo), Last(s, p, hi), Merged(s, p, lo, hi);
    assert s == s[..a] + s[a..b] + s[b..];
    HasThree(s[..a], s[a..b], s[b..], x);
    HasThree(s[..a], [m], s[b..], x);
    HasOne(m, x);
    MergedHas(s, p, lo, hi, x);
  }

  /** The merged run covers exactly the new span and the runs it touches. */
  lemma MergedHas(s: seq<Span>, p: nat, lo: int, hi: int, x: int)
    requires Canonical(s) && p <= |s| && lo < hi
    ensures Has(s[First(s, p, lo)..Last(s, p, hi)], x) || lo <= x < hi <==> In(Merged(s, p, lo, hi), x)
  {
    var a, b := First(s, p, lo), Last(s, p, hi);
    var l := if a < p then [s[p - 1]] else [];
    var r := if b > p then [s[p]] else [];
    assert l + r == s[a..b];
    HasConcat(l, r, x);
    if a < p { HasOne(s[p - 1], x); }
    if b > p { HasOne(s[p], x); }
  }

  /** A set of integers has only one canonical list: two lists with the same members are
      the same list. */
  lemma {:induction false} Unique(s: seq<Span>, t: seq<Span>)
    requires Canonical(s) && Canonical(t)
    requires forall x :: Has(s, x) <==> Has(t, x)
    ensures s == t
  {
    if s == [] {
      if t != [] { assert In(t[0], t[0].lo); assert Has(t, t[0].lo); }
    } else if t == [] {
      assert In(s[0], s[0].lo);
      assert Has(s, s[0].lo);
    } else {
      SameHead(s, t);
      forall x ensures Has(s[1..], x) <==> Has(t[1..], x) {
        TailHas(s, x);
        TailHas(t, x);
      }
      Unique(s[1..], t[1..]);
      assert s == [s[0]] + s[1..] && t == [t[0]] + t[1..];
    }
  }

  lemma TailHas(s: seq<Span>, x: int)
    requires Canonical(s) && s != []
    ensures Has(s[1..], x) <==> Has(s, x) && !In(s[0], x)
  {
    if Has(s[1..], x) {
      var i :| 0 <= i < |s[1..]| && In(s[1..][i], x);
      assert In(s[i + 1], x);
    }
    if Has(s, x) && !In(s[0], x) {
      var i :| 0 <= i < |s| && In(s[i], x);
      assert In(s[1..][i - 1], x);
    }
  }

  lemma SameHead(s: seq<Span>, t: seq<Span>)
    requires Canonical(s) && Canonical(t) && s != [] && t != []
    requires forall x :: Has(s, x) <==> Has(t, x)
    ensures s[0] == t[0]
  {
    HeadBounds(s, t);
    HeadBounds(t, s);
  }

  /** The first run of `t` starts no later, and then ends no earlier, than that of `s`. */
  lemma HeadBounds(s: seq<Span>, t: seq<Span>)
    requires Canonical(s) && Canonical(t) && s != [] && t != []
    requires forall x :: Has(s, x) <==> Has(t, x)
    ensures t[0].lo <= s[0].lo
    ensures t[0].lo == s[0].lo ==> s[0].hi <= t[0].hi
  {
    assert In(s[0], s[0].lo);
    assert Has(s, s[0].lo);
    var e := t[0].hi;
    assert !Has(t, e) && !Has(s, e);
    assert !In(s[0], e);
  }

  /** How many integers the list holds. */
  function Total(s: seq<Span>): int {
    if s == [] then 0 else s[0].hi - s[0].lo + Total(s[1..])
  }

  /** `Total` counts the members: it is the cardinality of the set the list stands for. */
  lemma {:induction false} TotalCounts(s: seq<Span>, members: set<int>)
    requires Canonical(s) && forall x :: x in members <==> Has(s, x)
    ensures |members| == Total(s)
  {
    if s == [] {
      forall x ensures x !in members { assert !Has(s, x); }
      assert members == {};
    } else {
      var first := set x | x in members && In(s[0], x);
      SpanCounts(s[0], first);
      forall x ensures x in members - first <==> Has(s[1..], x) { TailHas(s, x); }
      TotalCounts(s[1..], members - first);
      assert members == first + (members - first);
    }
  }

  lemma {:induction false} SpanCounts(p: Span, members: set<int>)
    requires p.lo <= p.hi && forall x :: x in members <==> In(p, x)
    ensures |members| == p.hi - p.lo
    decreases p.hi - p.lo
  {
    if p.lo == p.hi {
      forall x ensures x !in members { assert !In(p, x); }
      assert members == {};
    } else {
      assert In(p, p.lo);
      forall x ensures x in members - {p.lo} <==> In(Span(p.lo + 1, p.hi), x) { assert In(p, x) <==> x in members; }
      SpanCounts(Span(p.lo + 1, p.hi), members - {p.lo});
      assert members == {p.lo} + (members - {p.lo});
    }
  }
}

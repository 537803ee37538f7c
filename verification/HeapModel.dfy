/** The arena of the free-list allocator of src/mem/alloc.rs as a value: placement, the
    linked list stored in the free bytes, and the tiling of the arena.

    The arena is an array of 8-byte cells: every header access of the source is an
    8-aligned `u64`, so cell `w` is the bytes [8w, 8w + 8). A free block keeps its size
    in its first cell and the offset of the next free block in its second one. Offsets
    and sizes are in bytes, as in the source. */
module HeapModel {
  import opened Spans

  const ALIGN := 8
  const MIN_BLOCK := 16
  const NIL := 0xFFFF_FFFF_FFFF_FFFF

  /** The arena, cell by cell. */
  type Memory = seq<int>

  // ----------------------------------------------------------------- alignment

  function Pow2(k: nat): (r: nat)
    ensures r > 0
  {
    if k == 0 then 1 else 2 * Pow2(k - 1)
  }

  /** The next multiple of `align`. */
  function AlignUp(value: nat, align: nat): (r: nat)
    requires align > 0
    ensures value <= r < value + align && r % align == 0
    ensures forall m | value <= m && m % align == 0 :: r <= m
  {
    var r := (value + (align - 1)) / align * align;
    AlignUpIsNext(value, align);
    r
  }

  lemma AlignUpIsNext(value: nat, align: nat)
    requires align > 0
    ensures var r := (value + (align - 1)) / align * align;
            value <= r < value + align && r % align == 0
            && forall m | value <= m && m % align == 0 :: r <= m
  {
    var n := value + (align - 1);
    var q := n / align;
    assert n == q * align + n % align;
    MultipleOf(q, align);
    forall m | value <= m && m % align == 0 ensures q * align <= m {
      var k := m / align;
      assert m == k * align;
      Multiples(q, k + 1, align);
      Multiples(k, q, align);
    }
  }

  /** Multiples of `a` are ordered as their factors are. */
  lemma {:induction false} Multiples(i: int, j: int, a: nat)
    requires a > 0
    ensures i <= j ==> i * a <= j * a
    ensures i < j ==> i * a + a <= j * a
    decreases j - i
  {
    if i >= j {
    } else {
      assert j * a == (j - 1) * a + a;
      Multiples(i, j - 1, a);
    }
  }

  lemma MultipleOf(q: nat, a: nat)
    requires a > 0
    ensures (q * a) % a == 0
  {
    var d := q * a / a;
    assert q * a == d * a + (q * a) % a;
    Multiples(d, q, a);
    Multiples(q, d, a);
  }

  /** A power of two is at most 8, or a multiple of 16. */
  lemma {:induction false} PowersAbove8(k: nat)
    ensures k < 4 ==> Pow2(k) <= 8
    ensures k >= 4 ==> Pow2(k) >= 16 && Pow2(k) % 16 == 0
  {
    assert Pow2(1) == 2;
    assert Pow2(2) == 4;
    assert Pow2(3) == 8;
    if k > 4 {
      PowersAbove8(k - 1);
    }
  }

  // ----------------------------------------------------------------- placement

  /** A Rust `Layout`: the alignment is a power of two by construction. */
  datatype Layout = Layout(size: nat, logAlign: nat) {
    function Align(): nat { Pow2(logAlign) }
  }

  function Max(a: nat, b: nat): nat { if a < b then b else a }

  /** The size and the alignment a request has once normalised. */
  function BlockSizeFor(layout: Layout): (n: nat)
    ensures n >= MIN_BLOCK && n >= layout.size && n % ALIGN == 0
    ensures n < Max(layout.size, MIN_BLOCK) + ALIGN
  {
    AlignUp(Max(layout.size, MIN_BLOCK), ALIGN)
  }

  function AlignFor(layout: Layout): nat {
    Max(layout.Align(), ALIGN)
  }

  /** An alignment the allocator works with: 8, or a multiple of 16. */
  ghost predicate GoodAlign(align: nat) {
    align == 8 || (align >= 16 && align % 16 == 0)
  }

  lemma AlignForGood(layout: Layout)
    ensures GoodAlign(AlignFor(layout))
  {
    PowersAbove8(layout.logAlign);
  }

  lemma DividesEight(a: nat, x: nat)
    requires a == 1 || a == 2 || a == 4 || a == 8
    ensures x % 8 == 0 ==> x % a == 0
  {
    if x % 8 == 0 {
      var q := x / 8;
      assert x == 8 * q;
      MultipleOf(8 / a * q, a);
      assert 8 / a * q * a == x;
    }
  }

  lemma SmallPowers(k: nat)
    requires k < 4
    ensures Pow2(k) == 1 || Pow2(k) == 2 || Pow2(k) == 4 || Pow2(k) == 8
  {
    assert Pow2(1) == 2;
    assert Pow2(2) == 4;
    assert Pow2(3) == 8;
  }

  /** Aligned for the allocator is aligned as asked for, and to 8 bytes. */
  lemma AlignedExactly(layout: Layout, x: nat)
    ensures x % AlignFor(layout) == 0 <==> x % layout.Align() == 0 && x % 8 == 0
  {
    hide Pow2;
    PowersAbove8(layout.logAlign);
    if layout.logAlign < 4 {
      SmallPowers(layout.logAlign);
      assert AlignFor(layout) == 8;
      DividesEight(layout.Align(), x);
    } else {
      assert AlignFor(layout) == layout.Align();
      if x % layout.Align() == 0 {
        MultipleOfEight(x, layout.Align());
      }
    }
  }

  /** A remnant is nothing at all, or big enough to hold a free-list header. */
  predicate Usable(n: int) {
    n == 0 || n >= MIN_BLOCK
  }

  /** `at` is a placement in `hole`: aligned as an absolute address, inside the hole, and
      leaving usable remnants on both sides. */
  ghost predicate Fits(hole: Span, base: nat, at: int, need: nat, align: nat)
    requires align > 0
  {
    && hole.lo <= at && at + need <= hole.hi
    && (base + at) % align == 0
    && Usable(at - hole.lo) && Usable(hole.hi - (at + need))
  }

  /** The one placement the source tries in a hole that starts at `lo`. */
  function Candidate(base: nat, lo: nat, align: nat): (at: int)
    requires align > 0
    ensures lo <= at && (base + at) % align == 0 && Usable(at - lo)
  {
    var aligned := AlignUp(base + lo, align) - base;
    if aligned - lo != 0 && aligned - lo < MIN_BLOCK
    then AlignUp(base + lo + MIN_BLOCK, align) - base
    else aligned
  }

  lemma MultipleOfEight(x: nat, a: nat)
    requires a > 0 && x % a == 0 && (a == 8 || a % 16 == 0)
    ensures x % 8 == 0
  {
    if a != 8 {
      var q, b := x / a, a / 16;
      assert x == q * a && a == 16 * b;
      assert x == 8 * (2 * (q * b));
    }
  }

  /** Distinct multiples of `a` are at least `a` apart. */
  lemma MultiplesApart(x: nat, y: nat, a: nat)
    requires a > 0 && x % a == 0 && y % a == 0
    ensures x < y ==> x + a <= y
  {
    assert x == x / a * a && y == y / a * a;
    Multiples(x / a, y / a, a);
    Multiples(y / a, x / a, a);
  }

  /** Trying one candidate per hole misses nothing: if any placement fits, the candidate
      fits and no placement in the hole is lower. */
  lemma CandidateIsLowest(hole: Span, base: nat, at: int, need: nat, align: nat)
    requires GoodAlign(align) && 0 <= hole.lo && need >= MIN_BLOCK
    requires base % 8 == 0 && hole.lo % 8 == 0 && hole.hi % 8 == 0 && need % 8 == 0
    requires Fits(hole, base, at, need, align)
    ensures Fits(hole, base, Candidate(base, hole.lo, align), need, align)
    ensures Candidate(base, hole.lo, align) <= at
  {
    var c := Candidate(base, hole.lo, align);
    CandidateNoHigher(base, hole.lo, at, align);
    MultipleOfEight(base + c, align);
    MultiplesApart(base + c, base + at, align);
    if align == 8 {
      CandidateAtStart(base, hole.lo);
    }
  }

  lemma CandidateNoHigher(base: nat, lo: nat, at: int, align: nat)
    requires align > 0 && lo <= at && (base + at) % align == 0 && Usable(at - lo)
    ensures Candidate(base, lo, align) <= at
  {
    assert AlignUp(base + lo, align) <= base + at;
    if at >= lo + MIN_BLOCK {
      assert AlignUp(base + lo + MIN_BLOCK, align) <= base + at;
    }
  }

  lemma CandidateAtStart(base: nat, lo: nat)
    requires base % 8 == 0 && lo % 8 == 0
    ensures Candidate(base, lo, 8) == lo
  {
    assert AlignUp(base + lo, 8) <= base + lo;
  }

  // ------------------------------------------------------------ the linked list

  /** Offset of the first block of `s`, or `next` when there is none. */
  function FirstOff(s: seq<Span>, next: int): int {
    if s == [] then next else s[0].lo
  }

  /** Block `b` of the arena can hold a header. */
  ghost predicate Sound(b: Span, size: nat) {
    && 0 <= b.lo && b.lo % 8 == 0 && b.hi % 8 == 0
    && b.lo + MIN_BLOCK <= b.hi <= size
  }

  ghost predicate AllSound(s: seq<Span>, size: nat) {
    forall i | 0 <= i < |s| :: Sound(s[i], size)
  }

  /** Memory holds the header of block `i` of `s`; the last block links to `next`. */
  ghost predicate NodeAt(mem: Memory, s: seq<Span>, i: nat, next: int)
    requires i < |s| && Sound(s[i], 8 * |mem|)
  {
    && mem[s[i].lo / 8] == s[i].hi - s[i].lo
    && mem[s[i].lo / 8 + 1] == if i + 1 < |s| then s[i + 1].lo else next
  }

  /** Memory spells out the blocks `s` one after the other. */
  ghost predicate Linked(mem: Memory, s: seq<Span>, next: int)
    requires AllSound(s, 8 * |mem|)
  {
    forall i | 0 <= i < |s| :: NodeAt(mem, s, i, next)
  }

  lemma LinkedConcat(mem: Memory, s: seq<Span>, t: seq<Span>, next: int)
    requires AllSound(s + t, 8 * |mem|)
    ensures AllSound(s, 8 * |mem|) && AllSound(t, 8 * |mem|)
    ensures Linked(mem, s + t, next) <==> Linked(mem, s, FirstOff(t, next)) && Linked(mem, t, next)
  {
    var c := s + t;
    assert forall i | 0 <= i < |s| :: c[i] == s[i];
    assert forall i | 0 <= i < |t| :: c[i + |s|] == t[i];
    forall i | 0 <= i < |s| ensures NodeAt(mem, s, i, FirstOff(t, next)) == NodeAt(mem, c, i, next) {
    }
    forall i | 0 <= i < |t| ensures NodeAt(mem, t, i, next) == NodeAt(mem, c, i + |s|, next) {
    }
    if Linked(mem, s, FirstOff(t, next)) && Linked(mem, t, next) {
      forall i | 0 <= i < |c| ensures NodeAt(mem, c, i, next) {
        assert if i < |s| then NodeAt(mem, s, i, FirstOff(t, next)) else NodeAt(mem, t, i - |s|, next);
      }
    }
  }

  /** Headers depend only on the two cells they occupy. */
  lemma LinkedFrame(mem: Memory, mem': Memory, s: seq<Span>, next: int)
    requires |mem'| == |mem| && AllSound(s, 8 * |mem|)
    requires forall i | 0 <= i < |s| ::
               mem'[s[i].lo / 8] == mem[s[i].lo / 8] && mem'[s[i].lo / 8 + 1] == mem[s[i].lo / 8 + 1]
    requires Linked(mem, s, next)
    ensures Linked(mem', s, next)
  {
    forall i | 0 <= i < |s| ensures NodeAt(mem', s, i, next) {
      assert NodeAt(mem, s, i, next);
    }
  }

  /** Memory with a header written at offset `off`. */
  function Put(mem: Memory, off: nat, size: int, next: int): Memory
    requires off / 8 + 1 < |mem|
  {
    mem[off / 8 := size][off / 8 + 1 := next]
  }

  /** Blocks that a header written at `off` does not touch. */
  ghost predicate Clear(s: seq<Span>, off: nat) {
    forall i | 0 <= i < |s| :: s[i].hi <= off || off + MIN_BLOCK <= s[i].lo
  }

  lemma LinkedPut(mem: Memory, s: seq<Span>, next: int, off: nat, size: int, link: int)
    requires AllSound(s, 8 * |mem|) && Linked(mem, s, next)
    requires off % 8 == 0 && off + MIN_BLOCK <= 8 * |mem| && Clear(s, off)
    ensures Linked(Put(mem, off, size, link), s, next)
  {
    var mem' := Put(mem, off, size, link);
    forall i | 0 <= i < |s|
      ensures mem'[s[i].lo / 8] == mem[s[i].lo / 8] && mem'[s[i].lo / 8 + 1] == mem[s[i].lo / 8 + 1]
    {
      assert Sound(s[i], 8 * |mem|);
    }
    LinkedFrame(mem, mem', s, next);
  }

  /** Redirecting the link of the last block. */
  lemma Relink(mem: Memory, s: seq<Span>, next: int, next': int)
    requires AllSound(s, 8 * |mem|) && Canonical(s) && Linked(mem, s, next) && s != []
    ensures var z := s[|s| - 1]; Linked(Put(mem, z.lo, z.hi - z.lo, next'), s, next')
  {
    var z := s[|s| - 1];
    var pre := s[..|s| - 1];
    assert s == pre + [z];
    LinkedConcat(mem, pre, [z], next);
    var mem' := Put(mem, z.lo, z.hi - z.lo, next');
    LinkedPut(mem, pre, z.lo, z.lo, z.hi - z.lo, next');
    assert NodeAt(mem', [z], 0, next');
    LinkedConcat(mem', pre, [z], next');
  }

  /** The list `pre` made to continue at `next'`: what the source does with `prev`. */
  function Attach(mem: Memory, pre: seq<Span>, next': int): Memory
    requires AllSound(pre, 8 * |mem|)
  {
    if pre == [] then mem
    else var z := pre[|pre| - 1]; assert Sound(z, 8 * |mem|); Put(mem, z.lo, z.hi - z.lo, next')
  }

  /** `pre`, then the new blocks `mid`, then `post`: memory spells out the whole list once
      `mid` is written and `pre` is attached to it. */
  lemma Assemble(mem: Memory, pre: seq<Span>, old_: int, mid: seq<Span>, post: seq<Span>)
    requires AllSound(pre + mid + post, 8 * |mem|) && Canonical(pre + mid + post)
    requires AllSound(pre, 8 * |mem|) && AllSound(mid, 8 * |mem|) && AllSound(post, 8 * |mem|)
    requires Linked(mem, pre, old_) && Linked(mem, mid, FirstOff(post, NIL)) && Linked(mem, post, NIL)
    ensures Linked(Attach(mem, pre, FirstOff(mid + post, NIL)), pre + mid + post, NIL)
  {
    var rest := mid + post;
    assert pre + mid + post == pre + rest;
    var next := FirstOff(rest, NIL);
    assert AllSound(rest, 8 * |mem|) by { SoundConcat(mid, post, 8 * |mem|); }
    LinkedConcat(mem, mid, post, NIL);
    var mem' := Attach(mem, pre, next);
    if pre != [] {
      CanonicalConcat(pre, rest);
      var z := pre[|pre| - 1];
      Relink(mem, pre, old_, next);
      ClearAfter(pre, rest, 8 * |mem|);
      LinkedPut(mem, rest, NIL, z.lo, z.hi - z.lo, next);
    }
    hide Canonical, NodeAt, Linked, Before;
    LinkedConcat(mem', pre, rest, NIL);
  }

  lemma SoundConcat(s: seq<Span>, t: seq<Span>, size: nat)
    ensures AllSound(s + t, size) <==> AllSound(s, size) && AllSound(t, size)
  {
    var c := s + t;
    assert forall i | 0 <= i < |s| :: c[i] == s[i];
    assert forall i | 0 <= i < |t| :: c[i + |s|] == t[i];
    if AllSound(s, size) && AllSound(t, size) {
      forall i | 0 <= i < |c| ensures Sound(c[i], size) {
        assert c[i] == if i < |s| then s[i] else t[i - |s|];
      }
    }
  }

  /** A header at the last block of `pre` does not touch the blocks after it. */
  lemma ClearAfter(pre: seq<Span>, rest: seq<Span>, size: nat)
    requires pre != [] && AllSound(pre, size) && Before(pre, rest)
    ensures Clear(rest, pre[|pre| - 1].lo)
  {
    assert Sound(pre[|pre| - 1], size);
  }

  /** Every cell that differs between `mem` and `mem'` lies in a block of `s`. */
  ghost predicate ChangesOnlyIn(mem: Memory, mem': Memory, s: seq<Span>) {
    |mem'| == |mem| && forall w | 0 <= w < |mem| && mem'[w] != mem[w] :: Has(s, 8 * w)
  }

  /** A header write stays inside the block it describes. */
  lemma PutInside(mem: Memory, mem': Memory, s: seq<Span>, b: Span, size: int, next: int)
    requires b in s && Sound(b, 8 * |mem|) && ChangesOnlyIn(mem, mem', s)
    ensures ChangesOnlyIn(mem, Put(mem', b.lo, size, next), s)
  {
    var i :| 0 <= i < |s| && s[i] == b;
    assert In(s[i], b.lo) && In(s[i], b.lo + 8);
  }

  lemma AttachInside(mem: Memory, mem': Memory, s: seq<Span>, pre: seq<Span>, next: int)
    requires AllSound(pre, 8 * |mem'|) && ChangesOnlyIn(mem, mem', s)
    requires forall b | b in pre :: b in s
    ensures ChangesOnlyIn(mem, Attach(mem', pre, next), s)
  {
    if pre != [] {
      var z := pre[|pre| - 1];
      PutInside(mem, mem', s, z, z.hi - z.lo, next);
    }
  }

  // ---------------------------------------------------------- taking from a hole

  /** [lo, hi) can be taken out of `hole`. */
  ghost predicate Takes(hole: Span, lo: int, hi: int) {
    && hole.lo <= lo < hi <= hole.hi && lo % 8 == 0 && hi % 8 == 0
    && Usable(lo - hole.lo) && Usable(hole.hi - hi)
  }

  ghost predicate Takeable(s: seq<Span>, i: nat, lo: int, hi: int) {
    i < |s| && Takes(s[i], lo, hi)
  }

  /** Memory with the headers of the remnants of `hole` written. */
  function RemnantMem(mem: Memory, hole: Span, next: int, lo: int, hi: int): Memory
    requires Sound(hole, 8 * |mem|) && Takes(hole, lo, hi)
  {
    var mem1 := if hi < hole.hi then Put(mem, hi, hole.hi - hi, next) else mem;
    if hole.lo < lo then Put(mem1, hole.lo, lo - hole.lo, if hi < hole.hi then hi else next) else mem1
  }

  lemma RemnantsLinked(mem: Memory, hole: Span, next: int, lo: int, hi: int)
    requires Sound(hole, 8 * |mem|) && Takes(hole, lo, hi)
    ensures AllSound(Remnants(hole, lo, hi), 8 * |mem|)
    ensures Linked(RemnantMem(mem, hole, next, lo, hi), Remnants(hole, lo, hi), next)
    ensures ChangesOnlyIn(mem, RemnantMem(mem, hole, next, lo, hi), Remnants(hole, lo, hi))
  {
    var r := Remnants(hole, lo, hi);
    var mem1 := if hi < hole.hi then Put(mem, hi, hole.hi - hi, next) else mem;
    if hi < hole.hi {
      assert r[|r| - 1] == Span(hi, hole.hi);
      PutInside(mem, mem, r, Span(hi, hole.hi), hole.hi - hi, next);
    }
    if hole.lo < lo {
      assert r[0] == Span(hole.lo, lo);
      PutInside(mem, mem1, r, Span(hole.lo, lo), lo - hole.lo, if hi < hole.hi then hi else next);
    }
  }

  lemma RemnantsFrame(mem: Memory, hole: Span, next: int, lo: int, hi: int, s: seq<Span>, last: int)
    requires Sound(hole, 8 * |mem|) && Takes(hole, lo, hi)
    requires AllSound(s, 8 * |mem|) && Linked(mem, s, last)
    requires forall i | 0 <= i < |s| :: s[i].hi <= hole.lo || hole.hi <= s[i].lo
    ensures Linked(RemnantMem(mem, hole, next, lo, hi), s, last)
  {
    var mem1 := if hi < hole.hi then Put(mem, hi, hole.hi - hi, next) else mem;
    if hi < hole.hi {
      LinkedPut(mem, s, last, hi, hole.hi - hi, next);
    }
    if hole.lo < lo {
      LinkedPut(mem1, s, last, hole.lo, lo - hole.lo, if hi < hole.hi then hi else next);
    }
  }

  /** What `alloc` leaves in memory when it takes [lo, hi) out of hole `i`. */
  function CarveMem(mem: Memory, s: seq<Span>, i: nat, lo: int, hi: int): Memory
    requires AllSound(s, 8 * |mem|) && Takeable(s, i, lo, hi)
  {
    var post := s[i + 1..];
    assert Sound(s[i], 8 * |mem|);
    assert AllSound(post, 8 * |mem|);
    var next := FirstOff(post, NIL);
    RemnantsLinked(mem, s[i], next, lo, hi);
    var mem' := RemnantMem(mem, s[i], next, lo, hi);
    Attach(mem', s[..i], FirstOff(Remnants(s[i], lo, hi), next))
  }

  lemma CarveLinked(mem: Memory, s: seq<Span>, i: nat, lo: int, hi: int)
    requires AllSound(s, 8 * |mem|) && Canonical(s) && Linked(mem, s, NIL) && Takeable(s, i, lo, hi)
    ensures AllSound(Carve(s, i, lo, hi), 8 * |mem|) && Canonical(Carve(s, i, lo, hi))
    ensures Linked(CarveMem(mem, s, i, lo, hi), Carve(s, i, lo, hi), NIL)
    ensures ChangesOnlyIn(mem, CarveMem(mem, s, i, lo, hi), Carve(s, i, lo, hi))
  {
    var pre, hole, post := s[..i], s[i], s[i + 1..];
    var next := FirstOff(post, NIL);
    var mid := Remnants(hole, lo, hi);
    var mem' := RemnantMem(mem, hole, next, lo, hi);
    assert s == pre + ([hole] + post);
    assert [hole] + post == s[i..];
    LinkedConcat(mem, pre, [hole] + post, NIL);
    LinkedConcat(mem, [hole], post, NIL);
    RemnantsLinked(mem, hole, next, lo, hi);
    RemnantsFrame(mem, hole, next, lo, hi, pre, hole.lo);
    RemnantsFrame(mem, hole, next, lo, hi, post, NIL);
    CarveRemoves(s, i, lo, hi);
    CarveSound(s, i, lo, hi, 8 * |mem|);
    Assemble(mem', pre, hole.lo, mid, post);
    assert FirstOff(mid + post, NIL) == FirstOff(mid, next);
    var c := Carve(s, i, lo, hi);
    assert ChangesOnlyIn(mem, mem', c) by {
      forall x | Has(mid, x) ensures Has(c, x) { HasThree(pre, mid, post, x); }
    }
    assert forall b | b in pre :: b in c;
    AttachInside(mem, mem', c, pre, FirstOff(mid + post, NIL));
  }

  lemma CarveSound(s: seq<Span>, i: nat, lo: int, hi: int, size: nat)
    requires AllSound(s, size) && Takeable(s, i, lo, hi)
    ensures AllSound(Carve(s, i, lo, hi), size)
  {
    var c := Carve(s, i, lo, hi);
    assert Sound(s[i], size);
    forall k | 0 <= k < |c| ensures Sound(c[k], size) {
      assert c[k] in s[..i] || c[k] in Remnants(s[i], lo, hi) || c[k] in s[i + 1..];
    }
  }

  // ------------------------------------------------------------- giving back

  /** [lo, hi) lies between the blocks before `p` and the blocks from `p` on. */
  ghost predicate Between(s: seq<Span>, p: nat, lo: int, hi: int) {
    && p <= |s|
    && (forall i | 0 <= i < p :: s[i].hi <= lo)
    && (forall i | p <= i < |s| :: hi <= s[i].lo)
  }

  /** What `insert_free` leaves in memory when it gives [lo, hi) back before block `p`. */
  function InsertMem(mem: Memory, s: seq<Span>, p: nat, lo: int, hi: int): (r: Memory)
    requires AllSound(s, 8 * |mem|) && Sound(Span(lo, hi), 8 * |mem|)
    requires Between(s, p, lo, hi)
    ensures |r| == |mem|
  {
    var m := Merged(s, p, lo, hi);
    MergedSound(s, p, lo, hi, 8 * |mem|);
    var mem' := Put(mem, m.lo, m.hi - m.lo, FirstOff(s[Last(s, p, hi)..], NIL));
    Attach(mem', s[..First(s, p, lo)], m.lo)
  }

  lemma MergedSound(s: seq<Span>, p: nat, lo: int, hi: int, size: nat)
    requires AllSound(s, size) && Sound(Span(lo, hi), size)
    requires Between(s, p, lo, hi)
    ensures Sound(Merged(s, p, lo, hi), size)
    ensures AllSound(s[..First(s, p, lo)], size) && AllSound(s[Last(s, p, hi)..], size)
    ensures 0 <= FirstOff(s[Last(s, p, hi)..], NIL) <= Max(size, NIL)
  {
    assert p > 0 ==> Sound(s[p - 1], size);
    assert p < |s| ==> Sound(s[p], size);
  }

  lemma InsertLinked(mem: Memory, s: seq<Span>, p: nat, lo: int, hi: int)
    requires AllSound(s, 8 * |mem|) && Canonical(s) && Linked(mem, s, NIL)
    requires Sound(Span(lo, hi), 8 * |mem|)
    requires Between(s, p, lo, hi)
    ensures AllSound(Insert(s, p, lo, hi), 8 * |mem|)
    ensures Linked(InsertMem(mem, s, p, lo, hi), Insert(s, p, lo, hi), NIL)
    ensures ChangesOnlyIn(mem, InsertMem(mem, s, p, lo, hi), Insert(s, p, lo, hi))
  {
    MergedSound(s, p, lo, hi, 8 * |mem|);
    InsertAdds(s, p, lo, hi);
    var a, b, m := First(s, p, lo), Last(s, p, hi), Merged(s, p, lo, hi);
    LinkedParts(mem, s, a);
    LinkedParts(mem, s, b);
    SpliceLinked(mem, s[..a], FirstOff(s[a..], NIL), m, s[b..]);
  }

  lemma LinkedParts(mem: Memory, s: seq<Span>, i: nat)
    requires AllSound(s, 8 * |mem|) && Linked(mem, s, NIL) && i <= |s|
    ensures AllSound(s[..i], 8 * |mem|) && AllSound(s[i..], 8 * |mem|)
    ensures Linked(mem, s[..i], FirstOff(s[i..], NIL)) && Linked(mem, s[i..], NIL)
  {
    assert s == s[..i] + s[i..];
    LinkedConcat(mem, s[..i], s[i..], NIL);
  }

  /** Writing one block between the blocks `pre` and `post`. */
  lemma SpliceLinked(mem: Memory, pre: seq<Span>, old_: int, m: Span, post: seq<Span>)
    requires AllSound(pre, 8 * |mem|) && AllSound(post, 8 * |mem|) && Sound(m, 8 * |mem|)
    requires Canonical(pre + [m] + post)
    requires Linked(mem, pre, old_) && Linked(mem, post, NIL)
    ensures AllSound(pre + [m] + post, 8 * |mem|)
    ensures var mem' := Attach(Put(mem, m.lo, m.hi - m.lo, FirstOff(post, NIL)), pre, m.lo);
            Linked(mem', pre + [m] + post, NIL) && ChangesOnlyIn(mem, mem', pre + [m] + post)
  {
    var next := FirstOff(post, NIL);
    var c := pre + [m] + post;
    CanonicalConcat(pre + [m], post);
    CanonicalConcat(pre, [m]);
    assert (pre + [m])[|pre|] == m;
    var mem1 := Put(mem, m.lo, m.hi - m.lo, next);
    LinkedPut(mem, pre, old_, m.lo, m.hi - m.lo, next);
    LinkedPut(mem, post, NIL, m.lo, m.hi - m.lo, next);
    assert NodeAt(mem1, [m], 0, next);
    forall k | 0 <= k < |c| ensures Sound(c[k], 8 * |mem|) {
      assert c[k] in pre || c[k] == m || c[k] in post;
    }
    Assemble(mem1, pre, old_, [m], post);
    assert FirstOff([m] + post, NIL) == m.lo;
    assert c[|pre|] == m;
    PutInside(mem, mem, c, m, m.hi - m.lo, next);
    AttachInside(mem, mem1, c, pre, m.lo);
  }

  // ------------------------------------------------------------------- the heap

  /** `x` is a byte of an allocation; `live` maps offsets to block sizes. */
  ghost predicate InLive(live: map<int, int>, x: int) {
    exists o :: o in live && In(Span(o, o + live[o]), x)
  }

  /** Free blocks and allocations tile the arena: allocations do not overlap, and a byte
      is free exactly when no allocation has it. */
  ghost predicate Tiles(free: seq<Span>, live: map<int, int>, size: nat) {
    && (forall o | o in live :: Sound(Span(o, o + live[o]), size))
    && (forall o, q | o in live && q in live && o < q :: o + live[o] <= q)
    && (forall x | 0 <= x < size :: Has(free, x) <==> !InLive(live, x))
  }

  /** The allocator's state together with what it has handed out. */
  datatype Heap = Heap(base: nat, size: nat, head: int, mem: Memory, free: seq<Span>, live: map<int, int>)

  ghost predicate Inv(h: Heap) {
    && h.base % 8 == 0 && h.size == 8 * |h.mem| && MIN_BLOCK <= h.size <= NIL
    && Canonical(h.free) && AllSound(h.free, h.size) && Linked(h.mem, h.free, NIL)
    && h.head == FirstOff(h.free, NIL)
    && Tiles(h.free, h.live, h.size)
  }

  lemma CarveTiles(free: seq<Span>, live: map<int, int>, size: nat, i: nat, at: nat, need: nat)
    requires Canonical(free) && AllSound(free, size) && Tiles(free, live, size)
    requires Takeable(free, i, at, at + need) && need >= MIN_BLOCK
    ensures at !in live
    ensures Tiles(Carve(free, i, at, at + need), live[at := need], size)
  {
    CarveRemoves(free, i, at, at + need);
    assert Sound(free[i], size);
    forall x | at <= x < at + need ensures !InLive(live, x) {
      assert In(free[i], x);
      assert Has(free, x);
    }
    hide Canonical, AllSound, Has, Carve;
    assert at !in live by {
      assert !InLive(live, at);
      assert at in live ==> In(Span(at, at + live[at]), at);
    }
    forall q | q in live ensures q + live[q] <= at || at + need <= q {
      ApartFrom(live, size, at, need, q);
    }
    var free', live' := Carve(free, i, at, at + need), live[at := need];
    forall x | 0 <= x < size ensures Has(free', x) <==> !InLive(live', x) {
      LiveWith(live, at, need, x);
    }
  }

  lemma ApartFrom(live: map<int, int>, size: nat, at: nat, need: nat, q: int)
    requires q in live && Sound(Span(q, q + live[q]), size) && need > 0
    requires forall x | at <= x < at + need :: !InLive(live, x)
    ensures q + live[q] <= at || at + need <= q
  {
    assert !InLive(live, at) && !In(Span(q, q + live[q]), at);
    assert In(Span(q, q + live[q]), q) && InLive(live, q);
  }

  lemma LiveWith(live: map<int, int>, at: int, need: int, x: int)
    requires at !in live
    ensures InLive(live[at := need], x) <==> InLive(live, x) || at <= x < at + need
  {
    var live' := live[at := need];
    if InLive(live, x) {
      var o :| o in live && In(Span(o, o + live[o]), x);
      assert o in live' && live'[o] == live[o];
    }
    if at <= x < at + need { assert at in live' && In(Span(at, at + live'[at]), x); }
  }

  /** Where an allocation sits among the free blocks. */
  lemma LiveBetween(free: seq<Span>, live: map<int, int>, size: nat, off: nat, i: nat)
    requires AllSound(free, size) && Tiles(free, live, size) && off in live && i < |free|
    ensures free[i].lo < off ==> free[i].hi <= off
    ensures free[i].lo >= off ==> free[i].lo >= off + live[off]
  {
    assert Sound(free[i], size) && Sound(Span(off, off + live[off]), size);
    assert In(Span(off, off + live[off]), off) && InLive(live, off);
    assert !In(free[i], off);
    assert In(free[i], free[i].lo) && Has(free, free[i].lo);
    assert !In(Span(off, off + live[off]), free[i].lo);
  }

  lemma InsertTiles(free: seq<Span>, live: map<int, int>, size: nat, p: nat, off: nat)
    requires Canonical(free) && AllSound(free, size) && Tiles(free, live, size)
    requires off in live && Between(free, p, off, off + live[off])
    ensures Tiles(Insert(free, p, off, off + live[off]), live - {off}, size)
  {
    var end := off + live[off];
    assert Sound(Span(off, end), size);
    InsertAdds(free, p, off, end);
    forall x | 0 <= x < size
      ensures Has(Insert(free, p, off, end), x) <==> !InLive(live - {off}, x)
    {
      LiveWithout(live, off, x);
    }
  }

  lemma LiveWithout(live: map<int, int>, off: nat, x: int)
    requires off in live
    requires forall o, q | o in live && q in live && o < q :: o + live[o] <= q
    ensures InLive(live - {off}, x) <==> InLive(live, x) && !In(Span(off, off + live[off]), x)
  {
    var live' := live - {off};
    if InLive(live, x) && !In(Span(off, off + live[off]), x) {
      var o :| o in live && In(Span(o, o + live[o]), x);
      assert o in live' && live'[o] == live[o];
    }
    if InLive(live', x) {
      var o :| o in live' && In(Span(o, o + live'[o]), x);
      assert o in live && live[o] == live'[o];
    }
  }
}

/** The first-fit free-list allocator of src/mem/alloc.rs, and what holds over every run of
    allocations, releases and writes by the owners of the blocks. */
module Allocator {
  import opened Wire
  import opened Spans
  import opened HeapModel

  /** The block asked for can go to offset `at` of `hole`: at an address that has the alignment
      asked for and is a multiple of 8, inside the hole, and leaving nothing or at least 16
      bytes on either side. */
  ghost predicate Suits(hole: Span, base: nat, at: int, layout: Layout) {
    && hole.lo <= at && at + BlockSizeFor(layout) <= hole.hi
    && (base + at) % layout.Align() == 0 && (base + at) % 8 == 0
    && (at == hole.lo || at - hole.lo >= 16)
    && (at + BlockSizeFor(layout) == hole.hi || hole.hi - (at + BlockSizeFor(layout)) >= 16)
  }

  /** A hole of `h` has a placement for the request at offset `at`. */
  ghost predicate Placeable(h: Heap, layout: Layout, at: int) {
    exists i :: 0 <= i < |h.free| && Suits(h.free[i], h.base, at, layout)
  }

  /** The placements are those that fit the normalised request. */
  lemma SuitsIsFits(hole: Span, base: nat, at: int, layout: Layout)
    requires hole.lo >= 0
    ensures Suits(hole, base, at, layout) <==> Fits(hole, base, at, BlockSizeFor(layout), AlignFor(layout))
  {
    if hole.lo <= at {
      AlignedExactly(layout, base + at);
    }
  }

  /** `alloc` from `h`: the lowest placement there is, or null when there is none. */
  ghost predicate Allocates(h: Heap, layout: Layout, r: Option<int>, h': Heap) {
    match r
    case None => h' == h && forall at :: !Placeable(h, layout, at)
    case Some(addr) =>
      && addr >= h.base && var at := addr - h.base;
      && Placeable(h, layout, at) && addr % layout.Align() == 0
      && (forall x | Placeable(h, layout, x) :: at <= x)
      && at !in h.live
      && h' == h'.(base := h.base, size := h.size, live := h.live[at := BlockSizeFor(layout)])
      && ChangesOnlyIn(h.mem, h'.mem, h'.free)
  }

  /** `dealloc` of the allocation at `off`. */
  ghost predicate Releases(h: Heap, off: nat, h': Heap) {
    && h' == h'.(base := h.base, size := h.size, live := h.live - {off})
    && ChangesOnlyIn(h.mem, h'.mem, h'.free)
  }

  class FreeList {
    const base: nat
    const size: nat
    const cells: array<int>
    var head: int
    /** The abstract state: the blocks that memory spells out, and what is handed out. */
    ghost var heap: Heap

    ghost predicate Valid()
      reads this, cells
    {
      && Inv(heap) && heap.base == base && heap.size == size
      && heap.mem == cells[..] && heap.head == head
    }

    /** The region [raw, raw + bytes) is aligned and trimmed to whole cells, which are
        `arena`, and becomes one free block. */
    constructor (raw: nat, bytes: nat, arena: array<int>)
      requires AlignUp(raw, ALIGN) - raw <= bytes
      requires arena.Length == (bytes - (AlignUp(raw, ALIGN) - raw)) / ALIGN
      requires MIN_BLOCK <= 8 * arena.Length <= NIL
      modifies arena
      ensures Valid() && cells == arena
      ensures raw <= base && base + size <= raw + bytes < base + size + ALIGN
      ensures heap.live == map[] && heap.free == [Span(0, size)]
    {
      base := AlignUp(raw, ALIGN);
      size := 8 * arena.Length;
      cells := arena;
      head := 0;
      new;
      WriteEntry(0, size, NIL);
      heap := Heap(base, size, 0, cells[..], [Span(0, size)], map[]);
      assert NodeAt(cells[..], heap.free, 0, NIL);
      forall x | 0 <= x < size ensures Has(heap.free, x) { HasOne(Span(0, size), x); }
    }

    function EntrySize(off: nat): int
      reads this, cells
      requires off / 8 + 1 < cells.Length
    {
      cells[off / 8]
    }

    function EntryNext(off: nat): int
      reads this, cells
      requires off / 8 + 1 < cells.Length
    {
      cells[off / 8 + 1]
    }

    method WriteEntry(off: nat, size: int, next: int)
      requires off / 8 + 1 < cells.Length
      modifies cells
      ensures cells[..] == Put(old(cells[..]), off, size, next)
    {
      cells[off / 8], cells[off / 8 + 1] := size, next;
    }

    method SetSize(off: nat, size: int)
      requires off / 8 + 1 < cells.Length
      modifies cells
      ensures cells[..] == Put(old(cells[..]), off, size, old(EntryNext(off)))
    {
      cells[off / 8] := size;
    }

    method SetNext(off: nat, next: int)
      requires off / 8 + 1 < cells.Length
      modifies cells
      ensures cells[..] == Put(old(cells[..]), off, old(EntrySize(off)), next)
    {
      cells[off / 8 + 1] := next;
    }

    /** Write the headers of the front and back remnants of a hole around [at, end). */
    method WriteRemnants(cur: nat, next: int, at: nat, end: nat, holeEnd: nat) returns (segHead: int)
      requires Sound(Span(cur, holeEnd), 8 * cells.Length) && Takes(Span(cur, holeEnd), at, end)
      modifies cells
      ensures cells[..] == RemnantMem(old(cells[..]), Span(cur, holeEnd), next, at, end)
      ensures segHead == FirstOff(Remnants(Span(cur, holeEnd), at, end), next)
    {
      var front, back := at - cur, holeEnd - end;
      var backOff := next;
      if back >= MIN_BLOCK {
        WriteEntry(end, back, next);
        backOff := end;
      }
      segHead := backOff;
      if front >= MIN_BLOCK {
        WriteEntry(cur, front, backOff);
        segHead := cur;
      }
    }

    /** Replace hole `i` by its remnants around [at, end). */
    method Split(prev: int, cur: nat, next: int, at: nat, end: nat, holeEnd: nat, ghost i: nat)
      requires Valid()
      requires i < |heap.free| && heap.free[i] == Span(cur, holeEnd) && Takeable(heap.free, i, at, end)
      requires prev == (if i == 0 then NIL else heap.free[i - 1].lo)
      requires next == FirstOff(heap.free[i + 1..], NIL)
      modifies this`head, cells
      ensures cells[..] == CarveMem(heap.mem, heap.free, i, at, end)
      ensures head == FirstOff(Carve(heap.free, i, at, end), NIL)
    {
      ghost var free := heap.free;
      assert Sound(free[i], size) && (i > 0 ==> Sound(free[i - 1], size));
      var segHead := WriteRemnants(cur, next, at, end, holeEnd);
      if prev == NIL {
        head := segHead;
      } else {
        PrevKeepsSize(heap.mem, free, i, next, at, end);
        SetNext(prev, segHead);
      }
      CarveHead(free, i, at, end);
    }

    /** The scan of `alloc`: the first hole whose candidate placement fits. */
    method Scan(need: nat, align: nat)
      returns (found: bool, prev: int, cur: int, next: int, at: int, holeEnd: int, ghost i: nat)
      requires Valid() && GoodAlign(align) && need % 8 == 0 && need >= MIN_BLOCK
      ensures i <= |heap.free| && NoneBefore(heap, i, need, align)
      ensures !found ==> i == |heap.free|
      ensures found ==> i < |heap.free| && heap.free[i] == Span(cur, holeEnd)
      ensures found ==> 0 <= cur <= at && at + need <= holeEnd && at == Candidate(base, cur, align)
      ensures found ==> Takeable(heap.free, i, at, at + need) && Fits(heap.free[i], base, at, need, align)
      ensures found ==> prev == (if i == 0 then NIL else heap.free[i - 1].lo)
                        && next == FirstOff(heap.free[i + 1..], NIL)
    {
      hide Inv, Fits, Candidate, Takeable, GoodAlign, NoneBefore;
      prev, cur, next, at, holeEnd := NIL, head, NIL, 0, 0;
      ListStarts(heap);
      ScanStart(heap, need, align);
      i := 0;
      while cur != NIL
        invariant i <= |heap.free|
        invariant cur == FirstOff(heap.free[i..], NIL)
        invariant prev == if i == 0 then NIL else heap.free[i - 1].lo
        invariant NoneBefore(heap, i, need, align)
        decreases |heap.free| - i
      {
        HoleAt(heap, i);
        holeEnd := cur + EntrySize(cur);
        next := EntryNext(cur);
        at := Candidate(base, cur, align);
        TryHole(heap, i, need, align);
        var allocEnd := at + need;
        if allocEnd <= holeEnd {
          var back := holeEnd - allocEnd;
          if back == 0 || back >= MIN_BLOCK {
            found := true;
            return;
          }
        }
        prev, cur := cur, next;
        i := i + 1;
      }
      ListEnds(heap, i);
      found := false;
    }

    method Alloc(layout: Layout) returns (r: Option<int>)
      requires Valid()
      modifies this, cells
      ensures Valid() && AllocStep(old(heap), layout, r, heap) && Allocates(old(heap), layout, r, heap)
    {
      hide Inv, Allocates, Fits, Candidate, NoneBefore, CarveMem, Carve, Takeable, GoodAlign, AlignFor, AllSound;
      var align, need := AlignFor(layout), BlockSizeFor(layout);
      AlignForGood(layout);
      var found, prev, cur, next, at, holeEnd, i := Scan(need, align);
      if !found {
        NothingFits(heap, layout);
        return None;
      }
      InvSound(heap);
      AllocCorrect(heap, i, at, layout);
      Split(prev, cur, next, at, at + need, holeEnd, i);
      heap := After(heap, i, at, need);
      r := Some(base + at);
      assert TakesHole(old(heap), layout, i, base + at, heap);
    }

    /** Total free bytes: the sum over the list. */
    method FreeBytes() returns (total: int)
      requires Valid()
      ensures total == Total(heap.free)
    {
      total := 0;
      var cur := head;
      ghost var i: nat := 0;
      assert heap.free[0..] == heap.free;
      while cur != NIL
        invariant i <= |heap.free| && cur == FirstOff(heap.free[i..], NIL)
        invariant total + Total(heap.free[i..]) == Total(heap.free)
        decreases |heap.free| - i
      {
        HoleAt(heap, i);
        total := total + EntrySize(cur);
        cur := EntryNext(cur);
        assert heap.free[i..][1..] == heap.free[i + 1..];
        i := i + 1;
      }
      ListEnds(heap, i);
    }

    /** Extend the block `prev`, which ends at `off`, and maybe swallow `cur` too. */
    method Extend(prev: nat, cur: int, off: nat, size: nat, ghost p: nat)
      requires Valid() && Between(heap.free, p, off, off + size) && Sound(Span(off, off + size), heap.size)
      requires p > 0 && heap.free[p - 1] == Span(prev, off) && cur == FirstOff(heap.free[p..], NIL)
      modifies cells
      ensures cells[..] == InsertMem(heap.mem, heap.free, p, off, off + size)
      ensures head == FirstOff(Insert(heap.free, p, off, off + size), NIL)
    {
      hide Inv, InsertMem, Insert, Between, AllSound;
      Neighbours(heap, p, off, size);
      InsertLeft(heap, p, off, off + size);
      SetSize(prev, EntrySize(prev) + size);
      if cur != NIL && prev + EntrySize(prev) == cur {
        SetSize(prev, EntrySize(prev) + EntrySize(cur));
        SetNext(prev, EntryNext(cur));
      }
    }

    /** Link a new block at `off` behind `prev`, and maybe swallow `cur`. */
    method LinkIn(prev: int, cur: int, off: nat, size: nat, ghost p: nat)
      requires Valid() && Between(heap.free, p, off, off + size) && Sound(Span(off, off + size), heap.size)
      requires prev == (if p == 0 then NIL else heap.free[p - 1].lo) && cur == FirstOff(heap.free[p..], NIL)
      requires p > 0 ==> heap.free[p - 1].hi != off
      modifies this`head, cells
      ensures cells[..] == InsertMem(heap.mem, heap.free, p, off, off + size)
      ensures head == FirstOff(Insert(heap.free, p, off, off + size), NIL)
    {
      hide Inv, InsertMem, Insert, Between, AllSound;
      Neighbours(heap, p, off, size);
      InsertFresh(heap, p, off, off + size);
      var newSize, newNext := size, cur;
      if cur != NIL && off + size == cur {
        newSize := newSize + EntrySize(cur);
        newNext := EntryNext(cur);
      }
      WriteEntry(off, newSize, newNext);
      if prev == NIL {
        head := off;
      } else {
        SetNext(prev, off);
      }
    }

    /** Where the block at `off` belongs in the address-sorted list. */
    method FindPlace(off: nat) returns (prev: int, cur: int, ghost p: nat)
      requires Valid() && off in heap.live
      ensures Between(heap.free, p, off, off + heap.live[off])
      ensures Sound(Span(off, off + heap.live[off]), heap.size)
      ensures prev == (if p == 0 then NIL else heap.free[p - 1].lo) && cur == FirstOff(heap.free[p..], NIL)
      ensures forall i | 0 <= i < |heap.free| ::
                if heap.free[i].lo < off then heap.free[i].lo <= prev < off else off < cur <= heap.free[i].lo
    {
      hide Inv, Between, Sound, Linked;
      ListStarts(heap);
      prev, cur, p := NIL, head, 0;
      while cur != NIL && cur < off
        invariant p <= |heap.free| && cur == FirstOff(heap.free[p..], NIL)
        invariant prev == if p == 0 then NIL else heap.free[p - 1].lo
        invariant forall i | 0 <= i < p :: heap.free[i].lo < off
        decreases |heap.free| - p
      {
        HoleAt(heap, p);
        prev, cur := cur, EntryNext(cur);
        p := p + 1;
      }
      PlaceOf(heap, p, off);
      AroundPlace(heap, p, off);
    }

    /** Insert [off, off + size) into the list, merging it with the blocks it touches. */
    method InsertFree(off: nat, size: nat)
      requires Valid() && off in heap.live && heap.live[off] == size
      modifies this, cells
      ensures Valid() && ReleaseStep(old(heap), off, heap) && Releases(old(heap), off, heap)
    {
      hide Inv, Insert, InsertMem, Between, Releases, NodeAt, AllSound;
      var prev, cur, p := FindPlace(off);
      InvSound(heap);
      ReleaseCorrect(heap, p, off);
      Neighbours(heap, p, off, size);
      if prev != NIL && prev + EntrySize(prev) == off {
        Extend(prev, cur, off, size, p);
      } else {
        LinkIn(prev, cur, off, size, p);
      }
      heap := Released(heap, p, off);
      assert GivesBack(old(heap), off, p, heap);
    }

    method Dealloc(ptr: nat, layout: Layout)
      requires Valid() && ptr >= base && ptr - base in heap.live
      requires heap.live[ptr - base] == BlockSizeFor(layout)
      modifies this, cells
      ensures Valid() && ReleaseStep(old(heap), ptr - base, heap) && Releases(old(heap), ptr - base, heap)
    {
      InsertFree(ptr - base, BlockSizeFor(layout));
    }
  }

  /** No placement in the first `i` holes. */
  ghost predicate NoneBefore(h: Heap, i: nat, need: nat, align: nat)
    requires align > 0
  {
    forall k, at | 0 <= k < i && k < |h.free| :: !Fits(h.free[k], h.base, at, need, align)
  }

  lemma ScanStart(h: Heap, need: nat, align: nat)
    requires GoodAlign(align)
    ensures align > 0 && NoneBefore(h, 0, need, align)
  {
  }

  lemma ListStarts(h: Heap)
    requires Inv(h)
    ensures h.head == FirstOff(h.free[0..], NIL)
  {
    assert h.free[0..] == h.free;
  }

  /** What the loop of `alloc` reads at hole `i`. */
  lemma HoleAt(h: Heap, i: nat)
    requires Inv(h) && i <= |h.free| && FirstOff(h.free[i..], NIL) != NIL
    ensures i < |h.free| && Sound(h.free[i], h.size)
    ensures h.free[i].lo / 8 + 1 < |h.mem|
    ensures h.free[i].lo + h.mem[h.free[i].lo / 8] == h.free[i].hi
    ensures h.mem[h.free[i].lo / 8 + 1] == FirstOff(h.free[i + 1..], NIL)
  {
    assert NodeAt(h.mem, h.free, i, NIL);
  }

  lemma FitsTakes(hole: Span, base: nat, at: nat, need: nat, align: nat, size: nat)
    requires base % 8 == 0 && GoodAlign(align) && need % 8 == 0 && need >= MIN_BLOCK && Sound(hole, size)
    requires Fits(hole, base, at, need, align)
    ensures Takes(hole, at, at + need)
  {
    MultipleOfEight(base + at, align);
    hide Fits, GoodAlign;
    assert at % 8 == 0 by { EightRest(base, at); }
    assert (at + need) % 8 == 0;
  }

  lemma EightRest(a: nat, b: nat)
    requires a % 8 == 0 && (a + b) % 8 == 0
    ensures b % 8 == 0
  {
  }

  /** Looking at the candidate of hole `i` settles the hole. */
  lemma TryHole(h: Heap, i: nat, need: nat, align: nat)
    requires Inv(h) && i < |h.free| && GoodAlign(align) && need % 8 == 0 && need >= MIN_BLOCK
    requires Sound(h.free[i], h.size)
    requires NoneBefore(h, i, need, align)
    ensures
      var at := Candidate(h.base, h.free[i].lo, align);
      if at + need <= h.free[i].hi && Usable(h.free[i].hi - (at + need))
      then Fits(h.free[i], h.base, at, need, align) && Takeable(h.free, i, at, at + need)
      else NoneBefore(h, i + 1, need, align)
  {
    var hole := h.free[i];
    var at := Candidate(h.base, hole.lo, align);
    if Fits(hole, h.base, at, need, align) {
      FitsTakes(hole, h.base, at, need, align, h.size);
    } else {
      forall x ensures !Fits(hole, h.base, x, need, align) {
        if Fits(hole, h.base, x, need, align) {
          CandidateIsLowest(hole, h.base, x, need, align);
        }
      }
    }
  }

  /** Writing the remnants leaves the header of the block before the hole alone. */
  lemma PrevKeepsSize(mem: Memory, s: seq<Span>, i: nat, next: int, lo: int, hi: int)
    requires AllSound(s, 8 * |mem|) && Canonical(s) && Linked(mem, s, NIL) && Takeable(s, i, lo, hi) && i > 0
    requires Sound(s[i], 8 * |mem|) && Sound(s[i - 1], 8 * |mem|)
    ensures RemnantMem(mem, s[i], next, lo, hi)[s[i - 1].lo / 8] == s[i - 1].hi - s[i - 1].lo
  {
    assert NodeAt(mem, s, i - 1, NIL);
  }

  /** The heap after [at, at + need) is taken out of hole `i`. */
  ghost function After(h: Heap, i: nat, at: nat, need: nat): Heap
    requires AllSound(h.free, 8 * |h.mem|) && Takeable(h.free, i, at, at + need)
  {
    var free := Carve(h.free, i, at, at + need);
    h.(head := FirstOff(free, NIL), mem := CarveMem(h.mem, h.free, i, at, at + need),
       free := free, live := h.live[at := need])
  }

  lemma AllocInv(h: Heap, i: nat, at: nat, need: nat)
    requires Inv(h) && Takeable(h.free, i, at, at + need) && need >= MIN_BLOCK
    ensures Inv(After(h, i, at, need))
    ensures ChangesOnlyIn(h.mem, After(h, i, at, need).mem, After(h, i, at, need).free)
    ensures at !in h.live
  {
    hide Carve, CarveMem, Canonical, Linked, Tiles, AllSound, ChangesOnlyIn, Takeable;
    AllocTiles(h, i, at, need);
    CarveLinked(h.mem, h.free, i, at, at + need);
  }

  lemma AllocTiles(h: Heap, i: nat, at: nat, need: nat)
    requires Inv(h) && Takeable(h.free, i, at, at + need) && need >= MIN_BLOCK
    ensures var h' := After(h, i, at, need); Tiles(h'.free, h'.live, h'.size)
    ensures at !in h.live
  {
    CarveTiles(h.free, h.live, h.size, i, at, need);
  }

  lemma NothingFits(h: Heap, layout: Layout)
    requires Inv(h) && NoneBefore(h, |h.free|, BlockSizeFor(layout), AlignFor(layout))
    ensures Allocates(h, layout, None, h)
  {
    forall at ensures !Placeable(h, layout, at) {
      forall i | 0 <= i < |h.free| ensures !Suits(h.free[i], h.base, at, layout) {
        assert Sound(h.free[i], h.size);
        SuitsIsFits(h.free[i], h.base, at, layout);
      }
    }
  }

  /** Taking the candidate of the first hole where it fits: the next abstract state. */
  lemma AllocCorrect(h: Heap, i: nat, at: nat, layout: Layout)
    requires Inv(h) && i < |h.free| && h.free[i].lo >= 0 && AllSound(h.free, 8 * |h.mem|)
    requires NoneBefore(h, i, BlockSizeFor(layout), AlignFor(layout))
    requires at == Candidate(h.base, h.free[i].lo, AlignFor(layout))
    requires Fits(h.free[i], h.base, at, BlockSizeFor(layout), AlignFor(layout))
    requires Takeable(h.free, i, at, at + BlockSizeFor(layout))
    ensures var h' := After(h, i, at, BlockSizeFor(layout));
            Inv(h') && Allocates(h, layout, Some(h.base + at), h')
  {
    hide CarveMem, Carve, Inv, Candidate, Fits, NoneBefore, Takeable, AlignFor, BlockSizeFor, Placeable, AllSound,
      ChangesOnlyIn, FirstOff;
    AllocInv(h, i, at, BlockSizeFor(layout));
    LowestPlacement(h, i, layout);
  }

  /** What the code does: nothing, if no candidate fits in any hole; or the candidate of the
      first hole where it does is taken out of that hole. */
  ghost predicate AllocStep(h: Heap, layout: Layout, r: Option<int>, h': Heap) {
    match r
    case None => h' == h && NoneBefore(h, |h.free|, BlockSizeFor(layout), AlignFor(layout))
    case Some(addr) => exists i :: TakesHole(h, layout, i, addr, h')
  }

  ghost predicate TakesHole(h: Heap, layout: Layout, i: nat, addr: int, h': Heap) {
    var need, align := BlockSizeFor(layout), AlignFor(layout);
    && i < |h.free| && h.free[i].lo >= 0 && AllSound(h.free, 8 * |h.mem|) && NoneBefore(h, i, need, align)
    && var at := Candidate(h.base, h.free[i].lo, align);
       && addr == h.base + at && Fits(h.free[i], h.base, at, need, align)
       && Takeable(h.free, i, at, at + need) && h' == After(h, i, at, need)
  }

  /** That is the lowest placement there is, and it keeps the heap in order. */
  lemma AllocSound(h: Heap, layout: Layout, r: Option<int>, h': Heap)
    requires Inv(h) && AllocStep(h, layout, r, h')
    ensures Inv(h') && Allocates(h, layout, r, h')
  {
    hide Inv, Allocates, Fits, Candidate, NoneBefore, Takeable, AllSound, After, AlignFor, BlockSizeFor;
    if r.None? {
      NothingFits(h, layout);
    } else {
      var i :| TakesHole(h, layout, i, r.value, h');
      AllocCorrect(h, i, r.value - h.base, layout);
    }
  }

  lemma InvSound(h: Heap)
    requires Inv(h)
    ensures AllSound(h.free, 8 * |h.mem|) && h.size == 8 * |h.mem|
  {
  }

  lemma CarveHead(s: seq<Span>, i: nat, lo: int, hi: int)
    requires i < |s|
    ensures i > 0 ==> FirstOff(Carve(s, i, lo, hi), NIL) == FirstOff(s, NIL)
    ensures i == 0 ==> FirstOff(Carve(s, i, lo, hi), NIL) == FirstOff(Remnants(s[0], lo, hi), FirstOff(s[1..], NIL))
  {
  }

  /** Taking the candidate of the first hole it fits in is taking the lowest placement. */
  lemma LowestPlacement(h: Heap, i: nat, layout: Layout)
    requires Inv(h) && i < |h.free| && h.free[i].lo >= 0
    requires NoneBefore(h, i, BlockSizeFor(layout), AlignFor(layout))
    requires var at := Candidate(h.base, h.free[i].lo, AlignFor(layout));
             Fits(h.free[i], h.base, at, BlockSizeFor(layout), AlignFor(layout))
    ensures var at := Candidate(h.base, h.free[i].lo, AlignFor(layout));
            && Placeable(h, layout, at) && (h.base + at) % layout.Align() == 0
            && forall x | Placeable(h, layout, x) :: at <= x
  {
    hide Suits, Fits, Candidate, BlockSizeFor;
    var align, need := AlignFor(layout), BlockSizeFor(layout);
    var at := Candidate(h.base, h.free[i].lo, align);
    AlignForGood(layout);
    assert Sound(h.free[i], h.size);
    SuitsIsFits(h.free[i], h.base, at, layout);
    SuitsAligned(h.free[i], h.base, at, layout);
    forall x | Placeable(h, layout, x) ensures at <= x {
      var k :| 0 <= k < |h.free| && Suits(h.free[k], h.base, x, layout);
      assert Sound(h.free[k], h.size);
      SuitsIsFits(h.free[k], h.base, x, layout);
      if k == i {
        CandidateIsLowest(h.free[i], h.base, x, need, align);
      } else {
        FitsInside(h.free[k], h.base, x, need, align);
        FitsInside(h.free[i], h.base, at, need, align);
      }
    }
  }

  lemma SuitsAligned(hole: Span, base: nat, at: int, layout: Layout)
    requires Suits(hole, base, at, layout)
    ensures (base + at) % layout.Align() == 0
  {
  }

  lemma FitsInside(hole: Span, base: nat, at: int, need: nat, align: nat)
    requires align > 0 && Fits(hole, base, at, need, align)
    ensures hole.lo <= at && at + need <= hole.hi
  {
  }

  // ------------------------------------------------------------------- 64 bits

  const HALF := 0x8000_0000_0000_0000
  const WORD := 0x1_0000_0000_0000_0000

  /** What Rust guarantees of any `Layout`: its size, rounded up to its alignment, fits an
      `isize`. */
  predicate RustLayout(layout: Layout) {
    layout.size + layout.Align() <= HALF
  }

  lemma {:induction false} PowersDivide(j: nat, k: nat)
    requires j <= k
    ensures Pow2(j) > 0 && Pow2(k) % Pow2(j) == 0 && Pow2(j) <= Pow2(k)
  {
    if j == k {
    } else {
      PowersDivide(j, k - 1);
      var m := Pow2(k - 1) / Pow2(j);
      assert Pow2(k) == 2 * (m * Pow2(j)) == (2 * m) * Pow2(j);
      MultipleOf(2 * m, Pow2(j));
    }
  }

  /** Half the address space is a multiple of every alignment a layout can have. */
  lemma AlignDividesHalf(layout: Layout)
    requires RustLayout(layout)
    ensures layout.Align() > 0 && HALF % layout.Align() == 0
  {
    PowerOf63();
    if layout.logAlign <= 63 {
      PowersDivide(layout.logAlign, 63);
    } else {
      assert Pow2(64) == 2 * Pow2(63);
      PowersDivide(64, layout.logAlign);
    }
  }

  lemma PowerOf63()
    ensures Pow2(63) == HALF
  {
    assert Pow2(10) == 0x400;
    assert Pow2(20) == 0x10_0000;
    assert Pow2(30) == 0x4000_0000;
    assert Pow2(40) == 0x100_0000_0000;
    assert Pow2(50) == 0x4_0000_0000_0000;
    assert Pow2(60) == 0x1000_0000_0000_0000;
  }

  /** The candidate in a hole below `HALF` lies at or below `HALF`. */
  lemma CandidateBelowHalf(base: nat, lo: nat, layout: Layout)
    requires RustLayout(layout) && base % 8 == 0 && lo % 8 == 0 && base + lo + MIN_BLOCK <= HALF
    ensures base + Candidate(base, lo, AlignFor(layout)) <= HALF
  {
    var align := AlignFor(layout);
    PowersAbove8(layout.logAlign);
    if align == 8 {
      CandidateAtStart(base, lo);
    } else {
      AlignDividesHalf(layout);
      var at := Candidate(base, lo, align);
      assert base + at < base + lo + MIN_BLOCK + align;
      MultiplesApart(HALF, base + at, align);
    }
  }

  /** In an arena in the lower half of the address space, no sum `alloc` computes for a hole
      wraps at 64 bits: those inside `align_up` and `block_size_for`, the hole's end, the end
      of the placement, and the address returned. */
  lemma NoSumWraps(h: Heap, i: nat, layout: Layout)
    requires Inv(h) && h.base + h.size <= HALF && RustLayout(layout) && i < |h.free|
    requires h.free[i].lo >= 0
    ensures Max(layout.size, MIN_BLOCK) + (ALIGN - 1) < WORD
    ensures h.base + h.free[i].lo + MIN_BLOCK + (AlignFor(layout) - 1) < WORD
    ensures h.free[i].lo < h.free[i].hi < WORD
    ensures var at := Candidate(h.base, h.free[i].lo, AlignFor(layout));
            at + BlockSizeFor(layout) < WORD && h.base + at < WORD
  {
    assert Sound(h.free[i], h.size);
    hide Inv;
    assert AlignFor(layout) <= HALF;
    CandidateBelowHalf(h.base, h.free[i].lo, layout);
    hide Candidate, BlockSizeFor;
  }

  // ------------------------------------------------------------------- dealloc

  lemma ListEnds(h: Heap, i: nat)
    requires Inv(h) && i <= |h.free| && FirstOff(h.free[i..], NIL) == NIL
    ensures i == |h.free|
  {
    assert i < |h.free| ==> Sound(h.free[i], h.size);
  }

  /** The loop of `insert_free` stops where the released block belongs. */
  lemma PlaceOf(h: Heap, p: nat, off: nat)
    requires Inv(h) && off in h.live && p <= |h.free|
    requires forall i | 0 <= i < p :: h.free[i].lo < off
    requires FirstOff(h.free[p..], NIL) == NIL || FirstOff(h.free[p..], NIL) >= off
    ensures Between(h.free, p, off, off + h.live[off])
    ensures Sound(Span(off, off + h.live[off]), h.size)
  {
    forall i | 0 <= i < |h.free|
      ensures i < p ==> h.free[i].hi <= off
      ensures p <= i ==> off + h.live[off] <= h.free[i].lo
    {
      assert p < |h.free| ==> Sound(h.free[p], h.size);
      LiveBetween(h.free, h.live, h.size, off, i);
    }
  }

  /** The blocks around that place are the nearest ones on either side. */
  lemma AroundPlace(h: Heap, p: nat, off: nat)
    requires Inv(h) && off in h.live && Between(h.free, p, off, off + h.live[off])
    requires Sound(Span(off, off + h.live[off]), h.size)
    ensures forall i | 0 <= i < |h.free| ::
              if h.free[i].lo < off then p > 0 && h.free[i].lo <= h.free[p - 1].lo < off
              else p < |h.free| && off < h.free[p].lo <= h.free[i].lo
  {
    hide Tiles, Linked, NodeAt;
    forall i | 0 <= i < |h.free| ensures h.free[i].lo < off <==> i < p {
      assert Sound(h.free[i], h.size);
    }
  }

  /** What the headers around the place `p` say. */
  lemma Neighbours(h: Heap, p: nat, off: nat, size: nat)
    requires Inv(h) && Between(h.free, p, off, off + size)
    ensures p <= |h.free| && h.size <= NIL && 8 * |h.mem| == h.size && h.head == FirstOff(h.free, NIL)
    ensures p > 0 ==> Sound(h.free[p - 1], h.size) && h.mem[h.free[p - 1].lo / 8] == h.free[p - 1].hi - h.free[p - 1].lo
                      && h.mem[h.free[p - 1].lo / 8 + 1] == FirstOff(h.free[p..], NIL)
    ensures p < |h.free| ==> Sound(h.free[p], h.size) && h.mem[h.free[p].lo / 8] == h.free[p].hi - h.free[p].lo
                             && h.mem[h.free[p].lo / 8 + 1] == FirstOff(h.free[p + 1..], NIL)
    ensures p > 0 && p < |h.free| ==> h.free[p - 1].hi < h.free[p].lo
    ensures p > 0 ==> h.free[p - 1].hi <= off
    ensures p < |h.free| ==> off + size <= h.free[p].lo
  {
    if p > 0 { assert NodeAt(h.mem, h.free, p - 1, NIL); }
    if p < |h.free| { assert NodeAt(h.mem, h.free, p, NIL); }
  }

  /** The heap after the allocation at `off` is given back before block `p`. */
  ghost function Released(h: Heap, p: nat, off: nat): Heap
    requires off in h.live && AllSound(h.free, 8 * |h.mem|)
    requires Between(h.free, p, off, off + h.live[off]) && Sound(Span(off, off + h.live[off]), 8 * |h.mem|)
  {
    var end := off + h.live[off];
    var free := Insert(h.free, p, off, end);
    h.(head := FirstOff(free, NIL), mem := InsertMem(h.mem, h.free, p, off, end), free := free, live := h.live - {off})
  }

  lemma ReleaseCorrect(h: Heap, p: nat, off: nat)
    requires Inv(h) && off in h.live && AllSound(h.free, 8 * |h.mem|)
    requires Between(h.free, p, off, off + h.live[off]) && Sound(Span(off, off + h.live[off]), 8 * |h.mem|)
    ensures Inv(Released(h, p, off)) && Releases(h, off, Released(h, p, off))
  {
    hide Insert, InsertMem, Linked, Tiles, ChangesOnlyIn, Canonical, Has, AllSound;
    var end := off + h.live[off];
    InsertLinked(h.mem, h.free, p, off, end);
    InsertTiles(h.free, h.live, h.size, p, off);
    InsertAdds(h.free, p, off, end);
  }

  /** What the code does: the block goes back between its neighbours, merged with those it
      touches. */
  ghost predicate ReleaseStep(h: Heap, off: nat, h': Heap) {
    exists p :: GivesBack(h, off, p, h')
  }

  ghost predicate GivesBack(h: Heap, off: nat, p: nat, h': Heap) {
    && off in h.live && AllSound(h.free, 8 * |h.mem|)
    && Between(h.free, p, off, off + h.live[off]) && Sound(Span(off, off + h.live[off]), 8 * |h.mem|)
    && h' == Released(h, p, off)
  }

  lemma ReleaseSound(h: Heap, off: nat, h': Heap)
    requires Inv(h) && ReleaseStep(h, off, h')
    ensures Inv(h') && Releases(h, off, h')
  {
    hide Inv, Releases, Released, Between, AllSound;
    var p :| GivesBack(h, off, p, h');
    ReleaseCorrect(h, p, off);
  }

  lemma InsertLeft(h: Heap, p: nat, lo: int, hi: int)
    requires Inv(h) && Sound(Span(lo, hi), h.size) && Between(h.free, p, lo, hi)
    requires p > 0 && h.free[p - 1].hi == lo && Sound(h.free[p - 1], h.size)
    ensures AllSound(h.free, 8 * |h.mem|)
    ensures FirstOff(Insert(h.free, p, lo, hi), NIL) == FirstOff(h.free, NIL)
    ensures InsertMem(h.mem, h.free, p, lo, hi)
         == Put(h.mem, h.free[p - 1].lo, Merged(h.free, p, lo, hi).hi - h.free[p - 1].lo,
                FirstOff(h.free[Last(h.free, p, hi)..], NIL))
  {
    var pre := h.free[..p - 1];
    assert First(h.free, p, lo) == p - 1;
    var mem := Put(h.mem, h.free[p - 1].lo, Merged(h.free, p, lo, hi).hi - h.free[p - 1].lo,
                   FirstOff(h.free[Last(h.free, p, hi)..], NIL));
    assert pre == [] <==> p == 1;
    if p > 1 {
      assert pre[|pre| - 1] == h.free[p - 2];
      AlreadyAttached(h, p, Merged(h.free, p, lo, hi).hi - h.free[p - 1].lo, FirstOff(h.free[Last(h.free, p, hi)..], NIL));
    }
  }

  /** Rewriting the header of block `p - 1` leaves the one before it linked to it. */
  lemma AlreadyAttached(h: Heap, p: nat, size: int, next: int)
    requires Inv(h) && 2 <= p <= |h.free| && Sound(h.free[p - 1], h.size) && Sound(h.free[p - 2], h.size)
    ensures
      var z, mem := h.free[p - 2], Put(h.mem, h.free[p - 1].lo, size, next);
      Put(mem, z.lo, z.hi - z.lo, h.free[p - 1].lo) == mem
  {
    hide Tiles;
    assert NodeAt(h.mem, h.free, p - 2, NIL);
  }

  lemma InsertFresh(h: Heap, p: nat, lo: int, hi: int)
    requires Inv(h) && Sound(Span(lo, hi), h.size) && Between(h.free, p, lo, hi)
    requires p > 0 ==> h.free[p - 1].hi != lo && Sound(h.free[p - 1], h.size)
    ensures AllSound(h.free, 8 * |h.mem|)
    ensures FirstOff(Insert(h.free, p, lo, hi), NIL) == if p == 0 then lo else FirstOff(h.free, NIL)
    ensures
      var mem' := Put(h.mem, lo, Merged(h.free, p, lo, hi).hi - lo, FirstOff(h.free[Last(h.free, p, hi)..], NIL));
      InsertMem(h.mem, h.free, p, lo, hi)
      == if p == 0 then mem' else Put(mem', h.free[p - 1].lo, h.free[p - 1].hi - h.free[p - 1].lo, lo)
  {
  }

  // ---------------------------------------------------------------- whole runs

  /** What can happen to the heap: calls of `alloc` and `dealloc`, and the owner of the
      block at `o` writing one of its cells. */
  datatype Op = Alloc(layout: Layout, result: Option<int>) | Dealloc(off: int) | Write(o: int, cell: nat, value: int)

  ghost predicate Owns(h: Heap, o: int, cell: int) {
    o in h.live && In(Span(o, o + h.live[o]), 8 * cell)
  }

  ghost predicate Step(h: Heap, op: Op, h': Heap) {
    match op
    case Alloc(layout, r) => AllocStep(h, layout, r, h')
    case Dealloc(off) => off >= 0 && ReleaseStep(h, off, h')
    case Write(o, cell, value) => Owns(h, o, cell) && cell < |h.mem| && h' == h.(mem := h.mem[cell := value])
  }

  ghost predicate Run(hs: seq<Heap>, ops: seq<Op>) {
    |hs| == |ops| + 1 && forall k | 0 <= k < |ops| :: Step(hs[k], ops[k], hs[k + 1])
  }

  /** A cell that some allocation owns is not a byte of any free block. */
  lemma OwnedIsNotFree(h: Heap, o: int, cell: int)
    requires Inv(h) && Owns(h, o, cell)
    ensures 0 <= cell < |h.mem| && !Has(h.free, 8 * cell)
  {
    assert Sound(Span(o, o + h.live[o]), h.size);
    assert InLive(h.live, 8 * cell);
  }

  /** Writes by owners never damage the list. */
  lemma WriteKeepsInv(h: Heap, o: int, cell: nat, value: int)
    requires Inv(h) && Owns(h, o, cell) && cell < |h.mem|
    ensures Inv(h.(mem := h.mem[cell := value]))
  {
    OwnedIsNotFree(h, o, cell);
    var mem := h.mem[cell := value];
    forall i | 0 <= i < |h.free|
      ensures mem[h.free[i].lo / 8] == h.mem[h.free[i].lo / 8]
      ensures mem[h.free[i].lo / 8 + 1] == h.mem[h.free[i].lo / 8 + 1]
    {
      assert Sound(h.free[i], h.size);
      assert In(h.free[i], h.free[i].lo) && In(h.free[i], h.free[i].lo + 8);
    }
    LinkedFrame(h.mem, mem, h.free, NIL);
  }

  /** Every step keeps the invariant, and does what was promised of it. */
  lemma StepKeepsInv(h: Heap, op: Op, h': Heap)
    requires Inv(h) && Step(h, op, h')
    ensures Inv(h') && h'.base == h.base && h'.size == h.size
    ensures op.Alloc? ==> Allocates(h, op.layout, op.result, h')
    ensures op.Dealloc? ==> Releases(h, op.off, h')
  {
    match op
    case Alloc(layout, r) => AllocSound(h, layout, r, h');
    case Dealloc(off) => ReleaseSound(h, off, h');
    case Write(o, cell, value) => WriteKeepsInv(h, o, cell, value);
  }

  /** In every run, an allocation answers with the lowest address that has the alignment asked
      for and suits a hole, and with null exactly if there is none. */
  lemma RunAllocates(hs: seq<Heap>, ops: seq<Op>, k: nat)
    requires Run(hs, ops) && Inv(hs[0]) && k < |ops| && ops[k].Alloc?
    ensures var r, layout := ops[k].result, ops[k].layout;
            && (r.None? <==> forall at :: !Placeable(hs[k], layout, at))
            && (r.Some? ==> && r.value % layout.Align() == 0 && Placeable(hs[k], layout, r.value - hs[k].base)
                            && forall at | Placeable(hs[k], layout, at) :: r.value <= hs[k].base + at)
  {
    hide Inv, Step, Placeable;
    RunKeepsInv(hs, ops, k);
    StepKeepsInv(hs[k], ops[k], hs[k + 1]);
  }

  /** The free list is a sorted, 8-aligned list of separated blocks of at least 16 bytes
      that tiles the arena with the live allocations, in every state of every run. */
  lemma {:induction false} RunKeepsInv(hs: seq<Heap>, ops: seq<Op>, k: nat)
    requires Run(hs, ops) && Inv(hs[0]) && k < |hs|
    ensures Inv(hs[k]) && hs[k].base == hs[0].base && hs[k].size == hs[0].size
  {
    hide Inv, Step;
    if k == 0 {
    } else {
      RunKeepsInv(hs, ops, k - 1);
      StepKeepsInv(hs[k - 1], ops[k - 1], hs[k]);
    }
  }

  /** One step keeps the cells of every block that is live before and after it, unless it
      is the owner's own write. */
  lemma StepKeepsContents(h: Heap, op: Op, h': Heap, o: int, cell: int)
    requires Inv(h) && Step(h, op, h') && Owns(h, o, cell) && o in h'.live
    requires op.Write? ==> op.cell != cell
    ensures Owns(h', o, cell) && 0 <= cell < |h.mem| == |h'.mem| && h'.mem[cell] == h.mem[cell]
  {
    hide Inv, AllocStep, ReleaseStep, Placeable;
    StepKeepsInv(h, op, h');
    OwnedIsNotFree(h, o, cell);
    OwnedIsNotFree(h', o, cell);
  }

  /** Intrusive headers never touch user data: through any run, as long as a block stays
      allocated, a cell of it holds what its owner last left in it. */
  lemma {:induction false} ContentsSurvive(hs: seq<Heap>, ops: seq<Op>, i: nat, j: nat, o: int, cell: int)
    requires Run(hs, ops) && Inv(hs[0]) && i <= j < |hs|
    requires Owns(hs[i], o, cell)
    requires forall k | i <= k <= j :: o in hs[k].live
    requires forall k | i <= k < j :: ops[k].Write? ==> ops[k].cell != cell
    ensures Owns(hs[j], o, cell) && 0 <= cell < |hs[i].mem| == |hs[j].mem| && hs[j].mem[cell] == hs[i].mem[cell]
  {
    RunKeepsInv(hs, ops, j);
    if i == j {
      OwnedIsNotFree(hs[i], o, cell);
    } else {
      ContentsSurvive(hs, ops, i, j - 1, o, cell);
      RunKeepsInv(hs, ops, j - 1);
      assert Step(hs[j - 1], ops[j - 1], hs[j]);
      StepKeepsContents(hs[j - 1], ops[j - 1], hs[j], o, cell);
    }
  }

  /** The free list depends on nothing but what is handed out, however the run got there. */
  lemma FreeListDetermined(h: Heap, g: Heap)
    requires Inv(h) && Inv(g) && h.size == g.size && h.live == g.live
    ensures h.free == g.free && h.head == g.head
  {
    forall x ensures Has(h.free, x) <==> Has(g.free, x) {
      OutsideArena(h, x);
      OutsideArena(g, x);
    }
    Unique(h.free, g.free);
  }

  lemma OutsideArena(h: Heap, x: int)
    requires Inv(h)
    ensures Has(h.free, x) ==> 0 <= x < h.size
  {
    if Has(h.free, x) {
      var i :| 0 <= i < |h.free| && In(h.free[i], x);
      assert Sound(h.free[i], h.size);
    }
  }

  /** Freeing everything, in any order and after any run, restores the one initial block. */
  lemma AllFreedRestores(hs: seq<Heap>, ops: seq<Op>, k: nat)
    requires Run(hs, ops) && Inv(hs[0]) && hs[0].live == map[] && k < |hs| && hs[k].live == map[]
    ensures hs[k].free == hs[0].free == [Span(0, hs[0].size)] && hs[k].head == 0
  {
    RunKeepsInv(hs, ops, k);
    FreeListDetermined(hs[k], hs[0]);
    var whole := [Span(0, hs[0].size)];
    forall x ensures Has(hs[0].free, x) <==> Has(whole, x) {
      OutsideArena(hs[0], x);
      HasOne(Span(0, hs[0].size), x);
    }
    Unique(hs[0].free, whole);
  }

  /** Releasing the block just allocated gives back the free list as it was. */
  lemma DeallocUndoesAlloc(h: Heap, layout: Layout, addr: nat, h1: Heap, h2: Heap)
    requires Inv(h) && Step(h, Alloc(layout, Some(addr)), h1) && Step(h1, Dealloc(addr as int - h.base), h2)
    ensures h2.free == h.free && h2.live == h.live && h2.head == h.head
  {
    hide Inv, Step, Placeable, ChangesOnlyIn;
    StepKeepsInv(h, Alloc(layout, Some(addr)), h1);
    StepKeepsInv(h1, Dealloc(addr as int - h.base), h2);
    assert h2.live == h.live;
    FreeListDetermined(h, h2);
  }

  /** `free_bytes` is the number of bytes no allocation has. */
  lemma FreeBytesCount(h: Heap, unused: set<int>)
    requires Inv(h) && forall x :: x in unused <==> 0 <= x < h.size && !InLive(h.live, x)
    ensures Total(h.free) == |unused|
  {
    forall x ensures x in unused <==> Has(h.free, x) { OutsideArena(h, x); }
    TotalCounts(h.free, unused);
  }
}

/** The Internet checksum of RFC 1071 and its incremental update of section 3 of RFC 1624
    (src/net/checksum.rs). Accumulators are 32 bits wide and wrap. */
module Checksum {
  import opened Wire

  const ONES := 0xFFFF
  const WRAP := 0x1_0000_0000

  // ------------------------------------------------------------------ the sums

  /** Sum of the big-endian 16-bit words of `data`; a trailing byte is a high byte. */
  function WordSum(data: seq<byte>): nat {
    if data == [] then 0
    else if |data| == 1 then data[0] as int * 0x100
    else data[0] as int * 0x100 + data[1] as int + WordSum(data[2..])
  }

  /** Sum of the complements of those words. */
  function ComplementSum(data: seq<byte>): nat {
    if data == [] then 0
    else if |data| == 1 then ONES - data[0] as int * 0x100
    else ONES - (data[0] as int * 0x100 + data[1] as int) + ComplementSum(data[2..])
  }

  function Words(data: seq<byte>): nat {
    (|data| + 1) / 2
  }

  /** The one's-complement value of a sum: the representative modulo 65535 in 1..65535, or 0
      for the sum 0 alone. */
  function Fold(acc: nat): (r: u16)
    ensures r % ONES == acc % ONES && (r == 0 <==> acc == 0)
  {
    if acc == 0 then 0 else 1 + (acc - 1) % ONES
  }

  /** Wrapping 32-bit addition. */
  function Add(acc: u32, n: nat): u32 {
    (acc as int + n) % WRAP
  }

  lemma AddAdd(acc: u32, m: nat, n: nat)
    ensures Add(Add(acc, m), n) == Add(acc, m + n)
  {
  }

  function AccumulateOf(acc: u32, data: seq<byte>): u32 {
    Add(acc, WordSum(data))
  }

  function FinishOf(acc: u32): u16 {
    ONES - Fold(acc)
  }

  function ChecksumOf(data: seq<byte>): u16 {
    FinishOf(AccumulateOf(0, data))
  }

  function UpdateOf(checksum: u16, old_: seq<byte>, new_: seq<byte>): u16 {
    ONES - Fold(Add(ONES - checksum, ComplementSum(old_) + WordSum(new_)))
  }

  // --------------------------------------------------------------- the methods

  /** The folding loop. */
  method FoldLoop(start: u32) returns (r: u16)
    ensures r == Fold(start)
  {
    var acc: u32 := start;
    while acc / 0x1_0000 != 0
      invariant Fold(acc) == Fold(start)
      decreases acc
    {
      FoldStep(acc);
      acc := acc % 0x1_0000 + acc / 0x1_0000;
    }
    r := acc;
  }

  /** One round of folding changes the sum by a multiple of 65535 and never reaches 0. */
  lemma FoldStep(acc: nat)
    requires acc >= 0x1_0000
    ensures var next := acc % 0x1_0000 + acc / 0x1_0000; 0 < next < acc && Fold(next) == Fold(acc)
  {
    var q := acc / 0x1_0000;
    var next := acc % 0x1_0000 + q;
    assert acc == next + ONES * q;
    ModPlus(next - 1, q);
  }

  /** Adding a multiple of 65535 does not change the residue. */
  lemma {:induction false} ModPlus(x: int, k: int)
    ensures (x + ONES * k) % ONES == x % ONES
    decreases if k < 0 then -k else k
  {
    if k > 0 {
      ModPlus(x, k - 1);
    } else if k < 0 {
      ModPlus(x, k + 1);
    }
  }

  method Accumulate(start: u32, data: seq<byte>) returns (acc: u32)
    ensures acc == AccumulateOf(start, data)
  {
    hide Add;
    acc := start;
    var i := 0;
    assert data[0..] == data;
    while i + 2 <= |data|
      invariant 0 <= i <= |data| && Add(acc, WordSum(data[i..])) == Add(start, WordSum(data))
    {
      assert data[i..][2..] == data[i + 2..];
      AddAdd(acc, data[i] as int * 0x100 + data[i + 1] as int, WordSum(data[i + 2..]));
      acc := Add(acc, data[i] as int * 0x100 + data[i + 1] as int);
      i := i + 2;
    }
    if i < |data| {
      assert data[i..] == [data[i]];
      acc := Add(acc, data[i] as int * 0x100);
    } else {
      assert data[i..] == [];
      AddZero(acc);
    }
  }

  lemma AddZero(acc: u32)
    ensures Add(acc, 0) == acc
  {
  }

  /** The first loop of `update`: add the complements of the old words. */
  method AddComplements(start: u32, data: seq<byte>) returns (acc: u32)
    ensures acc == Add(start, ComplementSum(data))
  {
    hide Add;
    acc := start;
    var i := 0;
    assert data[0..] == data;
    while i + 2 <= |data|
      invariant 0 <= i <= |data| && Add(acc, ComplementSum(data[i..])) == Add(start, ComplementSum(data))
    {
      assert data[i..][2..] == data[i + 2..];
      AddAdd(acc, ONES - (data[i] as int * 0x100 + data[i + 1] as int), ComplementSum(data[i + 2..]));
      acc := Add(acc, ONES - (data[i] as int * 0x100 + data[i + 1] as int));
      i := i + 2;
    }
    if i < |data| {
      assert data[i..] == [data[i]];
      acc := Add(acc, ONES - data[i] as int * 0x100);
    } else {
      assert data[i..] == [];
      AddZero(acc);
    }
  }

  method Update(checksum: u16, old_: seq<byte>, new_: seq<byte>) returns (r: u16)
    ensures r == UpdateOf(checksum, old_, new_)
  {
    hide Add, Fold;
    var acc := AddComplements(ONES - checksum, old_);
    AddAdd(ONES - checksum, ComplementSum(old_), WordSum(new_));
    acc := Accumulate(acc, new_);
    var folded := FoldLoop(acc);
    r := ONES - folded;
  }

  method Compute(data: seq<byte>) returns (r: u16)
    ensures r == ChecksumOf(data)
  {
    var acc := Accumulate(0, data);
    var folded := FoldLoop(acc);
    r := ONES - folded;
  }

  /** Sum of the pseudo-header and the segment that a transport checksum covers. */
  function PseudoSum(src: seq<byte>, dst: seq<byte>, proto: byte, segment: seq<byte>): nat {
    WordSum(src) + WordSum(dst) + proto + |segment| + WordSum(segment)
  }

  /** `udp_ipv4`: a computed zero is sent as 0xFFFF, per RFC 768. */
  function UdpChecksumOf(src: seq<byte>, dst: seq<byte>, segment: seq<byte>): u16 {
    var c := FinishOf(Add(0, PseudoSum(src, dst, 17, segment)));
    if c == 0 then ONES else c
  }

  method UdpIpv4(src: seq<byte>, dst: seq<byte>, segment: seq<byte>) returns (r: u16)
    ensures r == UdpChecksumOf(src, dst, segment)
  {
    hide Add, Fold, WordSum;
    var acc := Accumulate(0, src);
    AddAdd(0, WordSum(src), WordSum(dst));
    acc := Accumulate(acc, dst);
    AddAdd(0, WordSum(src) + WordSum(dst), 17);
    acc := Add(acc, 17);
    AddAdd(0, WordSum(src) + WordSum(dst) + 17, |segment|);
    acc := Add(acc, |segment|);
    AddAdd(0, WordSum(src) + WordSum(dst) + 17 + |segment|, WordSum(segment));
    acc := Accumulate(acc, segment);
    var folded := FoldLoop(acc);
    r := ONES - folded;
    if r == 0 {
      r := ONES;
    }
  }

  // -------------------------------------------------------- sums, piece by piece

  /** The sum byte by byte: `high` says whether the first byte is the high one of its word. */
  function ByteSum(data: seq<byte>, high: bool): nat {
    if data == [] then 0
    else (if high then data[0] as int * 0x100 else data[0] as int) + ByteSum(data[1..], !high)
  }

  lemma {:induction false} WordSumIsByteSum(data: seq<byte>)
    ensures WordSum(data) == ByteSum(data, true)
  {
    if |data| >= 2 {
      assert data[1..][1..] == data[2..];
      WordSumIsByteSum(data[2..]);
    } else if |data| == 1 {
      assert data[1..] == [];
    }
  }

  lemma {:induction false} ByteSumConcat(a: seq<byte>, b: seq<byte>, high: bool)
    ensures ByteSum(a + b, high) == ByteSum(a, high) + ByteSum(b, high == (|a| % 2 == 0))
  {
    if a == [] {
      assert a + b == b;
    } else {
      assert (a + b)[1..] == a[1..] + b;
      ByteSumConcat(a[1..], b, !high);
    }
  }

  lemma {:induction false} Complements(data: seq<byte>)
    ensures ComplementSum(data) + WordSum(data) == ONES * Words(data)
  {
    if |data| < 2 {
    } else {
      Complements(data[2..]);
    }
  }

  lemma {:induction false} SumBound(data: seq<byte>)
    ensures WordSum(data) <= ONES * Words(data)
    ensures WordSum(data) == 0 <==> forall i | 0 <= i < |data| :: data[i] == 0
  {
    if |data| < 2 {
    } else {
      SumBound(data[2..]);
      assert forall i | 2 <= i < |data| :: data[i] == data[2..][i - 2];
      assert forall i | 0 <= i < |data| - 2 :: data[2..][i] == data[i + 2];
    }
  }

  /** Replacing a field at an even offset moves the sum by the difference of the fields. */
  lemma ReplaceSum(data: seq<byte>, off: nat, new_: seq<byte>)
    requires off + |new_| <= |data| && off % 2 == 0
    ensures WordSum(Replace(data, off, new_)) + WordSum(data[off..off + |new_|]) == WordSum(data) + WordSum(new_)
  {
    var pre, old_, post := data[..off], data[off..off + |new_|], data[off + |new_|..];
    assert data == pre + (old_ + post) && Replace(data, off, new_) == pre + (new_ + post);
    ByteSumConcat(pre, old_ + post, true);
    ByteSumConcat(pre, new_ + post, true);
    ByteSumConcat(old_, post, true);
    ByteSumConcat(new_, post, true);
    WordSumIsByteSum(data);
    WordSumIsByteSum(Replace(data, off, new_));
    WordSumIsByteSum(old_);
    WordSumIsByteSum(new_);
  }

  /** The sum of a transport checksum is that of the pseudo-header of RFC 768, laid out in bytes,
      followed by the segment: both addresses, a zero byte, the protocol, and the length. */
  lemma PseudoHeader(src: seq<byte>, dst: seq<byte>, proto: byte, segment: seq<byte>)
    requires |src| == 4 && |dst| == 4 && |segment| < 0x1_0000
    ensures PseudoSum(src, dst, proto, segment) == WordSum(src + dst + [0, proto] + Bytes16(|segment|) + segment)
  {
    hide Bytes16, WordSum;
    var len := Bytes16(|segment|);
    SumConcat(src + dst + [0, proto] + len, segment);
    SumConcat(src + dst + [0, proto], len);
    SumConcat(src + dst, [0, proto]);
    SumConcat(src, dst);
    TwoBytes([0, proto]);
    TwoBytes(len);
  }

  lemma SumConcat(a: seq<byte>, b: seq<byte>)
    requires |a| % 2 == 0
    ensures WordSum(a + b) == WordSum(a) + WordSum(b)
  {
    ByteSumConcat(a, b, true);
    WordSumIsByteSum(a + b);
    WordSumIsByteSum(a);
    WordSumIsByteSum(b);
  }

  lemma TwoBytes(b: seq<byte>)
    requires |b| == 2
    ensures WordSum(b) == Be16(b, 0)
  {
    assert b[2..] == [];
  }

  // ------------------------------------------------------- update is recomputing

  /** Two sums have the same residue modulo 65535. */
  ghost predicate Same(a: int, b: int) {
    exists k :: Apart(a, b, k)
  }

  ghost predicate Apart(a: int, b: int, k: int) {
    a == b + ONES * k
  }

  /** Folding changes a sum by a multiple of 65535. */
  lemma FoldSame(acc: nat)
    ensures Same(Fold(acc), acc)
  {
    var q := if acc == 0 then 0 else (acc - 1) / ONES;
    assert Apart(Fold(acc), acc, -q);
  }

  /** Sums with the same residue fold to the same value, but for the two forms of zero. */
  lemma SameFold(a: nat, b: nat)
    requires Same(a, b)
    ensures a > 0 && b > 0 ==> Fold(a) == Fold(b)
    ensures a > 0 && b == 0 ==> Fold(a) == ONES
  {
    var k :| Apart(a, b, k);
    if a > 0 && b > 0 {
      ModPlus(b - 1, k);
    } else if a > 0 {
      ModPlus(ONES - 1, k - 1);
    }
  }

  /** The accumulator of `update` cannot wrap on fields of up to 65536 bytes. */
  predicate FieldFits(field: seq<byte>) {
    |field| <= 0x1_0000
  }

  lemma UpdateArithmetic(c: u16, o: nat, n: nat, comp: nat, w: nat)
    requires comp + o == ONES * w && o <= ONES * w && n <= ONES * w && w <= 0x8000
    ensures var r := ONES - Fold(Add(ONES - c, comp + n));
            Same(r + n, c + o) && (r == ONES <==> c == ONES && comp == 0 && n == 0)
  {
    var acc := ONES - c + comp + n;
    assert acc < WRAP;
    assert Add(ONES - c, comp + n) == acc;
    FoldSame(acc);
    hide Fold, Add, Same;
    var k := SameWitness(Fold(acc), acc);
    assert ONES - Fold(acc) + n == c + o + ONES * (-1 * w - k);
    IsSame(ONES - Fold(acc) + n, c + o, -1 * w - k);
  }

  lemma SameWitness(a: int, b: int) returns (k: int)
    requires Same(a, b)
    ensures a == b + ONES * k
  {
    k :| Apart(a, b, k);
  }

  lemma IsSame(a: int, b: int, k: int)
    requires a == b + ONES * k
    ensures Same(a, b)
  {
    assert Apart(a, b, k);
  }

  /** The new checksum makes up for the change of the field; it is 0xFFFF only if nothing
      was there to add up. */
  lemma UpdateResidue(c: u16, old_: seq<byte>, new_: seq<byte>)
    requires |old_| == |new_| && FieldFits(old_)
    ensures Same(UpdateOf(c, old_, new_) + WordSum(new_), c + WordSum(old_))
    ensures UpdateOf(c, old_, new_) == ONES <==> c == ONES && WordSum(new_) == 0 && ComplementSum(old_) == 0
  {
    hide Fold, Add, WordSum, ComplementSum, Same;
    Complements(old_);
    SumBound(old_);
    SumBound(new_);
    UpdateArithmetic(c, WordSum(old_), WordSum(new_), ComplementSum(old_), Words(old_));
  }

  datatype Edit = Edit(off: nat, new_: seq<byte>)

  /** An edit of a field at an even offset inside `data`. */
  predicate Applies(data: seq<byte>, e: Edit) {
    e.off % 2 == 0 && e.off + |e.new_| <= |data| && FieldFits(e.new_)
  }

  predicate AllApply(data: seq<byte>, es: seq<Edit>) {
    forall i | 0 <= i < |es| :: Applies(data, es[i])
  }

  /** The data after the edits, and the checksum carried along by `update`. */
  function Edited(data: seq<byte>, es: seq<Edit>): (r: seq<byte>)
    requires AllApply(data, es)
    ensures |r| == |data|
  {
    if es == [] then data
    else
      var pre := es[..|es| - 1];
      var e := es[|es| - 1];
      Replace(Edited(data, pre), e.off, e.new_)
  }

  function Carried(c: u16, data: seq<byte>, es: seq<Edit>): u16
    requires AllApply(data, es)
  {
    if es == [] then c
    else
      var pre := es[..|es| - 1];
      var e := es[|es| - 1];
      UpdateOf(Carried(c, data, pre), Edited(data, pre)[e.off..e.off + |e.new_|], e.new_)
  }

  ghost predicate NothingEdited(es: seq<Edit>) {
    forall i | 0 <= i < |es| :: es[i].new_ == []
  }

  /** `c` is the checksum of data with this sum, up to the two forms of zero; it is 0xFFFF
      only for the sum 0 and only while `untouched`. */
  ghost predicate Tracks(c: u16, sum: nat, untouched: bool) {
    Same(ONES - c, sum) && (c == ONES <==> sum == 0 && untouched)
  }

  lemma {:induction false} CarriedTracks(data: seq<byte>, es: seq<Edit>)
    requires AllApply(data, es) && |data| <= 131_074
    ensures Tracks(Carried(ChecksumOf(data), data, es), WordSum(Edited(data, es)), NothingEdited(es))
  {
    hide Tracks, UpdateOf, ChecksumOf, WordSum, Replace, Same;
    if es == [] {
      FreshTracks(data);
    } else {
      var pre, e := es[..|es| - 1], es[|es| - 1];
      CarriedTracks(data, pre);
      CarryOne(Carried(ChecksumOf(data), data, pre), Edited(data, pre), e, NothingEdited(pre));
      assert NothingEdited(es) <==> NothingEdited(pre) && e.new_ == [];
    }
  }

  /** Up to 131074 bytes the accumulator cannot wrap. */
  lemma ChecksumFits(data: seq<byte>)
    requires |data| <= 131_074
    ensures ChecksumOf(data) == ONES - Fold(WordSum(data))
  {
    SumBound(data);
    hide Fold, WordSum;
    assert WordSum(data) < WRAP;
  }

  lemma FreshTracks(data: seq<byte>)
    requires |data| <= 131_074
    ensures Tracks(ChecksumOf(data), WordSum(data), true)
  {
    hide ChecksumOf, WordSum, Same;
    ChecksumFits(data);
    FoldSame(WordSum(data));
  }

  lemma CarryOne(c: u16, data: seq<byte>, e: Edit, untouched: bool)
    requires Applies(data, e) && Tracks(c, WordSum(data), untouched)
    ensures Tracks(UpdateOf(c, data[e.off..e.off + |e.new_|], e.new_), WordSum(Replace(data, e.off, e.new_)),
                   untouched && e.new_ == [])
  {
    hide WordSum, UpdateOf, ComplementSum, Replace, Same;
    var old_, data' := data[e.off..e.off + |e.new_|], Replace(data, e.off, e.new_);
    ReplaceSum(data, e.off, e.new_);
    UpdateResidue(c, old_, e.new_);
    var c' := UpdateOf(c, old_, e.new_);
    var k := SameWitness(ONES - c, WordSum(data));
    var m := SameWitness(c' + WordSum(e.new_), c + WordSum(old_));
    IsSame(ONES - c', WordSum(data'), k - m);
    UntouchedForm(c, data, e);
  }

  /** When `update` yields 0xFFFF: the field was empty and the checksum 0xFFFF before. */
  lemma UntouchedForm(c: u16, data: seq<byte>, e: Edit)
    requires Applies(data, e) && (c == ONES ==> WordSum(data) == 0)
    ensures var old_ := data[e.off..e.off + |e.new_|];
            && (c == ONES && WordSum(e.new_) == 0 && ComplementSum(old_) == 0 <==> c == ONES && e.new_ == [])
            && (e.new_ == [] ==> WordSum(Replace(data, e.off, e.new_)) == WordSum(data))
  {
    var old_ := data[e.off..e.off + |e.new_|];
    if e.new_ == [] {
      assert old_ == [] && Replace(data, e.off, e.new_) == data;
    } else if c == ONES {
      SumBound(data);
      SumBound(old_);
      Complements(old_);
    }
  }

  /** Incremental update is recomputing from scratch, through any chain of field changes:
      the carried checksum equals the recomputed one exactly when the rewritten data has a
      non-zero byte (or nothing was edited at all). */
  lemma UpdateIsRecompute(data: seq<byte>, es: seq<Edit>)
    requires AllApply(data, es) && |data| <= 131_074
    ensures Carried(ChecksumOf(data), data, es) == ChecksumOf(Edited(data, es))
       <==> (exists i :: 0 <= i < |data| && Edited(data, es)[i] != 0) || NothingEdited(es)
  {
    hide Carried, Edited, WordSum, Same, ChecksumOf, Fold;
    CarriedTracks(data, es);
    var c, data' := Carried(ChecksumOf(data), data, es), Edited(data, es);
    SumBound(data');
    ChecksumFits(data');
    FoldSmall(ONES - c);
    FoldSmall(0);
    if WordSum(data') > 0 {
      SameFold(ONES - c, WordSum(data'));
    }
  }

  /** The smallest failing case: a field edited to zero in data that is then all zero. The
      carried checksum is one form of zero, the recomputed one the other. */
  lemma ZeroedDataDiffers()
    ensures UpdateOf(ChecksumOf([0, 1]), [0, 1], [0, 0]) == 0 && ChecksumOf([0, 0]) == ONES
  {
    var a: seq<byte>, z: seq<byte> := [0, 1], [0, 0];
    assert a[2..] == [] && z[2..] == [];
    assert WordSum(a) == 1 && WordSum(z) == 0 && ComplementSum(a) == ONES - 1;
  }

  // ------------------------------------------------------------------ verifying

  /** The sum that a header or a segment adds up to verifies. */
  ghost predicate SumVerifies(sum: nat) {
    sum < WRAP && FinishOf(sum) == 0
  }

  lemma VerifiesIff(sum: nat)
    requires sum < WRAP
    ensures SumVerifies(sum) <==> sum > 0 && Same(sum, 0)
  {
    FoldSame(sum);
    if sum > 0 && Same(sum, 0) {
      SameFold(sum, 0);
    }
    if Fold(sum) == ONES {
      hide Fold;
      var k := SameWitness(Fold(sum), sum);
      IsSame(sum, 0, 1 - k);
    }
  }

  /** Two non-zero sums with the same residue verify together. */
  lemma VerifyTogether(a: nat, b: nat)
    requires 0 < a < WRAP && 0 < b < WRAP && Same(a, b)
    ensures SumVerifies(a) <==> SumVerifies(b)
  {
    hide Same, SumVerifies;
    VerifiesIff(a);
    VerifiesIff(b);
    var k := SameWitness(a, b);
    if Same(a, 0) {
      var j := SameWitness(a, 0);
      IsSame(b, 0, j - k);
    }
    if Same(b, 0) {
      var j := SameWitness(b, 0);
      IsSame(a, 0, j + k);
    }
  }

  lemma FoldSmall(x: u16)
    ensures Fold(x) == x
  {
  }
}

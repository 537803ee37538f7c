/** Machine-level vocabulary shared by every component: bounded integers, big-endian
    fields, and the optional result that stands for a Rust `Option`. */
module Wire {

  datatype Option<+T> = None | Some(value: T)

  type byte = x: int | 0 <= x < 0x100
  type u16 = x: int | 0 <= x < 0x1_0000
  type u32 = x: int | 0 <= x < 0x1_0000_0000

  /** An IPv4 address, ordered as `u32::from(addr)` orders it. */
  type Ipv4 = u32

  /** A port number. */
  type Port = u16

  /** Reading position `i` of `b` as a big-endian 16-bit field. */
  function Be16(b: seq<byte>, i: nat): u16
    requires i + 2 <= |b|
  {
    b[i] as int * 0x100 + b[i + 1] as int
  }

  /** The two bytes of a 16-bit field, most significant first. */
  function Bytes16(v: u16): (b: seq<byte>)
    ensures |b| == 2 && Be16(b, 0) == v
  {
    [v / 0x100, v % 0x100]
  }

  /** Reading position `i` of `b` as a big-endian 32-bit field. */
  function Be32(b: seq<byte>, i: nat): u32
    requires i + 4 <= |b|
  {
    Be16(b, i) as int * 0x1_0000 + Be16(b, i + 2) as int
  }

  /** The four bytes of a 32-bit field, most significant first. */
  function Bytes32(v: u32): (b: seq<byte>)
    ensures |b| == 4 && Be32(b, 0) == v
  {
    Bytes16(v / 0x1_0000) + Bytes16(v % 0x1_0000)
  }

  /** Fields are big-endian: the first byte weighs most. */
  lemma BigEndian(a: byte, b: byte, c: byte, d: byte)
    ensures Be16([a, b], 0) == a as int * 256 + b as int && Bytes16(Be16([a, b], 0)) == [a, b]
    ensures Be32([a, b, c, d], 0) == a as int * 16_777_216 + b as int * 65_536 + c as int * 256 + d as int
    ensures Bytes32(Be32([a, b, c, d], 0)) == [a, b, c, d]
  {
    var hi, lo := Be16([a, b, c, d], 0), Be16([a, b, c, d], 2);
    assert Be32([a, b, c, d], 0) == hi as int * 0x1_0000 + lo as int;
    assert Bytes16(hi) == [a, b] && Bytes16(lo) == [c, d];
  }

  /** The identity of a thread. */
  type Tid = nat

  /** `Tick::elapsed_since`: time passed, saturating at zero. */
  function Elapsed(now: nat, earlier: nat): nat {
    if now < earlier then 0 else now - earlier
  }

  // -------------------------------------------------------------- pieces of buffers

  /** `data` with the bytes at `off` replaced. */
  function Replace(data: seq<byte>, off: nat, new_: seq<byte>): (r: seq<byte>)
    requires off + |new_| <= |data|
    ensures |r| == |data|
    ensures forall i | 0 <= i < |data| :: r[i] == if off <= i < off + |new_| then new_[i - off] else data[i]
  {
    data[..off] + new_ + data[off + |new_|..]
  }

  /** Replacing inside a slice, and outside of it. */
  lemma ReplaceSlice(data: seq<byte>, off: nat, new_: seq<byte>, from: nat, to: nat)
    requires off + |new_| <= |data| && from <= to <= |data|
    ensures from <= off && off + |new_| <= to ==>
              Replace(data, off, new_)[from..to] == Replace(data[from..to], off - from, new_)
    ensures off + |new_| <= from || to <= off ==> Replace(data, off, new_)[from..to] == data[from..to]
  {
    hide Replace;
    var r := Replace(data, off, new_)[from..to];
    if from <= off && off + |new_| <= to {
      var t := Replace(data[from..to], off - from, new_);
      assert |r| == |t| && forall k | 0 <= k < |t| :: r[k] == t[k];
    }
    if off + |new_| <= from || to <= off {
      assert forall k | 0 <= k < |r| :: r[k] == data[from..to][k];
    }
  }

  /** Overwrite bytes of a buffer in place. */
  method CopyTo(buf: array<byte>, off: nat, bytes: seq<byte>)
    requires off + |bytes| <= buf.Length
    modifies buf
    ensures buf[..] == Replace(old(buf[..]), off, bytes)
  {
    var i := 0;
    while i < |bytes|
      invariant 0 <= i <= |bytes|
      invariant forall k | 0 <= k < buf.Length :: buf[k] == if off <= k < off + i then bytes[k - off] else old(buf[k])
    {
      buf[off + i] := bytes[i];
      i := i + 1;
    }
  }

  lemma SameBe16(f: seq<byte>, g: seq<byte>, i: nat)
    requires i + 2 <= |f| && |f| == |g| && f[i] == g[i] && f[i + 1] == g[i + 1]
    ensures Be16(f, i) == Be16(g, i)
  {
  }

  lemma SameBe32(f: seq<byte>, g: seq<byte>, i: nat)
    requires i + 4 <= |f| && |f| == |g| && forall k | i <= k < i + 4 :: f[k] == g[k]
    ensures Be32(f, i) == Be32(g, i)
  {
  }

  lemma SliceSlice(f: seq<byte>, from: nat, to: nat, i: nat, n: nat)
    requires from <= to <= |f| && from + i + n <= to
    ensures f[from..to][i..i + n] == f[from + i..from + i + n]
  {
    var a, b := f[from..to][i..i + n], f[from + i..from + i + n];
    assert |a| == |b| && forall k | 0 <= k < n :: a[k] == b[k];
  }

  lemma SliceBe16(f: seq<byte>, from: nat, to: nat, i: nat)
    requires from <= to <= |f| && from + i + 2 <= to
    ensures Be16(f[from..to], i) == Be16(f, from + i)
  {
  }

  lemma SliceBe32(f: seq<byte>, from: nat, to: nat, i: nat)
    requires from <= to <= |f| && from + i + 4 <= to
    ensures Be32(f[from..to], i) == Be32(f, from + i)
  {
  }
}

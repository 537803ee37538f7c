/** The DHCP options trailer (src/net/dhcp.rs): code, length and value triples as section 2 of
    RFC 2132 lays them out. `OptionsIter` walks them, `OptionsWriter` appends them. */
module DhcpOptions {
  import opened Wire

  const PAD: byte := 0
  const SUBNET_MASK: byte := 1
  const ROUTER: byte := 3
  const DNS_SERVER: byte := 6
  const REQUESTED_IP: byte := 50
  const LEASE_TIME: byte := 51
  const MESSAGE_TYPE: byte := 53
  const SERVER_ID: byte := 54
  const PARAMETER_LIST: byte := 55
  const END: byte := 255

  datatype Opt = Opt(code: byte, value: seq<byte>)

  // -------------------------------------------------------------- reading options

  /** The options of a region, in order: PAD is skipped, END stops, and so does an option
      whose length byte or value is cut off. */
  function Items(b: seq<byte>): seq<Opt> {
    if b == [] then []
    else if b[0] == PAD then Items(b[1..])
    else if b[0] == END then []
    else if |b| < 2 || |b| < 2 + b[1] as int then []
    else [Opt(b[0], b[2..2 + b[1] as int])] + Items(b[2 + b[1] as int..])
  }

  class OptionsIter {
    var buf: seq<byte>

    constructor (options: seq<byte>)
      ensures buf == options
    {
      buf := options;
    }

    /** The next option, if there is one. After `None` there never is. */
    method Next() returns (item: Option<Opt>)
      modifies this
      ensures item.None? ==> Items(old(buf)) == [] && Items(buf) == []
      ensures item.Some? ==> Items(old(buf)) == [item.value] + Items(buf) && |buf| < |old(buf)|
    {
      while buf != []
        invariant Items(buf) == Items(old(buf)) && |buf| <= |old(buf)|
        decreases |buf|
      {
        var code, rest := buf[0], buf[1..];
        if code == PAD {
          buf := rest;
        } else if code == END {
          buf := [];
          return None;
        } else {
          if rest == [] { return None; }
          var len, body := rest[0] as int, rest[1..];
          if |body| < len {
            buf := [];
            return None;
          }
          assert body[..len] == buf[2..2 + len] && body[len..] == buf[2 + len..];
          buf := body[len..];
          return Some(Opt(code, body[..len]));
        }
      }
      return None;
    }
  }

  /** The value of the first option with this code. */
  function Value(os: seq<Opt>, code: byte): (v: Option<seq<byte>>)
    ensures v.None? ==> forall i | 0 <= i < |os| :: os[i].code != code
  {
    if os == [] then None
    else if os[0].code == code then Some(os[0].value)
    else Value(os[1..], code)
  }

  lemma {:induction false} FirstValue(os: seq<Opt>, i: nat)
    requires i < |os| && forall j | 0 <= j < i :: os[j].code != os[i].code
    ensures Value(os, os[i].code) == Some(os[i].value)
  {
    if i == 0 {
    } else {
      FirstValue(os[1..], i - 1);
    }
  }

  /** `Options::get`: scan for the first option with this code. */
  method Get(bytes: seq<byte>, code: byte) returns (v: Option<seq<byte>>)
    ensures v == Value(Items(bytes), code)
  {
    var iter := new OptionsIter(bytes);
    var item := iter.Next();
    while item.Some? && item.value.code != code
      invariant fresh(iter)
      invariant item.Some? ==> Value(Items(bytes), code) == Value([item.value] + Items(iter.buf), code)
      invariant item.None? ==> Value(Items(bytes), code) == None
      decreases item.Some?, |iter.buf|
    {
      assert ([item.value] + Items(iter.buf))[1..] == Items(iter.buf);
      item := iter.Next();
    }
    return if item.Some? then Some(item.value.value) else None;
  }

  // ---------------------------------------------------------------- typed values

  datatype MessageType = Discover | Offer | Request | Decline | Ack | Nak | Release | Inform

  function MessageByte(t: MessageType): byte {
    match t
    case Discover => 1
    case Offer => 2
    case Request => 3
    case Decline => 4
    case Ack => 5
    case Nak => 6
    case Release => 7
    case Inform => 8
  }

  /** Exactly the eight bytes 1 to 8 name a message type, each its own. */
  function MessageOf(v: byte): (t: Option<MessageType>)
    ensures t.None? <==> v == 0 || v > 8
    ensures t.Some? ==> MessageByte(t.value) == v
  {
    match v
    case 1 => Some(Discover)
    case 2 => Some(Offer)
    case 3 => Some(Request)
    case 4 => Some(Decline)
    case 5 => Some(Ack)
    case 6 => Some(Nak)
    case 7 => Some(Release)
    case 8 => Some(Inform)
    case _ => None
  }

  function MessageTypeIn(os: seq<Opt>): Option<MessageType> {
    var v := Value(os, MESSAGE_TYPE);
    if v.Some? && v.value != [] then MessageOf(v.value[0]) else None
  }

  /** The message-type bytes of section 9.6 of RFC 2132. */
  lemma TypeBytes()
    ensures MessageByte(Discover) == 1 && MessageByte(Offer) == 2 && MessageByte(Request) == 3 && MessageByte(Decline) == 4
    ensures MessageByte(Ack) == 5 && MessageByte(Nak) == 6 && MessageByte(Release) == 7 && MessageByte(Inform) == 8
  {
  }

  /** The options say, in option 53, that the message is of type `b`. */
  predicate Carries(os: seq<Opt>, b: byte) {
    var v := Value(os, 53);
    v.Some? && v.value != [] && v.value[0] == b
  }

  lemma CarriesType(os: seq<Opt>, b: byte)
    requires Carries(os, b)
    ensures MessageTypeIn(os) == MessageOf(b)
  {
  }

  /** An option that carries one 32-bit value: an address or a number of seconds. */
  function WordIn(os: seq<Opt>, code: byte): Option<u32> {
    var v := Value(os, code);
    if v.Some? && |v.value| == 4 then Some(Be32(v.value, 0)) else None
  }

  /** The addresses of a list value; a remainder of fewer than four bytes is dropped. */
  function Addresses(b: seq<byte>): seq<Ipv4> {
    if |b| < 4 then [] else [Be32(b, 0)] + Addresses(b[4..])
  }

  function AddressesIn(os: seq<Opt>, code: byte): seq<Ipv4> {
    var v := Value(os, code);
    if v.Some? then Addresses(v.value) else []
  }

  class AddressIter {
    var bytes: seq<byte>

    constructor (bytes: seq<byte>)
      ensures this.bytes == bytes
    {
      this.bytes := bytes;
    }

    method Next() returns (a: Option<Ipv4>)
      modifies this
      ensures a.None? ==> Addresses(old(bytes)) == [] && bytes == old(bytes)
      ensures a.Some? ==> Addresses(old(bytes)) == [a.value] + Addresses(bytes)
    {
      if |bytes| < 4 { return None; }
      var head := bytes[..4];
      assert Be32(bytes, 0) == Be32(head, 0);
      bytes := bytes[4..];
      return Some(Be32(head, 0));
    }
  }

  function AddressBytes(addrs: seq<Ipv4>): (b: seq<byte>)
    ensures |b| == 4 * |addrs|
  {
    if addrs == [] then [] else AddressBytes(addrs[..|addrs| - 1]) + Bytes32(addrs[|addrs| - 1])
  }

  lemma {:induction false} AddressesConcat(a: seq<byte>, b: seq<byte>)
    requires |a| % 4 == 0
    ensures Addresses(a + b) == Addresses(a) + Addresses(b)
  {
    if a == [] {
      assert a + b == b;
    } else {
      assert (a + b)[4..] == a[4..] + b;
      AddressesConcat(a[4..], b);
    }
  }

  /** An address list reads back as it was written. */
  lemma {:induction false} AddressesRoundTrip(addrs: seq<Ipv4>)
    ensures Addresses(AddressBytes(addrs)) == addrs
  {
    if addrs == [] {
    } else {
      hide Bytes32;
      var last := Bytes32(addrs[|addrs| - 1]);
      AddressesRoundTrip(addrs[..|addrs| - 1]);
      AddressesConcat(AddressBytes(addrs[..|addrs| - 1]), last);
      assert Addresses(last) == [addrs[|addrs| - 1]] by {
        assert last[4..] == [];
      }
    }
  }

  // -------------------------------------------------------------- writing options

  predicate Writable(o: Opt) {
    o.code != PAD && o.code != END && |o.value| <= 255
  }

  function Encoded(o: Opt): (b: seq<byte>)
    requires |o.value| <= 255
    ensures |b| == 2 + |o.value|
  {
    [o.code, |o.value|] + o.value
  }

  predicate AllWritable(os: seq<Opt>) {
    forall i | 0 <= i < |os| :: Writable(os[i])
  }

  function EncodedAll(os: seq<Opt>): seq<byte>
    requires AllWritable(os)
  {
    if os == [] then [] else Encoded(os[0]) + EncodedAll(os[1..])
  }

  lemma {:induction false} EncodedAllAdd(os: seq<Opt>, o: Opt)
    requires AllWritable(os) && Writable(o)
    ensures AllWritable(os + [o]) && EncodedAll(os + [o]) == EncodedAll(os) + Encoded(o)
  {
    if os == [] {
      assert os + [o] == [o] && [o][1..] == [];
    } else {
      hide Encoded;
      EncodedAllAdd(os[1..], o);
      assert (os + [o])[1..] == os[1..] + [o];
    }
  }

  lemma {:induction false} EncodedConcat(a: seq<Opt>, b: seq<Opt>)
    requires AllWritable(a) && AllWritable(b)
    ensures AllWritable(a + b) && EncodedAll(a + b) == EncodedAll(a) + EncodedAll(b)
  {
    hide Encoded;
    if a == [] {
      assert a + b == b;
    } else {
      EncodedConcat(a[1..], b);
      assert (a + b)[1..] == a[1..] + b;
    }
  }

  lemma EncodedOne(o: Opt)
    requires Writable(o)
    ensures AllWritable([o]) && EncodedAll([o]) == [o.code, |o.value|] + o.value
  {
    assert [o][1..] == [];
  }

  /** Appends to `buf` from `start` on; `len` bytes of it are written. */
  class OptionsWriter {
    const buf: array<byte>
    const start: nat
    var len: nat

    ghost predicate Valid()
      reads this
    {
      start + len <= buf.Length
    }

    ghost function Written(): seq<byte>
      requires Valid()
      reads this, buf
    {
      buf[start..start + len]
    }

    constructor (buf: array<byte>, start: nat)
      requires start <= buf.Length
      ensures Valid() && this.buf == buf && this.start == start && len == 0
    {
      this.buf, this.start, len := buf, start, 0;
    }

    /** `bytes` were appended, and nothing else changed. */
    twostate predicate Appended(bytes: seq<byte>)
      requires old(Valid())
      reads this, buf
    {
      && Valid() && len == old(len) + |bytes| && Written() == old(Written()) + bytes
      && forall k | 0 <= k < start || start + len <= k < buf.Length :: buf[k] == old(buf[k])
    }

    method Put(bytes: seq<byte>)
      requires Valid() && start + len + |bytes| <= buf.Length
      modifies this, buf
      ensures Appended(bytes)
    {
      var i := 0;
      while i < |bytes|
        invariant 0 <= i <= |bytes| && len == old(len)
        invariant forall k | 0 <= k < buf.Length ::
          buf[k] == if start + len <= k < start + len + i then bytes[k - start - len] else old(buf[k])
      {
        buf[start + len + i] := bytes[i];
        i := i + 1;
      }
      len := len + |bytes|;
    }

    /** Append one option; refuse, changing nothing, exactly if its value is longer than
        255 bytes or it does not fit. */
    method Option(code: byte, value: seq<byte>) returns (ok: bool)
      requires Valid()
      modifies this, buf
      ensures Valid()
      ensures ok <==> |value| <= 255 && start + old(len) + 2 + |value| <= buf.Length
      ensures ok ==> Appended(Encoded(Opt(code, value)))
      ensures !ok ==> Appended([])
    {
      if |value| > 255 || start + len + 2 + |value| > buf.Length { return false; }
      Put([code, |value|] + value);
      return true;
    }

    method Message(t: MessageType) returns (ok: bool)
      requires Valid()
      modifies this, buf
      ensures Valid()
      ensures ok <==> start + old(len) + 3 <= buf.Length
      ensures Appended(if ok then Encoded(Opt(MESSAGE_TYPE, [MessageByte(t)])) else [])
    {
      ok := Option(MESSAGE_TYPE, [MessageByte(t)]);
    }

    method Word(code: byte, v: u32) returns (ok: bool)
      requires Valid()
      modifies this, buf
      ensures Valid()
      ensures ok <==> start + old(len) + 6 <= buf.Length
      ensures Appended(if ok then Encoded(Opt(code, Bytes32(v))) else [])
    {
      ok := Option(code, Bytes32(v));
    }

    /** Append a list of addresses as one option. */
    method List(code: byte, addrs: seq<Ipv4>) returns (ok: bool)
      requires Valid()
      modifies this, buf
      ensures Valid()
      ensures ok <==> |addrs| <= 63 && start + old(len) + 2 + 4 * |addrs| <= buf.Length
      ensures ok ==> Appended(Encoded(Opt(code, AddressBytes(addrs))))
      ensures !ok ==> Appended([])
    {
      var size := 4 * |addrs|;
      if size > 255 || start + len + 2 + size > buf.Length { return false; }
      Put([code, size]);
      var k := 0;
      while k < |addrs|
        invariant 0 <= k <= |addrs| && Valid()
        invariant Appended([code, size] + AddressBytes(addrs[..k]))
      {
        ghost var before := [code, size] + AddressBytes(addrs[..k]);
        assert addrs[..k + 1][..k] == addrs[..k];
        Put(Bytes32(addrs[k]));
        assert [code, size] + AddressBytes(addrs[..k + 1]) == before + Bytes32(addrs[k]);
        k := k + 1;
      }
      assert addrs[..k] == addrs;
      return true;
    }

    method End() returns (ok: bool)
      requires Valid()
      modifies this, buf
      ensures Valid()
      ensures ok <==> start + old(len) + 1 <= buf.Length
      ensures Appended(if ok then [END] else [])
    {
      if start + len + 1 > buf.Length { return false; }
      Put([END]);
      return true;
    }
  }

  // ------------------------------------------------------------------ round trips

  /** Whatever options were appended and closed with END iterate back exactly, whatever
      bytes follow. */
  lemma {:induction false} RoundTrip(os: seq<Opt>, rest: seq<byte>)
    requires AllWritable(os)
    ensures Items(EncodedAll(os) + [END] + rest) == os
  {
    if os == [] {
      assert (EncodedAll(os) + [END] + rest)[0] == END;
    } else {
      var tail := EncodedAll(os[1..]) + [END] + rest;
      assert EncodedAll(os) + [END] + rest == Encoded(os[0]) + tail;
      ItemsHead(os[0], tail);
      RoundTrip(os[1..], rest);
    }
  }

  lemma ItemsHead(o: Opt, tail: seq<byte>)
    requires Writable(o)
    ensures Items(Encoded(o) + tail) == [o] + Items(tail)
  {
    var b := Encoded(o) + tail;
    assert b[2..2 + |o.value|] == o.value && b[2 + |o.value|..] == tail;
  }

  /** Every option the iterator yields could have been written. */
  lemma {:induction false} ItemsWritable(b: seq<byte>)
    ensures AllWritable(Items(b))
    decreases |b|
  {
    if b == [] {
    } else {
      if b[0] == PAD {
        ItemsWritable(b[1..]);
      } else if b[0] != END && |b| >= 2 && |b| >= 2 + b[1] as int {
        ItemsWritable(b[2 + b[1] as int..]);
      }
    }
  }

  /** So writing out what was read, without its padding, loses nothing. */
  lemma Normalised(b: seq<byte>, rest: seq<byte>)
    ensures AllWritable(Items(b)) && Items(EncodedAll(Items(b)) + [END] + rest) == Items(b)
  {
    ItemsWritable(b);
    RoundTrip(Items(b), rest);
  }

  /** Cutting a written region short loses options from the end and garbles none. */
  lemma {:induction false} Truncated(os: seq<Opt>, k: nat)
    requires AllWritable(os) && k <= |EncodedAll(os)|
    ensures Items(EncodedAll(os)[..k]) <= os
  {
    if os == [] {
    } else {
      var b := EncodedAll(os)[..k];
      var n := |Encoded(os[0])|;
      if k >= n {
        Truncated(os[1..], k - n);
        assert b == Encoded(os[0]) + EncodedAll(os[1..])[..k - n];
        ItemsHead(os[0], EncodedAll(os[1..])[..k - n]);
      } else if k >= 2 {
        assert b[0] == os[0].code && b[1] == |os[0].value|;
      } else if k == 1 {
        assert b[0] == os[0].code;
      }
    }
  }

  // -------------------------------------------------------------- the bytes themselves

  /** The layout of section 2 of RFC 2132, byte by byte: 0 is padding, 255 ends the options, and
      any other code is followed by the number of its value's bytes and by these. */
  lemma ItemsLiteral(code: byte, value: seq<byte>, rest: seq<byte>)
    requires 0 < code < 255 && |value| <= 255
    ensures Items([0] + rest) == Items(rest) && Items([255] + rest) == []
    ensures Items([code, |value|] + value + rest) == [Opt(code, value)] + Items(rest)
    ensures Items([code]) == [] && forall k | 0 <= k < |value| :: Items([code, |value|] + value[..k]) == []
    ensures Encoded(Opt(code, value)) == [code, |value|] + value
  {
    assert ([0] + rest)[1..] == rest;
    assert Encoded(Opt(code, value)) + rest == [code, |value|] + value + rest;
    ItemsHead(Opt(code, value), rest);
    forall k | 0 <= k < |value| ensures Items([code, |value|] + value[..k]) == [] {
      var b: seq<byte> := [code, |value|] + value[..k];
      assert b[0] == code && b[1] == |value| && |b| == 2 + k;
    }
  }

  /** Address `i` of a list takes bytes 4i to 4i + 3. */
  lemma {:induction false} AddressAt(addrs: seq<Ipv4>, i: nat)
    requires i < |addrs|
    ensures AddressBytes(addrs)[4 * i..4 * i + 4] == Bytes32(addrs[i])
  {
    hide Bytes32;
    var pre := addrs[..|addrs| - 1];
    if i == |addrs| - 1 {
    } else {
      AddressAt(pre, i);
      assert AddressBytes(addrs)[4 * i..4 * i + 4] == AddressBytes(pre)[4 * i..4 * i + 4];
    }
  }
}

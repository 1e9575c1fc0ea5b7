/**
  The protobuf wire layer: a bounds-checked reader, the encoders, and the laws tying them together.

  The wire errors of the source differ only in their message text, so a failed read is `None`.
  Lengths are those of a 64-bit platform: every 64-bit length is a representable size.
 */
module Proto {
  import opened Base

  type Byte = b: nat | b < 256

  const MAX_VARINT_BYTES: nat := 10

  const WIRE_VARINT: nat := 0
  const WIRE_FIXED64: nat := 1
  const WIRE_BYTES: nat := 2
  const WIRE_FIXED32: nat := 5

  /** A value read from the front of some bytes, and how many bytes it took. */
  datatype Taken<+T> = Taken(value: T, length: nat)

  // ---------------------------------------------------------------- what a varint is

  /** Seven bits a byte, least significant group first. */
  function GroupSum(bytes: seq<Byte>): nat {
    if bytes == [] then 0 else bytes[0] % 128 + 128 * GroupSum(bytes[1..])
  }

  /** One to ten bytes, the continuation bit on all but the last, and one bit at most in the tenth. */
  predicate IsVarint(bytes: seq<Byte>) {
    && 1 <= |bytes| <= MAX_VARINT_BYTES
    && (forall i :: 0 <= i < |bytes| - 1 ==> bytes[i] >= 128)
    && bytes[|bytes| - 1] < 128
    && (|bytes| == MAX_VARINT_BYTES ==> bytes[|bytes| - 1] <= 1)
  }

  /** The varint at the front of `s`, when `count` of its bytes have been read already. */
  function VarintFrom(s: seq<Byte>, count: nat): (r: Option<Taken<nat>>)
    requires count <= MAX_VARINT_BYTES
    ensures r.Some? ==> 1 <= r.value.length <= |s| && r.value.length + count <= MAX_VARINT_BYTES
    decreases MAX_VARINT_BYTES - count
  {
    if count == MAX_VARINT_BYTES || s == [] then None
    else if count == MAX_VARINT_BYTES - 1 && s[0] % 128 > 1 then None
    else if s[0] < 128 then Some(Taken(s[0], 1))
    else
      match VarintFrom(s[1..], count + 1)
      case None => None
      case Some(rest) => Some(Taken(s[0] % 128 + 128 * rest.value, 1 + rest.length))
  }

  function ReadVarint(s: seq<Byte>): (r: Option<Taken<nat>>)
    ensures r.Some? ==> 1 <= r.value.length <= |s| && r.value.length <= MAX_VARINT_BYTES
  {
    VarintFrom(s, 0)
  }

  predicate IsVarintTail(bytes: seq<Byte>, count: nat) {
    && 1 <= |bytes| && |bytes| + count <= MAX_VARINT_BYTES
    && (forall i :: 0 <= i < |bytes| - 1 ==> bytes[i] >= 128)
    && bytes[|bytes| - 1] < 128
    && (|bytes| + count == MAX_VARINT_BYTES ==> bytes[|bytes| - 1] <= 1)
  }

  lemma ConsTail(first: Byte, tail: seq<Byte>, count: nat)
    requires first >= 128 && IsVarintTail(tail, count + 1)
    ensures IsVarintTail([first] + tail, count)
    ensures GroupSum([first] + tail) == first % 128 + 128 * GroupSum(tail)
  {
    assert ([first] + tail)[1..] == tail;
  }

  lemma LastByte(byte: Byte, count: nat)
    requires byte < 128 && count < MAX_VARINT_BYTES && (count == MAX_VARINT_BYTES - 1 ==> byte <= 1)
    ensures IsVarintTail([byte], count) && GroupSum([byte]) == byte
  {
  }

  lemma {:induction false} VarintFromSound(s: seq<Byte>, count: nat)
    requires count <= MAX_VARINT_BYTES
    ensures var r := VarintFrom(s, count);
      r.Some? ==> IsVarintTail(s[..r.value.length], count) && r.value.value == GroupSum(s[..r.value.length])
    decreases MAX_VARINT_BYTES - count
  {
    hide IsVarintTail, GroupSum;
    var r := VarintFrom(s, count);
    if r.Some? && s[0] >= 128 {
      VarintFromSound(s[1..], count + 1);
      ConsTail(s[0], s[1..][..r.value.length - 1], count);
      FrontOf(s, r.value.length);
    } else if r.Some? {
      LastByte(s[0], count);
      FrontOf(s, 1);
    }
  }

  lemma FrontOf(s: seq<Byte>, n: nat)
    requires 1 <= n <= |s|
    ensures s[..n] == [s[0]] + s[1..][..n - 1] && (n == 1 ==> s[..n] == [s[0]])
  {
  }

  lemma {:induction false} VarintFromComplete(e: seq<Byte>, rest: seq<Byte>, count: nat)
    requires IsVarintTail(e, count)
    ensures VarintFrom(e + rest, count) == Some(Taken(GroupSum(e), |e|))
    decreases |e|
  {
    hide IsVarintTail, GroupSum;
    TailTail(e, count);
    GroupSplit(e);
    assert (e + rest)[0] == e[0] && (e + rest)[1..] == e[1..] + rest;
    if |e| > 1 {
      VarintFromComplete(e[1..], rest, count + 1);
    }
  }

  lemma GroupSplit(e: seq<Byte>)
    ensures GroupSum([]) == 0
    ensures e != [] ==> GroupSum(e) == e[0] % 128 + 128 * GroupSum(e[1..])
  {
  }

  lemma TailTail(e: seq<Byte>, count: nat)
    requires IsVarintTail(e, count)
    ensures |e| >= 1 && |e| + count <= MAX_VARINT_BYTES
    ensures |e| == 1 ==> e[1..] == [] && e[0] < 128 && (count == MAX_VARINT_BYTES - 1 ==> e[0] <= 1)
    ensures |e| > 1 ==> e[0] >= 128 && IsVarintTail(e[1..], count + 1)
  {
  }

  /**
    A value is accepted exactly when some front part of the input is a varint, that part is what is
    consumed, and the value is the sum of its groups.
   */
  lemma VarintIsGroupSum(s: seq<Byte>, n: nat)
    requires n <= |s|
    ensures IsVarint(s[..n]) <==> ReadVarint(s).Some? && ReadVarint(s).value.length == n
    ensures IsVarint(s[..n]) ==> ReadVarint(s) == Some(Taken(GroupSum(s[..n]), n))
  {
    VarintFromSound(s, 0);
    if IsVarint(s[..n]) {
      VarintFromComplete(s[..n], s[n..], 0);
      assert s[..n] + s[n..] == s;
    }
  }

  /** One more than the largest value a varint can still add when `count` bytes have been read. */
  function Limit(count: nat): nat
    decreases 9 - count
  {
    if count >= 9 then 2 else 128 * Limit(count + 1)
  }

  lemma {:induction false} TailBound(bytes: seq<Byte>, count: nat)
    requires IsVarintTail(bytes, count)
    ensures GroupSum(bytes) < Limit(count)
    decreases |bytes|
  {
    if |bytes| == 1 {
      assert bytes[1..] == [];
      LimitPositive(count + 1);
    } else {
      TailBound(bytes[1..], count + 1);
    }
  }

  lemma {:induction false} LimitPositive(count: nat)
    ensures Limit(count) >= 2
    decreases 9 - count
  {
    if count < 9 {
      LimitPositive(count + 1);
    }
  }

  lemma SixtyFourBits()
    ensures Limit(0) == MAX_U64 + 1
  {
    assert Limit(5) == 0x2000_0000;
  }

  /** Whatever is accepted fits 64 bits. */
  lemma VarintFits(s: seq<Byte>)
    ensures ReadVarint(s).Some? ==> ReadVarint(s).value.value <= MAX_U64
  {
    VarintFromSound(s, 0);
    if ReadVarint(s).Some? {
      TailBound(s[..ReadVarint(s).value.length], 0);
      SixtyFourBits();
    }
  }

  // ---------------------------------------------------------------- writing varints

  function EncodeVarint(value: nat): (r: seq<Byte>)
    ensures |r| >= 1
  {
    if value < 128 then [value] else [value % 128 + 128] + EncodeVarint(value / 128)
  }

  method PutVarint(out: seq<Byte>, value: nat) returns (r: seq<Byte>)
    requires value <= MAX_U64
    ensures r == out + EncodeVarint(value)
  {
    r := out;
    var left := value;
    while true
      invariant r + EncodeVarint(left) == out + EncodeVarint(value)
      decreases left
    {
      var byte: Byte := left % 128;
      ghost var before := left;
      left := left / 128;
      if left == 0 {
        r := r + [byte];
        return;
      }
      assert r + EncodeVarint(before) == r + [byte + 128] + EncodeVarint(left);
      r := r + [byte + 128];
    }
  }

  lemma {:induction false} EncodedIsVarint(value: nat, count: nat)
    requires count < 10 && value < Limit(count)
    ensures IsVarintTail(EncodeVarint(value), count) && GroupSum(EncodeVarint(value)) == value
  {
    hide IsVarintTail, GroupSum;
    if value >= 128 {
      EncodedIsVarint(value / 128, count + 1);
      ConsTail(value % 128 + 128, EncodeVarint(value / 128), count);
    } else {
      LastByte(value, count);
    }
  }

  /** For every 64-bit value: what was written is read back, whatever follows, consuming exactly those 1 to 10 bytes. */
  lemma VarintRoundTrip(value: nat, rest: seq<Byte>)
    requires value <= MAX_U64
    ensures ReadVarint(EncodeVarint(value) + rest) == Some(Taken(value, |EncodeVarint(value)|))
    ensures 1 <= |EncodeVarint(value)| <= 10
  {
    SixtyFourBits();
    EncodedIsVarint(value, 0);
    VarintFromComplete(EncodeVarint(value), rest, 0);
  }

  /** Other encodings of the same value are allowed, and none is shorter. */
  lemma {:induction false} EncodingIsShortest(e: seq<Byte>, count: nat)
    requires IsVarintTail(e, count)
    ensures |EncodeVarint(GroupSum(e))| <= |e|
    decreases |e|
  {
    if |e| > 1 {
      EncodingIsShortest(e[1..], count + 1);
      var v := GroupSum(e);
      assert v / 128 == GroupSum(e[1..]);
    } else {
      assert e[1..] == [];
    }
  }

  // ---------------------------------------------------------------- signed values

  /** How `proto3` widens an `int32` before encoding it. */
  function Widened(value: int): nat
    requires -0x8000_0000 <= value < 0x8000_0000
  {
    if value >= 0 then value else value + 0x1_0000_0000_0000_0000
  }

  /** The low 32 bits read as two's complement. */
  function LowSigned(raw: nat): int {
    var low := raw % 0x1_0000_0000;
    if low < 0x8000_0000 then low else low - 0x1_0000_0000
  }

  /** Sign-extended values survive, and the negative ones take the full ten bytes. */
  lemma Int32RoundTrip(value: int, rest: seq<Byte>)
    requires -0x8000_0000 <= value < 0x8000_0000
    ensures var read := ReadVarint(EncodeVarint(Widened(value)) + rest);
      read.Some? && LowSigned(read.value.value) == value
  {
    hide ReadVarint, EncodeVarint;
    LowOfWidened(value);
    hide Widened, LowSigned;
    VarintRoundTrip(Widened(value), rest);
  }

  lemma LowOfWidened(value: int)
    requires -0x8000_0000 <= value < 0x8000_0000
    ensures Widened(value) <= MAX_U64 && LowSigned(Widened(value)) == value
  {
  }

  // ---------------------------------------------------------------- field records

  datatype Tag = Tag(field: nat, wire: nat)

  datatype Payload = VarintValue(value: nat) | Fixed64 | Bytes(data: seq<Byte>) | Fixed32

  datatype Record = Record(field: nat, payload: Payload)

  function ReadTag(s: seq<Byte>): (r: Option<Taken<Tag>>)
    ensures r.Some? ==> 1 <= r.value.length <= |s| && 1 <= r.value.value.field <= MAX_U32 && r.value.value.wire < 8
  {
    match ReadVarint(s)
    case None => None
    case Some(key) =>
      var field := key.value / 8;
      if field > MAX_U32 || field == 0 then None else Some(Taken(Tag(field, key.value % 8), key.length))
  }

  function ReadBytes(s: seq<Byte>): (r: Option<Taken<seq<Byte>>>)
    ensures r.Some? ==> 1 <= r.value.length <= |s| && |r.value.value| < r.value.length
  {
    match ReadVarint(s)
    case None => None
    case Some(size) =>
      if size.value > |s| - size.length then None
      else Some(Taken(s[size.length..size.length + size.value], size.length + size.value))
  }

  function ReadPayload(wire: nat, s: seq<Byte>): (r: Option<Taken<Payload>>)
    ensures r.Some? ==> r.value.length <= |s|
    ensures r.Some? && r.value.value.Bytes? ==> |r.value.value.data| < |s|
  {
    if wire == WIRE_VARINT then
      match ReadVarint(s) case None => None case Some(v) => Some(Taken(VarintValue(v.value), v.length))
    else if wire == WIRE_FIXED64 then if |s| < 8 then None else Some(Taken(Fixed64, 8))
    else if wire == WIRE_BYTES then
      match ReadBytes(s) case None => None case Some(b) => Some(Taken(Bytes(b.value), b.length))
    else if wire == WIRE_FIXED32 then if |s| < 4 then None else Some(Taken(Fixed32, 4))
    else None
  }

  function ReadRecord(s: seq<Byte>): (r: Option<Taken<Record>>)
    ensures r.Some? ==> 1 <= r.value.length <= |s|
    ensures r.Some? && r.value.value.payload.Bytes? ==> |r.value.value.payload.data| < |s|
  {
    match ReadTag(s)
    case None => None
    case Some(tag) =>
      match ReadPayload(tag.value.wire, s[tag.length..])
      case None => None
      case Some(payload) => Some(Taken(Record(tag.value.field, payload.value), tag.length + payload.length))
  }

  lemma VarintPrefix(s: seq<Byte>, more: seq<Byte>)
    requires ReadVarint(s).Some?
    ensures ReadVarint(s + more) == ReadVarint(s)
  {
    var n := ReadVarint(s).value.length;
    VarintFromSound(s, 0);
    VarintFromComplete(s[..n], s[n..], 0);
    VarintFromComplete(s[..n], s[n..] + more, 0);
    assert s[..n] + s[n..] == s && s[..n] + (s[n..] + more) == s + more;
  }

  lemma PayloadPrefix(wire: nat, s: seq<Byte>, more: seq<Byte>)
    requires ReadPayload(wire, s).Some?
    ensures ReadPayload(wire, s + more) == ReadPayload(wire, s)
  {
    hide ReadVarint;
    if ReadVarint(s).Some? {
      VarintPrefix(s, more);
      var size := ReadVarint(s).value;
      if wire == WIRE_BYTES {
        var end := size.length + size.value;
        assert (s + more)[size.length..end] == s[size.length..end];
      }
    }
  }

  /** A complete record reads the same whatever follows it. */
  lemma RecordPrefix(s: seq<Byte>, more: seq<Byte>)
    requires ReadRecord(s).Some?
    ensures ReadRecord(s + more) == ReadRecord(s)
  {
    hide ReadVarint, ReadPayload;
    VarintPrefix(s, more);
    var n := ReadTag(s).value.length;
    assert (s + more)[n..] == s[n..] + more;
    PayloadPrefix(ReadTag(s).value.value.wire, s[n..], more);
  }

  // ---------------------------------------------------------------- writing fields

  function EncodeTag(field: nat, wire: nat): seq<Byte> {
    EncodeVarint(field * 8 + wire)
  }

  function EncodeVarintField(field: nat, value: nat): seq<Byte> {
    if value == 0 then [] else EncodeTag(field, WIRE_VARINT) + EncodeVarint(value)
  }

  function EncodeMessageField(field: nat, value: seq<Byte>): seq<Byte> {
    EncodeTag(field, WIRE_BYTES) + EncodeVarint(|value|) + value
  }

  function EncodeBytesField(field: nat, value: seq<Byte>): seq<Byte> {
    if value == [] then [] else EncodeMessageField(field, value)
  }

  method PutTag(out: seq<Byte>, field: nat, wire: nat) returns (r: seq<Byte>)
    requires field <= MAX_U32 && wire < 8
    ensures r == out + EncodeTag(field, wire)
  {
    r := PutVarint(out, field * 8 + wire);
  }

  method PutVarintField(out: seq<Byte>, field: nat, value: nat) returns (r: seq<Byte>)
    requires field <= MAX_U32 && value <= MAX_U64
    ensures r == out + EncodeVarintField(field, value)
  {
    hide EncodeVarint, EncodeTag;
    if value == 0 {
      return out;
    }
    Regroup(out, EncodeTag(field, WIRE_VARINT), EncodeVarint(value));
    r := PutTag(out, field, WIRE_VARINT);
    r := PutVarint(r, value);
  }

  method PutMessageField(out: seq<Byte>, field: nat, value: seq<Byte>) returns (r: seq<Byte>)
    requires field <= MAX_U32 && |value| <= MAX_U64
    ensures r == out + EncodeMessageField(field, value)
  {
    hide EncodeVarint, EncodeTag;
    var tag, size := EncodeTag(field, WIRE_BYTES), EncodeVarint(|value|);
    Regroup(out, tag, size);
    Regroup(out, tag + size, value);
    r := PutTag(out, field, WIRE_BYTES);
    r := PutVarint(r, |value|);
    r := r + value;
  }

  method PutBytesField(out: seq<Byte>, field: nat, value: seq<Byte>) returns (r: seq<Byte>)
    requires field <= MAX_U32 && |value| <= MAX_U64
    ensures r == out + EncodeBytesField(field, value)
  {
    if value == [] {
      return out;
    }
    r := PutMessageField(out, field, value);
  }

  lemma TagRoundTrip(field: nat, wire: nat, rest: seq<Byte>)
    requires 1 <= field <= MAX_U32 && wire < 8
    ensures ReadTag(EncodeTag(field, wire) + rest) == Some(Taken(Tag(field, wire), |EncodeTag(field, wire)|))
  {
    hide ReadVarint, EncodeVarint;
    VarintRoundTrip(field * 8 + wire, rest);
  }

  /** A written scalar is one record, unless it is zero and nothing is written. */
  lemma VarintFieldRoundTrip(field: nat, value: nat, rest: seq<Byte>)
    requires 1 <= field <= MAX_U32 && 0 < value <= MAX_U64
    ensures ReadRecord(EncodeVarintField(field, value) + rest)
         == Some(Taken(Record(field, VarintValue(value)), |EncodeVarintField(field, value)|))
  {
    hide ReadVarint, EncodeVarint, EncodeTag;
    var tag, body := EncodeTag(field, WIRE_VARINT), EncodeVarint(value);
    TagRoundTrip(field, WIRE_VARINT, body + rest);
    VarintRoundTrip(value, rest);
    assert tag + body + rest == tag + (body + rest);
    assert (tag + (body + rest))[|tag|..] == body + rest;
  }

  /** A written message is one record, present even when its payload is empty. */
  lemma MessageFieldRoundTrip(field: nat, value: seq<Byte>, rest: seq<Byte>)
    requires 1 <= field <= MAX_U32 && |value| <= MAX_U64
    ensures ReadRecord(EncodeMessageField(field, value) + rest)
         == Some(Taken(Record(field, Bytes(value)), |EncodeMessageField(field, value)|))
  {
    hide ReadVarint, EncodeVarint, EncodeTag;
    var tag, size := EncodeTag(field, WIRE_BYTES), EncodeVarint(|value|);
    TagRoundTrip(field, WIRE_BYTES, size + (value + rest));
    VarintRoundTrip(|value|, value + rest);
    assert tag + size + value + rest == tag + (size + (value + rest));
    assert (tag + (size + (value + rest)))[|tag|..] == size + (value + rest);
    assert (size + (value + rest))[|size|..|size| + |value|] == value;
  }

  // ---------------------------------------------------------------- what a record is

  function WireOf(p: Payload): nat {
    match p
    case VarintValue(_) => 0
    case Fixed64 => 1
    case Bytes(_) => 2
    case Fixed32 => 5
  }

  /** The bytes of a payload: a varint, eight bytes, a length and that many bytes, or four bytes. */
  ghost predicate IsPayload(e: seq<Byte>, p: Payload) {
    match p
    case VarintValue(v) => IsVarint(e) && GroupSum(e) == v
    case Fixed64 => |e| == 8
    case Bytes(data) => exists size :: IsVarint(size) && GroupSum(size) == |data| && e == size + data
    case Fixed32 => |e| == 4
  }

  /** The bytes of a record: a varint of eight times the field number plus the wire type, and a payload of that type. */
  ghost predicate IsRecord(e: seq<Byte>, r: Record) {
    && 1 <= r.field <= MAX_U32
    && exists tag, body :: IsVarint(tag) && GroupSum(tag) == 8 * r.field + WireOf(r.payload) && IsPayload(body, r.payload) && e == tag + body
  }

  lemma VarintFront(s: seq<Byte>, n: nat, v: nat)
    ensures ReadVarint(s) == Some(Taken(v, n)) <==> n <= |s| && IsVarint(s[..n]) && GroupSum(s[..n]) == v
  {
    hide ReadVarint, IsVarint, GroupSum;
    if n <= |s| {
      VarintIsGroupSum(s, n);
    }
  }

  lemma TagIff(s: seq<Byte>, n: nat, field: nat, wire: nat)
    requires wire < 8
    ensures ReadTag(s) == Some(Taken(Tag(field, wire), n)) <==>
      n <= |s| && IsVarint(s[..n]) && GroupSum(s[..n]) == 8 * field + wire && 1 <= field <= MAX_U32
  {
    hide ReadVarint, IsVarint, GroupSum;
    VarintFront(s, n, 8 * field + wire);
  }

  lemma BytesIff(s: seq<Byte>, n: nat, data: seq<Byte>)
    ensures ReadBytes(s) == Some(Taken(data, n)) <==> n <= |s| && IsPayload(s[..n], Bytes(data))
  {
    hide ReadVarint, IsVarint, GroupSum;
    if ReadBytes(s) == Some(Taken(data, n)) {
      var k := ReadVarint(s).value.length;
      VarintFront(s, k, |data|);
      assert s[..n] == s[..k] + data;
    }
    if n <= |s| && IsPayload(s[..n], Bytes(data)) {
      var size :| IsVarint(size) && GroupSum(size) == |data| && s[..n] == size + data;
      var k := |size|;
      assert s[..k] == s[..n][..k] == size && s[k..n] == s[..n][k..] == data;
      VarintFront(s, k, |data|);
    }
  }

  lemma PayloadIff(wire: nat, s: seq<Byte>, n: nat, p: Payload)
    ensures ReadPayload(wire, s) == Some(Taken(p, n)) <==> wire == WireOf(p) && n <= |s| && IsPayload(s[..n], p)
  {
    hide ReadVarint, ReadBytes, IsVarint, GroupSum;
    match p
    case VarintValue(v) => VarintFront(s, n, v);
    case Bytes(data) => BytesIff(s, n, data);
    case _ =>
  }

  /**
    For all bytes: a record is read from their front exactly when a front part of them is one, and then that
    part is what is consumed. No other wire type is a record.
   */
  lemma RecordIff(s: seq<Byte>, n: nat, r: Record)
    ensures ReadRecord(s) == Some(Taken(r, n)) <==> n <= |s| && IsRecord(s[..n], r)
  {
    hide ReadTag, ReadPayload, IsVarint, GroupSum, IsPayload;
    if ReadRecord(s) == Some(Taken(r, n)) {
      var k := ReadTag(s).value.length;
      TagIff(s, k, r.field, ReadTag(s).value.value.wire);
      PayloadIff(ReadTag(s).value.value.wire, s[k..], n - k, r.payload);
      assert s[..n] == s[..k] + s[k..][..n - k];
    }
    if n <= |s| && IsRecord(s[..n], r) {
      var tag, body :| IsVarint(tag) && GroupSum(tag) == 8 * r.field + WireOf(r.payload)
                       && IsPayload(body, r.payload) && s[..n] == tag + body;
      var k := |tag|;
      assert s[..k] == s[..n][..k] == tag && s[k..][..n - k] == s[..n][k..] == body;
      TagIff(s, k, r.field, WireOf(r.payload));
      PayloadIff(WireOf(r.payload), s[k..], n - k, r.payload);
    }
  }

  /** The low 32 bits, as the number of 32 bits that is the same modulo 2^32. */
  lemma LowSignedIs(raw: nat, v: int)
    ensures LowSigned(raw) == v <==> -0x8000_0000 <= v <= 0x7fff_ffff && (raw - v) % 0x1_0000_0000 == 0
  {
  }

  /** The examples of the Protocol Buffers encoding guide: 150 in field 1, and "testing" in field 2. */
  lemma GuideExamples()
    ensures EncodeVarint(150) == [0x96, 0x01]
    ensures EncodeVarintField(1, 150) == [0x08, 0x96, 0x01]
    ensures EncodeBytesField(2, [0x74, 0x65, 0x73, 0x74, 0x69, 0x6e, 0x67])
         == [0x12, 0x07, 0x74, 0x65, 0x73, 0x74, 0x69, 0x6e, 0x67]
  {
    assert EncodeVarint(1) == [1] && EncodeVarint(150) == [150 % 128 + 128] + EncodeVarint(1);
    assert EncodeTag(1, WIRE_VARINT) == [8] && EncodeTag(2, WIRE_BYTES) == [18] && EncodeVarint(7) == [7];
  }

  // ---------------------------------------------------------------- the reader

  class Reader {
    const bytes: seq<Byte>
    var offset: nat

    ghost predicate Valid()
      reads this`offset
    {
      offset <= |bytes|
    }

    /** What is still to be read. */
    ghost function Rest(): seq<Byte>
      requires Valid()
      reads this`offset
    {
      bytes[offset..]
    }

    /** Moved past exactly the first `n` bytes of `before`. */
    ghost predicate Past(before: seq<Byte>, n: nat)
      reads this`offset
    {
      Valid() && n <= |before| && Rest() == before[n..]
    }

    constructor (input: seq<Byte>)
      ensures bytes == input && Valid() && Rest() == input
    {
      bytes, offset := input, 0;
    }

    method IsEmpty() returns (empty: bool)
      requires Valid()
      ensures empty <==> Rest() == []
    {
      return offset >= |bytes|;
    }

    method Need(n: nat) returns (enough: bool)
      requires Valid()
      ensures enough <==> n <= |Rest()|
    {
      return n <= |bytes| - offset;
    }

    method Varint() returns (r: Option<nat>)
      requires Valid()
      modifies this`offset
      ensures Valid() && offset >= old(offset)
      ensures var read := ReadVarint(old(Rest()));
        if read.None? then r.None? else r == Some(read.value.value) && Past(old(Rest()), read.value.length)
    {
      hide VarintFrom, VarintProgress;
      ghost var goal := ReadVarint(Rest());
      var value: nat, scale: nat := 0, 1;
      ProgressStart(Rest());
      for count := 0 to MAX_VARINT_BYTES
        invariant Valid() && offset == old(offset) + count
        invariant VarintProgress(goal, bytes[offset..], value, scale, count)
      {
        ProgressStep(goal, bytes[offset..], value, scale, count);
        var enough := Need(1);
        if !enough {
          return None;
        }
        var byte := bytes[offset];
        assert bytes[offset..][1..] == bytes[offset + 1..];
        offset := offset + 1;
        var part := byte % 128;
        if count == MAX_VARINT_BYTES - 1 && part > 1 {
          return None;
        }
        value := value + part * scale;
        if byte < 128 {
          return Some(value);
        }
        scale := scale * 128;
      }
      ProgressOver(goal, bytes[offset..], value, scale);
      return None;
    }

    method ReadTagAt() returns (r: Option<Tag>)
      requires Valid()
      modifies this`offset
      ensures Valid() && offset >= old(offset)
      ensures var read := ReadTag(old(Rest()));
        if read.None? then r.None? else r == Some(read.value.value) && Past(old(Rest()), read.value.length)
    {
      var key := Varint();
      if key.None? {
        return None;
      }
      var wire, field := key.value % 8, key.value / 8;
      if field > MAX_U32 || field == 0 {
        return None;
      }
      return Some(Tag(field, wire));
    }

    method ReadBytesAt() returns (r: Option<seq<Byte>>)
      requires Valid()
      modifies this`offset
      ensures Valid() && offset >= old(offset)
      ensures var read := ReadBytes(old(Rest()));
        if read.None? then r.None? else r == Some(read.value.value) && Past(old(Rest()), read.value.length)
    {
      hide ReadVarint, ReadBytes;
      ghost var before := Rest();
      BytesAfterLength(before);
      var size := Varint();
      if size.None? {
        return None;
      }
      var enough := Need(size.value);
      if !enough {
        return None;
      }
      ghost var rest := Rest();
      var out := bytes[offset..offset + size.value];
      offset := offset + size.value;
      assert out == rest[..size.value] && Rest() == rest[size.value..];
      return Some(out);
    }

    /** A length-delimited field that must be exactly `n` bytes. */
    method Array(n: nat) returns (r: Option<seq<Byte>>)
      requires Valid()
      modifies this`offset
      ensures Valid() && offset >= old(offset)
      ensures var read := ReadBytes(old(Rest()));
        if read.None? || |read.value.value| != n then r.None?
        else r == Some(read.value.value) && Past(old(Rest()), read.value.length)
    {
      r := ReadBytesAt();
      if r.Some? && |r.value| != n {
        return None;
      }
    }

    method Int32() returns (r: Option<int>)
      requires Valid()
      modifies this`offset
      ensures Valid() && offset >= old(offset)
      ensures var read := ReadVarint(old(Rest()));
        if read.None? then r.None? else r == Some(LowSigned(read.value.value)) && Past(old(Rest()), read.value.length)
      ensures r.Some? ==> -0x8000_0000 <= r.value < 0x8000_0000
    {
      var raw := Varint();
      if raw.None? {
        return None;
      }
      return Some(LowSigned(raw.value));
    }

    /** Skips the payload of an unknown field; wire types that are not valid in `proto3` are refused. */
    method Skip(wire: nat) returns (ok: bool)
      requires Valid()
      modifies this`offset
      ensures Valid() && offset >= old(offset)
      ensures var read := ReadPayload(wire, old(Rest()));
        if read.None? then !ok else ok && Past(old(Rest()), read.value.length)
    {
      if wire == WIRE_VARINT {
        var v := Varint();
        return v.Some?;
      } else if wire == WIRE_FIXED64 {
        ok := Need(8);
        if ok {
          offset := offset + 8;
        }
      } else if wire == WIRE_BYTES {
        var b := ReadBytesAt();
        return b.Some?;
      } else if wire == WIRE_FIXED32 {
        ok := Need(4);
        if ok {
          offset := offset + 4;
        }
      } else {
        return false;
      }
    }
  }

  lemma BytesAfterLength(s: seq<Byte>)
    ensures ReadVarint(s).None? ==> ReadBytes(s).None?
    ensures ReadVarint(s).Some? ==>
      var size, rest := ReadVarint(s).value.value, s[ReadVarint(s).value.length..];
      if size > |rest| then ReadBytes(s).None?
      else
        && ReadBytes(s) == Some(Taken(rest[..size], ReadVarint(s).value.length + size))
        && rest[size..] == s[ReadVarint(s).value.length + size..]
  {
    hide ReadVarint;
    if ReadVarint(s).Some? {
      var n, size := ReadVarint(s).value.length, ReadVarint(s).value.value;
      if size <= |s[n..]| {
        assert s[n..][..size] == s[n..n + size] && s[n..][size..] == s[n + size..];
      }
    }
  }

  /** Where the varint loop stands after `count` bytes: what `s` still gives, scaled and added, is the `goal`. */
  ghost predicate VarintProgress(goal: Option<Taken<nat>>, s: seq<Byte>, value: nat, scale: nat, count: nat) {
    && count <= MAX_VARINT_BYTES
    && var left := VarintFrom(s, count);
      goal == if left.None? then None else Some(Taken(value + scale * left.value.value, count + left.value.length))
  }

  lemma ProgressStart(s: seq<Byte>)
    ensures VarintProgress(ReadVarint(s), s, 0, 1, 0)
  {
  }

  lemma ProgressStep(goal: Option<Taken<nat>>, s: seq<Byte>, value: nat, scale: nat, count: nat)
    requires count < MAX_VARINT_BYTES && VarintProgress(goal, s, value, scale, count)
    ensures s == [] || (count == MAX_VARINT_BYTES - 1 && s[0] % 128 > 1) ==> goal == None
    ensures s != [] && !(count == MAX_VARINT_BYTES - 1 && s[0] % 128 > 1) ==>
      if s[0] < 128 then goal == Some(Taken(value + s[0] % 128 * scale, count + 1))
      else VarintProgress(goal, s[1..], value + s[0] % 128 * scale, scale * 128, count + 1)
  {
    if s != [] && s[0] >= 128 && VarintFrom(s[1..], count + 1).Some? {
      Distribute(scale, s[0] % 128, VarintFrom(s[1..], count + 1).value.value);
    }
    if s != [] {
      Commute(scale, s[0] % 128);
    }
  }

  lemma Commute(a: nat, b: nat)
    ensures a * b == b * a
  {
  }

  lemma ProgressOver(goal: Option<Taken<nat>>, s: seq<Byte>, value: nat, scale: nat)
    requires VarintProgress(goal, s, value, scale, MAX_VARINT_BYTES)
    ensures goal == None
  {
  }

  lemma Distribute(scale: nat, part: nat, rest: nat)
    ensures scale * (part + 128 * rest) == part * scale + scale * 128 * rest
  {
  }
}

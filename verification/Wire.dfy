/**
 The Protocol Buffers wire format: base-128 varints, tags, and the records
 (tag and payload) that a message is a concatenation of.
 */
module Wire {

  type byte = b: int | 0 <= b < 256
  type bytes = seq<byte>

  const TWO_31 := 0x8000_0000
  const TWO_32 := 0x1_0000_0000
  const TWO_64 := 0x1_0000_0000_0000_0000
  const INT_MAX := 0x7FFF_FFFF
  const MAX_VARINT_BYTES: nat := 10
  const MAX_FIELD_NUMBER := 0x1FFF_FFFF

  type int32 = i: int | -TWO_31 <= i < TWO_31

  /** The pieces one after the other. */
  function Flat(ss: seq<bytes>): bytes {
    if ss == [] then [] else ss[0] + Flat(ss[1..])
  }

  datatype Read<+T> = Got(value: T, rest: bytes) | Bad

  // ---------------------------------------------------------------- varints

  function Varint(n: nat): (s: bytes)
    ensures s != []
  {
    if n < 128 then [n] else [n % 128 + 128] + Varint(n / 128)
  }

  /** Reads a varint of at most `k` bytes from the front of `s`. */
  function ReadVarint(s: bytes, k: nat): (r: Read<nat>)
    ensures r.Got? ==> |r.rest| < |s| && r.rest == s[|s| - |r.rest|..]
    decreases |s|
  {
    if k == 0 || s == [] then Bad
    else if s[0] < 128 then Got(s[0], s[1..])
    else
      match ReadVarint(s[1..], k - 1)
      case Bad => Bad
      case Got(v, rest) => Got(s[0] - 128 + 128 * v, rest)
  }

  /** The number of bytes of a varint, as the size functions count them. */
  function VarintSize(n: nat): (k: nat)
    ensures k == |Varint(n)|
  {
    if n < 128 then 1 else 1 + VarintSize(n / 128)
  }

  function Pow128(k: nat): (p: nat)
    ensures p > 0
  {
    if k == 0 then 1 else 128 * Pow128(k - 1)
  }

  lemma {:induction false} VarintFits(n: nat, k: nat)
    requires k > 0 && n < Pow128(k)
    ensures |Varint(n)| <= k
  {
    if n >= 128 {
      VarintFits(n / 128, k - 1);
    }
  }

  lemma VarintFits64(n: nat)
    requires n < TWO_64
    ensures |Varint(n)| <= MAX_VARINT_BYTES
  {
    assert Pow128(10) == 128 * 128 * 128 * 128 * 128 * Pow128(5);
    assert Pow128(5) == 128 * 128 * 128 * 128 * 128;
    VarintFits(n, 10);
  }

  /** What Varint writes, ReadVarint reads back, whatever follows it. */
  lemma {:induction false} ReadBackVarint(n: nat, k: nat, t: bytes)
    requires |Varint(n)| <= k
    ensures ReadVarint(Varint(n) + t, k) == Got(n, t)
  {
    var s := Varint(n) + t;
    if n >= 128 {
      assert s[1..] == Varint(n / 128) + t;
      ReadBackVarint(n / 128, k - 1, t);
    } else {
      assert s[1..] == t;
    }
  }

  lemma {:induction false} ReadVarintExtends(s: bytes, k: nat, t: bytes)
    requires ReadVarint(s, k).Got?
    ensures ReadVarint(s + t, k) == Got(ReadVarint(s, k).value, ReadVarint(s, k).rest + t)
  {
    assert (s + t)[1..] == s[1..] + t;
    if s[0] >= 128 {
      ReadVarintExtends(s[1..], k - 1, t);
    }
  }

  // ------------------------------------------------- signed 32-bit integers

  /** int32 values are sign-extended to 64 bits before they are written. */
  function SignExtend(i: int32): (u: nat)
    ensures u < TWO_64
  {
    if i >= 0 then i else i + TWO_64
  }

  /** ... and the low 32 bits are kept when they are read. */
  function ToInt32(u: int): int32 {
    var w := u % TWO_32;
    if w < TWO_31 then w else w - TWO_32
  }

  lemma Int32RoundTrip(i: int32)
    ensures ToInt32(SignExtend(i)) == i
  {
    if i < 0 {
      assert (i + TWO_64) % TWO_32 == i + TWO_32;
    }
  }

  // ---------------------------------------------------------------- records

  datatype Payload =
    | VarintP(v: nat)
    | Fixed64P(b: bytes)
    | LenP(b: bytes)
    | Fixed32P(b: bytes)

  datatype Record = Record(num: nat, payload: Payload)

  function WireType(p: Payload): nat {
    match p
    case VarintP(_) => 0
    case Fixed64P(_) => 1
    case LenP(_) => 2
    case Fixed32P(_) => 5
  }

  predicate RecordOk(r: Record) {
    && 1 <= r.num <= MAX_FIELD_NUMBER
    && match r.payload
       case VarintP(v) => v < TWO_64
       case Fixed64P(b) => |b| == 8
       case LenP(b) => |b| <= INT_MAX
       case Fixed32P(b) => |b| == 4
  }

  function EncodePayload(p: Payload): bytes {
    match p
    case VarintP(v) => Varint(v)
    case Fixed64P(b) => b
    case LenP(b) => Varint(|b|) + b
    case Fixed32P(b) => b
  }

  function EncodeRecord(r: Record): (s: bytes)
    ensures s != []
  {
    Varint(8 * r.num + WireType(r.payload)) + EncodePayload(r.payload)
  }

  function EncodeRecords(rs: seq<Record>): bytes {
    if rs == [] then [] else EncodeRecord(rs[0]) + EncodeRecords(rs[1..])
  }

  lemma {:induction false} EncodeRecordsConcat(a: seq<Record>, b: seq<Record>)
    ensures EncodeRecords(a + b) == EncodeRecords(a) + EncodeRecords(b)
  {
    if a == [] {
      assert a + b == b;
    } else {
      assert (a + b)[1..] == a[1..] + b;
      EncodeRecordsConcat(a[1..], b);
    }
  }

  /**
   One turn of a parse loop, before the message looks at the record.
   `NoTag`: the tag reader answers 0, for a zero tag and for a tag that cannot
   be read.  `Malformed`: the loop fails.
   */
  datatype Step =
    | End
    | NoTag
    | Malformed
    | Next(record: Record, rest: bytes)

  function ReadPayload(num: nat, wireType: nat, s: bytes): (st: Step)
    ensures st.End? || st.NoTag? ==> false
    ensures st.Next? ==> |st.rest| <= |s| && st.rest == s[|s| - |st.rest|..]
    ensures st.Next? ==> st.record.num == num && WireType(st.record.payload) == wireType
    ensures st.Next? && 1 <= num <= MAX_FIELD_NUMBER ==> RecordOk(st.record)
    ensures st.Next? && st.record.payload.LenP? ==> |st.record.payload.b| <= |s|
  {
    if wireType == 0 then
      match ReadVarint(s, MAX_VARINT_BYTES)
      case Bad => Malformed
      case Got(v, rest) => Next(Record(num, VarintP(v % TWO_64)), rest)
    else if wireType == 1 then
      if |s| < 8 then Malformed else Next(Record(num, Fixed64P(s[..8])), s[8..])
    else if wireType == 2 then
      match ReadVarint(s, MAX_VARINT_BYTES)
      case Bad => Malformed
      case Got(v, rest) =>
        var n := v % TWO_64;
        if n > INT_MAX || n > |rest| then Malformed
        else Next(Record(num, LenP(rest[..n])), rest[n..])
    else if wireType == 5 then
      if |s| < 4 then Malformed else Next(Record(num, Fixed32P(s[..4])), s[4..])
    else Malformed
  }

  function ReadRecord(s: bytes): (st: Step)
    ensures st.End? <==> s == []
    ensures st.Next? ==> |st.rest| < |s| && st.rest == s[|s| - |st.rest|..]
    ensures st.Next? ==> RecordOk(st.record)
    ensures st.Next? && st.record.payload.LenP? ==> |st.record.payload.b| < |s|
  {
    if s == [] then End else AfterTag(ReadVarint(s, MAX_VARINT_BYTES))
  }

  /** Only 32 bits of a tag are kept; a field number is not 0. */
  function AfterTag(o: Read<nat>): (st: Step)
    ensures !st.End?
    ensures st.Next? ==> o.Got? && |st.rest| <= |o.rest| && st.rest == o.rest[|o.rest| - |st.rest|..]
    ensures st.Next? ==> RecordOk(st.record)
    ensures st.Next? && st.record.payload.LenP? ==> |st.record.payload.b| <= |o.rest|
  {
    match o
    case Bad => NoTag
    case Got(t, rest) =>
      var tag := t % TWO_32;
      if tag == 0 then NoTag
      else if tag / 8 == 0 then Malformed
      else ReadPayload(tag / 8, tag % 8, rest)
  }

  lemma ReadBackVarintPayload(num: nat, v: nat, t: bytes)
    requires v < TWO_64
    ensures ReadPayload(num, 0, Varint(v) + t) == Next(Record(num, VarintP(v)), t)
  {
    hide ReadVarint, Varint;
    VarintFits64(v);
    ReadBackVarint(v, MAX_VARINT_BYTES, t);
  }

  lemma ReadLenPayload(num: nat, s: bytes, b: bytes, t: bytes)
    requires |b| <= INT_MAX && ReadVarint(s, MAX_VARINT_BYTES) == Got(|b|, b + t)
    ensures ReadPayload(num, 2, s) == Next(Record(num, LenP(b)), t)
  {
    hide ReadVarint;
    assert (b + t)[..|b|] == b && (b + t)[|b|..] == t;
  }

  /** A length-delimited payload: a length that fits, and as many bytes. */
  lemma LenPayload(num: nat, s: bytes)
    ensures var st := ReadPayload(num, 2, s);
            match ReadVarint(s, MAX_VARINT_BYTES)
            case Bad => !st.Next?
            case Got(v, rest) =>
              var n := v % TWO_64;
              if n <= INT_MAX && n <= |rest| then st == Next(Record(num, LenP(rest[..n])), rest[n..]) else !st.Next?
  {
    hide ReadVarint;
  }

  lemma ReadBackLenPayload(num: nat, b: bytes, t: bytes)
    requires |b| <= INT_MAX
    ensures ReadPayload(num, 2, Varint(|b|) + b + t) == Next(Record(num, LenP(b)), t)
  {
    hide ReadVarint, Varint, ReadPayload;
    VarintFits64(|b|);
    ReadBackVarint(|b|, MAX_VARINT_BYTES, b + t);
    assert Varint(|b|) + b + t == Varint(|b|) + (b + t);
    ReadLenPayload(num, Varint(|b|) + b + t, b, t);
  }

  lemma ReadBackPayload(r: Record, t: bytes)
    requires RecordOk(r)
    ensures ReadPayload(r.num, WireType(r.payload), EncodePayload(r.payload) + t) == Next(r, t)
  {
    match r.payload
    case VarintP(v) => ReadBackVarintPayload(r.num, v, t);
    case LenP(b) => ReadBackLenPayload(r.num, b, t);
    case Fixed64P(b) => assert (b + t)[..8] == b && (b + t)[8..] == t;
    case Fixed32P(b) => assert (b + t)[..4] == b && (b + t)[4..] == t;
  }

  lemma TagParts(num: nat, wireType: nat)
    requires wireType < 8
    ensures (8 * num + wireType) / 8 == num && (8 * num + wireType) % 8 == wireType
  {
  }

  lemma AfterTagParts(num: nat, wireType: nat, t: nat, rest: bytes)
    requires num > 0 && wireType < 8 && t % TWO_32 == 8 * num + wireType
    ensures AfterTag(Got(t, rest)) == ReadPayload(num, wireType, rest)
  {
    TagParts(num, wireType);
  }

  lemma ReadBackTag(num: nat, wireType: nat, t: bytes)
    requires 1 <= num <= MAX_FIELD_NUMBER && wireType < 8
    ensures ReadRecord(Varint(8 * num + wireType) + t) == ReadPayload(num, wireType, t)
  {
    var tag := 8 * num + wireType;
    VarintFits64(tag);
    ReadBackVarint(tag, MAX_VARINT_BYTES, t);
    AfterTagParts(num, wireType, tag, t);
  }

  /** Every well-formed record is read back from its encoding. */
  lemma ReadBackRecord(r: Record, t: bytes)
    requires RecordOk(r)
    ensures ReadRecord(EncodeRecord(r) + t) == Next(r, t)
  {
    var tail := EncodePayload(r.payload) + t;
    assert EncodeRecord(r) + t == Varint(8 * r.num + WireType(r.payload)) + tail;
    ReadBackTag(r.num, WireType(r.payload), tail);
    ReadBackPayload(r, t);
  }

  /** A record that was read does not depend on what follows it. */
  lemma ReadRecordExtends(s: bytes, t: bytes)
    requires ReadRecord(s).Next?
    ensures ReadRecord(s + t) == Next(ReadRecord(s).record, ReadRecord(s).rest + t)
  {
    ReadVarintExtends(s, MAX_VARINT_BYTES, t);
    AfterTagExtends(ReadVarint(s, MAX_VARINT_BYTES), t);
  }

  lemma AfterTagExtends(o: Read<nat>, t: bytes)
    requires AfterTag(o).Next?
    ensures AfterTag(Got(o.value, o.rest + t)) == Next(AfterTag(o).record, AfterTag(o).rest + t)
  {
    var tag := o.value % TWO_32;
    ReadPayloadExtends(tag / 8, tag % 8, o.rest, t);
  }

  lemma ReadPayloadExtends(num: nat, wireType: nat, s: bytes, t: bytes)
    requires ReadPayload(num, wireType, s).Next?
    ensures ReadPayload(num, wireType, s + t)
            == Next(ReadPayload(num, wireType, s).record, ReadPayload(num, wireType, s).rest + t)
  {
    hide ReadVarint;
    var st := ReadPayload(num, wireType, s);
    if wireType == 0 {
      ReadVarintExtends(s, MAX_VARINT_BYTES, t);
    } else if wireType == 2 {
      ReadVarintExtends(s, MAX_VARINT_BYTES, t);
      var rest := ReadVarint(s, MAX_VARINT_BYTES).rest;
      var n := |st.record.payload.b|;
      assert (rest + t)[..n] == rest[..n] && (rest + t)[n..] == rest[n..] + t;
    } else if wireType == 1 {
      assert (s + t)[..8] == s[..8] && (s + t)[8..] == s[8..] + t;
    } else {
      assert (s + t)[..4] == s[..4] && (s + t)[4..] == s[4..] + t;
    }
  }

  // ---------------------------------------------------------------- splicing

  /** `s` with `data` in place of its bytes from `at` on. */
  function Splice(s: bytes, at: nat, data: bytes): bytes
    requires at + |data| <= |s|
  {
    s[..at] + data + s[at + |data|..]
  }

  /** Two stores in a row are one store of both. */
  lemma SpliceTwice(s: bytes, at: nat, a: bytes, b: bytes)
    requires at + |a| + |b| <= |s|
    ensures |Splice(s, at, a)| == |s|
    ensures Splice(Splice(s, at, a), at + |a|, b) == Splice(s, at, a + b)
  {
  }

  lemma SpliceInside(b: bytes, off: nat, len: nat, at: nat, data: bytes)
    requires off + len <= |b| && at + |data| <= len
    ensures Splice(b, off + at, data)[off..off + len] == Splice(b[off..off + len], at, data)
  {
  }

  lemma SpliceAppend(s: bytes, at: nat, data: bytes)
    requires at + |data| <= |s|
    ensures |Splice(s, at, data)| == |s|
    ensures Splice(s, at, data)[..at + |data|] == s[..at] + data
  {
  }

  lemma SpliceConcat(p: bytes, s: bytes, at: nat, data: bytes)
    requires at + |data| <= |s|
    ensures p + Splice(s, at, data) == Splice(p + s, |p| + at, data)
  {
  }
}

/**
 What the written bytes are, stated without the functions that write them: varints are as
 short as possible, negative numbers are two's complement in 64 bits, and each kind of
 field has its one-byte tag.
 */
module Encodings {
  import opened Wire
  import opened Messages
  import opened CachedSizes
  import opened ParseSteps
  import opened Acceptance

  // ---------------------------------------------------------------- varints

  /** A varint is written as one by the grammar, for its number. */
  lemma {:induction false} VarintIsVarint(n: nat)
    requires |Varint(n)| <= 10
    ensures IsVarint(Varint(n)) && VarintValue(Varint(n)) == n
  {
    hide IsVarint;
    VarintFront(Varint(n));
    if n >= 128 {
      VarintIsVarint(n / 128);
      assert Varint(n)[1..] == Varint(n / 128);
    } else {
      assert Varint(n)[1..] == [];
    }
  }

  /** No varint of that number is shorter. */
  lemma {:induction false} VarintIsShortest(n: nat, s: bytes)
    requires IsVarint(s) && VarintValue(s) == n
    ensures |Varint(n)| <= |s|
  {
    hide IsVarint;
    VarintFront(s);
    if |s| > 1 {
      VarintIsShortest(n / 128, s[1..]);
    } else {
      assert VarintValue(s[1..]) == 0;
    }
  }

  // ---------------------------------------------------------------- integers

  /** What a reader of a 64-bit number takes the varint for. */
  function ToInt64(u: nat): int {
    if u < 0x8000_0000_0000_0000 then u else u - 0x1_0000_0000_0000_0000
  }

  /** A reader of 64-bit numbers gets the number that was written. */
  lemma SignExtendIs(i: int32)
    ensures ToInt64(SignExtend(i)) == i
  {
  }

  /** A reader of 32-bit numbers gets the one that differs by a multiple of 2 to the 32. */
  lemma ToInt32Is(u: int)
    ensures (u - ToInt32(u)) % 0x1_0000_0000 == 0
  {
  }

  lemma {:induction false} VarintExceeds(n: nat, k: nat)
    requires n >= Pow128(k)
    ensures |Varint(n)| > k
  {
    if k > 0 {
      VarintExceeds(n / 128, k - 1);
    }
  }

  lemma TenGroups(n: nat)
    requires 0x8000_0000_0000_0000 <= n < TWO_64
    ensures |Varint(n)| == 10
  {
    hide Varint;
    assert Pow128(9) == 128 * 128 * 128 * 128 * 128 * Pow128(4);
    assert Pow128(4) == 128 * 128 * 128 * 128;
    VarintExceeds(n, 9);
    VarintFits64(n);
  }

  // ------------------------------------------------------------------ fields

  lemma Grouped(a: bytes, b: bytes, c: bytes)
    ensures a + (b + c) == a + b + c
  {
  }

  /** A record: the tag with its wire type, then the payload, with its length if that is not fixed. */
  lemma RecordIs(r: Record)
    ensures EncodeRecord(r) ==
            match r.payload
            case VarintP(v) => Varint(8 * r.num) + Varint(v)
            case Fixed64P(b) => Varint(8 * r.num + 1) + b
            case LenP(b) => Varint(8 * r.num + 2) + Varint(|b|) + b
            case Fixed32P(b) => Varint(8 * r.num + 5) + b
  {
    hide Varint;
    if r.payload.LenP? {
      Grouped(Varint(8 * r.num + 2), Varint(|r.payload.b|), r.payload.b);
    }
  }

  lemma OneByte(n: nat)
    requires n < 128
    ensures Varint(n) == [n]
  {
  }

  /** An int32 field: nothing for 0, else the tag and the number in two's complement; eleven bytes if negative. */
  lemma Int32FieldIs(num: nat, i: int32)
    requires 1 <= num < 16
    ensures i == 0 ==> EncodeField(num, IntV(i)) == []
    ensures i > 0 ==> EncodeField(num, IntV(i)) == [8 * num] + Varint(i)
    ensures i < 0 ==> EncodeField(num, IntV(i)) == [8 * num] + Varint(0x1_0000_0000_0000_0000 + i)
                      && |EncodeField(num, IntV(i))| == 11
  {
    hide Varint, EncodeField;
    EncodeInt(num, i);
    OneByte(8 * num);
    if i < 0 {
      TenGroups(0x1_0000_0000_0000_0000 + i);
    }
  }

  /** A string field: nothing if it is empty, else the tag, the length and the bytes. */
  lemma StringFieldIs(num: nat, s: bytes)
    requires 1 <= num < 16
    ensures EncodeField(num, StrV(s)) == if s == [] then [] else [8 * num + 2] + Varint(|s|) + s
  {
    hide Varint, EncodeField, EncodeRecord;
    EncodeString(num, s);
    RecordIs(Record(num, LenP(s)));
    OneByte(8 * num + 2);
  }

  /** A submessage field: nothing if it is absent; a present one is written also when it is empty. */
  lemma MessageFieldIs(num: nat, m: Value)
    requires 1 <= num < 16
    ensures EncodeField(num, NoMsg) == []
    ensures EncodeField(num, MsgV(m)) == [8 * num + 2] + Varint(|Encode(m)|) + Encode(m)
  {
    hide Encode, Varint, EncodeField;
    EncodeNoMessage(num);
    EncodeSubmessage(num, m);
    OneByte(8 * num + 2);
  }

  // ---------------------------------------------------------------- examples

  /** Points, byte by byte; 150 in field 1 is the first example of the encoding's documentation. */
  lemma PointBytes()
    ensures Encode(Value([IntV(150), IntV(0)], [])) == [0x08, 0x96, 0x01]
    ensures Encode(Value([IntV(-1), IntV(2)], []))
            == [0x08, 0xFF, 0xFF, 0xFF, 0xFF, 0xFF, 0xFF, 0xFF, 0xFF, 0xFF, 0x01, 0x10, 0x02]
  {
    hide Varint, EncodeField, Encode;
    NoUnknown([IntV(150), IntV(0)]);
    Int32FieldIs(1, 150);
    Int32FieldIs(2, 0);
    Groups150();
    NoUnknown([IntV(-1), IntV(2)]);
    Int32FieldIs(1, -1);
    Int32FieldIs(2, 2);
    MinusOneGroups();
    OneByte(2);
  }

  lemma NoUnknown(fs: seq<Field>)
    requires |fs| == 2
    ensures Encode(Value(fs, [])) == EncodeField(1, fs[0]) + EncodeField(2, fs[1])
  {
    hide EncodeField;
    EncodeTwo(Value(fs, []));
    assert EncodeRecords([]) == [];
  }

  lemma Groups150()
    ensures Varint(150) == [0x96, 0x01]
  {
    assert Varint(1) == [1];
  }

  lemma MinusOneGroups()
    ensures Varint(0xFFFF_FFFF_FFFF_FFFF) == [0xFF, 0xFF, 0xFF, 0xFF, 0xFF, 0xFF, 0xFF, 0xFF, 0xFF, 0x01]
  {
    assert Varint(1) == [1];
    assert Varint(0x1FFFF) == [0xFF, 0xFF, 7];
    assert Varint(0x1FF_FFFF_FFFF) == [0xFF, 0xFF, 0xFF, 0xFF, 0xFF, 0x3F];
  }
}

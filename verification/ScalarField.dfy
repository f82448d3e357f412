/** The generated code for one int32 or string field: nothing is written for a default value. */
module ScalarField {
  import opened Wire
  import opened Messages
  import opened CachedSizes
  import opened ParseSteps
  import opened CodedOutput
  import opened WireFormat

  method SerializeInt32Field(num: nat, v: int32, output: CodedOutputStream)
    requires output.Valid()
    modifies output.Repr()
    ensures output.Valid() && fresh(output.Repr() - old(output.Repr()))
    ensures output.Written() == old(output.Written()) + EncodeField(num, IntV(v))
  {
    hide CodedOutputStream.Valid, CodedOutputStream.Written, EncodeField, EncodeRecord;
    EncodeInt(num, v);
    if v != 0 {
      WriteInt32(num, v, output);
    }
  }

  method SerializeStringField(num: nat, s: bytes, output: CodedOutputStream)
    requires output.Valid()
    modifies output.Repr()
    ensures output.Valid() && fresh(output.Repr() - old(output.Repr()))
    ensures output.Written() == old(output.Written()) + EncodeField(num, StrV(s))
  {
    hide CodedOutputStream.Valid, CodedOutputStream.Written, EncodeField, EncodeRecord;
    EncodeString(num, s);
    if |s| > 0 {
      WriteString(num, s, output);
    }
  }

  method SerializeInt32FieldToArray(num: nat, v: int32, target: array<byte>, at: nat) returns (end: nat)
    requires at + |EncodeField(num, IntV(v))| <= target.Length
    modifies target
    ensures var data := EncodeField(num, IntV(v));
            end == at + |data| && target[..] == Splice(old(target[..]), at, data)
  {
    hide EncodeField, EncodeRecord, Splice;
    EncodeInt(num, v);
    SpliceNothing(target[..], at);
    end := at;
    if v != 0 {
      end := WriteInt32ToArray(num, v, target, at);
    }
  }

  method SerializeStringFieldToArray(num: nat, s: bytes, target: array<byte>, at: nat) returns (end: nat)
    requires at + |EncodeField(num, StrV(s))| <= target.Length
    modifies target
    ensures var data := EncodeField(num, StrV(s));
            end == at + |data| && target[..] == Splice(old(target[..]), at, data)
  {
    hide EncodeField, EncodeRecord, Splice;
    EncodeString(num, s);
    SpliceNothing(target[..], at);
    end := at;
    if |s| > 0 {
      end := WriteStringToArray(num, s, target, at);
    }
  }

  /** The bytes an int32 field adds to the size of a message. */
  function Int32FieldSize(num: nat, v: int32): (n: nat)
    requires 1 <= num < 16
    ensures n == |EncodeField(num, IntV(v))|
  {
    EncodeInt(num, v);
    assert Varint(8 * num) == [8 * num];
    if v != 0 then 1 + VarintSize(SignExtend(v)) else 0
  }

  function StringFieldSize(num: nat, s: bytes): (n: nat)
    requires 1 <= num < 16
    ensures n == |EncodeField(num, StrV(s))|
  {
    EncodeString(num, s);
    assert Varint(8 * num + 2) == [8 * num + 2];
    if |s| > 0 then 1 + VarintSize(|s|) + |s| else 0
  }
}

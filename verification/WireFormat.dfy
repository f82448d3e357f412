/**
 The library's writers for single fields, to a stream and to an array.  Both put the
 same bytes.
 */
module WireFormat {
  import opened Wire
  import opened CodedOutput

  // ---------------------------------------------------------------- streams

  method WriteInt32(num: nat, v: int32, output: CodedOutputStream)
    requires output.Valid()
    modifies output.Repr()
    ensures output.Valid() && fresh(output.Repr() - old(output.Repr()))
    ensures output.Written() == old(output.Written()) + EncodeRecord(Record(num, VarintP(SignExtend(v))))
  {
    WriteRecord(Record(num, VarintP(SignExtend(v))), output);
  }

  method WriteString(num: nat, s: bytes, output: CodedOutputStream)
    requires output.Valid()
    modifies output.Repr()
    ensures output.Valid() && fresh(output.Repr() - old(output.Repr()))
    ensures output.Written() == old(output.Written()) + EncodeRecord(Record(num, LenP(s)))
  {
    WriteRecord(Record(num, LenP(s)), output);
  }

  /** The tag and the length before a submessage. */
  method WriteLengthPrefix(num: nat, n: nat, output: CodedOutputStream)
    requires output.Valid()
    modifies output.Repr()
    ensures output.Valid() && fresh(output.Repr() - old(output.Repr()))
    ensures output.Written() == old(output.Written()) + (Varint(8 * num + 2) + Varint(n))
  {
    hide CodedOutputStream.Valid, CodedOutputStream.Written, Varint;
    output.WriteVarint(8 * num + 2);
    output.WriteVarint(n);
  }

  method WriteRecord(r: Record, output: CodedOutputStream)
    requires output.Valid()
    modifies output.Repr()
    ensures output.Valid() && fresh(output.Repr() - old(output.Repr()))
    ensures output.Written() == old(output.Written()) + EncodeRecord(r)
  {
    hide CodedOutputStream.Valid, CodedOutputStream.Written, Varint;
    ghost var before := output.Written();
    output.WriteVarint(8 * r.num + WireType(r.payload));
    match r.payload {
      case VarintP(v) =>
        output.WriteVarint(v);
      case LenP(b) =>
        output.WriteVarint(|b|);
        output.WriteRaw(b);
      case Fixed64P(b) =>
        output.WriteRaw(b);
      case Fixed32P(b) =>
        output.WriteRaw(b);
    }
    assert output.Written() == before + EncodeRecord(r);
  }

  method SerializeUnknownFields(us: seq<Record>, output: CodedOutputStream)
    requires output.Valid()
    modifies output.Repr()
    ensures output.Valid() && fresh(output.Repr() - old(output.Repr()))
    ensures output.Written() == old(output.Written()) + EncodeRecords(us)
  {
    hide CodedOutputStream.Valid, CodedOutputStream.Written, EncodeRecord, EncodeRecords;
    EncodeNone();
    assert us[..0] == [];
    for i := 0 to |us|
      invariant output.Valid() && fresh(output.Repr() - old(output.Repr()))
      invariant output.Written() == old(output.Written()) + EncodeRecords(us[..i])
    {
      WriteRecord(us[i], output);
      EncodeSnoc(us, i);
    }
    assert us[..|us|] == us;
  }

  // ----------------------------------------------------------------- arrays

  method PutRaw(data: bytes, target: array<byte>, at: nat) returns (end: nat)
    requires at + |data| <= target.Length
    modifies target
    ensures end == at + |data| && target[..] == Splice(old(target[..]), at, data)
  {
    forall i | 0 <= i < |data| {
      target[at + i] := data[i];
    }
    end := at + |data|;
  }

  method WriteInt32ToArray(num: nat, v: int32, target: array<byte>, at: nat) returns (end: nat)
    requires at + |EncodeRecord(Record(num, VarintP(SignExtend(v))))| <= target.Length
    modifies target
    ensures var data := EncodeRecord(Record(num, VarintP(SignExtend(v))));
            end == at + |data| && target[..] == Splice(old(target[..]), at, data)
  {
    end := WriteRecordToArray(Record(num, VarintP(SignExtend(v))), target, at);
  }

  method WriteStringToArray(num: nat, s: bytes, target: array<byte>, at: nat) returns (end: nat)
    requires at + |EncodeRecord(Record(num, LenP(s)))| <= target.Length
    modifies target
    ensures var data := EncodeRecord(Record(num, LenP(s)));
            end == at + |data| && target[..] == Splice(old(target[..]), at, data)
  {
    end := WriteRecordToArray(Record(num, LenP(s)), target, at);
  }

  method WriteLengthPrefixToArray(num: nat, n: nat, target: array<byte>, at: nat) returns (end: nat)
    requires at + |Varint(8 * num + 2) + Varint(n)| <= target.Length
    modifies target
    ensures var data := Varint(8 * num + 2) + Varint(n);
            end == at + |data| && target[..] == Splice(old(target[..]), at, data)
  {
    hide Varint, Splice;
    SpliceTwice(target[..], at, Varint(8 * num + 2), Varint(n));
    end := PutRaw(Varint(8 * num + 2), target, at);
    end := PutRaw(Varint(n), target, end);
  }

  method WriteRecordToArray(r: Record, target: array<byte>, at: nat) returns (end: nat)
    requires at + |EncodeRecord(r)| <= target.Length
    modifies target
    ensures end == at + |EncodeRecord(r)| && target[..] == Splice(old(target[..]), at, EncodeRecord(r))
  {
    hide Varint, Splice;
    var tag := Varint(8 * r.num + WireType(r.payload));
    SpliceTwice(target[..], at, tag, EncodePayload(r.payload));
    end := PutRaw(tag, target, at);
    match r.payload {
      case VarintP(v) =>
        end := PutRaw(Varint(v), target, end);
      case LenP(b) =>
        SpliceTwice(target[..], end, Varint(|b|), b);
        end := PutRaw(Varint(|b|), target, end);
        end := PutRaw(b, target, end);
      case Fixed64P(b) =>
        end := PutRaw(b, target, end);
      case Fixed32P(b) =>
        end := PutRaw(b, target, end);
    }
  }

  method SerializeUnknownFieldsToArray(us: seq<Record>, target: array<byte>, at: nat) returns (end: nat)
    requires at + |EncodeRecords(us)| <= target.Length
    modifies target
    ensures end == at + |EncodeRecords(us)| && target[..] == Splice(old(target[..]), at, EncodeRecords(us))
  {
    hide EncodeRecord, EncodeRecords, Splice;
    EncodeNone();
    assert us[..0] == [];
    SpliceNothing(target[..], at);
    end := at;
    for i := 0 to |us|
      invariant end == at + |EncodeRecords(us[..i])| <= target.Length
      invariant target[..] == Splice(old(target[..]), at, EncodeRecords(us[..i]))
    {
      EncodeSnoc(us, i);
      EncodePrefix(us, i + 1);
      SpliceTwice(old(target[..]), at, EncodeRecords(us[..i]), EncodeRecord(us[i]));
      end := WriteRecordToArray(us[i], target, end);
    }
    assert us[..|us|] == us;
  }

  // ----------------------------------------------------------------- lemmas

  lemma SpliceNothing(s: bytes, at: nat)
    requires at <= |s|
    ensures Splice(s, at, []) == s
  {
  }

  lemma EncodeNone()
    ensures EncodeRecords([]) == []
  {
  }

  lemma EncodeSnoc(us: seq<Record>, i: nat)
    requires i < |us|
    ensures EncodeRecords(us[..i + 1]) == EncodeRecords(us[..i]) + EncodeRecord(us[i])
  {
    assert us[..i + 1] == us[..i] + [us[i]];
    EncodeRecordsConcat(us[..i], [us[i]]);
    assert [us[i]][1..] == [];
    assert EncodeRecords([us[i]]) == EncodeRecord(us[i]) + EncodeRecords([us[i]][1..]);
  }

  lemma EncodePrefix(us: seq<Record>, i: nat)
    requires i <= |us|
    ensures |EncodeRecords(us[..i])| <= |EncodeRecords(us)|
  {
    assert us == us[..i] + us[i..];
    EncodeRecordsConcat(us[..i], us[i..]);
  }
}

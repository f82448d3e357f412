/** The generated class of message Point. */
module PointMessage {
  import opened Wire
  import opened Wrappers
  import opened Messages
  import opened MessageTheorems
  import opened CachedSizes
  import opened ParseSteps
  import opened CodedInput
  import opened CodedOutput
  import opened FieldReader
  import opened WireFormat
  import opened ScalarField

  class Point {
    var latitude: int32
    var longitude: int32
    var unknownFields: seq<Record>
    var cachedSize: nat

    ghost function Value(): Value
      reads this`latitude, this`longitude, this`unknownFields
    {
      Messages.Value([IntV(latitude), IntV(longitude)], unknownFields)
    }

    ghost predicate Valid()
      reads this`latitude, this`longitude, this`unknownFields
    {
      Typed(POINT, Value())
    }

    constructor ()
      ensures Valid() && Value() == Default(POINT) && cachedSize == 0
    {
      latitude, longitude := 0, 0;
      unknownFields := [];
      cachedSize := 0;
    }

    method Clear()
      modifies this`latitude, this`longitude, this`unknownFields
      ensures Valid() && Value() == Default(POINT)
    {
      latitude, longitude := 0, 0;
      unknownFields := [];
    }

    method MergeFrom(from: Point)
      requires Valid() && from.Valid() && from != this
      modifies this`latitude, this`longitude, this`unknownFields
      ensures Valid() && Value() == Merge(old(Value()), from.Value())
    {
      MergeTyped(POINT, Value(), from.Value());
      MergeTwo(Value(), from.Value());
      unknownFields := unknownFields + from.unknownFields;
      if from.latitude != 0 {
        latitude := from.latitude;
      }
      if from.longitude != 0 {
        longitude := from.longitude;
      }
    }

    method CopyFrom(from: Point)
      requires from.Valid()
      modifies this`latitude, this`longitude, this`unknownFields
      ensures Valid() && Value() == old(from.Value())
    {
      if from == this {
        return;
      }
      Clear();
      MergeFrom(from);
      MergeIdentity(POINT, from.Value());
    }

    /** One turn of the loop: the switch on the tag read from the front of `s`. */
    method ReadField(input: CodedInputStream, tag: nat, ghost s: bytes) returns (turn: Turn)
      requires Valid() && input.Valid() && input.TagRead(tag, s)
      modifies this`latitude, this`longitude, this`unknownFields, input, input.reader
      ensures Valid() && input.Valid() && input.limit == old(input.limit)
      ensures Turned(turn, Parse(POINT, old(Value()), s), Parse(POINT, Value(), input.Visible()),
                     input.legitimateEnd, Value())
      ensures turn.More? ==> |input.Visible()| < |s|
      ensures input.legitimateEnd ==> input.Visible() == []
    {
      hide Parse, Typed, CodedInputStream.Valid, CodedInputStream.Visible, ReadPayload, ReadRecord, ToInt32;
      turn := More;
      if 1 <= tag <= 127 && tag / 8 == 1 && tag == 8 {
        var v := ReadInt32Field(input, POINT, Value(), 0, s);
        if v == None {
          return Broken;
        }
        assert Value().fields[0 := IntV(v.value)] == [IntV(v.value), IntV(longitude)];
        latitude := v.value;
      } else if 1 <= tag <= 127 && tag / 8 == 2 && tag == 16 {
        var v := ReadInt32Field(input, POINT, Value(), 1, s);
        if v == None {
          return Broken;
        }
        assert Value().fields[1 := IntV(v.value)] == [IntV(latitude), IntV(v.value)];
        longitude := v.value;
      } else {
        if tag == 0 {
          if input.legitimateEnd {
            ParseEnd(POINT, Value());
          } else {
            ParseNoTag(POINT, Value(), s);
          }
          return Done;
        }
        var r := ReadUnknownField(input, POINT, Value(), tag, s);
        if r == None {
          return Broken;
        }
        unknownFields := unknownFields + [r.value];
      }
    }

    method MergePartialFromCodedStream(input: CodedInputStream) returns (ok: bool)
      requires Valid() && input.Valid() && !input.legitimateEnd
      modifies this`latitude, this`longitude, this`unknownFields, input, input.reader
      ensures Valid() && input.Valid() && input.limit == old(input.limit)
      ensures Ended(Parse(POINT, old(Value()), old(input.Visible())), ok, input.legitimateEnd, Value())
      ensures input.legitimateEnd ==> input.Visible() == []
    {
      hide Parse, Typed, CodedInputStream.Valid, CodedInputStream.Visible, ReadPayload, ReadRecord, ToInt32;
      while true
        invariant Valid() && input.Valid() && !input.legitimateEnd && input.limit == old(input.limit)
        invariant Parse(POINT, Value(), input.Visible()) == Parse(POINT, old(Value()), old(input.Visible()))
        decreases |input.Visible()|
      {
        ghost var s := input.Visible();
        var tag := input.ReadTag();
        var turn := ReadField(input, tag, s);
        if turn != More {
          return turn == Done;
        }
      }
      ok := false;
    }

    /** The encoded length, stored for the serializers. */
    method ByteSizeLong() returns (total: nat)
      requires Valid()
      modifies this`cachedSize
      ensures total == cachedSize == |Encode(Value())|
    {
      hide EncodeField, EncodeRecords, Encode, Typed;
      EncodeTwo(Value());
      total := |EncodeRecords(unknownFields)|;
      total := total + Int32FieldSize(1, latitude);
      total := total + Int32FieldSize(2, longitude);
      cachedSize := total;
    }

    method SerializeWithCachedSizes(output: CodedOutputStream)
      requires Valid() && output.Valid() && this !in output.Repr()
      modifies output.Repr()
      ensures output.Valid() && fresh(output.Repr() - old(output.Repr()))
      ensures output.Written() == old(output.Written()) + Encode(Value())
    {
      hide CodedOutputStream.Valid, CodedOutputStream.Written;
      hide EncodeField, EmitField, EncodeRecords, Encode, Emit, Typed;
      ghost var before := output.Written();
      ghost var a := EncodeField(1, IntV(latitude));
      ghost var b := EncodeField(2, IntV(longitude));
      EncodeTwo(Value());
      SerializeInt32Field(1, latitude, output);
      SerializeInt32Field(2, longitude, output);
      SerializeUnknownFields(unknownFields, output);
      assert output.Written() == before + (a + b + EncodeRecords(unknownFields));
    }

    method InternalSerializeWithCachedSizesToArray(target: array<byte>, at: nat) returns (end: nat)
      requires Valid() && at + |Encode(Value())| <= target.Length
      modifies target
      ensures end == at + |Encode(Value())| && target[..] == Splice(old(target[..]), at, Encode(Value()))
    {
      hide EncodeField, EmitField, EncodeRecords, Encode, Emit, Typed, Splice;
      ghost var before := target[..];
      ghost var a := EncodeField(1, IntV(latitude));
      ghost var b := EncodeField(2, IntV(longitude));
      EncodeTwo(Value());
      end := SerializeInt32FieldToArray(1, latitude, target, at);
      SpliceTwice(before, at, a, b);
      end := SerializeInt32FieldToArray(2, longitude, target, end);
      SpliceTwice(before, at, a + b, EncodeRecords(unknownFields));
      end := SerializeUnknownFieldsToArray(unknownFields, target, end);
    }
  }
}

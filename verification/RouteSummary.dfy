/** The generated class of message RouteSummary. */
module RouteSummaryMessage {
  import opened Wire
  import opened Wrappers
  import opened Messages
  import opened MessageTheorems
  import opened CachedSizes
  import opened ParseSteps
  import opened CodedInput
  import opened CodedOutput
  import opened FieldReader
  import opened WireFormat
  import opened ScalarField

  class RouteSummary {
    var pointCount: int32
    var featureCount: int32
    var distance: int32
    var elapsedTime: int32
    var unknownFields: seq<Record>
    var cachedSize: nat

    ghost function Value(): Value
      reads this`pointCount, this`featureCount, this`distance, this`elapsedTime, this`unknownFields
    {
      Messages.Value([IntV(pointCount), IntV(featureCount), IntV(distance), IntV(elapsedTime)], unknownFields)
    }

    ghost predicate Valid()
      reads this`pointCount, this`featureCount, this`distance, this`elapsedTime, this`unknownFields
    {
      Typed(ROUTE_SUMMARY, Value())
    }

    constructor ()
      ensures Valid() && Value() == Default(ROUTE_SUMMARY) && cachedSize == 0
    {
      pointCount, featureCount, distance, elapsedTime := 0, 0, 0, 0;
      unknownFields := [];
      cachedSize := 0;
    }

    method Clear()
      modifies this`pointCount, this`featureCount, this`distance, this`elapsedTime, this`unknownFields
      ensures Valid() && Value() == Default(ROUTE_SUMMARY)
    {
      pointCount, featureCount, distance, elapsedTime := 0, 0, 0, 0;
      unknownFields := [];
    }

    method MergeFrom(from: RouteSummary)
      requires Valid() && from.Valid() && from != this
      modifies this`pointCount, this`featureCount, this`distance, this`elapsedTime, this`unknownFields
      ensures Valid() && Value() == Merge(old(Value()), from.Value())
    {
      MergeTyped(ROUTE_SUMMARY, Value(), from.Value());
      MergeFour(Value(), from.Value());
      unknownFields := unknownFields + from.unknownFields;
      if from.pointCount != 0 {
        pointCount := from.pointCount;
      }
      if from.featureCount != 0 {
        featureCount := from.featureCount;
      }
      if from.distance != 0 {
        distance := from.distance;
      }
      if from.elapsedTime != 0 {
        elapsedTime := from.elapsedTime;
      }
    }

    method CopyFrom(from: RouteSummary)
      requires from.Valid()
      modifies this`pointCount, this`featureCount, this`distance, this`elapsedTime, this`unknownFields
      ensures Valid() && Value() == old(from.Value())
    {
      if from == this {
        return;
      }
      Clear();
      MergeFrom(from);
      MergeIdentity(ROUTE_SUMMARY, from.Value());
    }

    /** One turn of the loop: the switch on the tag read from the front of `s`. */
    method ReadField(input: CodedInputStream, tag: nat, ghost s: bytes) returns (turn: Turn)
      requires Valid() && input.Valid() && input.TagRead(tag, s)
      modifies this`pointCount, this`featureCount, this`distance, this`elapsedTime, this`unknownFields
      modifies input, input.reader
      ensures Valid() && input.Valid() && input.limit == old(input.limit)
      ensures Turned(turn, Parse(ROUTE_SUMMARY, old(Value()), s), Parse(ROUTE_SUMMARY, Value(), input.Visible()),
                     input.legitimateEnd, Value())
      ensures turn.More? ==> |input.Visible()| < |s|
      ensures input.legitimateEnd ==> input.Visible() == []
    {
      hide Parse, Typed, CodedInputStream.Valid, CodedInputStream.Visible, ReadPayload, ReadRecord, ToInt32;
      turn := More;
      if 1 <= tag <= 127 && tag / 8 == 1 && tag == 8 {
        var v := ReadInt32Field(input, ROUTE_SUMMARY, Value(), 0, s);
        if v == None {
          return Broken;
        }
        assert Value().fields[0 := IntV(v.value)]
               == [IntV(v.value), IntV(featureCount), IntV(distance), IntV(elapsedTime)];
        pointCount := v.value;
      } else if 1 <= tag <= 127 && tag / 8 == 2 && tag == 16 {
        var v := ReadInt32Field(input, ROUTE_SUMMARY, Value(), 1, s);
        if v == None {
          return Broken;
        }
        assert Value().fields[1 := IntV(v.value)]
               == [IntV(pointCount), IntV(v.value), IntV(distance), IntV(elapsedTime)];
        featureCount := v.value;
      } else if 1 <= tag <= 127 && tag / 8 == 3 && tag == 24 {
        var v := ReadInt32Field(input, ROUTE_SUMMARY, Value(), 2, s);
        if v == None {
          return Broken;
        }
        assert Value().fields[2 := IntV(v.value)]
               == [IntV(pointCount), IntV(featureCount), IntV(v.value), IntV(elapsedTime)];
        distance := v.value;
      } else if 1 <= tag <= 127 && tag / 8 == 4 && tag == 32 {
        var v := ReadInt32Field(input, ROUTE_SUMMARY, Value(), 3, s);
        if v == None {
          return Broken;
        }
        assert Value().fields[3 := IntV(v.value)]
               == [IntV(pointCount), IntV(featureCount), IntV(distance), IntV(v.value)];
        elapsedTime := v.value;
      } else {
        if tag == 0 {
          if input.legitimateEnd {
            ParseEnd(ROUTE_SUMMARY, Value());
          } else {
            ParseNoTag(ROUTE_SUMMARY, Value(), s);
          }
          return Done;
        }
        var r := ReadUnknownField(input, ROUTE_SUMMARY, Value(), tag, s);
        if r == None {
          return Broken;
        }
        unknownFields := unknownFields + [r.value];
      }
    }

    method MergePartialFromCodedStream(input: CodedInputStream) returns (ok: bool)
      requires Valid() && input.Valid() && !input.legitimateEnd
      modifies this`pointCount, this`featureCount, this`distance, this`elapsedTime, this`unknownFields
      modifies input, input.reader
      ensures Valid() && input.Valid() && input.limit == old(input.limit)
      ensures Ended(Parse(ROUTE_SUMMARY, old(Value()), old(input.Visible())), ok, input.legitimateEnd, Value())
      ensures input.legitimateEnd ==> input.Visible() == []
    {
      hide Parse, Typed, CodedInputStream.Valid, CodedInputStream.Visible, ReadPayload, ReadRecord, ToInt32;
      while true
        invariant Valid() && input.Valid() && !input.legitimateEnd && input.limit == old(input.limit)
        invariant Parse(ROUTE_SUMMARY, Value(), input.Visible())
                  == Parse(ROUTE_SUMMARY, old(Value()), old(input.Visible()))
        decreases |input.Visible()|
      {
        ghost var s := input.Visible();
        var tag := input.ReadTag();
        var turn := ReadField(input, tag, s);
        if turn != More {
          return turn == Done;
        }
      }
      ok := false;
    }

    /** The encoded length, stored for the serializers. */
    method ByteSizeLong() returns (total: nat)
      requires Valid()
      modifies this`cachedSize
      ensures total == cachedSize == |Encode(Value())|
    {
      hide EncodeField, EncodeRecords, Encode, Typed;
      EncodeFour(Value());
      total := |EncodeRecords(unknownFields)|;
      total := total + Int32FieldSize(1, pointCount);
      total := total + Int32FieldSize(2, featureCount);
      total := total + Int32FieldSize(3, distance);
      total := total + Int32FieldSize(4, elapsedTime);
      cachedSize := total;
    }

    method SerializeWithCachedSizes(output: CodedOutputStream)
      requires Valid() && output.Valid() && this !in output.Repr()
      modifies output.Repr()
      ensures output.Valid() && fresh(output.Repr() - old(output.Repr()))
      ensures output.Written() == old(output.Written()) + Encode(Value())
    {
      hide CodedOutputStream.Valid, CodedOutputStream.Written;
      hide EncodeField, EmitField, EncodeRecords, Encode, Emit, Typed;
      ghost var before := output.Written();
      ghost var a := EncodeField(1, IntV(pointCount));
      ghost var b := EncodeField(2, IntV(featureCount));
      ghost var c := EncodeField(3, IntV(distance));
      ghost var d := EncodeField(4, IntV(elapsedTime));
      EncodeFour(Value());
      SerializeInt32Field(1, pointCount, output);
      SerializeInt32Field(2, featureCount, output);
      SerializeInt32Field(3, distance, output);
      SerializeInt32Field(4, elapsedTime, output);
      SerializeUnknownFields(unknownFields, output);
      Appended(before, a, b, c, d, EncodeRecords(unknownFields));
    }

    method InternalSerializeWithCachedSizesToArray(target: array<byte>, at: nat) returns (end: nat)
      requires Valid() && at + |Encode(Value())| <= target.Length
      modifies target
      ensures end == at + |Encode(Value())| && target[..] == Splice(old(target[..]), at, Encode(Value()))
    {
      hide EncodeField, EmitField, EncodeRecords, Encode, Emit, Typed, Splice;
      ghost var before := target[..];
      ghost var a := EncodeField(1, IntV(pointCount));
      ghost var b := EncodeField(2, IntV(featureCount));
      ghost var c := EncodeField(3, IntV(distance));
      ghost var d := EncodeField(4, IntV(elapsedTime));
      EncodeFour(Value());
      end := SerializeInt32FieldToArray(1, pointCount, target, at);
      SpliceTwice(before, at, a, b);
      end := SerializeInt32FieldToArray(2, featureCount, target, end);
      SpliceTwice(before, at, a + b, c);
      end := SerializeInt32FieldToArray(3, distance, target, end);
      SpliceTwice(before, at, a + b + c, d);
      end := SerializeInt32FieldToArray(4, elapsedTime, target, end);
      SpliceTwice(before, at, a + b + c + d, EncodeRecords(unknownFields));
      end := SerializeUnknownFieldsToArray(unknownFields, target, end);
    }
  }
}

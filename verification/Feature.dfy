/** The generated class of message Feature. */
module FeatureMessage {
  import opened Wire
  import opened Wrappers
  import opened Messages
  import opened MessageTheorems
  import opened CachedSizes
  import opened ParseSteps
  import opened CodedInput
  import opened CodedOutput
  import opened FieldReader
  import opened WireFormat
  import opened ScalarField
  import opened PointMessage
  import opened PointField

  class Feature {
    var name: bytes
    var location: Point?
    var unknownFields: seq<Record>
    var cachedSize: nat

    ghost function Repr(): set<object>
      reads this
    {
      if location == null then {this} else {this, location}
    }

    ghost function Value(): Value
      reads this, location
    {
      Messages.Value([StrV(name), FieldOf(location)], unknownFields)
    }

    ghost predicate Valid()
      reads this, location
    {
      SchemaOk(FEATURE) && Typed(FEATURE, Value()) && (location != null ==> location.Valid())
    }

    /** The lengths that the serializers write before submessages. */
    ghost function Cached(): (c: seq<nat>)
      reads this, location
      ensures |c| == |Value().fields|
    {
      [0, CachedOf(location)]
    }

    /** The cached sizes of the submessages are their encoded lengths. */
    ghost predicate Fresh()
      reads this, location
    {
      location != null ==> location.cachedSize == |Encode(location.Value())|
    }

    /** What the serializers write, given the cached sizes found in the message. */
    ghost function Emitted(): bytes
      reads this, location
    {
      Emit(Value(), Cached())
    }

    constructor ()
      ensures Valid() && Value() == Default(FEATURE) && fresh(Repr()) && cachedSize == 0
    {
      name := [];
      location := null;
      unknownFields := [];
      cachedSize := 0;
    }

    method Clear()
      modifies this
      ensures Valid() && Value() == Default(FEATURE) && Repr() == {this}
    {
      name := [];
      location := null;
      unknownFields := [];
    }

    /** The submessage, created when it is not there. */
    method MutableLocation() returns (p: Point)
      requires location != null ==> location.Valid()
      modifies this`location
      ensures p == location && p.Valid() && fresh(Repr() - old(Repr()))
      ensures p.Value() == Current(POINT, old(FieldOf(location)))
      ensures old(location) != null ==> p == old(location)
      ensures old(location) == null ==> fresh(p)
    {
      if location == null {
        location := new Point();
      }
      p := location;
    }

    method MergeFrom(from: Feature)
      requires Valid() && from.Valid() && Repr() !! from.Repr()
      modifies Repr()
      ensures Valid() && fresh(Repr() - old(Repr()))
      ensures Value() == Merge(old(Value()), from.Value())
    {
      hide Typed, Merge;
      ghost var v, w := Value(), from.Value();
      MergeTyped(FEATURE, v, w);
      MergeTwo(v, w);
      unknownFields := unknownFields + from.unknownFields;
      if |from.name| > 0 {
        name := from.name;
      }
      if from.location != null {
        MergeIdentity(POINT, from.location.Value());
        var p := MutableLocation();
        p.MergeFrom(from.location);
      }
    }

    method CopyFrom(from: Feature)
      requires from.Valid() && (from == this || from.Repr() !! Repr())
      modifies Repr()
      ensures Valid() && fresh(Repr() - old(Repr()))
      ensures Value() == old(from.Value())
    {
      if from == this {
        return;
      }
      Clear();
      MergeFrom(from);
      MergeIdentity(FEATURE, from.Value());
    }

    /** The case of field 1: a string, which has to be valid UTF-8. */
    method ReadNameField(input: CodedInputStream, ghost s: bytes) returns (ok: bool)
      requires Valid() && input.Valid() && !input.legitimateEnd
      requires ReadRecord(s) == ReadPayload(1, 2, input.Visible())
      modifies Repr(), input, input.reader
      ensures Valid() && input.Valid() && !input.legitimateEnd && fresh(Repr() - old(Repr()))
      ensures ok ==> Parse(FEATURE, Value(), input.Visible()) == Parse(FEATURE, old(Value()), s)
      ensures ok ==> |input.Visible()| < |s|
      ensures !ok ==> Parse(FEATURE, old(Value()), s) == Failed(old(Value())) && LeftBy(Value(), old(Value()))
    {
      hide Parse, Typed, CodedInputStream.Valid, CodedInputStream.Visible, ReadPayload, ReadRecord;
      hide ValidUtf8, Current, SchemaOk;
      SchemasOk();
      ghost var v := Value();
      ParseString(FEATURE, v, s, 0, input.Visible());
      var b := input.ReadString(1);
      if b == None {
        return false;
      }
      assert v.fields[0 := StrV(b.value)] == [StrV(b.value), FieldOf(location)];
      name := b.value;
      ok := ValidUtf8(name);
    }

    /** The case of field 2: a submessage. */
    method ReadLocationField(input: CodedInputStream, ghost s: bytes) returns (ok: bool)
      requires Valid() && input.Valid() && !input.legitimateEnd
      requires ReadRecord(s) == ReadPayload(2, 2, input.Visible())
      modifies Repr(), input, input.reader
      ensures Valid() && input.Valid() && !input.legitimateEnd && fresh(Repr() - old(Repr()))
      ensures ok ==> Parse(FEATURE, Value(), input.Visible()) == Parse(FEATURE, old(Value()), s)
      ensures ok ==> |input.Visible()| < |s|
      ensures !ok ==> Parse(FEATURE, old(Value()), s) == Failed(old(Value())) && LeftBy(Value(), old(Value()))
    {
      hide Parse, Typed, CodedInputStream.Valid, CodedInputStream.Visible, ReadPayload, ReadRecord;
      hide ValidUtf8, Current, SchemaOk;
      SchemasOk();
      ghost var v := Value();
      ParseMessage(FEATURE, v, s, 1, input.Visible());
      var p := MutableLocation();
      ok := ReadMessage(input, p, 2);
      assert ok ==> |input.Visible()| < |s|;
      TypedUpdate(FEATURE, v, 1, FieldOf(p));
      assert v.fields[1 := FieldOf(p)] == [StrV(name), FieldOf(p)];
    }

    /** One turn of the loop: the switch on the tag read from the front of `s`. */
    method ReadField(input: CodedInputStream, tag: nat, ghost s: bytes) returns (turn: Turn)
      requires Valid() && input.Valid() && input.TagRead(tag, s)
      modifies Repr(), input, input.reader
      ensures Valid() && input.Valid() && fresh(Repr() - old(Repr()))
      ensures Turned(turn, Parse(FEATURE, old(Value()), s), Parse(FEATURE, Value(), input.Visible()),
                     input.legitimateEnd, Value())
      ensures turn.More? ==> |input.Visible()| < |s|
    {
      hide Parse, Typed, CodedInputStream.Valid, CodedInputStream.Visible, ReadPayload, ReadRecord, SchemaOk;
      SchemasOk();
      ghost var v := Value();
      turn := More;
      if 1 <= tag <= 127 && tag / 8 == 1 && tag == 10 {
        var read := ReadNameField(input, s);
        turn := if read then More else Broken;
      } else if 1 <= tag <= 127 && tag / 8 == 2 && tag == 18 {
        var read := ReadLocationField(input, s);
        turn := if read then More else Broken;
      } else {
        if tag == 0 {
          if input.legitimateEnd {
            ParseEnd(FEATURE, v);
          } else {
            ParseNoTag(FEATURE, v, s);
          }
          return Done;
        }
        var r := ReadUnknownField(input, FEATURE, v, tag, s);
        if r == None {
          return Broken;
        }
        unknownFields := unknownFields + [r.value];
      }
    }

    method MergePartialFromCodedStream(input: CodedInputStream) returns (ok: bool)
      requires Valid() && input.Valid() && !input.legitimateEnd
      modifies Repr(), input, input.reader
      ensures Valid() && input.Valid() && fresh(Repr() - old(Repr()))
      ensures Ended(Parse(FEATURE, old(Value()), old(input.Visible())), ok, input.legitimateEnd, Value())
    {
      hide Parse, Typed, CodedInputStream.Valid, CodedInputStream.Visible, ReadPayload, ReadRecord, SchemaOk;
      SchemasOk();
      while true
        invariant Valid() && input.Valid() && !input.legitimateEnd && fresh(Repr() - old(Repr()))
        invariant Parse(FEATURE, Value(), input.Visible()) == Parse(FEATURE, old(Value()), old(input.Visible()))
        decreases |input.Visible()|
      {
        ghost var s := input.Visible();
        var tag := input.ReadTag();
        var turn := ReadField(input, tag, s);
        if turn != More {
          return turn == Done;
        }
      }
      ok := false;
    }

    /** The encoded length; every cached size in the message is fresh after it. */
    method ByteSizeLong() returns (total: nat)
      requires Valid()
      modifies this`cachedSize, if location == null then {} else {location}`cachedSize
      ensures Valid() && Value() == old(Value()) && Repr() == old(Repr())
      ensures Fresh() && total == cachedSize == |Encode(Value())| && Emitted() == Encode(Value())
    {
      hide Typed, Encode, EncodeField, EncodeRecords, EmitField, Emit;
      EncodeTwo(Value());
      total := |EncodeRecords(unknownFields)| + StringFieldSize(1, name);
      if location != null {
        var n := MessageSize(location);
        total := total + 1 + n;
      } else {
        EncodeNoMessage(2);
      }
      EmitTwo(Value(), Cached());
      EmitFresh(1, StrV(name), 0);
      EmitFresh(2, FieldOf(location), CachedOf(location));
      cachedSize := total;
    }
  
    method SerializeWithCachedSizes(output: CodedOutputStream)
      requires Valid() && output.Valid() && Repr() !! output.Repr()
      modifies output.Repr()
      ensures output.Valid() && fresh(output.Repr() - old(output.Repr()))
      ensures output.Written() == old(output.Written()) + Emitted()
    {
      hide CodedOutputStream.Valid, CodedOutputStream.Written;
      hide EncodeField, EmitField, EncodeRecords, Encode, Emit, Typed;
      ghost var before := output.Written();
      ghost var a := EncodeField(1, StrV(name));
      ghost var b := EmitField(2, FieldOf(location), CachedOf(location));
      EmitTwo(Value(), Cached());
      EmitNoMessage(1, StrV(name), 0);
      SerializeStringField(1, name, output);
      SerializeMessageField(2, location, output);
      SerializeUnknownFields(unknownFields, output);
      assert output.Written() == before + (a + b + EncodeRecords(unknownFields));
    }

    method InternalSerializeWithCachedSizesToArray(target: array<byte>, at: nat) returns (end: nat)
      requires Valid() && at + |Emitted()| <= target.Length
      modifies target
      ensures end == at + |Emitted()| && target[..] == Splice(old(target[..]), at, Emitted())
    {
      hide EncodeField, EmitField, EncodeRecords, Encode, Emit, Typed, Splice;
      ghost var before := target[..];
      ghost var a := EncodeField(1, StrV(name));
      ghost var b := EmitField(2, FieldOf(location), CachedOf(location));
      EmitTwo(Value(), Cached());
      EmitNoMessage(1, StrV(name), 0);
      end := SerializeStringFieldToArray(1, name, target, at);
      SpliceTwice(before, at, a, b);
      end := SerializeMessageFieldToArray(2, location, target, end);
      SpliceTwice(before, at, a + b, EncodeRecords(unknownFields));
      end := SerializeUnknownFieldsToArray(unknownFields, target, end);
    }
  }
}

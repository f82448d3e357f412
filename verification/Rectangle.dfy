/** The generated class of message Rectangle. */
module RectangleMessage {
  import opened Wire
  import opened Wrappers
  import opened Messages
  import opened MessageTheorems
  import opened CachedSizes
  import opened ParseSteps
  import opened CodedInput
  import opened CodedOutput
  import opened FieldReader
  import opened WireFormat
  import opened PointMessage
  import opened PointField

  class Rectangle {
    var lo: Point?
    var hi: Point?
    var unknownFields: seq<Record>
    var cachedSize: nat

    ghost function Repr(): set<object>
      reads this
    {
      {this} + (if lo == null then {} else {lo}) + (if hi == null then {} else {hi})
    }

    ghost function Value(): Value
      reads this, lo, hi
    {
      Messages.Value([FieldOf(lo), FieldOf(hi)], unknownFields)
    }

    /** The two corners are owned separately. */
    ghost predicate Valid()
      reads this, lo, hi
    {
      && SchemaOk(RECTANGLE) && Typed(RECTANGLE, Value())
      && (lo != null ==> lo.Valid() && lo != hi)
      && (hi != null ==> hi.Valid())
    }

    /** The lengths that the serializers write before submessages. */
    ghost function Cached(): (c: seq<nat>)
      reads this, lo, hi
      ensures |c| == |Value().fields|
    {
      [CachedOf(lo), CachedOf(hi)]
    }

    /** The cached sizes of the submessages are their encoded lengths. */
    ghost predicate Fresh()
      reads this, lo, hi
    {
      && (lo != null ==> lo.cachedSize == |Encode(lo.Value())|)
      && (hi != null ==> hi.cachedSize == |Encode(hi.Value())|)
    }

    /** What the serializers write, given the cached sizes found in the message. */
    ghost function Emitted(): bytes
      reads this, lo, hi
    {
      Emit(Value(), Cached())
    }

    constructor ()
      ensures Valid() && Value() == Default(RECTANGLE) && fresh(Repr()) && cachedSize == 0
    {
      lo, hi := null, null;
      unknownFields := [];
      cachedSize := 0;
    }

    method Clear()
      modifies this
      ensures Valid() && Value() == Default(RECTANGLE) && Repr() == {this}
    {
      lo, hi := null, null;
      unknownFields := [];
    }

    /** The submessage, created when it is not there. */
    method MutableLo() returns (p: Point)
      requires (lo != null ==> lo.Valid()) && (lo != null ==> lo != hi)
      modifies this`lo
      ensures p == lo && p.Valid() && fresh(Repr() - old(Repr()))
      ensures p.Value() == Current(POINT, old(FieldOf(lo)))
      ensures old(lo) != null ==> p == old(lo)
      ensures old(lo) == null ==> fresh(p)
    {
      if lo == null {
        lo := new Point();
      }
      p := lo;
    }

    /** The submessage, created when it is not there. */
    method MutableHi() returns (p: Point)
      requires hi != null ==> hi.Valid()
      modifies this`hi
      ensures p == hi && p.Valid() && fresh(Repr() - old(Repr()))
      ensures p.Value() == Current(POINT, old(FieldOf(hi)))
      ensures old(hi) != null ==> p == old(hi)
      ensures old(hi) == null ==> fresh(p)
    {
      if hi == null {
        hi := new Point();
      }
      p := hi;
    }

    /** One submessage of `MergeFrom`. */
    method MergeLo(from: Point?)
      requires (lo != null ==> lo.Valid()) && (hi != null ==> hi.Valid() && hi != lo)
      requires from != null ==> from.Valid() && from != lo && from != hi
      modifies this`lo, lo
      ensures lo != null ==> lo.Valid()
      ensures lo == old(lo) || fresh(lo)
      ensures FieldOf(lo) == MergeField(old(FieldOf(lo)), FieldOf(from))
    {
      hide Typed, Merge;
      if from != null {
        MergeIdentity(POINT, from.Value());
        var p := MutableLo();
        p.MergeFrom(from);
      }
    }

    /** One submessage of `MergeFrom`. */
    method MergeHi(from: Point?)
      requires (lo != null ==> lo.Valid()) && (hi != null ==> hi.Valid() && hi != lo)
      requires from != null ==> from.Valid() && from != lo && from != hi
      modifies this`hi, hi
      ensures hi != null ==> hi.Valid()
      ensures hi == old(hi) || fresh(hi)
      ensures FieldOf(hi) == MergeField(old(FieldOf(hi)), FieldOf(from))
    {
      hide Typed, Merge;
      if from != null {
        MergeIdentity(POINT, from.Value());
        var p := MutableHi();
        p.MergeFrom(from);
      }
    }

    method MergeFrom(from: Rectangle)
      requires Valid() && from.Valid() && Repr() !! from.Repr()
      modifies Repr()
      ensures Valid() && fresh(Repr() - old(Repr()))
      ensures Value() == Merge(old(Value()), from.Value())
    {
      hide Typed, Merge, MergeField;
      ghost var v, w := Value(), from.Value();
      MergeTyped(RECTANGLE, v, w);
      MergeTwo(v, w);
      unknownFields := unknownFields + from.unknownFields;
      MergeLo(from.lo);
      assert FieldOf(lo) == MergeField(v.fields[0], w.fields[0]) && FieldOf(hi) == v.fields[1];
      MergeHi(from.hi);
      assert FieldOf(hi) == MergeField(v.fields[1], w.fields[1]);
    }

    method CopyFrom(from: Rectangle)
      requires from.Valid() && (from == this || from.Repr() !! Repr())
      modifies Repr()
      ensures Valid() && fresh(Repr() - old(Repr()))
      ensures Value() == old(from.Value())
    {
      if from == this {
        return;
      }
      Clear();
      MergeFrom(from);
      MergeIdentity(RECTANGLE, from.Value());
    }

    /** The case of field 1: a submessage. */
    method ReadLoField(input: CodedInputStream, ghost s: bytes) returns (ok: bool)
      requires Valid() && input.Valid() && !input.legitimateEnd
      requires ReadRecord(s) == ReadPayload(1, 2, input.Visible())
      modifies Repr(), input, input.reader
      ensures Valid() && input.Valid() && !input.legitimateEnd && fresh(Repr() - old(Repr()))
      ensures ok ==> Parse(RECTANGLE, Value(), input.Visible()) == Parse(RECTANGLE, old(Value()), s)
      ensures ok ==> |input.Visible()| < |s|
      ensures !ok ==> Parse(RECTANGLE, old(Value()), s) == Failed(old(Value())) && LeftBy(Value(), old(Value()))
    {
      hide Parse, Typed, CodedInputStream.Valid, CodedInputStream.Visible, ReadPayload, ReadRecord;
      hide ValidUtf8, Current, SchemaOk;
      SchemasOk();
      ghost var v := Value();
      ParseMessage(RECTANGLE, v, s, 0, input.Visible());
      var p := MutableLo();
      ok := ReadMessage(input, p, 1);
      assert ok ==> |input.Visible()| < |s|;
      TypedUpdate(RECTANGLE, v, 0, FieldOf(p));
      assert v.fields[0 := FieldOf(p)] == [FieldOf(p), FieldOf(hi)];
    }

    /** The case of field 2: a submessage. */
    method ReadHiField(input: CodedInputStream, ghost s: bytes) returns (ok: bool)
      requires Valid() && input.Valid() && !input.legitimateEnd
      requires ReadRecord(s) == ReadPayload(2, 2, input.Visible())
      modifies Repr(), input, input.reader
      ensures Valid() && input.Valid() && !input.legitimateEnd && fresh(Repr() - old(Repr()))
      ensures ok ==> Parse(RECTANGLE, Value(), input.Visible()) == Parse(RECTANGLE, old(Value()), s)
      ensures ok ==> |input.Visible()| < |s|
      ensures !ok ==> Parse(RECTANGLE, old(Value()), s) == Failed(old(Value())) && LeftBy(Value(), old(Value()))
    {
      hide Parse, Typed, CodedInputStream.Valid, CodedInputStream.Visible, ReadPayload, ReadRecord;
      hide ValidUtf8, Current, SchemaOk;
      SchemasOk();
      ghost var v := Value();
      ParseMessage(RECTANGLE, v, s, 1, input.Visible());
      var p := MutableHi();
      ok := ReadMessage(input, p, 2);
      assert ok ==> |input.Visible()| < |s|;
      TypedUpdate(RECTANGLE, v, 1, FieldOf(p));
      assert v.fields[1 := FieldOf(p)] == [FieldOf(lo), FieldOf(p)];
    }

    /** One turn of the loop: the switch on the tag read from the front of `s`. */
    method ReadField(input: CodedInputStream, tag: nat, ghost s: bytes) returns (turn: Turn)
      requires Valid() && input.Valid() && input.TagRead(tag, s)
      modifies Repr(), input, input.reader
      ensures Valid() && input.Valid() && fresh(Repr() - old(Repr()))
      ensures Turned(turn, Parse(RECTANGLE, old(Value()), s), Parse(RECTANGLE, Value(), input.Visible()),
                     input.legitimateEnd, Value())
      ensures turn.More? ==> |input.Visible()| < |s|
    {
      hide Parse, Typed, CodedInputStream.Valid, CodedInputStream.Visible, ReadPayload, ReadRecord, SchemaOk;
      SchemasOk();
      ghost var v := Value();
      turn := More;
      if 1 <= tag <= 127 && tag / 8 == 1 && tag == 10 {
        var read := ReadLoField(input, s);
        turn := if read then More else Broken;
      } else if 1 <= tag <= 127 && tag / 8 == 2 && tag == 18 {
        var read := ReadHiField(input, s);
        turn := if read then More else Broken;
      } else {
        if tag == 0 {
          if input.legitimateEnd {
            ParseEnd(RECTANGLE, v);
          } else {
            ParseNoTag(RECTANGLE, v, s);
          }
          return Done;
        }
        var r := ReadUnknownField(input, RECTANGLE, v, tag, s);
        if r == None {
          return Broken;
        }
        unknownFields := unknownFields + [r.value];
      }
    }

    method MergePartialFromCodedStream(input: CodedInputStream) returns (ok: bool)
      requires Valid() && input.Valid() && !input.legitimateEnd
      modifies Repr(), input, input.reader
      ensures Valid() && input.Valid() && fresh(Repr() - old(Repr()))
      ensures Ended(Parse(RECTANGLE, old(Value()), old(input.Visible())), ok, input.legitimateEnd, Value())
    {
      hide Parse, Typed, CodedInputStream.Valid, CodedInputStream.Visible, ReadPayload, ReadRecord, SchemaOk;
      SchemasOk();
      while true
        invariant Valid() && input.Valid() && !input.legitimateEnd && fresh(Repr() - old(Repr()))
        invariant Parse(RECTANGLE, Value(), input.Visible()) == Parse(RECTANGLE, old(Value()), old(input.Visible()))
        decreases |input.Visible()|
      {
        ghost var s := input.Visible();
        var tag := input.ReadTag();
        var turn := ReadField(input, tag, s);
        if turn != More {
          return turn == Done;
        }
      }
      ok := false;
    }

    /** The encoded length; every cached size in the message is fresh after it. */
    method ByteSizeLong() returns (total: nat)
      requires Valid()
      modifies this`cachedSize, (Repr() - {this})
      ensures Valid() && Value() == old(Value()) && Repr() == old(Repr())
      ensures Fresh() && total == cachedSize == |Encode(Value())| && Emitted() == Encode(Value())
    {
      hide Typed, Encode, EncodeField, EncodeRecords, EmitField, Emit;
      EncodeTwo(Value());
      total := |EncodeRecords(unknownFields)|;
      if lo != null {
        var n := MessageSize(lo);
        total := total + 1 + n;
      } else {
        EncodeNoMessage(1);
      }
      if hi != null {
        var n := MessageSize(hi);
        total := total + 1 + n;
      } else {
        EncodeNoMessage(2);
      }
      EmitTwo(Value(), Cached());
      EmitFresh(1, FieldOf(lo), CachedOf(lo));
      EmitFresh(2, FieldOf(hi), CachedOf(hi));
      cachedSize := total;
    }

    method SerializeWithCachedSizes(output: CodedOutputStream)
      requires Valid() && output.Valid() && Repr() !! output.Repr()
      modifies output.Repr()
      ensures output.Valid() && fresh(output.Repr() - old(output.Repr()))
      ensures output.Written() == old(output.Written()) + Emitted()
    {
      hide CodedOutputStream.Valid, CodedOutputStream.Written;
      hide EncodeField, EmitField, EncodeRecords, Encode, Emit, Typed;
      ghost var before := output.Written();
      ghost var a := EmitField(1, FieldOf(lo), CachedOf(lo));
      ghost var b := EmitField(2, FieldOf(hi), CachedOf(hi));
      EmitTwo(Value(), Cached());
      SerializeMessageField(1, lo, output);
      SerializeMessageField(2, hi, output);
      SerializeUnknownFields(unknownFields, output);
      assert output.Written() == before + (a + b + EncodeRecords(unknownFields));
    }

    method InternalSerializeWithCachedSizesToArray(target: array<byte>, at: nat) returns (end: nat)
      requires Valid() && at + |Emitted()| <= target.Length
      modifies target
      ensures end == at + |Emitted()| && target[..] == Splice(old(target[..]), at, Emitted())
    {
      hide EncodeField, EmitField, EncodeRecords, Encode, Emit, Typed, Splice;
      ghost var before := target[..];
      ghost var a := EmitField(1, FieldOf(lo), CachedOf(lo));
      ghost var b := EmitField(2, FieldOf(hi), CachedOf(hi));
      EmitTwo(Value(), Cached());
      end := SerializeMessageFieldToArray(1, lo, target, at);
      SpliceTwice(before, at, a, b);
      end := SerializeMessageFieldToArray(2, hi, target, end);
      SpliceTwice(before, at, a + b, EncodeRecords(unknownFields));
      end := SerializeUnknownFieldsToArray(unknownFields, target, end);
    }
  }
}

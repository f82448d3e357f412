/** The library's routines for a submessage field, at the only submessage type, Point. */
module PointField {
  import opened Wire
  import opened Wrappers
  import opened Messages
  import opened CachedSizes
  import opened CodedInput
  import opened CodedOutput
  import opened WireFormat
  import opened PointMessage

  /** The value of a submessage field. */
  ghost function FieldOf(p: Point?): Field
    reads if p == null then {} else {p}
  {
    if p == null then NoMsg else MsgV(p.Value())
  }

  /** The cached size that a serializer finds in a submessage field. */
  ghost function CachedOf(p: Point?): nat
    reads if p == null then {} else {p}
  {
    if p == null then 0 else p.cachedSize
  }

  /**
   Reads a length and runs the nested loop under that limit; the nested message has to
   end exactly at its limit.
   */
  method ReadMessage(input: CodedInputStream, p: Point, ghost num: nat) returns (ok: bool)
    requires p.Valid() && input.Valid() && !input.legitimateEnd
    modifies p`latitude, p`longitude, p`unknownFields, input, input.reader
    ensures p.Valid() && input.Valid() && !input.legitimateEnd
    ensures var st := ReadPayload(num, 2, old(input.Visible()));
            && (ok <==> st.Next? && Parse(POINT, old(p.Value()), st.record.payload.b).Complete?)
            && (ok ==> p.Value() == Parse(POINT, old(p.Value()), st.record.payload.b).v
                       && input.Visible() == st.rest && input.limit == old(input.limit))
  {
    hide Parse, Wire.ReadVarint, Typed, CodedInputStream.Valid, ReadPayload;
    LenPayload(num, input.Visible());
    var n := input.ReadLength();
    if n == None {
      return false;
    }
    ghost var start, rest := input.position, input.Visible();
    var end := input.position + n.value;
    var oldLimit := input.PushLimit(n.value);
    ok := p.MergePartialFromCodedStream(input);
    if !ok {
      return false;
    }
    ok := input.legitimateEnd && input.position == end;
    input.PopLimit(oldLimit);
  }

  method MessageSize(p: Point) returns (n: nat)
    requires p.Valid()
    modifies p`cachedSize
    ensures p.cachedSize == |Encode(p.Value())|
    ensures forall num | 1 <= num < 16 :: n + 1 == |EncodeField(num, MsgV(p.Value()))|
  {
    var size := p.ByteSizeLong();
    n := VarintSize(size) + size;
    forall num | 1 <= num < 16
      ensures n + 1 == |EncodeField(num, MsgV(p.Value()))|
    {
      EncodeSubmessage(num, p.Value());
      assert Varint(8 * num + 2) == [8 * num + 2];
    }
  }

  method WriteMessage(num: nat, p: Point, output: CodedOutputStream)
    requires p.Valid() && output.Valid() && p !in output.Repr()
    modifies output.Repr()
    ensures output.Valid() && fresh(output.Repr() - old(output.Repr()))
    ensures output.Written() == old(output.Written()) + EmitField(num, MsgV(p.Value()), p.cachedSize)
  {
    hide CodedOutputStream.Valid, CodedOutputStream.Written, Encode, Varint, Typed;
    ghost var before := output.Written();
    WriteLengthPrefix(num, p.cachedSize, output);
    p.SerializeWithCachedSizes(output);
    assert output.Written() == before + EmitField(num, MsgV(p.Value()), p.cachedSize);
  }

  method WriteMessageToArray(num: nat, p: Point, target: array<byte>, at: nat) returns (end: nat)
    requires p.Valid() && at + |EmitField(num, MsgV(p.Value()), p.cachedSize)| <= target.Length
    modifies target
    ensures var data := EmitField(num, MsgV(p.Value()), p.cachedSize);
            end == at + |data| && target[..] == Splice(old(target[..]), at, data)
  {
    hide Encode, Varint, Splice, Typed;
    ghost var prefix := Varint(8 * num + 2) + Varint(p.cachedSize);
    SpliceTwice(target[..], at, prefix, Encode(p.Value()));
    end := WriteLengthPrefixToArray(num, p.cachedSize, target, at);
    end := p.InternalSerializeWithCachedSizesToArray(target, end);
  }

  /** A submessage field, if it is present. */
  method SerializeMessageField(num: nat, p: Point?, output: CodedOutputStream)
    requires (p != null ==> p.Valid()) && output.Valid() && p !in output.Repr()
    modifies output.Repr()
    ensures output.Valid() && fresh(output.Repr() - old(output.Repr()))
    ensures output.Written() == old(output.Written()) + EmitField(num, FieldOf(p), CachedOf(p))
  {
    hide CodedOutputStream.Valid, CodedOutputStream.Written, EmitField, Typed;
    if p != null {
      WriteMessage(num, p, output);
    } else {
      EmitAbsent(num);
    }
  }

  method SerializeMessageFieldToArray(num: nat, p: Point?, target: array<byte>, at: nat) returns (end: nat)
    requires (p != null ==> p.Valid()) && at + |EmitField(num, FieldOf(p), CachedOf(p))| <= target.Length
    modifies target
    ensures var data := EmitField(num, FieldOf(p), CachedOf(p));
            end == at + |data| && target[..] == Splice(old(target[..]), at, data)
  {
    hide EmitField, Splice, Typed;
    if p != null {
      end := WriteMessageToArray(num, p, target, at);
    } else {
      EmitAbsent(num);
      SpliceNothing(target[..], at);
      end := at;
    }
  }

  lemma EmitAbsent(num: nat)
    ensures EmitField(num, NoMsg, 0) == []
  {
  }
}

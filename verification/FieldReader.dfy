/** The cases of the parse loops that do not depend on the message type. */
module FieldReader {
  import opened Wire
  import opened Wrappers
  import opened Messages
  import opened ParseSteps
  import opened CodedInput

  /**
   The case of an int32 field: parsing the rest into the message with the field
   overwritten is parsing all of `s` into `v`.
   */
  method ReadInt32Field(input: CodedInputStream, ghost sch: Schema, ghost v: Value, ghost i: nat, ghost s: bytes)
    returns (r: Option<int32>)
    requires input.Valid() && !input.legitimateEnd
    requires SchemaOk(sch) && Typed(sch, v) && i < |sch.kinds| && sch.kinds[i].Int32?
    requires ReadRecord(s) == ReadPayload(i + 1, 0, input.Visible())
    modifies input`buffer, input`position, input.reader
    ensures input.Valid()
    ensures r == None ==> Parse(sch, v, s) == Failed(v)
    ensures r.Some? ==> |input.Visible()| < |s|
    ensures r.Some? ==>
              var w := Value(v.fields[i := IntV(r.value)], v.unknown);
              Typed(sch, w) && Parse(sch, w, input.Visible()) == Parse(sch, v, s)
  {
    hide Parse, Typed, CodedInputStream.Valid, CodedInputStream.Visible, ReadPayload, ReadRecord, ToInt32, SchemaOk;
    ParseInt32(sch, v, s, i, input.Visible());
    r := input.ReadInt32(i + 1);
  }

  /** Any other tag: the record goes to the unknown ones. */
  method ReadUnknownField(input: CodedInputStream, ghost sch: Schema, ghost v: Value, tag: nat, ghost s: bytes)
    returns (r: Option<Record>)
    requires input.Valid() && !input.legitimateEnd
    requires SchemaOk(sch) && Typed(sch, v) && tag != 0
    requires forall i | 0 <= i < |sch.kinds| :: tag != TagOf(sch, i)
    requires ReadRecord(s) == if tag / 8 == 0 then Malformed else ReadPayload(tag / 8, tag % 8, input.Visible())
    modifies input`buffer, input`position, input.reader
    ensures input.Valid()
    ensures r == None ==> Parse(sch, v, s) == Failed(v)
    ensures r.Some? ==> |input.Visible()| < |s|
    ensures r.Some? ==>
              var w := Value(v.fields, v.unknown + [r.value]);
              Typed(sch, w) && Parse(sch, w, input.Visible()) == Parse(sch, v, s)
  {
    hide Parse, Typed, CodedInputStream.Valid, CodedInputStream.Visible, ReadPayload, ReadRecord, SchemaOk;
    ParseUnknown(sch, v, s, tag, input.Visible());
    r := input.SkipField(tag);
  }
}

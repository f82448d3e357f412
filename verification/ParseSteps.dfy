/** The parse and merge functions unfolded the way the generated code runs. */
module ParseSteps {
  import opened Wire
  import opened Messages
  import opened MessageTheorems
  import opened CachedSizes

  /**
   What a failure leaves of a message `w`: at most one field is not as it was, the one at
   hand, or there are more unknown records.
   */
  predicate LeftBy(v: Value, w: Value) {
    || (v.fields == w.fields && w.unknown <= v.unknown)
    || (v.unknown == w.unknown && |v.fields| == |w.fields|
        && exists i :: 0 <= i < |w.fields| && v.fields == w.fields[i := v.fields[i]])
  }

  /** What a parse loop answers, and the message it leaves, for each outcome. */
  predicate Ended(o: Outcome, ok: bool, legitimateEnd: bool, v: Value) {
    match o
    case Complete(w) => ok && legitimateEnd && v == w
    case Stopped(w) => ok && !legitimateEnd && v == w
    case Failed(w) => !ok && !legitimateEnd && LeftBy(v, w)
  }

  /** How one turn of a parse loop ends: with more to read, with success, or with failure. */
  datatype Turn = More | Done | Broken

  /**
   A turn on input that parses with outcome `o` leaves the value `v`; `rest` is the
   outcome of parsing the remaining input into that value.
   */
  predicate Turned(turn: Turn, o: Outcome, rest: Outcome, legitimateEnd: bool, v: Value) {
    match turn
    case More => !legitimateEnd && o == rest
    case Done => Ended(o, true, legitimateEnd, v)
    case Broken => Ended(o, false, legitimateEnd, v)
  }

  /** The tag that the switch compares with for field `i + 1`. */
  function TagOf(sch: Schema, i: nat): nat
    requires i < |sch.kinds|
  {
    8 * (i + 1) + KindWireType(sch.kinds[i])
  }

  lemma ParseEnd(sch: Schema, v: Value)
    requires SchemaOk(sch) && Typed(sch, v)
    ensures Parse(sch, v, []) == Complete(v)
  {
  }

  lemma ParseNoTag(sch: Schema, v: Value, s: bytes)
    requires SchemaOk(sch) && Typed(sch, v) && ReadRecord(s).NoTag?
    ensures Parse(sch, v, s) == Stopped(v)
  {
  }

  lemma TypedUpdate(sch: Schema, v: Value, i: nat, f: Field)
    requires Typed(sch, v) && i < |sch.kinds| && FieldTyped(sch.kinds[i], f)
    ensures Typed(sch, v.(fields := v.fields[i := f]))
  {
    hide RecordOk, Known;
    assert forall j | 0 <= j < |sch.kinds| :: FieldTyped(sch.kinds[j], v.fields[j]);
  }

  /** The tag of an int32 field, with `p` after it. */
  lemma ParseInt32(sch: Schema, v: Value, s: bytes, i: nat, p: bytes)
    requires SchemaOk(sch) && Typed(sch, v) && i < |sch.kinds| && sch.kinds[i].Int32?
    requires ReadRecord(s) == ReadPayload(i + 1, 0, p)
    ensures var st := ReadPayload(i + 1, 0, p);
            if st.Next? then
              var v' := v.(fields := v.fields[i := IntV(ToInt32(st.record.payload.v))]);
              Typed(sch, v') && Parse(sch, v, s) == Parse(sch, v', st.rest)
            else Parse(sch, v, s) == Failed(v)
  {
    hide ReadRecord, ReadPayload, ToInt32, RecordOk, Typed;
    var st := ReadRecord(s);
    if st.Next? {
      assert Known(sch, st.record);
      TypedUpdate(sch, v, i, IntV(ToInt32(st.record.payload.v)));
    }
  }

  /** The tag of a string field, with `p` after it. */
  lemma ParseString(sch: Schema, v: Value, s: bytes, i: nat, p: bytes)
    requires SchemaOk(sch) && Typed(sch, v) && i < |sch.kinds| && sch.kinds[i].Str?
    requires ReadRecord(s) == ReadPayload(i + 1, 2, p)
    ensures var st := ReadPayload(i + 1, 2, p);
            if st.Next? then
              var v' := v.(fields := v.fields[i := StrV(st.record.payload.b)]);
              && Typed(sch, v')
              && Parse(sch, v, s) == if ValidUtf8(st.record.payload.b) then Parse(sch, v', st.rest) else Failed(v)
            else Parse(sch, v, s) == Failed(v)
  {
    hide ReadRecord, ReadPayload, ValidUtf8, RecordOk, Typed;
    var st := ReadRecord(s);
    if st.Next? {
      assert Known(sch, st.record);
      TypedUpdate(sch, v, i, StrV(st.record.payload.b));
    }
  }

  /** The tag of a submessage field, with `p` after it, by the outcome of the nested loop. */
  lemma ParseMessage(sch: Schema, v: Value, s: bytes, i: nat, p: bytes)
    requires SchemaOk(sch) && Typed(sch, v) && i < |sch.kinds| && sch.kinds[i].Msg?
    requires ReadRecord(s) == ReadPayload(i + 1, 2, p)
    ensures ReadRecord(s).Next? ==> |ReadPayload(i + 1, 2, p).rest| < |s|
    ensures var sub := sch.kinds[i].sub;
            && SchemaOk(sub) && FieldTyped(Msg(sub), v.fields[i])
            && var st := ReadPayload(i + 1, 2, p);
               if st.Next? && Parse(sub, Current(sub, v.fields[i]), st.record.payload.b).Complete? then
                 var m := Parse(sub, Current(sub, v.fields[i]), st.record.payload.b).v;
                 var v' := v.(fields := v.fields[i := MsgV(m)]);
                 Typed(sch, v') && Parse(sch, v, s) == Parse(sch, v', st.rest)
               else Parse(sch, v, s) == Failed(v)
  {
    hide ReadRecord, ReadPayload, RecordOk, ValidUtf8;
    var sub := sch.kinds[i].sub;
    assert sch.kinds[i] in sch.kinds && FieldTyped(sch.kinds[i], v.fields[i]);
    var st := ReadRecord(s);
    if st.Next? {
      assert Known(sch, st.record);
      var o := Parse(sub, Current(sub, v.fields[i]), st.record.payload.b);
      if o.Complete? {
        TypedUpdate(sch, v, i, MsgV(o.v));
      }
    }
  }

  lemma KnownTag(sch: Schema, tag: nat, r: Record)
    requires tag / 8 == r.num && tag % 8 == WireType(r.payload)
    ensures Known(sch, r) ==> tag == TagOf(sch, r.num - 1)
  {
  }

  /** Any other tag, with `p` after it. */
  lemma ParseUnknown(sch: Schema, v: Value, s: bytes, tag: nat, p: bytes)
    requires SchemaOk(sch) && Typed(sch, v) && tag != 0
    requires forall i | 0 <= i < |sch.kinds| :: tag != TagOf(sch, i)
    requires ReadRecord(s) == if tag / 8 == 0 then Malformed else ReadPayload(tag / 8, tag % 8, p)
    ensures var st := if tag / 8 == 0 then Malformed else ReadPayload(tag / 8, tag % 8, p);
            if st.Next? then
              var v' := v.(unknown := v.unknown + [st.record]);
              Typed(sch, v') && Parse(sch, v, s) == Parse(sch, v', st.rest)
            else Parse(sch, v, s) == Failed(v)
  {
    hide ReadPayload, ReadRecord, RecordOk;
    var st := ReadRecord(s);
    if st.Next? {
      KnownTag(sch, tag, st.record);
      assert Apply(sch, v, st.record).Got?;
    }
  }

  // ------------------------------------------------------------ field by field

  lemma EncodeTwo(v: Value)
    requires |v.fields| == 2
    ensures Encode(v) == EncodeField(1, v.fields[0]) + EncodeField(2, v.fields[1]) + EncodeRecords(v.unknown)
  {
    hide EncodeField;
    EncodeFields(v);
    assert EncodeFrom(v.fields, 2) == [];
    assert EncodeFrom(v.fields, 1) == EncodeField(2, v.fields[1]) + EncodeFrom(v.fields, 2);
  }

  lemma EmitTwo(v: Value, cached: seq<nat>)
    requires |v.fields| == 2 == |cached|
    ensures Emit(v, cached)
            == EmitField(1, v.fields[0], cached[0]) + EmitField(2, v.fields[1], cached[1]) + EncodeRecords(v.unknown)
  {
    hide EmitField;
    assert EmitFrom(v.fields, cached, 2) == [];
    assert EmitFrom(v.fields, cached, 1) == EmitField(2, v.fields[1], cached[1]) + EmitFrom(v.fields, cached, 2);
  }

  lemma MergeTwo(v: Value, w: Value)
    requires |v.fields| == |w.fields| == 2
    ensures Merge(v, w).unknown == v.unknown + w.unknown
    ensures Merge(v, w).fields == [MergeField(v.fields[0], w.fields[0]), MergeField(v.fields[1], w.fields[1])]
  {
    hide MergeField;
    MergeFromAt(v.fields, w.fields, 0, 0);
    MergeFromAt(v.fields, w.fields, 0, 1);
  }

  lemma EncodeStep(fs: seq<Field>, i: nat)
    requires i < |fs|
    ensures EncodeFrom(fs, i) == EncodeField(i + 1, fs[i]) + EncodeFrom(fs, i + 1)
    ensures EncodeFrom(fs, |fs|) == []
  {
  }

  /** Four fields and the unknown ones, written one after the other. */
  lemma Appended(before: bytes, a: bytes, b: bytes, c: bytes, d: bytes, u: bytes)
    ensures before + a + b + c + d + u == before + (a + b + c + d + u)
  {
  }

  lemma Associate(a: bytes, b: bytes, c: bytes, d: bytes, u: bytes)
    ensures a + (b + (c + (d + []))) + u == a + b + c + d + u
  {
    assert d + [] == d;
    assert c + d + u == c + (d + u);
    assert b + (c + d) == b + c + d;
    assert a + (b + c + d) == a + b + c + d;
  }

  lemma EncodeFour(v: Value)
    requires |v.fields| == 4
    ensures Encode(v) == EncodeField(1, v.fields[0]) + EncodeField(2, v.fields[1]) + EncodeField(3, v.fields[2])
                         + EncodeField(4, v.fields[3]) + EncodeRecords(v.unknown)
  {
    hide *;
    EncodeFields(v);
    EncodeStep(v.fields, 0);
    EncodeStep(v.fields, 1);
    EncodeStep(v.fields, 2);
    EncodeStep(v.fields, 3);
    Associate(EncodeField(1, v.fields[0]), EncodeField(2, v.fields[1]), EncodeField(3, v.fields[2]),
              EncodeField(4, v.fields[3]), EncodeRecords(v.unknown));
  }

  lemma MergeFour(v: Value, w: Value)
    requires |v.fields| == |w.fields| == 4
    ensures Merge(v, w).unknown == v.unknown + w.unknown
    ensures Merge(v, w).fields == [MergeField(v.fields[0], w.fields[0]), MergeField(v.fields[1], w.fields[1]),
                                   MergeField(v.fields[2], w.fields[2]), MergeField(v.fields[3], w.fields[3])]
  {
    hide MergeField;
    MergeFromAt(v.fields, w.fields, 0, 0);
    MergeFromAt(v.fields, w.fields, 0, 1);
    MergeFromAt(v.fields, w.fields, 0, 2);
    MergeFromAt(v.fields, w.fields, 0, 3);
  }

  /** The bytes of an int32 field; nothing for 0. */
  lemma EncodeInt(num: nat, i: int32)
    ensures EncodeField(num, IntV(i)) == if i == 0 then [] else EncodeRecord(Record(num, VarintP(SignExtend(i))))
  {
    hide EncodeRecord;
    EncodeOne(Record(num, VarintP(SignExtend(i))));
  }

  lemma EncodeString(num: nat, s: bytes)
    ensures EncodeField(num, StrV(s)) == if s == [] then [] else EncodeRecord(Record(num, LenP(s)))
  {
    hide EncodeRecord;
    EncodeOne(Record(num, LenP(s)));
  }

  lemma EncodeNoMessage(num: nat)
    ensures EncodeField(num, NoMsg) == []
  {
  }

  lemma EmitNoMessage(num: nat, f: Field, cached: nat)
    requires !f.MsgV?
    ensures EmitField(num, f, cached) == EncodeField(num, f)
  {
  }

  lemma SchemasOk()
    ensures SchemaOk(POINT) && SchemaOk(RECTANGLE) && SchemaOk(FEATURE)
    ensures SchemaOk(ROUTE_NOTE) && SchemaOk(ROUTE_SUMMARY)
  {
  }
}

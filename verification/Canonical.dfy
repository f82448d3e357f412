/**
 What an encoding says about the message, whether or not its strings are valid UTF-8: no
 two messages share one, and a message that was received can be sent on.
 */
module Canonical {
  import opened Wire
  import opened Messages
  import opened MessageTheorems

  // ------------------------------------------------------------ no two messages

  lemma {:induction false} RecordsInjective(a: seq<Record>, b: seq<Record>)
    requires (forall r | r in a :: RecordOk(r)) && (forall r | r in b :: RecordOk(r))
    requires EncodeRecords(a) == EncodeRecords(b)
    ensures a == b
  {
    hide EncodeRecord, ReadRecord, RecordOk;
    if a != [] && b != [] {
      ReadBackRecord(a[0], EncodeRecords(a[1..]));
      ReadBackRecord(b[0], EncodeRecords(b[1..]));
      RecordsInjective(a[1..], b[1..]);
      assert a == [a[0]] + a[1..] && b == [b[0]] + b[1..];
    }
  }

  /** A field has at most one record, which is known under the number of the field. */
  lemma FieldRecordKnown(sch: Schema, i: nat, f: Field)
    requires i < |sch.kinds| && FieldTyped(sch.kinds[i], f)
    ensures |FieldRecords(i + 1, f)| <= 1
    ensures forall r | r in FieldRecords(i + 1, f) :: Known(sch, r) && r.num == i + 1
  {
    hide Encode;
  }

  lemma {:induction false} FieldInjective(k: Kind, num: nat, f: Field, g: Field)
    requires FieldTyped(k, f) && FieldTyped(k, g) && FieldRecords(num, f) == FieldRecords(num, g)
    requires forall r | r in FieldRecords(num, f) :: RecordOk(r)
    ensures f == g
    decreases f
  {
    hide Encode;
    if f.IntV? {
      Int32RoundTrip(f.i);
      Int32RoundTrip(g.i);
    }
    if FieldRecords(num, f) != [] {
      var r := FieldRecords(num, f)[0];
      assert r in FieldRecords(num, f) && r == FieldRecords(num, g)[0];
      if f.MsgV? {
        EncodeInjective(k.sub, f.m, g.m);
      }
    }
  }

  /** Field records and unknown ones split at one place only. */
  lemma {:induction false} FieldsInjective(
    sch: Schema, fs: seq<Field>, gs: seq<Field>, i: nat, us: seq<Record>, ts: seq<Record>)
    requires i <= |sch.kinds| == |fs| == |gs|
    requires forall j | 0 <= j < |fs| :: FieldTyped(sch.kinds[j], fs[j]) && FieldTyped(sch.kinds[j], gs[j])
    requires (forall r | r in us :: !Known(sch, r)) && (forall r | r in ts :: !Known(sch, r))
    requires RecordsFrom(fs, i) + us == RecordsFrom(gs, i) + ts
    requires forall r | r in RecordsFrom(fs, i) :: RecordOk(r)
    ensures us == ts && forall j | i <= j < |fs| :: fs[j] == gs[j]
    decreases fs, |fs| - i
  {
    hide FieldRecords, Known, RecordOk, FieldTyped;
    if i == |fs| {
      assert [] + us == us && [] + ts == ts;
    } else {
      var a, b := FieldRecords(i + 1, fs[i]), FieldRecords(i + 1, gs[i]);
      var rest, rest' := RecordsFrom(fs, i + 1) + us, RecordsFrom(gs, i + 1) + ts;
      assert a + rest == RecordsFrom(fs, i) + us && b + rest' == RecordsFrom(gs, i) + ts;
      FieldRecordKnown(sch, i, fs[i]);
      FieldRecordKnown(sch, i, gs[i]);
      RecordsFromNumbered(fs, i + 1);
      RecordsFromNumbered(gs, i + 1);
      SameFront(a, rest, b, rest', sch, i + 1);
      FieldInjective(sch.kinds[i], i + 1, fs[i], gs[i]);
      FieldsInjective(sch, fs, gs, i + 1, us, ts);
    }
  }

  /** Where all records of one number that are known come first, they are told from the rest. */
  lemma SameFront(a: seq<Record>, rest: seq<Record>, b: seq<Record>, rest': seq<Record>, sch: Schema, num: nat)
    requires |a| <= 1 && |b| <= 1 && a + rest == b + rest'
    requires forall r | r in a + b :: Known(sch, r) && r.num == num
    requires forall r | r in rest + rest' :: r.num != num || !Known(sch, r)
    ensures a == b && rest == rest'
  {
    hide Known;
    var all := a + rest;
    assert a != [] ==> all[0] == a[0] && a[0] in a + b;
    assert b != [] ==> all[0] == b[0] && b[0] in a + b;
    assert a == [] && all != [] ==> all[0] == rest[0] && rest[0] in rest + rest';
    assert b == [] && all != [] ==> all[0] == rest'[0] && rest'[0] in rest + rest';
    assert |a| == |b|;
    assert a == all[..|a|] == b && rest == all[|a|..] == rest';
  }

  /** Different messages have different encodings. */
  lemma {:induction false} EncodeInjective(sch: Schema, v: Value, w: Value)
    requires Typed(sch, v) && Typed(sch, w) && |Encode(v)| <= INT_MAX && Encode(v) == Encode(w)
    ensures v == w
    decreases v
  {
    hide RecordOk, Known, FieldTyped;
    RecordsWellFormed(sch, v);
    RecordsWellFormed(sch, w);
    RecordsInjective(Records(v), Records(w));
    assert forall r | r in RecordsFrom(v.fields, 0) :: r in Records(v);
    FieldsInjective(sch, v.fields, w.fields, 0, v.unknown, w.unknown);
    assert v.fields == w.fields;
  }

  // ------------------------------------------------------------------- forwarding

  lemma DefaultUtf8(sch: Schema)
    ensures Utf8Ok(Default(sch))
  {
    assert ValidUtf8([]);
  }

  /** No parse leaves an invalid string among the records it completed. */
  lemma {:induction false} ParseKeepsUtf8(sch: Schema, v: Value, s: bytes)
    requires SchemaOk(sch) && Typed(sch, v) && Utf8Ok(v)
    ensures Utf8Ok(Parse(sch, v, s).v)
    decreases sch, |s|
  {
    hide ReadRecord, Apply, Typed, Utf8Ok;
    var st := ReadRecord(s);
    if st.Next? && Apply(sch, v, st.record).Got? {
      ApplyKeepsUtf8(sch, v, st.record);
      ParseKeepsUtf8(sch, Apply(sch, v, st.record).value, st.rest);
    }
  }

  lemma {:induction false} ApplyKeepsUtf8(sch: Schema, v: Value, r: Record)
    requires SchemaOk(sch) && Typed(sch, v) && RecordOk(r) && Utf8Ok(v) && Apply(sch, v, r).Got?
    ensures Utf8Ok(Apply(sch, v, r).value)
    decreases sch, if r.payload.LenP? then |r.payload.b| else 0
  {
    hide Parse, ValidUtf8;
    if Known(sch, r) {
      var i := r.num - 1;
      assert v.fields[i] in v.fields;
      if sch.kinds[i].Msg? {
        var sub := sch.kinds[i].sub;
        assert FieldTyped(sch.kinds[i], v.fields[i]);
        DefaultUtf8(sub);
        ParseKeepsUtf8(sub, Current(sub, v.fields[i]), r.payload.b);
      }
    }
  }

  /**
   A message that was received can be sent on: its encoding, which need not be the bytes it
   came in, is received as the same message.
   */
  lemma ForwardedIsSame(sch: Schema, s: bytes)
    requires SchemaOk(sch) && Parse(sch, Default(sch), s).Complete?
    ensures var v := Parse(sch, Default(sch), s).v;
            |Encode(v)| <= INT_MAX ==> Parse(sch, Default(sch), Encode(v)) == Complete(v)
  {
    hide Parse, Utf8Ok, Encode, Typed;
    DefaultUtf8(sch);
    ParseKeepsUtf8(sch, Default(sch), s);
    var v := Parse(sch, Default(sch), s).v;
    if |Encode(v)| <= INT_MAX {
      RoundTrip(sch, v);
    }
  }
}

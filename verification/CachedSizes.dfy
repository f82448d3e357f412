/**
 The serializers write the length of a submessage from its cached size.  What they emit
 is the encoding of the message exactly when those cached sizes are fresh.
 */
module CachedSizes {
  import opened Wire
  import opened Messages

  function EncodeField(num: nat, f: Field): bytes {
    EncodeRecords(FieldRecords(num, f))
  }

  /** A field as it is emitted when the submessage's cached size is `cached`. */
  function EmitField(num: nat, f: Field, cached: nat): bytes {
    if f.MsgV? then Varint(8 * num + 2) + Varint(cached) + Encode(f.m) else EncodeField(num, f)
  }

  function EncodeFrom(fs: seq<Field>, i: nat): bytes
    requires i <= |fs|
    decreases |fs| - i
  {
    if i == |fs| then [] else EncodeField(i + 1, fs[i]) + EncodeFrom(fs, i + 1)
  }

  function EmitFrom(fs: seq<Field>, cached: seq<nat>, i: nat): bytes
    requires i <= |fs| == |cached|
    decreases |fs| - i
  {
    if i == |fs| then [] else EmitField(i + 1, fs[i], cached[i]) + EmitFrom(fs, cached, i + 1)
  }

  /** What the serializers emit for `v`, given the cached sizes of its submessages. */
  function Emit(v: Value, cached: seq<nat>): bytes
    requires |cached| == |v.fields|
  {
    EmitFrom(v.fields, cached, 0) + EncodeRecords(v.unknown)
  }

  predicate FieldFresh(f: Field, cached: nat) {
    f.MsgV? ==> cached == |Encode(f.m)|
  }

  lemma {:induction false} EncodeFromRecords(fs: seq<Field>, i: nat)
    requires i <= |fs|
    ensures EncodeFrom(fs, i) == EncodeRecords(RecordsFrom(fs, i))
    decreases |fs| - i
  {
    if i < |fs| {
      EncodeFromRecords(fs, i + 1);
      EncodeRecordsConcat(FieldRecords(i + 1, fs[i]), RecordsFrom(fs, i + 1));
    }
  }

  lemma EncodeFields(v: Value)
    ensures Encode(v) == EncodeFrom(v.fields, 0) + EncodeRecords(v.unknown)
  {
    EncodeFromRecords(v.fields, 0);
    EncodeRecordsConcat(RecordsFrom(v.fields, 0), v.unknown);
  }

  lemma EncodeOne(r: Record)
    ensures EncodeRecords([r]) == EncodeRecord(r)
  {
    assert [r][1..] == [];
    assert EncodeRecords([r][1..]) == [];
  }

  lemma PrefixCancels(e: bytes, t: bytes, t': bytes)
    ensures e + t == e + t' <==> t == t'
  {
    assert (e + t)[|e|..] == t && (e + t')[|e|..] == t';
  }

  lemma EncodeSubmessage(num: nat, m: Value)
    ensures EncodeField(num, MsgV(m)) == Varint(8 * num + 2) + Varint(|Encode(m)|) + Encode(m)
  {
    hide Encode, Varint;
    var r := Record(num, LenP(Encode(m)));
    EncodeOne(r);
    assert FieldRecords(num, MsgV(m)) == [r];
  }

  lemma EmitFresh(num: nat, f: Field, cached: nat)
    requires FieldFresh(f, cached)
    ensures EmitField(num, f, cached) == EncodeField(num, f)
  {
    if f.MsgV? {
      EncodeSubmessage(num, f.m);
    }
  }

  lemma LengthsDiffer(n: nat, k: nat, a: bytes, b: bytes)
    requires n < TWO_64 && k < TWO_64 && Varint(n) + a == Varint(k) + b
    ensures n == k
  {
    hide Varint, ReadVarint;
    VarintFits64(n);
    VarintFits64(k);
    ReadBackVarint(n, MAX_VARINT_BYTES, a);
    ReadBackVarint(k, MAX_VARINT_BYTES, b);
  }

  /** A wrong length prefix cannot be made up for by what follows. */
  lemma EmitStale(num: nat, f: Field, cached: nat, t: bytes, t': bytes)
    requires EmitField(num, f, cached) + t == EncodeField(num, f) + t'
    requires cached < TWO_64 && (f.MsgV? ==> |Encode(f.m)| < TWO_64)
    ensures FieldFresh(f, cached)
  {
    hide Varint, Encode, EncodeField;
    if f.MsgV? {
      var tag, e := Varint(8 * num + 2), Encode(f.m);
      EncodeSubmessage(num, f.m);
      var a, b := Varint(cached) + (e + t), Varint(|e|) + (e + t');
      assert tag + a == EmitField(num, f, cached) + t;
      assert tag + b == EncodeField(num, f) + t';
      PrefixCancels(tag, a, b);
      LengthsDiffer(cached, |e|, e + t, e + t');
    }
  }

  lemma {:induction false} EmitFromIff(fs: seq<Field>, cached: seq<nat>, i: nat, u: bytes)
    requires i <= |fs| == |cached|
    requires forall j | 0 <= j < |fs| :: cached[j] < TWO_64 && (fs[j].MsgV? ==> |Encode(fs[j].m)| < TWO_64)
    ensures EmitFrom(fs, cached, i) + u == EncodeFrom(fs, i) + u
            <==> forall j | i <= j < |fs| :: FieldFresh(fs[j], cached[j])
    decreases |fs| - i
  {
    hide EmitField, EncodeField, Encode, FieldFresh;
    if i < |fs| {
      var t, t' := EmitFrom(fs, cached, i + 1) + u, EncodeFrom(fs, i + 1) + u;
      var e, e' := EmitField(i + 1, fs[i], cached[i]), EncodeField(i + 1, fs[i]);
      assert EmitFrom(fs, cached, i) + u == e + t && EncodeFrom(fs, i) + u == e' + t';
      EmitFromIff(fs, cached, i + 1, u);
      if FieldFresh(fs[i], cached[i]) {
        EmitFresh(i + 1, fs[i], cached[i]);
        PrefixCancels(e, t, t');
      } else if e + t == e' + t' {
        EmitStale(i + 1, fs[i], cached[i], t, t');
      }
    }
  }

  /** What is emitted is the encoding exactly when every cached submessage size is fresh. */
  lemma EmitIff(v: Value, cached: seq<nat>)
    requires |cached| == |v.fields|
    requires forall j | 0 <= j < |v.fields| ::
               cached[j] < TWO_64 && (v.fields[j].MsgV? ==> |Encode(v.fields[j].m)| < TWO_64)
    ensures Emit(v, cached) == Encode(v) <==> forall j | 0 <= j < |v.fields| :: FieldFresh(v.fields[j], cached[j])
  {
    EncodeFields(v);
    EmitFromIff(v.fields, cached, 0, EncodeRecords(v.unknown));
  }
}

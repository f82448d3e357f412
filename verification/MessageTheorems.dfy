/**
 The laws of the message codecs: decoding inverts encoding, concatenation is merge,
 merge is a monoid, and which byte strings a parse loop accepts.
 */
module MessageTheorems {
  import opened Wire
  import opened Messages

  // ------------------------------------------------------- merge is a monoid

  lemma {:induction false} MergeFromAt(fs: seq<Field>, gs: seq<Field>, i: nat, j: nat)
    requires |fs| == |gs| && i <= |gs| && j < |fs|
    ensures MergeFrom(fs, gs, i)[j] == if j < i then fs[j] else MergeField(fs[j], gs[j])
    decreases |gs| - i
  {
    if i < |gs| {
      MergeFromAt(fs[i := MergeField(fs[i], gs[i])], gs, i + 1, j);
    }
  }

  lemma {:induction false} MergeFieldTyped(k: Kind, f: Field, g: Field)
    requires FieldTyped(k, f) && FieldTyped(k, g)
    ensures FieldTyped(k, MergeField(f, g))
    decreases g, 0
  {
    if f.MsgV? && g.MsgV? {
      MergeTyped(k.sub, f.m, g.m);
    }
  }

  lemma {:induction false} MergeTyped(sch: Schema, v: Value, w: Value)
    requires Typed(sch, v) && Typed(sch, w)
    ensures Typed(sch, Merge(v, w))
    decreases w, 1
  {
    forall j | 0 <= j < |sch.kinds|
      ensures FieldTyped(sch.kinds[j], Merge(v, w).fields[j])
    {
      MergeFromAt(v.fields, w.fields, 0, j);
      MergeFieldTyped(sch.kinds[j], v.fields[j], w.fields[j]);
    }
  }

  lemma {:induction false} MergeFieldAssociative(k: Kind, f: Field, g: Field, h: Field)
    requires FieldTyped(k, f) && FieldTyped(k, g) && FieldTyped(k, h)
    ensures MergeField(MergeField(f, g), h) == MergeField(f, MergeField(g, h))
    decreases h, 0
  {
    if f.MsgV? && g.MsgV? && h.MsgV? {
      MergeAssociative(k.sub, f.m, g.m, h.m);
    }
  }

  /** `MergeFrom` is associative. */
  lemma {:induction false} MergeAssociative(sch: Schema, u: Value, v: Value, w: Value)
    requires Typed(sch, u) && Typed(sch, v) && Typed(sch, w)
    ensures Merge(Merge(u, v), w) == Merge(u, Merge(v, w))
    decreases w, 1
  {
    var l, r := Merge(Merge(u, v), w), Merge(u, Merge(v, w));
    MergeTyped(sch, u, v);
    MergeTyped(sch, v, w);
    forall j | 0 <= j < |sch.kinds|
      ensures l.fields[j] == r.fields[j]
    {
      assert FieldTyped(sch.kinds[j], u.fields[j]) && FieldTyped(sch.kinds[j], v.fields[j]);
      MergeFromAt(u.fields, v.fields, 0, j);
      MergeFromAt(v.fields, w.fields, 0, j);
      MergeFromAt(Merge(u, v).fields, w.fields, 0, j);
      MergeFromAt(u.fields, Merge(v, w).fields, 0, j);
      MergeFieldAssociative(sch.kinds[j], u.fields[j], v.fields[j], w.fields[j]);
    }
    assert l.unknown == r.unknown;
  }

  /** The default message is the identity of merge on both sides. */
  lemma MergeIdentity(sch: Schema, v: Value)
    requires Typed(sch, v)
    ensures Merge(Default(sch), v) == v && Merge(v, Default(sch)) == v
  {
    var d := Default(sch);
    forall j | 0 <= j < |sch.kinds|
      ensures Merge(d, v).fields[j] == v.fields[j] && Merge(v, d).fields[j] == v.fields[j]
    {
      assert FieldTyped(sch.kinds[j], v.fields[j]);
      MergeFromAt(d.fields, v.fields, 0, j);
      MergeFromAt(v.fields, d.fields, 0, j);
    }
    assert Merge(d, v).fields == v.fields && Merge(v, d).fields == v.fields;
    assert d.unknown + v.unknown == v.unknown && v.unknown + d.unknown == v.unknown;
  }

  // ------------------------------------------------ parsing a list of records

  /** The effect of several records, in order. */
  function ApplyAll(sch: Schema, v: Value, rs: seq<Record>): (o: Read<Value>)
    requires SchemaOk(sch) && Typed(sch, v) && forall r | r in rs :: RecordOk(r)
    ensures o.Got? ==> Typed(sch, o.value) && o.rest == []
    decreases |rs|
  {
    if rs == [] then Got(v, [])
    else
      match Apply(sch, v, rs[0])
      case Bad => Bad
      case Got(v', _) => ApplyAll(sch, v', rs[1..])
  }

  lemma {:induction false} ApplyAllConcat(sch: Schema, v: Value, a: seq<Record>, b: seq<Record>)
    requires SchemaOk(sch) && Typed(sch, v)
    requires (forall r | r in a :: RecordOk(r)) && (forall r | r in b :: RecordOk(r))
    ensures ApplyAll(sch, v, a + b)
            == if ApplyAll(sch, v, a).Bad? then Bad else ApplyAll(sch, ApplyAll(sch, v, a).value, b)
    decreases |a|
  {
    if a == [] {
      assert a + b == b;
    } else {
      assert (a + b)[1..] == a[1..] + b;
      var o := Apply(sch, v, a[0]);
      if o.Got? {
        ApplyAllConcat(sch, o.value, a[1..], b);
      }
    }
  }

  /** The loop on encoded records does what the records do, then goes on. */
  lemma {:induction false} ParseRecords(sch: Schema, v: Value, rs: seq<Record>, t: bytes)
    requires SchemaOk(sch) && Typed(sch, v) && forall r | r in rs :: RecordOk(r)
    ensures var p, o := Parse(sch, v, EncodeRecords(rs) + t), ApplyAll(sch, v, rs);
            if o.Bad? then p.Failed? else p == Parse(sch, o.value, t)
    decreases |rs|
  {
    hide Typed, RecordOk, ReadRecord, EncodeRecord, Apply;
    if rs == [] {
      assert EncodeRecords(rs) + t == t;
    } else {
      var tail := EncodeRecords(rs[1..]) + t;
      assert EncodeRecords(rs) + t == EncodeRecord(rs[0]) + tail;
      ReadBackRecord(rs[0], tail);
      var o := Apply(sch, v, rs[0]);
      if o.Got? {
        ParseRecords(sch, o.value, rs[1..], t);
      }
    }
  }

  // ---------------------------------------------- decoding inverts encoding

  lemma {:induction false} LenPayloadFits(rs: seq<Record>, r: Record)
    requires r in rs && r.payload.LenP?
    ensures |r.payload.b| < |EncodeRecords(rs)|
  {
    if r != rs[0] {
      LenPayloadFits(rs[1..], r);
    }
  }

  lemma {:induction false} RecordsFromNumbered(fs: seq<Field>, i: nat)
    requires i <= |fs|
    ensures forall r | r in RecordsFrom(fs, i) ::
              && i < r.num <= |fs| && (r.payload.VarintP? || r.payload.LenP?)
              && (r.payload.VarintP? ==> r.payload.v < TWO_64)
    decreases |fs| - i
  {
    if i < |fs| {
      RecordsFromNumbered(fs, i + 1);
    }
  }

  function Records(v: Value): seq<Record> {
    RecordsFrom(v.fields, 0) + v.unknown
  }

  lemma RecordsWellFormed(sch: Schema, w: Value)
    requires Typed(sch, w) && |Encode(w)| <= INT_MAX
    ensures forall r | r in Records(w) :: RecordOk(r)
  {
    RecordsFromNumbered(w.fields, 0);
    forall r | r in Records(w)
      ensures RecordOk(r)
    {
      if r.payload.LenP? {
        LenPayloadFits(Records(w), r);
      }
    }
  }

  lemma {:induction false} ApplyUnknown(sch: Schema, v: Value, us: seq<Record>)
    requires SchemaOk(sch) && Typed(sch, v)
    requires forall r | r in us :: RecordOk(r) && !Known(sch, r)
    ensures ApplyAll(sch, v, us) == Got(v.(unknown := v.unknown + us), [])
    decreases |us|
  {
    if us == [] {
      assert v.unknown + us == v.unknown;
    } else {
      var v' := v.(unknown := v.unknown + [us[0]]);
      ApplyUnknown(sch, v', us[1..]);
      assert v'.unknown + us[1..] == v.unknown + us;
    }
  }

  lemma ApplyOne(sch: Schema, v: Value, rs: seq<Record>)
    requires SchemaOk(sch) && Typed(sch, v) && |rs| == 1 && RecordOk(rs[0])
    ensures ApplyAll(sch, v, rs) == Apply(sch, v, rs[0])
  {
    hide Apply, Typed, RecordOk;
    var o := Apply(sch, v, rs[0]);
    assert rs[1..] == [];
    if o.Got? {
      assert ApplyAll(sch, o.value, []) == Got(o.value, []);
    }
  }

  lemma {:induction false} ApplyField(sch: Schema, v: Value, i: nat, f: Field)
    requires SchemaOk(sch) && Typed(sch, v) && i < |sch.kinds| && FieldTyped(sch.kinds[i], f)
    requires forall r | r in FieldRecords(i + 1, f) :: RecordOk(r)
    ensures ApplyAll(sch, v, FieldRecords(i + 1, f))
            == if FieldUtf8Ok(f) then Got(v.(fields := v.fields[i := MergeField(v.fields[i], f)]), []) else Bad
    decreases f
  {
    hide ApplyAll, Parse, Encode, Merge, ValidUtf8, Utf8Ok;
    var rs := FieldRecords(i + 1, f);
    assert FieldTyped(sch.kinds[i], v.fields[i]);
    assert v.fields[i := v.fields[i]] == v.fields;
    if rs == [] {
      ApplyNone(sch, v);
      EmptyIsUtf8();
    } else {
      assert rs[0] in rs;
      ApplyOne(sch, v, rs);
      match f
      case IntV(n) => Int32RoundTrip(n);
      case StrV(s) =>
      case MsgV(m) =>
        var sub := sch.kinds[i].sub;
        ParseEncode(sub, Current(sub, v.fields[i]), m);
        MergeIdentity(sub, m);
    }
  }

  lemma EmptyIsUtf8()
    ensures ValidUtf8([])
  {
  }

  lemma ApplyNone(sch: Schema, v: Value)
    requires SchemaOk(sch) && Typed(sch, v)
    ensures ApplyAll(sch, v, []) == Got(v, [])
  {
  }

  lemma {:induction false} ApplyFields(sch: Schema, v: Value, fs: seq<Field>, i: nat)
    requires SchemaOk(sch) && Typed(sch, v) && i <= |fs| == |sch.kinds|
    requires forall j | 0 <= j < |fs| :: FieldTyped(sch.kinds[j], fs[j])
    requires forall r | r in RecordsFrom(fs, i) :: RecordOk(r)
    ensures ApplyAll(sch, v, RecordsFrom(fs, i))
            == if forall j | i <= j < |fs| :: FieldUtf8Ok(fs[j])
               then Got(v.(fields := MergeFrom(v.fields, fs, i)), []) else Bad
    decreases fs, |fs| - i
  {
    hide Apply, ApplyAll, FieldRecords, MergeField, FieldUtf8Ok, FieldTyped, Known;
    if i == |fs| {
      ApplyNone(sch, v);
    } else {
      var a, b := FieldRecords(i + 1, fs[i]), RecordsFrom(fs, i + 1);
      assert RecordsFrom(fs, i) == a + b;
      ApplyField(sch, v, i, fs[i]);
      ApplyAllConcat(sch, v, a, b);
      if FieldUtf8Ok(fs[i]) {
        var v' := v.(fields := v.fields[i := MergeField(v.fields[i], fs[i])]);
        assert ApplyAll(sch, v, a) == Got(v', []);
        ApplyFields(sch, v', fs, i + 1);
        assert MergeFrom(v.fields, fs, i) == MergeFrom(v'.fields, fs, i + 1);
      }
    }
  }

  /**
   Parsing the encoding of `w` into `v` merges `w` into `v`, and fails exactly when
   some string of `w` is not valid UTF-8.
   */
  lemma {:induction false} ParseEncode(sch: Schema, v: Value, w: Value)
    requires SchemaOk(sch) && Typed(sch, v) && Typed(sch, w) && |Encode(w)| <= INT_MAX
    ensures var p := Parse(sch, v, Encode(w));
            if Utf8Ok(w) then p == Complete(Merge(v, w)) else p.Failed?
    decreases w
  {
    RecordsWellFormed(sch, w);
    var a := RecordsFrom(w.fields, 0);
    assert forall r | r in a :: r in Records(w);
    ApplyFields(sch, v, w.fields, 0);
    ApplyAllConcat(sch, v, a, w.unknown);
    if Utf8Ok(w) {
      assert forall j | 0 <= j < |w.fields| :: FieldUtf8Ok(w.fields[j]);
      ApplyUnknown(sch, v.(fields := MergeFrom(v.fields, w.fields, 0)), w.unknown);
    } else {
      var f :| f in w.fields && !FieldUtf8Ok(f);
      var j :| 0 <= j < |w.fields| && w.fields[j] == f;
    }
    ParseRecords(sch, v, Records(w), []);
    assert Encode(w) + [] == Encode(w);
  }

  /** Decoding an encoded message gives the message back exactly when its strings are valid UTF-8. */
  lemma RoundTrip(sch: Schema, w: Value)
    requires SchemaOk(sch) && Typed(sch, w) && |Encode(w)| <= INT_MAX
    ensures Parse(sch, Default(sch), Encode(w)) == Complete(w) <==> Utf8Ok(w)
    ensures !Utf8Ok(w) ==> Parse(sch, Default(sch), Encode(w)).Failed?
  {
    ParseEncode(sch, Default(sch), w);
    MergeIdentity(sch, w);
  }

  // ------------------------------------------------ concatenation is merge

  /** After a complete parse the loop goes on with what follows. */
  lemma {:induction false} ParseConcat(sch: Schema, v: Value, s: bytes, t: bytes)
    requires SchemaOk(sch) && Typed(sch, v) && Parse(sch, v, s).Complete?
    ensures Parse(sch, v, s + t) == Parse(sch, Parse(sch, v, s).v, t)
    decreases |s|
  {
    if s == [] {
      assert s + t == t;
    } else {
      var st := ReadRecord(s);
      ReadRecordExtends(s, t);
      ParseConcat(sch, Apply(sch, v, st.record).value, st.rest, t);
    }
  }

  /**
   Parsing two encodings one after the other merges the second message into the first, and
   fails exactly when some string of either is not valid UTF-8.
   */
  lemma ConcatIsMerge(sch: Schema, v: Value, w: Value)
    requires SchemaOk(sch) && Typed(sch, v) && Typed(sch, w)
    requires |Encode(v)| <= INT_MAX && |Encode(w)| <= INT_MAX
    ensures var p := Parse(sch, Default(sch), Encode(v) + Encode(w));
            if Utf8Ok(v) && Utf8Ok(w) then p == Complete(Merge(v, w)) else p.Failed?
  {
    hide Parse, Typed, Merge, Utf8Ok, Encode;
    ParseEncode(sch, Default(sch), v);
    if Utf8Ok(v) {
      MergeIdentity(sch, v);
      ParseConcat(sch, Default(sch), Encode(v), Encode(w));
      ParseEncode(sch, v, w);
    } else {
      FailedStays(sch, Default(sch), v, Encode(w));
    }
  }

  /** An encoding that does not parse does not parse with more bytes after it. */
  lemma FailedStays(sch: Schema, v: Value, w: Value, t: bytes)
    requires SchemaOk(sch) && Typed(sch, v) && Typed(sch, w) && |Encode(w)| <= INT_MAX && !Utf8Ok(w)
    ensures Parse(sch, v, Encode(w) + t).Failed?
  {
    hide Parse, Typed, Utf8Ok, ApplyAll;
    RecordsWellFormed(sch, w);
    ParseEncode(sch, v, w);
    ParseRecords(sch, v, Records(w), []);
    assert Encode(w) + [] == Encode(w);
    NotFailed(sch, v, Records(w));
    ParseRecords(sch, v, Records(w), t);
  }

  lemma NotFailed(sch: Schema, v: Value, rs: seq<Record>)
    requires SchemaOk(sch) && Typed(sch, v) && forall r | r in rs :: RecordOk(r)
    ensures var o := ApplyAll(sch, v, rs); o.Got? ==> Parse(sch, o.value, []) == Complete(o.value)
  {
    hide ApplyAll, Typed;
  }
}

/**
 What the generated message classes compute, as functions on message values.

 A schema lists the kinds of fields 1, 2, ... of a message type.  The five message
 types of route_guide.proto are constants; every function and theorem here is for
 any schema built from int32, string and submessage fields, to any depth.
 */
module Messages {
  import opened Wire

  datatype Kind = Int32 | Str | Msg(sub: Schema)
  datatype Schema = Schema(kinds: seq<Kind>)

  const POINT := Schema([Int32, Int32])
  const RECTANGLE := Schema([Msg(POINT), Msg(POINT)])
  const FEATURE := Schema([Str, Msg(POINT)])
  const ROUTE_NOTE := Schema([Msg(POINT), Str])
  const ROUTE_SUMMARY := Schema([Int32, Int32, Int32, Int32])

  /** A field value; a submessage field is present or not. */
  datatype Field = IntV(i: int32) | StrV(s: bytes) | NoMsg | MsgV(m: Value)

  /** Field `i + 1` is `fields[i]`; `unknown` holds the records of no known field. */
  datatype Value = Value(fields: seq<Field>, unknown: seq<Record>)

  /** One-byte tags: field numbers up to 15. */
  predicate SchemaOk(sch: Schema) {
    && |sch.kinds| < 16
    && forall k | k in sch.kinds && k.Msg? :: SchemaOk(k.sub)
  }

  function KindWireType(k: Kind): nat {
    if k.Int32? then 0 else 2
  }

  /** Does the switch of the parse loop have a case for this record's tag? */
  predicate Known(sch: Schema, r: Record) {
    && 1 <= r.num <= |sch.kinds|
    && WireType(r.payload) == KindWireType(sch.kinds[r.num - 1])
  }

  predicate Typed(sch: Schema, v: Value)
    decreases v
  {
    && |v.fields| == |sch.kinds| < 16
    && (forall i | 0 <= i < |sch.kinds| :: FieldTyped(sch.kinds[i], v.fields[i]))
    && forall r | r in v.unknown :: RecordOk(r) && !Known(sch, r)
  }

  predicate FieldTyped(k: Kind, f: Field)
    decreases f
  {
    match k
    case Int32 => f.IntV?
    case Str => f.StrV?
    case Msg(sub) => f.NoMsg? || (f.MsgV? && Typed(sub, f.m))
  }

  function DefaultField(k: Kind): Field {
    match k
    case Int32 => IntV(0)
    case Str => StrV([])
    case Msg(_) => NoMsg
  }

  function Default(sch: Schema): (v: Value)
    ensures SchemaOk(sch) ==> Typed(sch, v)
  {
    Value(seq(|sch.kinds|, i requires 0 <= i < |sch.kinds| => DefaultField(sch.kinds[i])), [])
  }

  // ---------------------------------------------------------------- UTF-8

  predicate Tail(b: byte) {
    0x80 <= b <= 0xBF
  }

  /** The length of the UTF-8 character at the front of `s`, 0 if there is none (section 4 of RFC 3629). */
  function Utf8Char(s: bytes): (n: nat)
    requires s != []
    ensures n <= |s|
  {
    var b := s[0];
    if b <= 0x7F then 1
    else if 0xC2 <= b <= 0xDF && |s| >= 2 && Tail(s[1]) then 2
    else if |s| >= 3 && Tail(s[2])
            && ((b == 0xE0 && 0xA0 <= s[1] <= 0xBF) || (0xE1 <= b <= 0xEC && Tail(s[1]))
                || (b == 0xED && 0x80 <= s[1] <= 0x9F) || (0xEE <= b <= 0xEF && Tail(s[1]))) then 3
    else if |s| >= 4 && Tail(s[2]) && Tail(s[3])
            && ((b == 0xF0 && 0x90 <= s[1] <= 0xBF) || (0xF1 <= b <= 0xF3 && Tail(s[1]))
                || (b == 0xF4 && 0x80 <= s[1] <= 0x8F)) then 4
    else 0
  }

  predicate ValidUtf8(s: bytes)
    decreases |s|
  {
    s == [] || (Utf8Char(s) > 0 && ValidUtf8(s[Utf8Char(s)..]))
  }

  /** Every string of the message, at any depth, is valid UTF-8. */
  predicate Utf8Ok(v: Value) {
    forall f | f in v.fields :: FieldUtf8Ok(f)
  }

  predicate FieldUtf8Ok(f: Field) {
    match f
    case StrV(s) => ValidUtf8(s)
    case MsgV(m) => Utf8Ok(m)
    case _ => true
  }

  // ------------------------------------------------------------- encoding

  /** The record a serializer writes for a field: none for a default value. */
  function FieldRecords(num: nat, f: Field): seq<Record>
    decreases f
  {
    match f
    case IntV(i) => if i == 0 then [] else [Record(num, VarintP(SignExtend(i)))]
    case StrV(s) => if s == [] then [] else [Record(num, LenP(s))]
    case NoMsg => []
    case MsgV(m) => [Record(num, LenP(Encode(m)))]
  }

  /** The records of fields `i + 1`, `i + 2`, ... in order. */
  function RecordsFrom(fs: seq<Field>, i: nat): seq<Record>
    requires i <= |fs|
    decreases fs, |fs| - i
  {
    if i == |fs| then [] else FieldRecords(i + 1, fs[i]) + RecordsFrom(fs, i + 1)
  }

  function Encode(v: Value): bytes
    decreases v
  {
    EncodeRecords(RecordsFrom(v.fields, 0) + v.unknown)
  }

  // -------------------------------------------------------------- parsing

  /**
   `Complete`: the loop ended at the end of the input.  `Stopped`: it ended, also
   with success, at a tag read as 0 with input left.  `Failed`: it returned false; `v`
   has then all records before the one that failed.
   */
  datatype Outcome = Complete(v: Value) | Stopped(v: Value) | Failed(v: Value)

  /** The submessage that `mutable_*` answers: created when it is not there. */
  function Current(sub: Schema, f: Field): (m: Value)
    requires SchemaOk(sub) && FieldTyped(Msg(sub), f)
    ensures Typed(sub, m)
  {
    if f.MsgV? then f.m else Default(sub)
  }

  /** The parse loop of a message type, merging into `v`. */
  function Parse(sch: Schema, v: Value, s: bytes): (o: Outcome)
    requires SchemaOk(sch) && Typed(sch, v)
    ensures Typed(sch, o.v)
    decreases sch, |s|
  {
    match ReadRecord(s)
    case End => Complete(v)
    case NoTag => Stopped(v)
    case Malformed => Failed(v)
    case Next(r, rest) =>
      match Apply(sch, v, r)
      case Bad => Failed(v)
      case Got(v', _) => Parse(sch, v', rest)
  }

  /** What one record does to the message. */
  function Apply(sch: Schema, v: Value, r: Record): (o: Read<Value>)
    requires SchemaOk(sch) && Typed(sch, v) && RecordOk(r)
    ensures o.Got? ==> Typed(sch, o.value) && o.rest == []
    decreases sch, if r.payload.LenP? then |r.payload.b| else 0
  {
    if !Known(sch, r) then Got(v.(unknown := v.unknown + [r]), [])
    else
      var i := r.num - 1;
      match sch.kinds[i]
      case Int32 => Got(v.(fields := v.fields[i := IntV(ToInt32(r.payload.v))]), [])
      case Str =>
        if ValidUtf8(r.payload.b) then Got(v.(fields := v.fields[i := StrV(r.payload.b)]), [])
        else Bad
      case Msg(sub) =>
        assert FieldTyped(sch.kinds[i], v.fields[i]);
        match Parse(sub, Current(sub, v.fields[i]), r.payload.b)
        case Complete(m') => Got(v.(fields := v.fields[i := MsgV(m')]), [])
        case _ => Bad
  }

  // -------------------------------------------------------------- merging

  function MergeField(f: Field, g: Field): Field
    decreases g
  {
    match g
    case IntV(i) => if i != 0 then g else f
    case StrV(s) => if s != [] then g else f
    case NoMsg => f
    case MsgV(m) => if f.MsgV? then MsgV(Merge(f.m, m)) else g
  }

  /** Merges fields `i + 1`, `i + 2`, ... one after the other. */
  function MergeFrom(fs: seq<Field>, gs: seq<Field>, i: nat): (r: seq<Field>)
    requires i <= |gs|
    ensures |r| == |fs|
    decreases gs, |gs| - i
  {
    if i == |gs| || i >= |fs| then fs
    else MergeFrom(fs[i := MergeField(fs[i], gs[i])], gs, i + 1)
  }

  function Merge(v: Value, w: Value): Value
    decreases w
  {
    Value(MergeFrom(v.fields, w.fields, 0), v.unknown + w.unknown)
  }
}

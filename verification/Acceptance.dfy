/**
 Which byte strings the parse loops accept, stated without the loops: a grammar of
 records that allows overlong varints, and strings and submessages that are themselves
 well formed.
 */
module Acceptance {
  import opened Wire
  import opened Messages
  import MessageTheorems

  /** Continuation bits on all bytes but the last, at most ten bytes. */
  predicate IsVarint(s: bytes) {
    && 1 <= |s| <= 10
    && s[|s| - 1] < 128
    && forall i | 0 <= i < |s| - 1 :: s[i] >= 128
  }

  /** Little-endian groups of seven bits. */
  function VarintValue(s: bytes): nat {
    if s == [] then 0 else LowBits(s[0]) + 128 * VarintValue(s[1..])
  }

  function LowBits(b: byte): nat {
    if b < 128 then b else b - 128
  }

  ghost predicate IsPayload(s: bytes, p: Payload) {
    match p
    case VarintP(v) => IsVarint(s) && v == VarintValue(s) % TWO_64
    case Fixed64P(b) => s == b && |b| == 8
    case Fixed32P(b) => s == b && |b| == 4
    case LenP(b) => |b| <= INT_MAX && exists c: nat :: IsLength(s, c, |b|) && s[c..] == b
  }

  predicate IsLength(s: bytes, c: nat, n: nat) {
    c <= |s| && IsVarint(s[..c]) && VarintValue(s[..c]) % TWO_64 == n
  }

  /** The first `c` bytes of `s` are a tag, of which 32 bits are kept. */
  predicate IsTag(s: bytes, c: nat, num: nat, wireType: nat) {
    c <= |s| && IsVarint(s[..c]) && num > 0 && VarintValue(s[..c]) % TWO_32 == 8 * num + wireType
  }

  ghost predicate IsRecord(s: bytes, r: Record) {
    exists c: nat :: IsTag(s, c, r.num, WireType(r.payload)) && IsPayload(s[c..], r.payload)
  }

  ghost predicate Acceptable(sch: Schema, r: Record)
    decreases sch, 0
  {
    Known(sch, r) ==>
      match sch.kinds[r.num - 1]
      case Int32 => true
      case Str => ValidUtf8(r.payload.b)
      case Msg(sub) => WellFormed(sub, r.payload.b)
  }

  ghost predicate Decomposes(sch: Schema, s: bytes, ps: seq<bytes>, rs: seq<Record>)
    decreases sch, 1
  {
    && |ps| == |rs|
    && s == Flat(ps)
    && forall i | 0 <= i < |ps| :: IsRecord(ps[i], rs[i]) && Acceptable(sch, rs[i])
  }

  /** `s` is wholly a sequence of acceptable records. */
  ghost predicate WellFormed(sch: Schema, s: bytes)
    decreases sch, 2
  {
    exists ps: seq<bytes>, rs: seq<Record> :: Decomposes(sch, s, ps, rs)
  }

  // ------------------------------------------------------ readers and grammar

  /** How many bytes of `s` were read when `t` remains. */
  function Cut(s: bytes, t: bytes): int {
    |s| - |t|
  }

  lemma VarintFront(p: bytes)
    ensures IsVarint(p) <==>
            1 <= |p| <= 10 && if |p| == 1 then p[0] < 128 else p[0] >= 128 && IsVarint(p[1..])
  {
    assert |p| > 1 ==> forall i | 0 <= i < |p[1..]| :: p[1..][i] == p[i + 1];
  }

  lemma {:induction false} ReadIsVarint(s: bytes, k: nat)
    requires k <= MAX_VARINT_BYTES && ReadVarint(s, k).Got?
    ensures var o := ReadVarint(s, k); var p := s[..Cut(s, o.rest)];
            |p| <= k && IsVarint(p) && o.value == VarintValue(p)
    decreases |s|
  {
    hide IsVarint;
    var o := ReadVarint(s, k);
    var p := s[..Cut(s, o.rest)];
    VarintFront(p);
    if s[0] < 128 {
      assert p == [s[0]] && p[1..] == [];
    } else {
      ReadIsVarint(s[1..], k - 1);
      var q := s[1..][..Cut(s[1..], o.rest)];
      assert p == [s[0]] + q && p[1..] == q;
    }
  }

  lemma {:induction false} VarintIsRead(p: bytes, k: nat, t: bytes)
    requires IsVarint(p) && |p| <= k
    ensures ReadVarint(p + t, k) == Got(VarintValue(p), t)
    decreases |p|
  {
    hide IsVarint;
    VarintFront(p);
    var s := p + t;
    assert s[0] == p[0] && s[1..] == p[1..] + t;
    if |p| > 1 {
      VarintIsRead(p[1..], k - 1, t);
    } else {
      assert p[1..] == [];
    }
  }

  lemma ReadIsPayload(num: nat, wireType: nat, s: bytes)
    requires ReadPayload(num, wireType, s).Next?
    ensures var st := ReadPayload(num, wireType, s); IsPayload(s[..Cut(s, st.rest)], st.record.payload)
  {
    var st := ReadPayload(num, wireType, s);
    var p := s[..Cut(s, st.rest)];
    if wireType == 0 {
      ReadIsVarint(s, MAX_VARINT_BYTES);
    } else if wireType == 2 {
      ReadIsVarint(s, MAX_VARINT_BYTES);
      var o := ReadVarint(s, MAX_VARINT_BYTES);
      var c := Cut(s, o.rest);
      assert p[..c] == s[..c];
      assert p[c..] == st.record.payload.b;
      assert IsLength(p, c, |st.record.payload.b|);
    }
  }

  lemma PayloadIsRead(num: nat, p: Payload, s: bytes, t: bytes)
    requires IsPayload(s, p)
    ensures ReadPayload(num, WireType(p), s + t) == Next(Record(num, p), t)
  {
    match p
    case VarintP(v) => VarintIsRead(s, MAX_VARINT_BYTES, t);
    case LenP(b) =>
      var c: nat :| IsLength(s, c, |b|) && s[c..] == b;
      LengthIsRead(num, s, c, b, t);
    case _ =>
      assert (s + t)[..|s|] == s && (s + t)[|s|..] == t;
  }

  lemma LengthIsRead(num: nat, s: bytes, c: nat, b: bytes, t: bytes)
    requires IsLength(s, c, |b|) && s[c..] == b && |b| <= INT_MAX
    ensures ReadPayload(num, 2, s + t) == Next(Record(num, LenP(b)), t)
  {
    assert s + t == s[..c] + (b + t);
    VarintIsRead(s[..c], MAX_VARINT_BYTES, b + t);
    assert (b + t)[..|b|] == b && (b + t)[|b|..] == t;
  }

  lemma ReadIsRecord(s: bytes)
    requires ReadRecord(s).Next?
    ensures var st := ReadRecord(s); IsRecord(s[..Cut(s, st.rest)], st.record)
  {
    hide ReadVarint, AfterTag, IsRecord, IsVarint, VarintValue;
    var o := ReadVarint(s, MAX_VARINT_BYTES);
    ReadIsVarint(s, MAX_VARINT_BYTES);
    AfterTagIsRecord(s[..Cut(s, o.rest)], o.value, o.rest);
    assert s == s[..Cut(s, o.rest)] + o.rest;
  }

  lemma AfterTagIsRecord(p: bytes, t: nat, rest: bytes)
    requires IsVarint(p) && t == VarintValue(p) && AfterTag(Got(t, rest)).Next?
    ensures var st := AfterTag(Got(t, rest)); IsRecord((p + rest)[..Cut(p + rest, st.rest)], st.record)
  {
    var st := AfterTag(Got(t, rest));
    var tag := t % TWO_32;
    ReadIsPayload(tag / 8, tag % 8, rest);
    var s := (p + rest)[..Cut(p + rest, st.rest)];
    assert s[..|p|] == p;
    assert s[|p|..] == rest[..Cut(rest, st.rest)];
    assert IsTag(s, |p|, st.record.num, WireType(st.record.payload));
  }

  lemma RecordIsRead(r: Record, s: bytes, t: bytes)
    requires IsRecord(s, r)
    ensures ReadRecord(s + t) == Next(r, t)
  {
    var c: nat :| IsTag(s, c, r.num, WireType(r.payload)) && IsPayload(s[c..], r.payload);
    TaggedIsRead(r, s, c, t);
  }

  lemma TaggedIsRead(r: Record, s: bytes, c: nat, t: bytes)
    requires IsTag(s, c, r.num, WireType(r.payload)) && IsPayload(s[c..], r.payload)
    ensures ReadRecord(s + t) == Next(r, t)
  {
    var tail := s[c..] + t;
    assert s + t == s[..c] + tail;
    VarintIsRead(s[..c], MAX_VARINT_BYTES, tail);
    TagIsRead(s + t, VarintValue(s[..c]), r.num, WireType(r.payload), tail);
    PayloadIsRead(r.num, r.payload, s[c..], t);
  }

  lemma TagIsRead(s: bytes, t: nat, num: nat, wireType: nat, rest: bytes)
    requires ReadVarint(s, MAX_VARINT_BYTES) == Got(t, rest)
    requires t % TWO_32 == 8 * num + wireType && num > 0 && wireType < 8
    ensures ReadRecord(s) == ReadPayload(num, wireType, rest)
  {
    AfterTagParts(num, wireType, t, rest);
  }

  // ------------------------------------------------------------ the main law

  lemma {:induction false} ApplyIff(sch: Schema, v: Value, r: Record)
    requires SchemaOk(sch) && Typed(sch, v) && RecordOk(r)
    ensures Apply(sch, v, r).Got? <==> Acceptable(sch, r)
    decreases sch, if r.payload.LenP? then |r.payload.b| else 0
  {
    hide Parse, WellFormed, ValidUtf8, Current;
    if Known(sch, r) {
      var i := r.num - 1;
      match sch.kinds[i]
      case Msg(sub) =>
        assert FieldTyped(sch.kinds[i], v.fields[i]);
        AcceptedIff(sub, Current(sub, v.fields[i]), r.payload.b);
      case _ =>
    }
  }

  lemma NothingWellFormed(sch: Schema)
    ensures WellFormed(sch, [])
  {
    assert Decomposes(sch, [], [], []);
  }

  lemma Prepend(sch: Schema, p: bytes, r: Record, t: bytes)
    requires IsRecord(p, r) && Acceptable(sch, r) && WellFormed(sch, t)
    ensures WellFormed(sch, p + t)
  {
    hide IsRecord, Acceptable;
    var ps, rs := Decomposition(sch, t);
    assert ([p] + ps)[1..] == ps;
    assert Decomposes(sch, p + t, [p] + ps, [r] + rs);
  }

  /** A complete parse of some input is one of a record and of the rest. */
  lemma CompleteStep(sch: Schema, v: Value, s: bytes)
    requires SchemaOk(sch) && Typed(sch, v) && Parse(sch, v, s).Complete? && s != []
    ensures var st := ReadRecord(s);
            && st.Next? && Apply(sch, v, st.record).Got?
            && Parse(sch, Apply(sch, v, st.record).value, st.rest).Complete?
  {
    hide AfterTag, ReadVarint, Apply, Typed;
  }

  lemma {:induction false} ParsedWellFormed(sch: Schema, v: Value, s: bytes)
    requires SchemaOk(sch) && Typed(sch, v) && Parse(sch, v, s).Complete?
    ensures WellFormed(sch, s)
    decreases sch, |s|, 0
  {
    hide Parse, ReadRecord, IsRecord, WellFormed, Acceptable, Apply, Typed;
    if s == [] {
      NothingWellFormed(sch);
    } else {
      var st := ReadRecord(s);
      CompleteStep(sch, v, s);
      var p := s[..Cut(s, st.rest)];
      ReadIsRecord(s);
      ApplyIff(sch, v, st.record);
      ParsedWellFormed(sch, Apply(sch, v, st.record).value, st.rest);
      Prepend(sch, p, st.record, st.rest);
      assert s == p + st.rest;
    }
  }

  lemma {:induction false} DecomposedParses(sch: Schema, v: Value, s: bytes, ps: seq<bytes>, rs: seq<Record>)
    requires SchemaOk(sch) && Typed(sch, v) && Decomposes(sch, s, ps, rs)
    ensures Parse(sch, v, s).Complete?
    decreases sch, |s|, 0
  {
    hide ReadRecord, IsRecord, Acceptable, Apply, Typed;
    if ps != [] {
      var t := Flat(ps[1..]);
      RecordIsRead(rs[0], ps[0], t);
      ApplyIff(sch, v, rs[0]);
      DecomposedParses(sch, Apply(sch, v, rs[0]).value, t, ps[1..], rs[1..]);
    }
  }

  lemma Decomposition(sch: Schema, s: bytes) returns (ps: seq<bytes>, rs: seq<Record>)
    requires WellFormed(sch, s)
    ensures Decomposes(sch, s, ps, rs)
  {
    ps, rs :| Decomposes(sch, s, ps, rs);
  }

  /** A parse is complete exactly on the well-formed byte strings, whatever message it merges into. */
  lemma {:induction false} AcceptedIff(sch: Schema, v: Value, s: bytes)
    requires SchemaOk(sch) && Typed(sch, v)
    ensures Parse(sch, v, s).Complete? <==> WellFormed(sch, s)
    decreases sch, |s|, 1
  {
    if Parse(sch, v, s).Complete? {
      ParsedWellFormed(sch, v, s);
    }
    if WellFormed(sch, s) {
      var ps, rs := Decomposition(sch, s);
      DecomposedParses(sch, v, s, ps, rs);
    }
  }

  // --------------------------------------------------- where the loop ends

  /** The tag at the front is 0 in its low 32 bits, or there is none. */
  ghost predicate NoTag(s: bytes) {
    forall c | 0 <= c <= |s| && IsVarint(s[..c]) :: VarintValue(s[..c]) % TWO_32 == 0
  }

  /** There is a tag, but no record at the front that the message accepts. */
  ghost predicate Refused(sch: Schema, s: bytes) {
    && !NoTag(s)
    && forall c, r | 0 <= c <= |s| && IsRecord(s[..c], r) :: !Acceptable(sch, r)
  }

  /** A tag is read as 0 exactly where there is none or a zero tag by the grammar. */
  lemma ReadsNoTag(s: bytes)
    requires s != []
    ensures ReadRecord(s).NoTag? <==> NoTag(s)
  {
    hide ReadVarint, IsVarint, VarintValue, ReadPayload;
    var o := ReadVarint(s, MAX_VARINT_BYTES);
    forall c | 0 <= c <= |s| && IsVarint(s[..c])
      ensures o.Got? && o.value == VarintValue(s[..c])
    {
      AtMostTen(s[..c]);
      VarintIsRead(s[..c], MAX_VARINT_BYTES, s[c..]);
      assert s[..c] + s[c..] == s;
    }
    if o.Got? {
      ReadIsVarint(s, MAX_VARINT_BYTES);
    }
  }

  lemma AtMostTen(p: bytes)
    requires IsVarint(p)
    ensures |p| <= MAX_VARINT_BYTES
  {
  }

  /** The reader and the grammar agree on what is refused. */
  lemma ReadsRefused(sch: Schema, s: bytes)
    requires s != []
    ensures Refused(sch, s)
            <==> ReadRecord(s).Malformed? || (ReadRecord(s).Next? && !Acceptable(sch, ReadRecord(s).record))
  {
    hide ReadRecord, IsRecord, Acceptable, NoTag;
    var st := ReadRecord(s);
    ReadsNoTag(s);
    forall c, r | 0 <= c <= |s| && IsRecord(s[..c], r)
      ensures st.Next? && st.record == r
    {
      RecordIsRead(r, s[..c], s[c..]);
      assert s[..c] + s[c..] == s;
    }
    if st.Next? {
      ReadIsRecord(s);
    }
  }

  /** What the first record of some input decides. */
  lemma FirstRecord(sch: Schema, v: Value, s: bytes)
    requires SchemaOk(sch) && Typed(sch, v)
    ensures s == [] ==> Parse(sch, v, s) == Complete(v)
    ensures s != [] && NoTag(s) ==> Parse(sch, v, s) == Stopped(v)
    ensures s != [] && Refused(sch, s) ==> Parse(sch, v, s) == Failed(v)
    ensures var st := ReadRecord(s);
            s != [] && !NoTag(s) && !Refused(sch, s) ==>
              && st.Next? && Apply(sch, v, st.record).Got?
              && Parse(sch, v, s) == Parse(sch, Apply(sch, v, st.record).value, st.rest)
  {
    hide ReadRecord, Acceptable, Apply, Typed, NoTag, Refused;
    var st := ReadRecord(s);
    if s != [] {
      ReadsNoTag(s);
      ReadsRefused(sch, s);
    }
    if st.Next? {
      ApplyIff(sch, v, st.record);
    }
  }

  /** A record and a part of what follows it. */
  lemma RecordThen(sch: Schema, v: Value, s: bytes, c: nat)
    requires SchemaOk(sch) && Typed(sch, v) && ReadRecord(s).Next? && c <= |ReadRecord(s).rest|
    requires Apply(sch, v, ReadRecord(s).record).Got?
    ensures var st := ReadRecord(s);
            var k := Cut(s, st.rest) + c;
            && 0 <= k <= |s| && s[k..] == st.rest[c..]
            && Parse(sch, v, s[..k]) == Parse(sch, Apply(sch, v, st.record).value, st.rest[..c])
  {
    hide ReadRecord, IsRecord, Apply, Typed;
    var st := ReadRecord(s);
    var p := s[..Cut(s, st.rest)];
    ReadIsRecord(s);
    RecordIsRead(st.record, p, st.rest[..c]);
    assert s[..Cut(s, st.rest) + c] == p + st.rest[..c];
  }

  /** A loop that did not end at the end of its input got to some place on complete records. */
  lemma {:induction false} EndPoint(sch: Schema, v: Value, s: bytes) returns (c: nat)
    requires SchemaOk(sch) && Typed(sch, v) && !Parse(sch, v, s).Complete?
    ensures c < |s| && Parse(sch, v, s[..c]) == Complete(Parse(sch, v, s).v)
    ensures if Parse(sch, v, s).Stopped? then NoTag(s[c..]) else Refused(sch, s[c..])
    decreases |s|
  {
    hide Parse, ReadRecord, NoTag, Refused, Apply, Typed;
    var st := ReadRecord(s);
    FirstRecord(sch, v, s);
    FirstRecord(sch, v, []);
    if NoTag(s) || Refused(sch, s) {
      c := 0;
      assert s[..0] == [] && s[0..] == s;
    } else {
      c := EndPoint(sch, Apply(sch, v, st.record).value, st.rest);
      RecordThen(sch, v, s, c);
      c := Cut(s, st.rest) + c;
    }
  }

  /** After complete records up to `c` the loop goes on from there. */
  lemma ParseFrom(sch: Schema, v: Value, s: bytes, c: nat)
    requires SchemaOk(sch) && Typed(sch, v) && c <= |s| && Parse(sch, v, s[..c]).Complete?
    ensures Parse(sch, v, s) == Parse(sch, Parse(sch, v, s[..c]).v, s[c..])
  {
    hide Parse, Typed;
    MessageTheorems.ParseConcat(sch, v, s[..c], s[c..]);
    assert s == s[..c] + s[c..];
  }

  /**
   The loop ends with success before the end of the input exactly when a zero tag, or no
   tag at all, follows some complete records, whose message it leaves.
   */
  lemma StoppedIff(sch: Schema, v: Value, s: bytes, w: Value)
    requires SchemaOk(sch) && Typed(sch, v)
    ensures Parse(sch, v, s) == Stopped(w)
            <==> exists c :: 0 <= c < |s| && Parse(sch, v, s[..c]) == Complete(w) && NoTag(s[c..])
    ensures Parse(sch, v, s).Stopped?
            <==> exists c :: 0 <= c < |s| && WellFormed(sch, s[..c]) && NoTag(s[c..])
  {
    hide *;
    if Parse(sch, v, s).Stopped? {
      var c := EndPoint(sch, v, s);
      AcceptedIff(sch, v, s[..c]);
    }
    forall c | 0 <= c < |s| && WellFormed(sch, s[..c]) && NoTag(s[c..])
      ensures Parse(sch, v, s[..c]).Complete? && Parse(sch, v, s) == Stopped(Parse(sch, v, s[..c]).v)
    {
      AcceptedIff(sch, v, s[..c]);
      ParseFrom(sch, v, s, c);
      FirstRecord(sch, Parse(sch, v, s[..c]).v, s[c..]);
    }
    if c :| 0 <= c < |s| && Parse(sch, v, s[..c]) == Complete(w) && NoTag(s[c..]) {
      ParseFrom(sch, v, s, c);
      FirstRecord(sch, w, s[c..]);
    }
  }

  /**
   The loop fails exactly when, after some complete records, a tag follows that begins no
   acceptable record; `w` is the message of the records before it.
   */
  lemma FailedIff(sch: Schema, v: Value, s: bytes, w: Value)
    requires SchemaOk(sch) && Typed(sch, v)
    ensures Parse(sch, v, s) == Failed(w)
            <==> exists c :: 0 <= c < |s| && Parse(sch, v, s[..c]) == Complete(w) && Refused(sch, s[c..])
  {
    hide *;
    if Parse(sch, v, s).Failed? {
      var c := EndPoint(sch, v, s);
    }
    if c :| 0 <= c < |s| && Parse(sch, v, s[..c]) == Complete(w) && Refused(sch, s[c..]) {
      ParseFrom(sch, v, s, c);
      FirstRecord(sch, w, s[c..]);
    }
  }
}

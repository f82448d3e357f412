/** Proto::Serialize and Proto::Deserialize, for any of the generated messages. */
module ProtoUtils {
  import opened Wire
  import opened Messages
  import opened MessageTheorems
  import opened Acceptance
  import opened CachedSizes
  import opened ParseSteps
  import opened Slices
  import opened BufferWriter
  import opened BufferReader
  import opened CodedInput
  import opened CodedOutput
  import opened PointMessage
  import opened RectangleMessage
  import opened FeatureMessage
  import opened RouteNoteMessage
  import opened RouteSummaryMessage

  datatype Status = OK | InternalError(details: string)

  const NO_PAYLOAD := InternalError("No payload")
  const NOT_READABLE := InternalError("Couldn't initialize byte buffer reader")
  const NOT_INITIALIZED := InternalError("")
  const NOT_ENTIRE := InternalError("Did not read entire message")

  /** A pointer to a message, with the virtual calls made on it. */
  datatype Message =
    | PointM(point: Point)
    | RectangleM(rectangle: Rectangle)
    | FeatureM(feature: Feature)
    | RouteNoteM(note: RouteNote)
    | RouteSummaryM(summary: RouteSummary)
  {
    function Schema(): Schema {
      match this
      case PointM(_) => POINT
      case RectangleM(_) => RECTANGLE
      case FeatureM(_) => FEATURE
      case RouteNoteM(_) => ROUTE_NOTE
      case RouteSummaryM(_) => ROUTE_SUMMARY
    }

    ghost function Parts(): set<object?>
      reads match this
            case PointM(m) => {m}
            case RectangleM(m) => {m}
            case FeatureM(m) => {m}
            case RouteNoteM(m) => {m}
            case RouteSummaryM(m) => {m}
    {
      match this
      case PointM(m) => {m}
      case RectangleM(m) => {m, m.lo, m.hi}
      case FeatureM(m) => {m, m.location}
      case RouteNoteM(m) => {m, m.location}
      case RouteSummaryM(m) => {m}
    }

    ghost function Repr(): set<object>
      reads Parts()
    {
      match this
      case PointM(m) => {m}
      case RectangleM(m) => m.Repr()
      case FeatureM(m) => m.Repr()
      case RouteNoteM(m) => m.Repr()
      case RouteSummaryM(m) => {m}
    }

    ghost function Value(): Value
      reads Parts()
    {
      match this
      case PointM(m) => m.Value()
      case RectangleM(m) => m.Value()
      case FeatureM(m) => m.Value()
      case RouteNoteM(m) => m.Value()
      case RouteSummaryM(m) => m.Value()
    }

    ghost predicate Valid()
      reads Parts()
      ensures Valid() ==> SchemaOk(Schema()) && Typed(Schema(), Value())
    {
      SchemasOk();
      match this
      case PointM(m) => m.Valid()
      case RectangleM(m) => m.Valid()
      case FeatureM(m) => m.Valid()
      case RouteNoteM(m) => m.Valid()
      case RouteSummaryM(m) => m.Valid()
    }

    /** What the serializers write, given the cached sizes found in the message. */
    ghost function Emitted(): bytes
      reads Parts()
    {
      match this
      case PointM(m) => Encode(m.Value())
      case RectangleM(m) => m.Emitted()
      case FeatureM(m) => m.Emitted()
      case RouteNoteM(m) => m.Emitted()
      case RouteSummaryM(m) => Encode(m.Value())
    }

    method ByteSize() returns (n: nat)
      requires Valid()
      modifies Repr()
      ensures Valid() && Value() == old(Value()) && Repr() == old(Repr())
      ensures n == |Encode(Value())| && Emitted() == Encode(Value())
    {
      match this
      case PointM(m) => n := m.ByteSizeLong();
      case RectangleM(m) => n := m.ByteSizeLong();
      case FeatureM(m) => n := m.ByteSizeLong();
      case RouteNoteM(m) => n := m.ByteSizeLong();
      case RouteSummaryM(m) => n := m.ByteSizeLong();
    }

    method SerializeWithCachedSizes(output: CodedOutputStream)
      requires Valid() && output.Valid() && Repr() !! output.Repr()
      modifies output.Repr()
      ensures output.Valid() && fresh(output.Repr() - old(output.Repr()))
      ensures output.Written() == old(output.Written()) + old(Emitted())
    {
      hide CodedOutputStream.Valid, CodedOutputStream.Written, Encode, Typed, Emit;
      match this
      case PointM(m) => m.SerializeWithCachedSizes(output);
      case RectangleM(m) => m.SerializeWithCachedSizes(output);
      case FeatureM(m) => m.SerializeWithCachedSizes(output);
      case RouteNoteM(m) => m.SerializeWithCachedSizes(output);
      case RouteSummaryM(m) => m.SerializeWithCachedSizes(output);
    }

    method SerializeWithCachedSizesToArray(target: array<byte>) returns (end: nat)
      requires Valid() && |Emitted()| <= target.Length
      modifies target
      ensures end == |old(Emitted())| && target[..] == Splice(old(target[..]), 0, old(Emitted()))
    {
      hide Encode, Typed, Splice, Emit;
      match this
      case PointM(m) => end := m.InternalSerializeWithCachedSizesToArray(target, 0);
      case RectangleM(m) => end := m.InternalSerializeWithCachedSizesToArray(target, 0);
      case FeatureM(m) => end := m.InternalSerializeWithCachedSizesToArray(target, 0);
      case RouteNoteM(m) => end := m.InternalSerializeWithCachedSizesToArray(target, 0);
      case RouteSummaryM(m) => end := m.InternalSerializeWithCachedSizesToArray(target, 0);
    }

    /** Clears the message, then merges what the stream holds into it. */
    method ParseFromCodedStream(input: CodedInputStream) returns (ok: bool)
      requires Valid() && input.Valid() && !input.legitimateEnd
      modifies Repr(), input, input.reader
      ensures Valid() && fresh(Repr() - old(Repr()))
      ensures Ended(Parse(Schema(), Default(Schema()), old(input.Visible())), ok, input.legitimateEnd, Value())
    {
      hide CodedInputStream.Valid, CodedInputStream.Visible, Parse, Typed;
      match this
      case PointM(m) =>
        m.Clear();
        ok := m.MergePartialFromCodedStream(input);
      case RectangleM(m) =>
        m.Clear();
        ok := m.MergePartialFromCodedStream(input);
      case FeatureM(m) =>
        m.Clear();
        ok := m.MergePartialFromCodedStream(input);
      case RouteNoteM(m) =>
        m.Clear();
        ok := m.MergePartialFromCodedStream(input);
      case RouteSummaryM(m) =>
        m.Clear();
        ok := m.MergePartialFromCodedStream(input);
    }
  }

  /** A message whose objects did not change is the same message. */
  twostate lemma MessageUnchanged(msg: Message)
    requires forall o: object | o in old(msg.Parts()) :: unchanged(o)
    ensures msg.Valid() == old(msg.Valid()) && msg.Value() == old(msg.Value())
    ensures msg.Repr() == old(msg.Repr()) && msg.Emitted() == old(msg.Emitted())
  {
    hide Typed, Encode, Emit;
  }

  /** A buffer that can be read: slices inside their blocks, whoever else holds those. */
  ghost predicate Readable(b: SliceBuffer)
    reads b, b.pool, b.pool.blocks
  {
    && b.pool.Valid()
    && forall s | s in b.slices :: Fits(b.pool.Contents(), s)
  }

  /** A buffer as it is handed to a receiver: its references are the only ones to its blocks. */
  ghost predicate Sendable(b: SliceBuffer)
    reads b, b.pool, b.pool.blocks
    ensures Sendable(b) ==> Readable(b)
  {
    && Readable(b)
    && forall i | 0 <= i < |b.pool.refs| :: b.pool.refs[i] == Views(b.slices, i)
  }

  /** The message in a new byte buffer: one exact slice if it is short, writer blocks if not. */
  method Serialize(msg: Message) returns (status: Status, bp: SliceBuffer)
    requires msg.Valid() && |Encode(msg.Value())| <= INT_MAX
    modifies msg.Repr()
    ensures status == OK && fresh(bp.Repr())
    ensures msg.Valid() && msg.Value() == old(msg.Value()) && msg.Repr() == old(msg.Repr())
    ensures Sendable(bp) && bp.Content() == Encode(msg.Value())
    ensures |Encode(msg.Value())| <= 8192 ==> |bp.slices| == 1
    ensures |Encode(msg.Value())| > 8192 ==> InBlocks(bp.slices, 8192)
  {
    hide Encode, Typed, Message.Emitted, Message.Value, Message.Valid, Sendable;
    ghost var v := msg.Value();
    var byteSize := msg.ByteSize();
    if byteSize <= MAX_BUFFER_LENGTH {
      bp := SerializeSmall(msg, byteSize);
    } else {
      bp := SerializeToStream(msg);
    }
    status := OK;
  }

  /** An array of exactly the size of the message, filled in place. */
  method ToNewArray(msg: Message, byteSize: nat) returns (target: array<byte>)
    requires msg.Valid() && byteSize == |msg.Emitted()|
    ensures fresh(target) && target[..] == old(msg.Emitted())
  {
    hide Encode, Typed, Message.Emitted, Message.Value, Message.Valid, Splice;
    target := new byte[byteSize];
    MessageUnchanged(msg);
    SpliceAll(target[..], msg.Emitted());
    var end := msg.SerializeWithCachedSizesToArray(target);
    assert end == target.Length;
  }

  /** One slice over that array. */
  method SerializeSmall(msg: Message, byteSize: nat) returns (bp: SliceBuffer)
    requires msg.Valid() && byteSize == |msg.Emitted()|
    ensures fresh(bp.Repr())
    ensures msg.Valid() && msg.Value() == old(msg.Value()) && msg.Repr() == old(msg.Repr())
    ensures Sendable(bp) && bp.Content() == old(msg.Emitted()) && |bp.slices| == 1
  {
    hide Encode, Typed, Message.Emitted, Message.Value, Message.Valid, Sendable;
    hide SliceBuffer.Content;
    var target := ToNewArray(msg, byteSize);
    bp := BufferOf(target);
    MessageUnchanged(msg);
  }

  lemma SpliceAll(s: bytes, data: bytes)
    requires |s| == |data|
    ensures Splice(s, 0, data) == data
  {
  }

  /** The message in a new stream; the sizes are computed once more. */
  method NewStreamOf(msg: Message) returns (output: CodedOutputStream)
    requires msg.Valid()
    modifies msg.Repr()
    ensures fresh(output.Repr()) && output.Valid() && output.Written() == Encode(old(msg.Value()))
    ensures output.even && output.output.blockSize == MAX_BUFFER_LENGTH
    ensures msg.Valid() && msg.Value() == old(msg.Value()) && msg.Repr() == old(msg.Repr())
  {
    hide Encode, Typed, Message.Emitted, Message.Value, Message.Valid;
    hide CodedOutputStream.Valid, CodedOutputStream.Written;
    output := OpenStream();
    MessageUnchanged(msg);
    SerializeToCodedStream(msg, output);
  }

  /** Through the buffer writer: the unused tail of its last block goes back. */
  method SerializeToStream(msg: Message) returns (bp: SliceBuffer)
    requires msg.Valid()
    modifies msg.Repr()
    ensures fresh(bp.Repr())
    ensures msg.Valid() && msg.Value() == old(msg.Value()) && msg.Repr() == old(msg.Repr())
    ensures Sendable(bp) && bp.Content() == Encode(old(msg.Value())) && InBlocks(bp.slices, MAX_BUFFER_LENGTH)
  {
    hide Encode, Typed, Message.Emitted, Message.Value, Message.Valid, Sendable;
    hide CodedOutputStream.Valid, CodedOutputStream.Written, SliceBuffer.Content;
    var output := NewStreamOf(msg);
    label Written:
    bp := CloseStream(output);
    MessageUnchanged@Written(msg);
  }

  method SerializeToCodedStream(msg: Message, output: CodedOutputStream)
    requires msg.Valid() && output.Valid() && msg.Repr() !! output.Repr()
    modifies msg.Repr(), output.Repr()
    ensures msg.Valid() && msg.Value() == old(msg.Value()) && msg.Repr() == old(msg.Repr())
    ensures output.Valid() && fresh(output.Repr() - old(output.Repr()))
    ensures output.Written() == old(output.Written()) + Encode(old(msg.Value()))
  {
    hide Encode, Typed, Message.Emitted, Message.Value, Message.Valid;
    hide CodedOutputStream.Valid, CodedOutputStream.Written;
    var size := msg.ByteSize();
    label Sized:
    msg.SerializeWithCachedSizes(output);
    MessageUnchanged@Sized(msg);
  }

  /** A buffer of one slice over the whole of a new block, the creator's reference given back. */
  method BufferOf(target: array<byte>) returns (bp: SliceBuffer)
    ensures fresh(bp) && fresh(bp.pool) && bp.pool.blocks == [target]
    ensures Sendable(bp) && bp.Content() == target[..] && |bp.slices| == 1
  {
    var pool := new BlockPool();
    var s := pool.Adopt(target);
    bp := new SliceBuffer(pool);
    pool.refs := pool.refs[s.block := pool.refs[s.block] + 1];
    bp.Add(s);
    pool.refs := pool.refs[s.block := pool.refs[s.block] - 1];
    JoinSnoc(pool.Contents(), [], s);
    ViewsSnoc([], s, 0);
    assert [] + [s] == [s] == bp.slices;
    assert View(pool.Contents(), s) == target[..];
  }

  /** A new writer with a coded stream on it. */
  method OpenStream() returns (output: CodedOutputStream)
    ensures fresh(output.Repr()) && output.Valid() && output.Written() == []
    ensures output.even && output.output.blockSize == MAX_BUFFER_LENGTH
  {
    hide Layout.Ok, Layout.WindowOpen, Counted, Join, Total, Views;
    var pool := new BlockPool();
    var writer := new GrpcBufferWriter(pool, MAX_BUFFER_LENGTH);
    assert writer.Content() == [] by {
      JoinNone(writer.Memory());
    }
    output := new CodedOutputStream(writer);
  }

  /** The destructors of the coded stream and of the writer. */
  method CloseStream(output: CodedOutputStream) returns (bp: SliceBuffer)
    requires output.Valid()
    modifies output.Repr()
    ensures bp.Repr() <= old(output.Repr())
    ensures Sendable(bp) && bp.Content() == old(output.Written())
    ensures output.even ==> InBlocks(bp.slices, output.output.blockSize)
  {
    output.Trim();
    output.output.Destroy();
    bp := output.output.sliceBuffer;
  }

  lemma JoinNone(m: Memory)
    ensures Join(m, []) == [] && Flat([]) == []
  {
  }

  lemma ContentIsJoin(b: SliceBuffer)
    ensures b.Content() == Join(b.pool.Contents(), b.slices)
  {
  }

  /** The slices of a received buffer, as bytes, and the references to their blocks. */
  method SlicesOf(buffer: SliceBuffer) returns (ss: seq<bytes>, owned: seq<nat>)
    requires Readable(buffer)
    ensures Flat(ss) == buffer.Content() && |ss| == |owned| == |buffer.slices|
    ensures forall i | 0 <= i < |owned| :: buffer.slices[i].block < |buffer.pool.refs|
                                           && owned[i] == buffer.pool.refs[buffer.slices[i].block]
  {
    hide Join, Flat, SliceBuffer.Content;
    ss, owned := [], [];
    assert buffer.slices[..0] == [];
    JoinNone(buffer.pool.Contents());
    for i := 0 to |buffer.slices|
      invariant Flat(ss) == Join(buffer.pool.Contents(), buffer.slices[..i]) && |ss| == |owned| == i
      invariant forall k | 0 <= k < i :: buffer.slices[k].block < |buffer.pool.refs|
                                         && owned[k] == buffer.pool.refs[buffer.slices[k].block]
    {
      var s := buffer.slices[i];
      assert Fits(buffer.pool.Contents(), s) by {
        assert s in buffer.slices;
      }
      var data := buffer.pool.blocks[s.block][s.off..s.off + s.len];
      assert buffer.slices[..i + 1] == buffer.slices[..i] + [s];
      JoinSnoc(buffer.pool.Contents(), buffer.slices[..i], s);
      FlatConcat(ss, [data]);
      FlatOne(data);
      ss, owned := ss + [data], owned + [buffer.pool.refs[s.block]];
    }
    assert buffer.slices[..|buffer.slices|] == buffer.slices;
    ContentIsJoin(buffer);
  }

  /** A reader over the buffer and a coded stream on it, if the reader can be initialised. */
  method OpenDecoder(buffer: SliceBuffer, readable: bool) returns (decoder: CodedInputStream?)
    requires Readable(buffer)
    ensures decoder != null <==> readable
    ensures decoder != null ==>
              && fresh(decoder) && fresh(decoder.reader) && decoder.Valid() && !decoder.legitimateEnd
              && decoder.Visible() == old(buffer.Content())
  {
    hide Readable, Flat, SliceBuffer.Content;
    hide GrpcBufferReader.Valid, GrpcBufferReader.Remaining, CodedInputStream.Valid;
    var ss, owned := SlicesOf(buffer);
    var reader := new GrpcBufferReader(ss, owned, readable);
    if !reader.ready {
      return null;
    }
    decoder := new CodedInputStream(reader);
  }

  /**
   The message that the bytes of the buffer encode.  The outcome depends on those bytes
   only, not on how they are cut into slices, and every failure to parse is reported as
   an input that was not read to its end.
   */
  method Deserialize(buffer: SliceBuffer?, readable: bool, msg: Message) returns (status: Status)
    requires msg.Valid() && (buffer != null ==> Readable(buffer))
    modifies msg.Repr()
    ensures msg.Valid() && fresh(msg.Repr() - old(msg.Repr()))
    ensures buffer == null ==> status == NO_PAYLOAD && msg.Value() == old(msg.Value())
    ensures buffer != null && !readable ==> status == NOT_READABLE && msg.Value() == old(msg.Value())
    ensures buffer != null && readable ==>
              match Parse(msg.Schema(), Default(msg.Schema()), old(buffer.Content()))
              case Complete(v) => status == OK && msg.Value() == v
              case Stopped(v) => status == NOT_ENTIRE && msg.Value() == v
              case Failed(w) => status == NOT_ENTIRE && LeftBy(msg.Value(), w)
    ensures buffer != null && readable ==>
              (status == OK <==> WellFormed(msg.Schema(), old(buffer.Content())))
  {
    hide Parse, Typed, Message.Value, Message.Valid, Readable, Flat, WellFormed, Default;
    if buffer == null {
      return NO_PAYLOAD;
    }
    status := OK;
    AcceptedIff(msg.Schema(), Default(msg.Schema()), buffer.Content());
    var decoder := OpenDecoder(buffer, readable);
    MessageUnchanged(msg);
    if decoder == null {
      return NOT_READABLE;
    }
    var ok := msg.ParseFromCodedStream(decoder);
    if !ok {
      status := NOT_INITIALIZED;
    }
    if !decoder.legitimateEnd {
      status := NOT_ENTIRE;
    }
  }

  /**
   A message that was serialized is received as it was sent exactly when its strings are
   valid UTF-8; `received` is any buffer with the bytes that were sent, however they were
   cut on the way.
   */
  method Receive(ghost sent: Value, received: SliceBuffer, msg: Message) returns (status: Status)
    requires msg.Valid() && Readable(received) && Typed(msg.Schema(), sent)
    requires received.Content() == Encode(sent) && |Encode(sent)| <= INT_MAX
    modifies msg.Repr()
    ensures msg.Valid() && fresh(msg.Repr() - old(msg.Repr()))
    ensures status == OK && msg.Value() == sent <==> Utf8Ok(sent)
    ensures !Utf8Ok(sent) ==> status == NOT_ENTIRE
  {
    hide Parse, Typed, Message.Value, Message.Valid, Readable, WellFormed, Default, Encode, Utf8Ok;
    RoundTrip(msg.Schema(), sent);
    status := Deserialize(received, true, msg);
  }
}

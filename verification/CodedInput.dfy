/**
 The client of the buffer reader: a stream that reads varints, tags and payloads out of
 the windows it is handed, up to the closest limit.
 */
module CodedInput {
  import opened Wire
  import opened Wrappers
  import opened BufferReader

  class CodedInputStream {
    const reader: GrpcBufferReader
    /** The whole content of the reader. */
    ghost const all: bytes
    /** The unread part of the window. */
    var buffer: bytes
    var position: nat
    var limit: Option<nat>
    /** Did the last tag come back 0 because the input, up to the limit, was at its end? */
    var legitimateEnd: bool

    ghost predicate Valid()
      reads this`buffer, this`position, this`limit, reader
      ensures Valid() ==> position <= Stop() <= |all|
    {
      && reader.Valid() && reader.ready
      && position <= Stop() <= |all|
      && all == Flat(reader.slices)
      && Buffered()
    }

    /** The buffer is the part of the content before the reader's position. */
    ghost predicate Buffered()
      reads this`buffer, this`position, reader
    {
      && position + |buffer| == reader.Position() <= |all|
      && buffer == all[position..position + |buffer|]
    }

    ghost function Stop(): nat
      reads this`limit
    {
      if limit.Some? && limit.value < |all| then limit.value else |all|
    }

    /** What can be read before the closest limit. */
    ghost function Visible(): bytes
      reads this`position, this`limit
    {
      if position <= Stop() <= |all| then all[position..Stop()] else []
    }

    constructor (reader: GrpcBufferReader)
      requires reader.Valid() && reader.ready && reader.Position() == 0
      ensures Valid() && this.reader == reader && limit == None && !legitimateEnd
      ensures Visible() == Flat(reader.slices)
    {
      this.reader := reader;
      all := Flat(reader.slices);
      buffer, position, limit, legitimateEnd := [], 0, None, false;
    }

    /** Is there nothing to read before the closest limit?  Fetches the next non-empty window if needed. */
    method AtEnd() returns (end: bool)
      requires Valid()
      modifies this`buffer, reader
      ensures Valid() && Visible() == old(Visible())
      ensures end <==> Visible() == []
      ensures !end ==> buffer != []
    {
      hide GrpcBufferReader.Valid, GrpcBufferReader.Remaining, GrpcBufferReader.Position, Flat;
      if limit.Some? && position >= limit.value {
        return true;
      }
      while buffer == []
        invariant Valid()
        decreases |reader.slices| - reader.index, reader.backupCount
      {
        var ok, data := reader.Next();
        if !ok {
          return true;
        }
        buffer := data;
      }
      end := false;
    }

    method ReadByte() returns (b: Option<byte>)
      requires Valid()
      modifies this`buffer, this`position, reader
      ensures Valid()
      ensures old(Visible()) == [] ==> b == None && Visible() == []
      ensures old(Visible()) != [] ==> b == Some(old(Visible())[0]) && Visible() == old(Visible())[1..]
    {
      hide GrpcBufferReader.Valid, GrpcBufferReader.Remaining, GrpcBufferReader.Position, Flat;
      var end := AtEnd();
      if end {
        return None;
      }
      assert buffer[0] == all[position];
      b := Some(buffer[0]);
      buffer := buffer[1..];
      position := position + 1;
    }

    /** A base-128 varint, least significant group first. */
    method ReadVarint() returns (r: Option<nat>)
      requires Valid()
      modifies this`buffer, this`position, reader
      ensures Valid()
      ensures match Wire.ReadVarint(old(Visible()), MAX_VARINT_BYTES)
              case Bad => r == None
              case Got(v, rest) => r == Some(v) && Visible() == rest
    {
      hide CodedInputStream.Valid, CodedInputStream.Visible;
      hide Shifted, Wire.ReadVarint;
      ShiftNone(Wire.ReadVarint(Visible(), MAX_VARINT_BYTES));
      var result: int, scale: int, count: nat := 0, 1, 0;
      while count < MAX_VARINT_BYTES
        invariant Valid() && 0 <= result && 0 < scale && count <= MAX_VARINT_BYTES
        invariant Wire.ReadVarint(old(Visible()), MAX_VARINT_BYTES)
                  == Shifted(result, scale, Wire.ReadVarint(Visible(), MAX_VARINT_BYTES - count))
      {
        ghost var s := Visible();
        var b := ReadByte();
        if b == None {
          ShiftBad(result, scale, s, MAX_VARINT_BYTES - count);
          return None;
        }
        ShiftStep(result, scale, s, MAX_VARINT_BYTES - count);
        if b.value < 128 {
          return Some(result + scale * b.value);
        }
        result := result + scale * (b.value - 128);
        scale := scale * 128;
        count := count + 1;
      }
      ShiftBad(result, scale, Visible(), 0);
      r := None;
    }

    /**
     What is known after a tag was read from the front of `s`: at the end it is 0 and the
     end legitimate, 0 elsewhere is no tag, and after any other the payload is visible.
     */
    ghost predicate TagRead(tag: nat, s: bytes)
      reads this`position, this`limit, this`legitimateEnd
    {
      && (legitimateEnd <==> s == [])
      && (legitimateEnd ==> tag == 0 && Visible() == [])
      && (!legitimateEnd && tag == 0 ==> ReadRecord(s).NoTag?)
      && (tag != 0 ==> ReadRecord(s) == if tag / 8 == 0 then Malformed else ReadPayload(tag / 8, tag % 8, Visible()))
    }

    /** 0 at the end of the input, and when no tag can be read. */
    method ReadTag() returns (tag: nat)
      requires Valid() && !legitimateEnd
      modifies this`buffer, this`position, this`legitimateEnd, reader
      ensures Valid() && tag < TWO_32 && TagRead(tag, old(Visible()))
    {
      hide CodedInputStream.Valid, CodedInputStream.Visible, Wire.ReadVarint, ReadPayload;
      var end := AtEnd();
      if end {
        legitimateEnd := true;
        return 0;
      }
      var r := ReadVarint();
      tag := if r == None then 0 else r.value % TWO_32;
    }

    /** The length of a length-delimited field. */
    method ReadLength() returns (n: Option<nat>)
      requires Valid()
      modifies this`buffer, this`position, reader
      ensures Valid()
      ensures match Wire.ReadVarint(old(Visible()), MAX_VARINT_BYTES)
              case Bad => n == None
              case Got(v, rest) => n == (if v % TWO_64 > INT_MAX then None else Some(v % TWO_64)) && Visible() == rest
    {
      var r := ReadVarint();
      n := if r == None || r.value % TWO_64 > INT_MAX then None else Some(r.value % TWO_64);
    }

    /** Exactly `n` bytes, or nothing when there are fewer. */
    method ReadRaw(n: nat) returns (r: Option<bytes>)
      requires Valid()
      modifies this`buffer, this`position, reader
      ensures Valid()
      ensures n <= |old(Visible())| ==> r == Some(old(Visible())[..n]) && Visible() == old(Visible())[n..]
      ensures n > |old(Visible())| ==> r == None
    {
      hide CodedInputStream.Valid, CodedInputStream.Visible;
      var data := [];
      while |data| < n
        invariant Valid() && |data| <= n && |data| <= |old(Visible())|
        invariant data == old(Visible())[..|data|] && Visible() == old(Visible())[|data|..]
        decreases n - |data|
      {
        var b := ReadByte();
        if b == None {
          return None;
        }
        data := data + [b.value];
      }
      r := Some(data);
    }

    /** An int32 field: the low 32 bits of a varint. */
    method ReadInt32(ghost num: nat) returns (r: Option<int32>)
      requires Valid()
      modifies this`buffer, this`position, reader
      ensures Valid()
      ensures match ReadPayload(num, 0, old(Visible()))
              case Next(rec, rest) => r == Some(ToInt32(rec.payload.v)) && Visible() == rest
              case _ => r == None
    {
      var v := ReadVarint();
      r := if v == None then None else Some(ToInt32(v.value % TWO_64));
    }

    /** A string field. */
    method ReadString(ghost num: nat) returns (r: Option<bytes>)
      requires Valid()
      modifies this`buffer, this`position, reader
      ensures Valid()
      ensures match ReadPayload(num, 2, old(Visible()))
              case Next(rec, rest) => r == Some(rec.payload.b) && Visible() == rest
              case _ => r == None
    {
      var n := ReadLength();
      if n == None {
        return None;
      }
      r := ReadRaw(n.value);
    }

    /** Reads the payload of a field that the message does not know; groups and number 0 are refused. */
    method SkipField(tag: nat) returns (r: Option<Record>)
      requires Valid() && tag != 0
      modifies this`buffer, this`position, reader
      ensures Valid()
      ensures match if tag / 8 == 0 then Malformed else ReadPayload(tag / 8, tag % 8, old(Visible()))
              case Next(rec, rest) => r == Some(rec) && Visible() == rest
              case _ => r == None
    {
      var num := tag / 8;
      if num == 0 {
        return None;
      }
      match tag % 8
      case 0 =>
        var v := ReadVarint();
        r := if v == None then None else Some(Record(num, VarintP(v.value % TWO_64)));
      case 1 =>
        var b := ReadRaw(8);
        r := if b == None then None else Some(Record(num, Fixed64P(b.value)));
      case 2 =>
        var b := ReadString(num);
        r := if b == None then None else Some(Record(num, LenP(b.value)));
      case 5 =>
        var b := ReadRaw(4);
        r := if b == None then None else Some(Record(num, Fixed32P(b.value)));
      case _ =>
        r := None;
    }

    /** Narrows the limit to the next `n` bytes, unless it is closer already. */
    method PushLimit(n: nat) returns (oldLimit: Option<nat>)
      requires Valid()
      modifies this`limit
      ensures Valid() && oldLimit == old(limit)
      ensures limit.Some? && (oldLimit.Some? ==> limit.value <= oldLimit.value)
      ensures Stop() == if n <= |old(Visible())| then position + n else old(Stop())
      ensures Visible() == if n <= |old(Visible())| then old(Visible())[..n] else old(Visible())
    {
      hide GrpcBufferReader.Valid, GrpcBufferReader.Remaining, GrpcBufferReader.Position, Flat;
      ghost var seen := Visible();
      oldLimit := limit;
      if limit == None || position + n < limit.value {
        limit := Some(position + n);
      }
      assert n <= |seen| ==> all[position..position + n] == seen[..n];
    }

    method PopLimit(oldLimit: Option<nat>)
      requires Valid() && (oldLimit.Some? ==> limit.Some? && limit.value <= oldLimit.value)
      modifies this`limit, this`legitimateEnd
      ensures Valid() && limit == oldLimit && !legitimateEnd
    {
      hide GrpcBufferReader.Valid, GrpcBufferReader.Remaining, GrpcBufferReader.Position, Flat;
      limit := oldLimit;
      legitimateEnd := false;
    }
  }

  /** A varint whose first groups have been read into `result`. */
  function Shifted(result: nat, scale: nat, o: Read<nat>): Read<nat> {
    if o.Bad? then Bad else Got(result + scale * o.value, o.rest)
  }

  lemma ShiftNone(o: Read<nat>)
    ensures Shifted(0, 1, o) == o
  {
  }

  lemma ShiftBad(result: nat, scale: nat, s: bytes, k: nat)
    requires k == 0 || s == []
    ensures Shifted(result, scale, Wire.ReadVarint(s, k)) == Bad
  {
  }

  lemma ShiftStep(result: nat, scale: nat, s: bytes, k: nat)
    requires k > 0 && s != []
    ensures Shifted(result, scale, Wire.ReadVarint(s, k))
            == if s[0] < 128 then Got(result + scale * s[0], s[1..])
               else Shifted(result + scale * (s[0] - 128), scale * 128, Wire.ReadVarint(s[1..], k - 1))
  {
    if s[0] >= 128 && Wire.ReadVarint(s[1..], k - 1).Got? {
      var b, v := s[0] - 128, Wire.ReadVarint(s[1..], k - 1).value;
      assert result + scale * (b + 128 * v) == result + scale * b + scale * 128 * v;
    }
  }
}

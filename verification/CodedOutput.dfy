/**
 The client of the buffer writer: a stream that copies bytes into the windows it is
 handed, asks for the next window when one is full, and gives the unused tail back at
 the end.
 */
module CodedOutput {
  import opened Wire
  import opened Slices
  import opened BufferWriter

  class CodedOutputStream {
    const output: GrpcBufferWriter
    /** The unused bytes at the end of the window. */
    var bufferSize: nat
    /** Were all windows of the writer whole blocks when it was handed over? */
    ghost const even: bool

    ghost function Repr(): set<object>
      reads this, output, output.sliceBuffer, output.sliceBuffer.pool`blocks
    {
      {this} + output.Repr()
    }

    ghost predicate Valid()
      reads this, output, output.sliceBuffer, output.sliceBuffer.pool, output.sliceBuffer.pool.blocks
    {
      && output.Valid()
      && bufferSize <= output.byteCount
      && (even ==> output.State().Even())
      && (bufferSize > 0 ==> output.State().WindowOpen() && bufferSize <= output.State().Window().len)
    }

    /** What has been written so far. */
    ghost function Written(): bytes
      requires Valid()
      reads this, output, output.sliceBuffer, output.sliceBuffer.pool, output.sliceBuffer.pool.blocks
    {
      output.Content()[..output.byteCount - bufferSize]
    }

    constructor (output: GrpcBufferWriter)
      requires output.Valid()
      modifies output, output.sliceBuffer, output.sliceBuffer.pool
      ensures Valid() && this.output == output && even == old(output.State().Even())
      ensures Written() == old(output.Content())
      ensures fresh(Repr() - old(output.Repr()))
    {
      this.output := output;
      even := output.State().Even();
      bufferSize := 0;
      new;
      Refresh();
    }

    /** Asks for the next window when the current one is used up. */
    method Refresh()
      requires Valid() && bufferSize == 0
      modifies this, output, output.sliceBuffer, output.sliceBuffer.pool
      ensures Valid() && fresh(Repr() - old(Repr()))
      ensures Written() == old(Written())
      ensures !output.haveBackup
      ensures old(output.haveBackup) || bufferSize > 0
    {
      hide GrpcBufferWriter.Valid, GrpcBufferWriter.Content, GrpcBufferWriter.Repr, Layout.Next;
      ghost var before := output.State();
      output.Next();
      bufferSize := output.slice.value.len;
      EvenNext(before, output.State().Window());
    }

    method Copy(data: bytes)
      requires Valid() && |data| <= bufferSize
      modifies Repr()
      ensures Valid() && Repr() == old(Repr()) && bufferSize == old(bufferSize) - |data|
      ensures Written() == old(Written()) + data
      ensures output.haveBackup == old(output.haveBackup)
    {
      hide GrpcBufferWriter.Valid, GrpcBufferWriter.Content, GrpcBufferWriter.Repr;
      hide GrpcBufferWriter.State, GrpcBufferWriter.WindowBlock;
      hide Layout.WindowOpen, Layout.Window, SliceBuffer.Content, Splice;
      if data != [] {
        SpliceAppend(output.Content(), output.byteCount - bufferSize, data);
        output.Fill(output.slice.value.len - bufferSize, data);
        bufferSize := bufferSize - |data|;
      }
    }

    /** Appends `data`, whatever windows it has to be spread over. */
    method WriteRaw(data: bytes)
      requires Valid()
      modifies Repr()
      ensures Valid() && fresh(Repr() - old(Repr()))
      ensures Written() == old(Written()) + data
    {
      hide CodedOutputStream.Valid, CodedOutputStream.Written, GrpcBufferWriter.Valid, GrpcBufferWriter.Content;
      hide GrpcBufferWriter.State, SliceBuffer.Content;
      var i := 0;
      while bufferSize < |data| - i
        invariant Valid() && fresh(Repr() - old(Repr()))
        invariant i <= |data| && Written() == old(Written()) + data[..i]
        decreases |data| - i, if bufferSize > 0 then 0 else if output.haveBackup then 2 else 1
      {
        var n := bufferSize;
        Copy(data[i..i + n]);
        i := i + n;
        Refresh();
      }
      Copy(data[i..]);
    }

    method WriteVarint(n: nat)
      requires Valid()
      modifies Repr()
      ensures Valid() && fresh(Repr() - old(Repr()))
      ensures Written() == old(Written()) + Varint(n)
    {
      WriteRaw(Varint(n));
    }

    /** The unused end of the window goes back; the buffer holds what was written. */
    method Trim()
      requires Valid()
      modifies this, output, output.sliceBuffer, output.sliceBuffer.pool`refs
      ensures output.Valid() && output.Content() == old(Written())
      ensures output.sliceBuffer.pool.blocks == old(output.sliceBuffer.pool.blocks)
      ensures even ==> InBlocks(output.sliceBuffer.slices, output.blockSize)
    {
      hide Layout.Ok, Layout.BackUp, Counted, Join, Total, Views;
      if bufferSize > 0 {
        if even {
          EvenBackUp(output.State(), bufferSize);
        }
        output.BackUp(bufferSize);
        bufferSize := 0;
      }
    }
  }
}

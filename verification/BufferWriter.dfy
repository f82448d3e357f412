/**
 GrpcBufferWriter: hands out windows into memory blocks, takes unused tails back and
 hands them out again.
 */
module BufferWriter {
  import opened Wire
  import opened Wrappers
  import opened Slices

  const MAX_BUFFER_LENGTH: nat := 8192

  // ----------------------------------------------------- the state as a value

  /** The slices of the buffer, and the tail that is held back. */
  datatype Layout = Layout(blockSize: nat, slices: seq<Slice>, held: Option<Slice>) {

    predicate Owned(m: Memory, s: Slice) {
      Fits(m, s) && s.len <= blockSize
    }

    /** All views are inside their blocks, none overlaps another. */
    predicate Ok(m: Memory) {
      && blockSize > 0
      && (forall s | s in slices :: Owned(m, s))
      && Ordered(slices)
      && (held.Some? ==> Owned(m, held.value) && forall s | s in slices :: s.Before(held.value))
    }

    /** The references that the writer and its buffer hold on a block. */
    function References(b: nat): nat {
      Views(slices, b) + if held.Some? && held.value.block == b then 1 else 0
    }

    /** Every window was a whole block. */
    predicate Even() {
      held.None? && forall s | s in slices :: s.len == blockSize
    }

    predicate WindowOpen() {
      held.None? && slices != []
    }

    function Window(): Slice
      requires WindowOpen()
    {
      slices[|slices| - 1]
    }

    function Next(s: Slice): Layout {
      Layout(blockSize, slices + [s], None)
    }

    /** The last window without its last `count` bytes; a whole block leaves the buffer. */
    function BackUp(count: nat): Layout
      requires WindowOpen() && count <= Window().len
    {
      var rest := slices[..|slices| - 1];
      if count == blockSize then Layout(blockSize, rest, Some(Window()))
      else
        var keep := Window().len - count;
        Layout(blockSize, rest + [Window().Head(keep)], Some(Window().Tail(keep)))
    }
  }

  lemma NextOk(l: Layout, m: Memory, m': Memory, s: Slice)
    requires l.Ok(m) && l.Owned(m', s) && |m| <= |m'| && m'[..|m|] == m
    requires l.held == Some(s) || (l.held.None? && s.block == |m|)
    ensures l.Next(s).Ok(m')
    ensures Total(l.Next(s).slices) == Total(l.slices) + s.len
    ensures forall t | t in l.slices :: t.Disjoint(s)
  {
    hide Total, Ordered;
    TotalSnoc(l.slices, s);
    assert forall i | 0 <= i < |m| :: m[i] == m'[i];
    forall t | t in l.slices
      ensures t.Before(s)
    {
      assert l.Owned(m, t);
    }
    OrderedSnoc(l.slices, s);
  }

  /** Every reference count is the number of views the writer and its buffer have. */
  predicate Counted(l: Layout, refs: seq<nat>) {
    forall b | 0 <= b < |refs| :: refs[b] == l.References(b)
  }

  lemma NextCounted(l: Layout, m: Memory, refs: seq<nat>, s: Slice)
    requires l.Ok(m) && Counted(l, refs) && |refs| == |m|
    requires l.held == Some(s) || (l.held.None? && s.block == |m|)
    ensures Counted(l.Next(s), if l.held.Some? then refs else refs + [1])
  {
    ViewsNone(l.slices, |m|);
    forall b: nat | b <= |refs|
      ensures Views(l.slices + [s], b) == Views(l.slices, b) + if s.block == b then 1 else 0
    {
      ViewsSnoc(l.slices, s, b);
    }
  }

  lemma BackUpCounted(l: Layout, m: Memory, refs: seq<nat>, count: nat)
    requires l.Ok(m) && Counted(l, refs) && |refs| == |m|
    requires l.WindowOpen() && count <= l.Window().len && l.Window().block < |refs|
    ensures var b := l.Window().block;
            Counted(l.BackUp(count), if count == l.blockSize then refs else refs[b := refs[b] + 1])
  {
    var rest, w := l.slices[..|l.slices| - 1], l.Window();
    var head := w.Head(w.len - count);
    assert l.slices == rest + [w];
    forall b: nat | b < |refs|
      ensures Views(rest + [w], b) == Views(rest, b) + if w.block == b then 1 else 0
      ensures Views(rest + [head], b) == Views(rest, b) + if w.block == b then 1 else 0
    {
      ViewsSnoc(rest, w, b);
      ViewsSnoc(rest, head, b);
    }
  }

  /** What the buffer holds after `Next`: the old bytes, then whatever the window holds. */
  lemma NextContent(l: Layout, m: Memory, m': Memory, s: Slice)
    requires l.Ok(m) && |m| <= |m'| && m'[..|m|] == m
    ensures Join(m', l.Next(s).slices) == Join(m, l.slices) + View(m', s)
  {
    assert forall i | 0 <= i < |m| :: m[i] == m'[i];
    JoinUnchanged(m, m', l.slices);
    JoinSnoc(m', l.slices, s);
  }

  lemma BackUpOk(l: Layout, m: Memory, count: nat)
    requires l.Ok(m) && l.WindowOpen() && count <= l.Window().len
    ensures l.BackUp(count).Ok(m)
    ensures Total(l.BackUp(count).slices) == Total(l.slices) - count
  {
    hide Total, Ordered;
    var rest, w := l.slices[..|l.slices| - 1], l.Window();
    assert l.slices == rest + [w] && w in l.slices;
    TotalSnoc(rest, w);
    TotalSnoc(rest, w.Head(w.len - count));
    OrderedFront(rest, w);
    OrderedSnoc(rest, w.Head(w.len - count));
    assert forall s | s in rest :: s in l.slices;
  }

  /** Backing up takes exactly the last `count` bytes away. */
  lemma BackUpContent(l: Layout, m: Memory, count: nat)
    requires l.Ok(m) && l.WindowOpen() && count <= l.Window().len
    ensures var c := Join(m, l.slices); count <= |c| && Join(m, l.BackUp(count).slices) == c[..|c| - count]
  {
    hide Join;
    var rest, w := l.slices[..|l.slices| - 1], l.Window();
    assert l.slices == rest + [w] && w in l.slices;
    JoinSnoc(m, rest, w);
    var head := w.Head(w.len - count);
    JoinSnoc(m, rest, head);
    assert View(m, head) == View(m, w)[..w.len - count];
    var c := Join(m, l.slices);
    assert c[..|c| - count] == Join(m, rest) + View(m, head);
  }

  /** All of the above for one `BackUp`. */
  lemma BackUpLaws(l: Layout, m: Memory, refs: seq<nat>, byteCount: nat, count: nat)
    requires l.Ok(m) && Counted(l, refs) && |refs| == |m| && byteCount == Total(l.slices)
    requires l.WindowOpen() && count <= l.Window().len
    ensures var b := l.Window().block;
            b < |refs| && Counted(l.BackUp(count), if count == l.blockSize then refs else refs[b := refs[b] + 1])
    ensures count <= byteCount == |Join(m, l.slices)|
    ensures l.BackUp(count).Ok(m) && Total(l.BackUp(count).slices) == byteCount - count
    ensures Join(m, l.BackUp(count).slices) == Join(m, l.slices)[..byteCount - count]
  {
    hide Join, Total, Ordered, Counted;
    assert l.Window() in l.slices;
    JoinLength(m, l.slices);
    BackUpOk(l, m, count);
    BackUpCounted(l, m, refs, count);
    BackUpContent(l, m, count);
  }

  /** Filling part of the open window changes those bytes of the buffer and no others. */
  lemma StoreContent(l: Layout, m: Memory, at: nat, data: bytes)
    requires l.Ok(m) && l.WindowOpen() && at + |data| <= l.Window().len && Fits(m, l.Window())
    ensures var m' := Store(m, l.Window(), at, data);
            var c := Join(m, l.slices);
            var i := |c| - l.Window().len + at;
            l.Ok(m') && 0 <= i <= i + |data| <= |c| && Join(m', l.slices) == Splice(c, i, data)
  {
    hide Join, Store, Splice;
    var rest, w := l.slices[..|l.slices| - 1], l.Window();
    var m' := Store(m, w, at, data);
    assert l.slices == rest + [w] && w in l.slices;
    StoreView(m, w, at, data);
    forall s | s in rest
      ensures View(m, s) == View(m', s)
    {
      assert s in l.slices && s.Before(w);
      StoreElsewhere(m, w, at, data, s);
    }
    JoinUnchanged(m, m', rest);
    JoinSnoc(m, rest, w);
    JoinSnoc(m', rest, w);
    SpliceConcat(Join(m, rest), View(m, w), at, data);
  }

  /** Whole blocks, but for the last slice, which is not empty. */
  predicate InBlocks(ss: seq<Slice>, blockSize: nat) {
    forall i | 0 <= i < |ss| :: 0 < ss[i].len <= blockSize && (i < |ss| - 1 ==> ss[i].len == blockSize)
  }

  lemma EvenNext(l: Layout, s: Slice)
    ensures l.Even() && s.len == l.blockSize ==> l.Next(s).Even()
  {
  }

  lemma EvenBackUp(l: Layout, count: nat)
    requires l.Even() && l.blockSize > 0 && l.WindowOpen() && 0 < count <= l.Window().len
    ensures InBlocks(l.BackUp(count).slices, l.blockSize)
  {
    assert l.Window() in l.slices;
    assert forall i | 0 <= i < |l.slices| - 1 :: l.slices[i] in l.slices;
  }

  // ------------------------------------------------------------- the class

  class GrpcBufferWriter {
    const blockSize: nat
    const sliceBuffer: SliceBuffer
    var byteCount: nat
    var haveBackup: bool
    var backupSlice: Option<Slice>
    var slice: Option<Slice>

    ghost function State(): Layout
      reads this, sliceBuffer
    {
      Layout(blockSize, sliceBuffer.slices, if haveBackup then backupSlice else None)
    }

    ghost function Memory(): Memory
      reads this, sliceBuffer.pool`blocks, sliceBuffer.pool.blocks
    {
      sliceBuffer.pool.Contents()
    }

    /** Everything the writer may change. */
    ghost function Repr(): (r: set<object>)
      reads this, sliceBuffer, sliceBuffer.pool`blocks
      ensures this in r && sliceBuffer in r && sliceBuffer.pool in r
      ensures forall a | a in sliceBuffer.pool.blocks :: a in r
    {
      {this, sliceBuffer, sliceBuffer.pool} + set a | a in sliceBuffer.pool.blocks
    }

    ghost predicate Valid()
      reads this, sliceBuffer, sliceBuffer.pool, sliceBuffer.pool.blocks
      ensures Valid() && State().WindowOpen() ==> slice == Some(State().Window())
      ensures Valid() ==> blockSize > 0
    {
      && sliceBuffer.pool.Valid()
      && State().Ok(Memory())
      && (haveBackup ==> backupSlice.Some?)
      && (State().WindowOpen() ==> slice == Some(State().Window()))
      && byteCount == Total(sliceBuffer.slices)
      && Counted(State(), sliceBuffer.pool.refs)
    }

    /** All bytes in the buffer, the last window included. */
    ghost function Content(): (c: bytes)
      requires Valid()
      reads this, sliceBuffer, sliceBuffer.pool, sliceBuffer.pool.blocks
      ensures c == sliceBuffer.Content() && |c| == byteCount
    {
      JoinLength(Memory(), sliceBuffer.slices);
      sliceBuffer.Content()
    }

    /** The memory under the open window. */
    ghost function WindowBlock(): (a: array<byte>)
      requires Valid() && State().WindowOpen()
      reads this, sliceBuffer, sliceBuffer.pool, sliceBuffer.pool.blocks
      ensures a in sliceBuffer.pool.blocks
    {
      assert State().Window() in sliceBuffer.slices;
      sliceBuffer.pool.blocks[State().Window().block]
    }

    constructor (pool: BlockPool, blockSize: nat)
      requires blockSize > 0 && pool.Valid() && pool.blocks == []
      ensures Valid() && fresh(sliceBuffer) && sliceBuffer.pool == pool
      ensures State() == Layout(blockSize, [], None)
    {
      this.blockSize := blockSize;
      sliceBuffer := new SliceBuffer(pool);
      byteCount := 0;
      haveBackup := false;
      backupSlice := None;
      slice := None;
    }

    /**
     A window to write into: the tail taken back last, or a new block.  No byte of it
     is viewed by a slice already in the buffer.
     */
    method Next()
      requires Valid()
      modifies this, sliceBuffer, sliceBuffer.pool
      ensures Valid() && State().WindowOpen() && !haveBackup && fresh(Repr() - old(Repr()))
      ensures State() == old(State()).Next(State().Window())
      ensures old(haveBackup) ==> Some(State().Window()) == old(backupSlice) && Memory() == old(Memory())
      ensures !old(haveBackup) ==> State().Window() == Slice(old(|Memory()|), 0, blockSize)
      ensures forall s | s in old(sliceBuffer.slices) :: s.Disjoint(State().Window())
      ensures old(Content()) <= Content()
      ensures byteCount == old(byteCount) + State().Window().len
    {
      hide Total, Views, Join, Ordered, Counted;
      ghost var before, memory := State(), Memory();
      ghost var refs := sliceBuffer.pool.refs;
      var s;
      if haveBackup {
        s := backupSlice.value;
        haveBackup := false;
      } else {
        s := sliceBuffer.pool.Malloc(blockSize);
      }
      slice := Some(s);
      byteCount := byteCount + s.len;
      sliceBuffer.Add(s);
      NextOk(before, memory, Memory(), s);
      NextCounted(before, memory, refs, s);
      NextContent(before, memory, Memory(), s);
    }
  
    /** Takes the last `count` bytes of the last window back. */
    method BackUp(count: nat)
      requires Valid() && State().WindowOpen() && count <= State().Window().len
      modifies this, sliceBuffer, sliceBuffer.pool`refs
      ensures Valid() && haveBackup && Memory() == old(Memory()) && Repr() == old(Repr())
      ensures State() == old(State()).BackUp(count)
      ensures byteCount == old(byteCount) - count
      ensures Content() == old(Content())[..byteCount]
    {
      hide Total, Views, Join, Ordered, Counted, View, Layout.Ok;
      ghost var before, memory, refs := State(), Memory(), sliceBuffer.pool.refs;
      BackUpLaws(before, memory, refs, byteCount, count);
      sliceBuffer.Pop();
      if count == blockSize {
        backupSlice := slice;
      } else {
        SplitTail(slice.value.len - count);
        sliceBuffer.Add(slice.value);
      }
      haveBackup := true;
      byteCount := byteCount - count;
      assert State() == before.BackUp(count);
      assert Memory() == memory;
    }

    /** `grpc_slice_split_tail` on the current slice: the tail takes a reference. */
    method SplitTail(keep: nat)
      requires slice.Some? && slice.value.block < |sliceBuffer.pool.refs| && keep <= slice.value.len
      modifies this`slice, this`backupSlice, sliceBuffer.pool`refs
      ensures slice == Some(old(slice).value.Head(keep))
      ensures backupSlice == Some(old(slice).value.Tail(keep))
      ensures var b := old(slice).value.block;
              sliceBuffer.pool.refs == old(sliceBuffer.pool.refs)[b := old(sliceBuffer.pool.refs)[b] + 1]
    {
      var s := slice.value;
      sliceBuffer.pool.refs := sliceBuffer.pool.refs[s.block := sliceBuffer.pool.refs[s.block] + 1];
      slice := Some(s.Head(keep));
      backupSlice := Some(s.Tail(keep));
    }

    /** The destructor gives the held reference back: only the buffer's are left. */
    method Destroy()
      requires Valid()
      modifies this, sliceBuffer.pool`refs
      ensures |sliceBuffer.pool.refs| == |sliceBuffer.pool.blocks|
      ensures forall b | 0 <= b < |sliceBuffer.pool.refs| :: sliceBuffer.pool.refs[b] == Views(sliceBuffer.slices, b)
    {
      if haveBackup {
        var b := backupSlice.value.block;
        sliceBuffer.pool.refs := sliceBuffer.pool.refs[b := sliceBuffer.pool.refs[b] - 1];
      }
    }

    /** The client stores bytes in the window it was given, and only there. */
    method Fill(at: nat, data: bytes)
      requires Valid() && State().WindowOpen() && at + |data| <= State().Window().len
      modifies WindowBlock()
      ensures Valid() && State() == old(State()) && byteCount == old(byteCount) && Repr() == old(Repr())
      ensures var i := byteCount - State().Window().len + at;
              0 <= i <= i + |data| <= byteCount && Content() == Splice(old(Content()), i, data)
    {
      hide Total, Views, Join, Ordered, Counted, Store, Splice;
      ghost var memory := Memory();
      var w := slice.value;
      assert Fits(memory, w) by {
        assert w in sliceBuffer.slices;
      }
      sliceBuffer.pool.Put(w, at, data);
      StoreContent(State(), memory, at, data);
      JoinLength(memory, sliceBuffer.slices);
    }
  }
}

/**
 GrpcBufferReader: walks the slices of a byte buffer, window by window, with push-back.
 A received buffer is not written to while it is read, so its slices are byte strings.
 */
module BufferReader {
  import opened Wire

  lemma {:induction false} FlatConcat(a: seq<bytes>, b: seq<bytes>)
    ensures Flat(a + b) == Flat(a) + Flat(b)
  {
    if a == [] {
      assert a + b == b;
    } else {
      assert (a + b)[1..] == a[1..] + b;
      FlatConcat(a[1..], b);
    }
  }

  lemma FlatOne(s: bytes)
    ensures Flat([s]) == s
  {
    assert [s][1..] == [];
  }

  /** Where slice `i` lies in the whole content. */
  lemma FlatAt(ss: seq<bytes>, i: nat)
    requires i < |ss|
    ensures var n := |Flat(ss[..i])|;
            |Flat(ss[..i + 1])| == n + |ss[i]| <= |Flat(ss)| && Flat(ss)[n..n + |ss[i]|] == ss[i]
  {
    hide Flat;
    assert ss[..i + 1] == ss[..i] + [ss[i]] && ss == ss[..i + 1] + ss[i + 1..];
    FlatConcat(ss[..i], [ss[i]]);
    FlatOne(ss[i]);
    FlatConcat(ss[..i + 1], ss[i + 1..]);
  }

  lemma RestAt(ss: seq<bytes>, i: nat)
    requires i < |ss|
    ensures var n := |Flat(ss[..i])|;
            && n + |ss[i]| <= |Flat(ss)| && Flat(ss)[n..] == ss[i] + Flat(ss)[n + |ss[i]|..]
  {
    hide Flat;
    FlatAt(ss, i);
    var n := |Flat(ss[..i])|;
    EndOfWindow(Flat(ss), n + |ss[i]|, ss[i], |ss[i]|);
  }

  /** The last `k` bytes of a window that ends at `end`. */
  lemma EndOfWindow(all: bytes, end: nat, window: bytes, k: nat)
    requires k <= |window| <= end <= |all| && all[end - |window|..end] == window
    ensures all[end - k..end] == window[|window| - k..]
    ensures all[end - k..] == window[|window| - k..] + all[end..]
    ensures window[|window| - |window|..] == window
  {
  }

  class GrpcBufferReader {
    const slices: seq<bytes>
    /** How often the block of each slice is referenced by others, the buffer among them ... */
    const owned: seq<nat>
    /** ... and how often it is referenced now. */
    var references: seq<nat>
    /** Could the library's reader be initialised? */
    const ready: bool
    /** The library's reader: the index of the next slice. */
    var index: nat
    var slice: bytes
    var byteCount: nat
    var backupCount: nat
    /** After `Next`, the size it answered: what may be backed up. */
    ghost var lastSize: nat
    ghost var justRead: bool

    ghost predicate Valid()
      reads this
      ensures Valid() ==> 0 <= Position() <= |Flat(slices)|
    {
      && references == owned && |owned| == |slices|
      && index <= |slices|
      && byteCount == |Flat(slices[..index])|
      && backupCount <= |slice|
      && (index == 0 ==> slice == [])
      && (index > 0 ==> slice == slices[index - 1])
      && (justRead ==> index > 0 && backupCount == 0 && lastSize <= |slice|)
      && InContent()
    }

    ghost predicate InContent()
      reads this`slice, this`byteCount
    {
      && |slice| <= byteCount <= |Flat(slices)|
      && Flat(slices)[byteCount - |slice|..byteCount] == slice
    }

    /** The content not yet consumed. */
    ghost function Remaining(): bytes
      requires Valid()
      reads this
    {
      Flat(slices)[Position()..]
    }

    /** How many bytes have been consumed. */
    function Position(): int
      reads this
    {
      byteCount - backupCount
    }

    /** Is there a window to hand out? */
    predicate HasNext()
      reads this
    {
      ready && (backupCount > 0 || index < |slices|)
    }

    constructor (slices: seq<bytes>, owned: seq<nat>, ready: bool)
      requires |owned| == |slices|
      ensures Valid() && this.slices == slices && this.ready == ready && this.owned == owned
      ensures !justRead && byteCount == 0 && Remaining() == Flat(slices)
      ensures HasNext() <==> ready && slices != []
    {
      this.slices, this.owned, this.ready := slices, owned, ready;
      references := owned;
      index, slice, byteCount, backupCount := 0, [], 0, 0;
      lastSize, justRead := 0, false;
    }

    /** The end of the current slice, which was backed up. */
    method TakeBackedUp() returns (data: bytes)
      requires Valid() && backupCount > 0
      modifies this
      ensures Valid() && justRead && lastSize == |data| && backupCount == 0 && index == old(index)
      ensures Position() == old(Position()) + |data|
      ensures data == Flat(slices)[old(Position())..Position()] && old(Remaining()) == data + Remaining()
    {
      hide Flat;
      EndOfWindow(Flat(slices), byteCount, slice, backupCount);
      data := slice[|slice| - backupCount..];
      backupCount := 0;
      lastSize, justRead := |data|, true;
    }

    /**
     The next slice of the library's reader, which takes a reference for it.  That is given
     back before the window is handed out, so the window lives as long as the buffer does.
     */
    method TakeSlice() returns (data: bytes)
      requires Valid() && backupCount == 0 && index < |slices|
      modifies this
      ensures Valid() && justRead && lastSize == |data| && backupCount == 0 && index == old(index) + 1
      ensures Position() == old(Position()) + |data|
      ensures data == Flat(slices)[old(Position())..Position()] && old(Remaining()) == data + Remaining()
    {
      hide Flat;
      FlatAt(slices, index);
      RestAt(slices, index);
      slice := slices[index];
      references := references[index := references[index] + 1];
      index := index + 1;
      references := references[index - 1 := references[index - 1] - 1];
      data := slice;
      byteCount := byteCount + |slice|;
      lastSize, justRead := |data|, true;
    }

    /** The next window: what was backed up, or the next slice. */
    method Next() returns (ok: bool, data: bytes)
      requires Valid()
      modifies this
      ensures Valid()
      ensures ok == old(HasNext())
      ensures ok ==> justRead && lastSize == |data| && old(Remaining()) == data + Remaining()
      ensures ok ==> Position() == old(Position()) + |data| && data == Flat(slices)[old(Position())..Position()]
      ensures ok ==> backupCount == 0
      ensures !ok ==> !justRead && Remaining() == old(Remaining()) && Position() == old(Position())
      ensures !ok ==> byteCount == old(byteCount) && backupCount == old(backupCount) && index == old(index)
      ensures !ok && ready ==> Remaining() == [] && Position() == |Flat(slices)|
      ensures ok ==> index == if old(backupCount) > 0 then old(index) else old(index) + 1
    {
      hide Flat, GrpcBufferReader.InContent;
      data := [];
      if !ready {
        justRead := false;
        return false, data;
      }
      if backupCount > 0 {
        data := TakeBackedUp();
        return true, data;
      }
      if index == |slices| {
        assert slices[..index] == slices;
        justRead := false;
        return false, data;
      }
      data := TakeSlice();
      return true, data;
    }

    /** Gives the last `count` bytes of the last window back. */
    method BackUp(count: nat)
      requires Valid() && justRead && count <= lastSize
      modifies this
      ensures Valid() && !justRead && backupCount == count && Position() == old(Position()) - count
      ensures byteCount == old(byteCount) && index == old(index)
      ensures Remaining() == Flat(slices)[byteCount - count..]
    {
      backupCount := count;
      justRead := false;
    }

    /**
     Moves `count` bytes ahead, or to the end when there are not that many.  Skipping
     nothing still asks for a window, so it fails when there is none.
     */
    method Skip(count: nat) returns (ok: bool)
      requires Valid()
      modifies this
      ensures Valid()
      ensures ready ==> (ok <==> count <= |old(Remaining())| && (count > 0 || old(HasNext())))
      ensures !ready ==> !ok && Remaining() == old(Remaining())
      ensures ok ==> Remaining() == old(Remaining())[count..]
      ensures !ok && ready ==> Remaining() == []
    {
      hide Flat, GrpcBufferReader.InContent;
      var left := count;
      while true
        invariant Valid() && 0 <= left <= count
        invariant count - left <= |old(Remaining())| && Remaining() == old(Remaining())[count - left..]
        invariant count == 0 ==> HasNext() == old(HasNext())
        invariant left == 0 ==> count == 0
        invariant !ready ==> left == count
        decreases |slices| - index, backupCount
      {
        var more, data := Next();
        if !more {
          return false;
        }
        if |data| >= left {
          BackUp(|data| - left);
          return true;
        }
        left := left - |data|;
      }
      ok := false;
    }

    method ByteCount() returns (n: nat)
      requires Valid()
      ensures n == |Flat(slices)| - |Remaining()|
      ensures Flat(slices) == Flat(slices)[..n] + Remaining()
    {
      n := Position();
    }
  }
}

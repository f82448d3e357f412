/**
 Reference-counted memory blocks, slices (views into blocks), and slice buffers:
 the part of the C core library that the zero-copy streams are built on.
 */
module Slices {
  import opened Wire

  /** A by-reference view of `len` bytes of a block. */
  datatype Slice = Slice(block: nat, off: nat, len: nat) {
    /** No byte is in both views. */
    predicate Disjoint(s: Slice) {
      block != s.block || off + len <= s.off || s.off + s.len <= off
    }

    /** Views of the same block come in the order of their offsets. */
    predicate Before(s: Slice) {
      block == s.block ==> off + len <= s.off
    }

    /** The two parts that `grpc_slice_split_tail` cuts a slice into. */
    function Head(keep: nat): Slice {
      Slice(block, off, keep)
    }

    function Tail(keep: nat): Slice
      requires keep <= len
    {
      Slice(block, off + keep, len - keep)
    }
  }

  // ------------------------------------------------- slices over a memory value

  /** The contents of all blocks at one moment. */
  type Memory = seq<bytes>

  predicate Fits(m: Memory, s: Slice) {
    s.block < |m| && s.off + s.len <= |m[s.block]|
  }

  function View(m: Memory, s: Slice): bytes {
    if Fits(m, s) then m[s.block][s.off..s.off + s.len] else []
  }

  /** The bytes that a list of slices stands for. */
  function Join(m: Memory, ss: seq<Slice>): bytes {
    if ss == [] then [] else Join(m, ss[..|ss| - 1]) + View(m, ss[|ss| - 1])
  }

  function Total(ss: seq<Slice>): nat {
    if ss == [] then 0 else Total(ss[..|ss| - 1]) + ss[|ss| - 1].len
  }

  /** How many of the slices view block `b`. */
  function Views(ss: seq<Slice>, b: nat): nat {
    if ss == [] then 0
    else Views(ss[..|ss| - 1], b) + if ss[|ss| - 1].block == b then 1 else 0
  }

  predicate Ordered(ss: seq<Slice>) {
    forall i, j | 0 <= i < j < |ss| :: ss[i].Before(ss[j])
  }

  lemma OrderedSnoc(ss: seq<Slice>, s: Slice)
    requires Ordered(ss) && forall t | t in ss :: t.Before(s)
    ensures Ordered(ss + [s])
  {
  }

  lemma OrderedFront(ss: seq<Slice>, s: Slice)
    requires Ordered(ss + [s])
    ensures Ordered(ss) && forall t | t in ss :: t.Before(s)
  {
    var all := ss + [s];
    assert forall i | 0 <= i < |ss| :: all[i] == ss[i] && all[|ss|] == s && all[i].Before(all[|ss|]);
  }

  lemma JoinSnoc(m: Memory, ss: seq<Slice>, s: Slice)
    ensures Join(m, ss + [s]) == Join(m, ss) + View(m, s)
  {
    assert (ss + [s])[..|ss|] == ss;
  }

  lemma {:induction false} JoinLength(m: Memory, ss: seq<Slice>)
    requires forall s | s in ss :: Fits(m, s)
    ensures |Join(m, ss)| == Total(ss)
  {
    if ss != [] {
      assert ss[|ss| - 1] in ss;
      JoinLength(m, ss[..|ss| - 1]);
    }
  }

  /** Slices whose own bytes did not change stand for the same bytes. */
  lemma {:induction false} JoinUnchanged(m: Memory, m': Memory, ss: seq<Slice>)
    requires forall s | s in ss :: View(m, s) == View(m', s)
    ensures Join(m, ss) == Join(m', ss)
  {
    if ss != [] {
      JoinUnchanged(m, m', ss[..|ss| - 1]);
    }
  }

  lemma {:induction false} ViewsNone(ss: seq<Slice>, b: nat)
    requires forall s | s in ss :: s.block != b
    ensures Views(ss, b) == 0
  {
    if ss != [] {
      ViewsNone(ss[..|ss| - 1], b);
    }
  }

  lemma ViewsSnoc(ss: seq<Slice>, s: Slice, b: nat)
    ensures Views(ss + [s], b) == Views(ss, b) + if s.block == b then 1 else 0
  {
    assert (ss + [s])[..|ss|] == ss;
  }

  lemma TotalSnoc(ss: seq<Slice>, s: Slice)
    ensures Total(ss + [s]) == Total(ss) + s.len
  {
    assert (ss + [s])[..|ss|] == ss;
  }

  /** The memory after `data` was stored in a view, from its byte `at` on. */
  function Store(m: Memory, s: Slice, at: nat, data: bytes): Memory
    requires Fits(m, s) && at + |data| <= s.len
  {
    m[s.block := Splice(m[s.block], s.off + at, data)]
  }

  lemma StoreView(m: Memory, s: Slice, at: nat, data: bytes)
    requires Fits(m, s) && at + |data| <= s.len
    ensures View(Store(m, s, at, data), s) == Splice(View(m, s), at, data)
    ensures forall t :: Fits(m, t) ==> Fits(Store(m, s, at, data), t)
  {
    var l, r := View(Store(m, s, at, data), s), Splice(View(m, s), at, data);
    var b, b' := m[s.block], Splice(m[s.block], s.off + at, data);
    assert |b'| == |b| && l == b'[s.off..s.off + s.len] && View(m, s) == b[s.off..s.off + s.len];
    SpliceInside(b, s.off, s.len, at, data);
  }

  lemma StoreElsewhere(m: Memory, s: Slice, at: nat, data: bytes, t: Slice)
    requires Fits(m, s) && at + |data| <= s.len && Fits(m, t) && t.Disjoint(s)
    ensures View(Store(m, s, at, data), t) == View(m, t)
  {
  }

  // ------------------------------------------------------------- the heap side

  /** The blocks that were allocated, by address, with their reference counts. */
  class BlockPool {
    var blocks: seq<array<byte>>
    var refs: seq<nat>

    ghost predicate Valid()
      reads this
    {
      && |blocks| == |refs|
      && forall i, j | 0 <= i < j < |blocks| :: blocks[i] != blocks[j]
    }

    ghost function Contents(): (m: Memory)
      reads this`blocks, blocks
      ensures |m| == |blocks|
      ensures forall i | 0 <= i < |m| :: m[i] == blocks[i][..]
    {
      var bs := blocks;
      seq(|bs|, i requires 0 <= i < |bs| reads bs => bs[i][..])
    }

    constructor ()
      ensures Valid() && blocks == []
    {
      blocks, refs := [], [];
    }

    /** Stores `data` in a view, from its byte `at` on. */
    method Put(s: Slice, at: nat, data: bytes)
      requires Valid() && Fits(Contents(), s) && at + |data| <= s.len
      modifies blocks[s.block]
      ensures Valid() && Contents() == Store(old(Contents()), s, at, data)
    {
      ghost var memory := Contents();
      var block := blocks[s.block];
      forall i | 0 <= i < |data| {
        block[s.off + at + i] := data[i];
      }
      assert block[..] == Splice(memory[s.block], s.off + at, data);
      assert forall j | 0 <= j < |memory| && j != s.block :: blocks[j][..] == memory[j];
    }

    /** A slice of all of a block, with one reference. */
    method Adopt(b: array<byte>) returns (s: Slice)
      requires Valid() && b !in blocks
      modifies this
      ensures Valid()
      ensures s == Slice(old(|blocks|), 0, b.Length)
      ensures blocks == old(blocks) + [b] && refs == old(refs) + [1]
    {
      s := Slice(|blocks|, 0, b.Length);
      blocks, refs := blocks + [b], refs + [1];
    }

    /** A slice of a new block, with one reference. */
    method Malloc(n: nat) returns (s: Slice)
      requires Valid()
      modifies this
      ensures Valid()
      ensures s == Slice(old(|blocks|), 0, n)
      ensures |blocks| == old(|blocks|) + 1 && blocks[..s.block] == old(blocks)
      ensures fresh(blocks[s.block]) && blocks[s.block].Length == n
      ensures refs == old(refs) + [1]
      ensures Contents()[..s.block] == old(Contents())
    {
      var b := new byte[n];
      s := Adopt(b);
    }
  }

  /** A raw byte buffer: a growing list of slices. */
  class SliceBuffer {
    const pool: BlockPool
    var slices: seq<Slice>

    /** The buffer, its pool and the blocks. */
    ghost function Repr(): set<object>
      reads this, pool`blocks
    {
      {this, pool} + set a | a in pool.blocks
    }

    constructor (pool: BlockPool)
      ensures this.pool == pool && slices == []
    {
      this.pool := pool;
      slices := [];
    }

    method Add(s: Slice)
      modifies this
      ensures slices == old(slices) + [s]
    {
      slices := slices + [s];
    }

    /** Removes the last slice; its reference is not given up. */
    method Pop()
      requires slices != []
      modifies this
      ensures slices == old(slices)[..|old(slices)| - 1]
    {
      slices := slices[..|slices| - 1];
    }

    /** The bytes of the buffer. */
    ghost function Content(): bytes
      reads this, pool`blocks, pool.blocks
    {
      Join(pool.Contents(), slices)
    }
  }
}

/**
 * The fixed-capacity byte arena with its free list (`Buffer<capacity_>` of
 * Memory/Buffer.hpp). The C++ exceptions become `Result`/`Outcome` values.
 */
module Arena {
  import opened Wrappers
  import opened Blocks

  newtype byte = x: int | 0 <= x < 256

  /** The three exceptions the buffer throws. */
  datatype BufferError =
    | Overflow     // std::runtime_error("Buffer overflow.")
    | OutOfRange   // std::out_of_range("Invalid offset ...")
    | DoubleFree   // std::runtime_error("Double free.")

  // ---------------------------------------------------------------- arena bytes

  /** The arena contents after `bytes` is copied in at `at` (the effect of `std::copy` into the arena). */
  function Overwrite(mem: seq<byte>, at: nat, bytes: seq<byte>): (r: seq<byte>)
    requires at + |bytes| <= |mem|
    ensures |r| == |mem|
    ensures forall i :: 0 <= i < |bytes| ==> r[at + i] == bytes[i]
    ensures forall i :: 0 <= i < |mem| && !(at <= i < at + |bytes|) ==> r[i] == mem[i]
  {
    mem[..at] + bytes + mem[at + |bytes|..]
  }

  /** The bytes just written are read back. */
  lemma ReadBackOverwrite(mem: seq<byte>, at: nat, bytes: seq<byte>)
    requires at + |bytes| <= |mem|
    ensures Overwrite(mem, at, bytes)[at..at + |bytes|] == bytes
  {
    var r := Overwrite(mem, at, bytes);
    forall i | 0 <= i < |bytes|
      ensures r[at..at + |bytes|][i] == bytes[i]
    {
      assert r[at + i] == bytes[i];
    }
  }

  /** A later write over the same range hides an earlier one. */
  lemma OverwriteTwice(mem: seq<byte>, at: nat, first: seq<byte>, second: seq<byte>)
    requires at + |first| <= |mem| && |first| == |second|
    ensures Overwrite(Overwrite(mem, at, first), at, second) == Overwrite(mem, at, second)
  {
    var a := Overwrite(Overwrite(mem, at, first), at, second);
    var b := Overwrite(mem, at, second);
    forall i | 0 <= i < |mem|
      ensures a[i] == b[i]
    {
      if at <= i < at + |second| {
        assert a[at + (i - at)] == second[i - at];
      }
    }
  }

  /** A write leaves every range it does not touch as it was. */
  lemma OverwriteKeeps(mem: seq<byte>, at: nat, bytes: seq<byte>, lo: nat, len: nat)
    requires at + |bytes| <= |mem| && lo + len <= |mem|
    requires lo + len <= at || at + |bytes| <= lo || |bytes| == 0 || len == 0
    ensures Overwrite(mem, at, bytes)[lo..lo + len] == mem[lo..lo + len]
  {
    var r := Overwrite(mem, at, bytes);
    var a := r[lo..lo + len];
    var b := mem[lo..lo + len];
    forall j | 0 <= j < len
      ensures a[j] == b[j]
    {
      assert r[lo + j] == mem[lo + j];
    }
  }

  /** Writing a range's own bytes back over it changes nothing. */
  lemma OverwriteSame(mem: seq<byte>, at: nat, len: nat)
    requires at + len <= |mem|
    ensures Overwrite(mem, at, mem[at..at + len]) == mem
  {
    var r := Overwrite(mem, at, mem[at..at + len]);
    forall j | 0 <= j < |mem| ensures r[j] == mem[j] {
      if at <= j < at + len {
        assert r[at + (j - at)] == mem[at..at + len][j - at];
      }
    }
  }

  /** A sequence that agrees with `bytes` on [at, at + |bytes|) and with `mem` elsewhere is the overwrite. */
  lemma OverwriteIs(mem: seq<byte>, at: nat, bytes: seq<byte>, r: seq<byte>)
    requires at + |bytes| <= |mem| && |r| == |mem|
    requires forall j :: 0 <= j < |bytes| ==> r[at + j] == bytes[j]
    requires forall j :: 0 <= j < |mem| && !(at <= j < at + |bytes|) ==> r[j] == mem[j]
    ensures r == Overwrite(mem, at, bytes)
  {
    var w := Overwrite(mem, at, bytes);
    forall j | 0 <= j < |mem| ensures r[j] == w[j] {
      if at <= j < at + |bytes| {
        assert r[at + (j - at)] == bytes[j - at];
      }
    }
  }

  /** Copies `len` arena bytes starting at `from` out to the caller. */
  method ReadBytes(data: array<byte>, from: nat, len: nat) returns (bytes: seq<byte>)
    requires from + len <= data.Length
    ensures bytes == data[from..from + len]
  {
    bytes := [];
    var k := 0;
    while k < len
      invariant 0 <= k <= len
      invariant bytes == data[from..from + k]
    {
      bytes := bytes + [data[from + k]];
      k := k + 1;
    }
  }

  /** Copies `bytes` into the arena at `at`; every other arena byte is unchanged. */
  method WriteBytes(data: array<byte>, at: nat, bytes: seq<byte>)
    requires at + |bytes| <= data.Length
    modifies data
    ensures data[..] == Overwrite(old(data[..]), at, bytes)
  {
    var k := 0;
    while k < |bytes|
      invariant 0 <= k <= |bytes|
      invariant data[..] == Overwrite(old(data[..]), at, bytes[..k])
    {
      data[at + k] := bytes[k];
      k := k + 1;
      assert data[..] == Overwrite(old(data[..]), at, bytes[..k]);
    }
    assert bytes[..k] == bytes;
  }

  /**
   * `memmove` towards lower addresses: copies `len` bytes from `from` down to
   * `to`, front to back, which is safe because `to <= from` (an empty move may
   * go either way).
   */
  method MoveBytes(data: array<byte>, from: nat, to: nat, len: nat)
    requires (to <= from || len == 0) && from + len <= data.Length && to + len <= data.Length
    modifies data
    ensures data[..] == Overwrite(old(data[..]), to, old(data[from..from + len]))
  {
    ghost var src := data[from..from + len];
    ghost var orig := data[..];
    var k := 0;
    while k < len
      invariant 0 <= k <= len
      invariant forall j :: 0 <= j < k ==> data[to + j] == src[j]
      invariant forall j :: 0 <= j < data.Length && !(to <= j < to + k) ==> data[j] == orig[j]
    {
      assert data[from + k] == orig[from + k] == src[k];
      data[to + k] := data[from + k];
      k := k + 1;
    }
    OverwriteIs(orig, to, src, data[..]);
  }

  class Buffer {
    const capacity: nat
    const data: array<byte>
    var blocks: seq<Block>

    ghost predicate Valid()
      reads this
    {
      data.Length == capacity && WellFormed(blocks, capacity)
    }

    /** A new buffer has a single free block covering the whole arena. */
    constructor (capacity: nat)
      ensures Valid() && fresh(data)
      ensures this.capacity == capacity && blocks == [Block(0, capacity)]
      ensures FreeBytes(blocks) == capacity
    {
      this.capacity := capacity;
      data := new byte[capacity];
      blocks := [Block(0, capacity)];
      FreshList(capacity);
    }

    /** `get_blocks`: the free list, which the buffer keeps sorted, disjoint and merged. */
    function GetBlocks(): (bs: seq<Block>)
      reads this
      requires Valid()
      ensures WellFormed(bs, capacity)
    {
      blocks
    }

    /**
     * First-fit allocation: the offset of the first free block large enough,
     * whose low `size` bytes are taken; `Overflow` when no block is.
     */
    method AllocateBlock(size: nat) returns (r: Result<nat, BufferError>)
      requires Valid()
      modifies this
      ensures Valid()
      ensures match FirstFit(old(blocks), size)
        case None => r == Failure(Overflow) && blocks == old(blocks)
        case Some(i) => r == Success(old(blocks)[i].offset) && blocks == TakeFrom(old(blocks), i, size)
      ensures r.Success? ==> FreeBytes(blocks) + size == FreeBytes(old(blocks))
      ensures r.Success? ==> forall a: nat :: r.value <= a < r.value + size ==> IsFree(old(blocks), a)
      ensures r.Success? ==> forall a: nat :: IsFree(blocks, a) <==> IsFree(old(blocks), a) && !(r.value <= a < r.value + size)
    {
      var i := FindFit(size);
      if i == |blocks| {
        return Failure(Overflow);
      }
      ghost var before := blocks;
      TakeFromWellFormed(before, i, size, capacity);
      TakeFromFree(before, i, size);
      TakeFromFreeBytes(before, i, size);
      r := Success(blocks[i].offset);
      Take(i, size);
    }

    /** Takes the low `size` bytes of block `i`: the block goes when it is used up, and shrinks otherwise. */
    method Take(i: nat, size: nat)
      requires i < |blocks| && size <= blocks[i].size
      modifies this`blocks
      ensures blocks == TakeFrom(old(blocks), i, size)
    {
      var b := blocks[i];
      if size == b.size {
        blocks := blocks[..i] + blocks[i + 1..];
      } else {
        blocks := blocks[i := Block(b.offset + size, b.size - size)];
      }
    }

    /** The `find_if` scan: the index of the first block large enough, or the list's length when none is. */
    method FindFit(size: nat) returns (i: nat)
      ensures i <= |blocks|
      ensures i == |blocks| <==> FirstFit(blocks, size).None?
      ensures i < |blocks| ==> FirstFit(blocks, size) == Some(i)
    {
      i := 0;
      while i < |blocks| && blocks[i].size < size
        invariant 0 <= i <= |blocks|
        invariant forall j :: 0 <= j < i ==> blocks[j].size < size
      {
        i := i + 1;
      }
    }

    /**
     * Returns [offset, offset + size) to the free list, merging it with a
     * contiguous predecessor and/or successor. Fails with `OutOfRange` past the
     * end of the arena and with `DoubleFree` when the range collides with a free
     * block; a failed call leaves the list unchanged.
     */
    method DestroyBlock(offset: nat, size: nat) returns (r: Outcome<BufferError>)
      requires Valid()
      modifies this
      ensures Valid()
      ensures r == Fail(OutOfRange) <==> offset + size > capacity
      ensures r == Fail(DoubleFree) <==>
                offset + size <= capacity && exists i :: 0 <= i < |old(blocks)| && Overlaps(old(blocks)[i], offset, size)
      ensures r != Fail(Overflow)
      ensures r.Fail? ==> blocks == old(blocks)
      ensures r.Pass? ==> blocks == Released(old(blocks), offset, size)
      ensures r.Pass? ==> FreeBytes(blocks) == FreeBytes(old(blocks)) + size
      ensures r.Pass? ==> forall a: nat :: IsFree(blocks, a) <==> IsFree(old(blocks), a) || offset <= a < offset + size
    {
      if offset > capacity || size > capacity - offset {
        return Fail(OutOfRange);
      }
      DoubleFreeIffOverlap(blocks, offset, size);
      var it := SearchUpperBound(offset);
      if (it < |blocks| && offset + size > blocks[it].offset) || (0 < it && blocks[it - 1].End() > offset) {
        return Fail(DoubleFree);
      }
      ghost var before := blocks;
      Merge(it, offset, size);
      assert blocks == Released(before, offset, size);
      r := Pass;
      ReleasedWellFormed(before, offset, size, capacity);
      ReleasedFree(before, offset, size);
      ReleasedFreeBytes(before, offset, size);
    }


    /** `std::upper_bound`: binary search for the first free block starting after `offset`. */
    method SearchUpperBound(offset: nat) returns (it: nat)
      requires Valid()
      ensures it == UpperBound(blocks, offset)
    {
      var lo, hi := 0, |blocks|;
      while lo < hi
        invariant 0 <= lo <= hi <= |blocks|
        invariant forall j :: 0 <= j < lo ==> blocks[j].offset <= offset
        invariant forall j :: hi <= j < |blocks| ==> blocks[j].offset > offset
      {
        var mid := (lo + hi) / 2;
        if offset < blocks[mid].offset {
          hi := mid;
        } else {
          lo := mid + 1;
        }
      }
      it := lo;
      UpperBoundIs(blocks, offset, it);
    }

    /** The merge step of `destroy_block`, once `it` is the upper bound of `offset`. */
    method Merge(it: nat, offset: nat, size: nat)
      requires it == UpperBound(blocks, offset) && it <= |blocks|
      modifies this
      ensures blocks == Released(old(blocks), offset, size)
    {
      ghost var before := blocks;
      ghost var w := ReleaseWindow(before, offset, size);
      if 0 < it && blocks[it - 1].End() == offset {
        var prev := blocks[it - 1];
        blocks := blocks[it - 1 := Block(prev.offset, prev.size + size)];
        if it < |blocks| && offset + size == blocks[it].offset {
          blocks := blocks[it - 1 := Block(prev.offset, prev.size + size + blocks[it].size)];
          blocks := blocks[..it] + blocks[it + 1..];
          assert w == (it - 1, it + 1, blocks[it - 1]);
          assert blocks == before[..it - 1] + [w.2] + before[it + 1..];
        } else {
          assert w == (it - 1, it, blocks[it - 1]);
          assert blocks == before[..it - 1] + [w.2] + before[it..];
        }
      } else if it < |blocks| && offset + size == blocks[it].offset {
        blocks := blocks[it := Block(offset, blocks[it].size + size)];
        assert w == (it, it + 1, blocks[it]);
        assert blocks == before[..it] + [w.2] + before[it + 1..];
      } else {
        blocks := blocks[..it] + [Block(offset, size)] + blocks[it..];
        assert w == (it, it, Block(offset, size));
      }
    }
  }
}

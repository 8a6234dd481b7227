/**
 * The free list of the arena allocator (`Block` and the list algorithms of
 * `Buffer::allocate_block` / `Buffer::destroy_block`), stated as pure functions
 * over a sequence of blocks, with the invariants they keep.
 */
module Blocks {
  import opened Wrappers

  /** A free range [offset, offset + size) of the arena. */
  datatype Block = Block(offset: nat, size: nat) {
    function End(): nat { offset + size }
    predicate Contains(a: nat) { offset <= a < End() }
  }

  /** Sorted by offset, disjoint and never adjacent: each block ends strictly before any later one begins. */
  ghost predicate Ordered(bs: seq<Block>) {
    forall i, j :: 0 <= i < j < |bs| ==> bs[i].End() < bs[j].offset
  }

  ghost predicate WithinCapacity(bs: seq<Block>, capacity: nat) {
    forall i :: 0 <= i < |bs| ==> bs[i].End() <= capacity
  }

  /** The invariant of the buffer's free list. */
  ghost predicate WellFormed(bs: seq<Block>, capacity: nat) {
    Ordered(bs) && WithinCapacity(bs, capacity)
  }

  /** Address `a` lies in some free block. */
  ghost predicate IsFree(bs: seq<Block>, a: nat) {
    exists i :: 0 <= i < |bs| && bs[i].Contains(a)
  }

  /** Total number of free bytes. */
  function FreeBytes(bs: seq<Block>): nat {
    if bs == [] then 0 else bs[0].size + FreeBytes(bs[1..])
  }

  /** `bs` with the blocks [a, b) replaced by the single block `m`. */
  function Splice(bs: seq<Block>, a: nat, b: nat, m: Block): seq<Block>
    requires a <= b <= |bs|
  {
    bs[..a] + [m] + bs[b..]
  }

  // ---------------------------------------------------------------- allocate_block

  /** The block `find_if` selects: the first one, in list order, that is large enough. */
  function FirstFit(bs: seq<Block>, size: nat): (r: Option<nat>)
    ensures r.Some? ==> r.value < |bs| && bs[r.value].size >= size
    ensures r.Some? ==> forall j :: 0 <= j < r.value ==> bs[j].size < size
    ensures r.None? <==> forall j :: 0 <= j < |bs| ==> bs[j].size < size
  {
    if bs == [] then None
    else if bs[0].size >= size then Some(0)
    else match FirstFit(bs[1..], size)
      case None => None
      case Some(j) => Some(j + 1)
  }

  /** The list after `size` bytes are taken from the low end of block `i`. */
  function TakeFrom(bs: seq<Block>, i: nat, size: nat): (r: seq<Block>)
    requires i < |bs| && size <= bs[i].size
    ensures |r| == if size == bs[i].size then |bs| - 1 else |bs|
    ensures forall j :: 0 <= j < i ==> r[j] == bs[j]
    ensures size == bs[i].size ==> forall j :: i <= j < |r| ==> r[j] == bs[j + 1]
    ensures size < bs[i].size ==> forall j :: i < j < |r| ==> r[j] == bs[j]
    ensures size < bs[i].size ==> r[i].offset == bs[i].offset + size && r[i].End() == bs[i].End()
  {
    if size == bs[i].size then bs[..i] + bs[i + 1..]
    else bs[i := Block(bs[i].offset + size, bs[i].size - size)]
  }

  // ---------------------------------------------------------------- destroy_block

  /** `std::upper_bound` on offsets: the number of leading blocks whose offset is at most `o`. */
  function UpperBound(bs: seq<Block>, o: nat): (r: nat)
    ensures r <= |bs|
    ensures forall j :: 0 <= j < r ==> bs[j].offset <= o
    ensures r < |bs| ==> bs[r].offset > o
  {
    if bs == [] || bs[0].offset > o then 0 else 1 + UpperBound(bs[1..], o)
  }

  /** The double-free test of `destroy_block`, on the blocks around the insertion point. */
  predicate DoubleFree(bs: seq<Block>, o: nat, s: nat)
    ensures DoubleFree(bs, o, s) ==> exists i :: 0 <= i < |bs| && Overlaps(bs[i], o, s)
  {
    var it := UpperBound(bs, o);
    (it < |bs| && o + s > bs[it].offset) || (0 < it && bs[it - 1].End() > o)
  }

  /**
   * Block `b` collides with the range [o, o + s): they share an address, or,
   * for an empty range, `o` lies inside `b`.
   */
  predicate Overlaps(b: Block, o: nat, s: nat) {
    o < b.End() && (b.offset < o + s || b.offset <= o)
  }

  /**
   * Where [o, o + s) goes back into the list: the window [lo, hi) of blocks it
   * replaces and the merged block replacing it, following the branches of
   * `destroy_block` (merge with a contiguous predecessor, successor, both, or neither).
   */
  function ReleaseWindow(bs: seq<Block>, o: nat, s: nat): (w: (nat, nat, Block))
    ensures w.0 <= w.1 <= |bs| && w.1 - w.0 <= 2
    ensures w.2.offset <= o && o + s <= w.2.End()
  {
    var it := UpperBound(bs, o);
    var mergePrev := 0 < it && bs[it - 1].End() == o;
    var mergeNext := it < |bs| && o + s == bs[it].offset;
    if mergePrev && mergeNext then
      (it - 1, it + 1, Block(bs[it - 1].offset, bs[it - 1].size + s + bs[it].size))
    else if mergePrev then
      (it - 1, it, Block(bs[it - 1].offset, bs[it - 1].size + s))
    else if mergeNext then
      (it, it + 1, Block(o, s + bs[it].size))
    else
      (it, it, Block(o, s))
  }

  /** The list after [o, o + s) is returned to it. */
  function Released(bs: seq<Block>, o: nat, s: nat): (r: seq<Block>)
    ensures |bs| <= |r| + 1 && |r| <= |bs| + 1
  {
    var w := ReleaseWindow(bs, o, s);
    Splice(bs, w.0, w.1, w.2)
  }

  // ---------------------------------------------------------------- helper lemmas

  lemma UpperBoundSplits(bs: seq<Block>, o: nat)
    requires Ordered(bs)
    ensures forall j :: UpperBound(bs, o) <= j < |bs| ==> bs[j].offset > o
  {
    var it := UpperBound(bs, o);
    forall j | it <= j < |bs| ensures bs[j].offset > o {
      if it < j { assert bs[it].End() < bs[j].offset; }
    }
  }

  /** The upper bound is the unique split point between offsets at most `o` and offsets above it. */
  lemma {:induction false} UpperBoundIs(bs: seq<Block>, o: nat, k: nat)
    requires k <= |bs|
    requires forall j :: 0 <= j < k ==> bs[j].offset <= o
    requires k < |bs| ==> bs[k].offset > o
    ensures UpperBound(bs, o) == k
  {
    if k > 0 {
      UpperBoundIs(bs[1..], o, k - 1);
    }
  }

  lemma IsFreeConcat(x: seq<Block>, y: seq<Block>, a: nat)
    ensures IsFree(x + y, a) <==> IsFree(x, a) || IsFree(y, a)
  {
    if IsFree(x + y, a) {
      var i :| 0 <= i < |x + y| && (x + y)[i].Contains(a);
      if i < |x| { assert x[i] == (x + y)[i]; } else { assert y[i - |x|] == (x + y)[i]; }
    }
    if IsFree(x, a) {
      var i :| 0 <= i < |x| && x[i].Contains(a);
      assert (x + y)[i] == x[i];
    }
    if IsFree(y, a) {
      var i :| 0 <= i < |y| && y[i].Contains(a);
      assert (x + y)[|x| + i] == y[i];
    }
  }

  lemma IsFreeSingle(m: Block, a: nat)
    ensures IsFree([m], a) <==> m.Contains(a)
  {
    if m.Contains(a) { assert [m][0] == m; }
  }

  /** Free addresses of a list cut in three at `a` and `b`. */
  lemma IsFreeSplit(bs: seq<Block>, a: nat, b: nat, x: nat)
    requires a <= b <= |bs|
    ensures IsFree(bs, x) <==> IsFree(bs[..a], x) || IsFree(bs[a..b], x) || IsFree(bs[b..], x)
  {
    assert bs == bs[..a] + bs[a..b] + bs[b..];
    IsFreeConcat(bs[..a] + bs[a..b], bs[b..], x);
    IsFreeConcat(bs[..a], bs[a..b], x);
  }

  lemma IsFreeSplice(bs: seq<Block>, a: nat, b: nat, m: Block, x: nat)
    requires a <= b <= |bs|
    ensures IsFree(Splice(bs, a, b, m), x) <==> IsFree(bs[..a], x) || m.Contains(x) || IsFree(bs[b..], x)
  {
    IsFreeConcat(bs[..a] + [m], bs[b..], x);
    IsFreeConcat(bs[..a], [m], x);
    IsFreeSingle(m, x);
  }

  lemma {:induction false} FreeBytesConcat(x: seq<Block>, y: seq<Block>)
    ensures FreeBytes(x + y) == FreeBytes(x) + FreeBytes(y)
  {
    if x == [] {
      assert x + y == y;
    } else {
      assert (x + y)[1..] == x[1..] + y;
      FreeBytesConcat(x[1..], y);
    }
  }

  lemma FreeBytesSplit(bs: seq<Block>, a: nat, b: nat)
    requires a <= b <= |bs|
    ensures FreeBytes(bs) == FreeBytes(bs[..a]) + FreeBytes(bs[a..b]) + FreeBytes(bs[b..])
  {
    assert bs == bs[..a] + bs[a..b] + bs[b..];
    FreeBytesConcat(bs[..a] + bs[a..b], bs[b..]);
    FreeBytesConcat(bs[..a], bs[a..b]);
  }

  lemma FreeBytesSplice(bs: seq<Block>, a: nat, b: nat, m: Block)
    requires a <= b <= |bs|
    ensures FreeBytes(Splice(bs, a, b, m)) == FreeBytes(bs[..a]) + m.size + FreeBytes(bs[b..])
  {
    FreeBytesConcat(bs[..a] + [m], bs[b..]);
    FreeBytesConcat(bs[..a], [m]);
    FreeBytesSingle(m);
  }

  /** Replacing a window by one block keeps the order when the block fits between its neighbours. */
  lemma OrderedSplice(bs: seq<Block>, a: nat, b: nat, m: Block)
    requires Ordered(bs) && a <= b <= |bs|
    requires 0 < a ==> bs[a - 1].End() < m.offset
    requires b < |bs| ==> m.End() < bs[b].offset
    ensures Ordered(Splice(bs, a, b, m))
  {
    var r := Splice(bs, a, b, m);
    assert |r| == a + 1 + (|bs| - b);
    forall i, j | 0 <= i < j < |r| ensures r[i].End() < r[j].offset {
      if j < a {
        assert r[i] == bs[i] && r[j] == bs[j];
      } else if j == a {
        assert r[i] == bs[i] && r[j] == m;
        if i < a - 1 { assert bs[i].End() < bs[a - 1].offset; }
      } else if i > a {
        assert r[i] == bs[i - a - 1 + b] && r[j] == bs[j - a - 1 + b];
      } else if i == a {
        assert r[i] == m && r[j] == bs[j - a - 1 + b];
        if j - a - 1 + b > b { assert bs[b].End() < bs[j - a - 1 + b].offset; }
      } else {
        assert r[i] == bs[i] && r[j] == bs[j - a - 1 + b];
        assert bs[i].End() <= bs[a - 1].End() < m.offset <= m.End();
        if i < a - 1 { assert bs[i].End() < bs[a - 1].offset; }
        assert m.End() < bs[b].offset;
        if j - a - 1 + b > b { assert bs[b].End() < bs[j - a - 1 + b].offset; }
      }
    }
  }

  lemma WithinCapacitySplice(bs: seq<Block>, a: nat, b: nat, m: Block, capacity: nat)
    requires WithinCapacity(bs, capacity) && a <= b <= |bs| && m.End() <= capacity
    ensures WithinCapacity(Splice(bs, a, b, m), capacity)
  {
    var r := Splice(bs, a, b, m);
    forall i | 0 <= i < |r| ensures r[i].End() <= capacity {
      if i < a { assert r[i] == bs[i]; }
      else if i > a { assert r[i] == bs[i - a - 1 + b]; }
    }
  }

  // ---------------------------------------------------------------- properties of allocation

  /** A fresh buffer's single block `{0, capacity}` is a well-formed list covering the whole arena. */
  lemma FreshList(capacity: nat)
    ensures WellFormed([Block(0, capacity)], capacity)
    ensures FreeBytes([Block(0, capacity)]) == capacity
    ensures forall a: nat :: IsFree([Block(0, capacity)], a) <==> a < capacity
  {
    forall a: nat ensures IsFree([Block(0, capacity)], a) <==> a < capacity {
      IsFreeSingle(Block(0, capacity), a);
    }
  }

  lemma TakeFromWellFormed(bs: seq<Block>, i: nat, size: nat, capacity: nat)
    requires WellFormed(bs, capacity) && i < |bs| && size <= bs[i].size
    ensures WellFormed(TakeFrom(bs, i, size), capacity)
  {
    if size == bs[i].size {
      var r := TakeFrom(bs, i, size);
      forall p, q | 0 <= p < q < |r| ensures r[p].End() < r[q].offset {
        var p', q' := if p < i then p else p + 1, if q < i then q else q + 1;
        assert r[p] == bs[p'] && r[q] == bs[q'];
      }
      forall p | 0 <= p < |r| ensures r[p].End() <= capacity {
        assert r[p] == bs[if p < i then p else p + 1];
      }
    } else {
      var m := Block(bs[i].offset + size, bs[i].size - size);
      assert TakeFrom(bs, i, size) == Splice(bs, i, i + 1, m);
      if 0 < i { assert bs[i - 1].End() < bs[i].offset; }
      OrderedSplice(bs, i, i + 1, m);
      WithinCapacitySplice(bs, i, i + 1, m, capacity);
    }
  }

  /** Allocation removes exactly [offset, offset + size) of block `i` from the free addresses, and all of it was free. */
  lemma TakeFromFree(bs: seq<Block>, i: nat, size: nat)
    requires Ordered(bs) && i < |bs| && size <= bs[i].size
    ensures forall a: nat :: bs[i].offset <= a < bs[i].offset + size ==> IsFree(bs, a)
    ensures forall a: nat :: IsFree(TakeFrom(bs, i, size), a) <==>
                             IsFree(bs, a) && !(bs[i].offset <= a < bs[i].offset + size)
  {
    var o := bs[i].offset;
    forall a: nat | o <= a < o + size ensures IsFree(bs, a) {
      assert bs[i].Contains(a);
    }
    forall a: nat ensures IsFree(TakeFrom(bs, i, size), a) <==> IsFree(bs, a) && !(o <= a < o + size) {
      TakeFromFreeAt(bs, i, size, a);
    }
  }

  lemma TakeFromFreeAt(bs: seq<Block>, i: nat, size: nat, a: nat)
    requires Ordered(bs) && i < |bs| && size <= bs[i].size
    ensures IsFree(TakeFrom(bs, i, size), a) <==> IsFree(bs, a) && !(bs[i].offset <= a < bs[i].offset + size)
  {
    var o := bs[i].offset;
    IsFreeSplit(bs, i, i + 1, a);
    assert bs[i..i + 1] == [bs[i]];
    IsFreeSingle(bs[i], a);
    if bs[i].Contains(a) {
      OthersMissBlock(bs, i, a);
    }
    if size == bs[i].size {
      IsFreeConcat(bs[..i], bs[i + 1..], a);
    } else {
      var m := Block(o + size, bs[i].size - size);
      assert TakeFrom(bs, i, size) == Splice(bs, i, i + 1, m);
      IsFreeSplice(bs, i, i + 1, m, a);
    }
  }

  /** In an ordered list no block other than `bs[i]` contains an address of `bs[i]`. */
  lemma OthersMissBlock(bs: seq<Block>, i: nat, a: nat)
    requires Ordered(bs) && i < |bs| && bs[i].Contains(a)
    ensures !IsFree(bs[..i], a) && !IsFree(bs[i + 1..], a)
  {
    forall k | 0 <= k < i ensures !bs[..i][k].Contains(a) {
      assert bs[k].End() < bs[i].offset;
    }
    var tail := bs[i + 1..];
    forall k | 0 <= k < |tail| ensures !tail[k].Contains(a) {
      assert tail[k] == bs[i + 1 + k] && bs[i].End() < bs[i + 1 + k].offset;
    }
  }

  lemma FreeBytesSingle(b: Block)
    ensures FreeBytes([b]) == b.size
  {
    assert [b][1..] == [];
  }

  /** The free bytes of a list, split around block `i`. */
  lemma FreeBytesAround(bs: seq<Block>, i: nat)
    requires i < |bs|
    ensures FreeBytes(bs) == FreeBytes(bs[..i]) + bs[i].size + FreeBytes(bs[i + 1..])
  {
    var t := [bs[i]] + bs[i + 1..];
    assert bs == bs[..i] + t;
    FreeBytesConcat(bs[..i], t);
    assert t[1..] == bs[i + 1..];
  }

  /** Allocation lowers the free byte count by exactly `size`. */
  lemma TakeFromFreeBytes(bs: seq<Block>, i: nat, size: nat)
    requires i < |bs| && size <= bs[i].size
    ensures FreeBytes(TakeFrom(bs, i, size)) + size == FreeBytes(bs)
  {
    FreeBytesAround(bs, i);
    if size == bs[i].size {
      FreeBytesConcat(bs[..i], bs[i + 1..]);
    } else {
      var r := bs[i := Block(bs[i].offset + size, bs[i].size - size)];
      FreeBytesAround(r, i);
      assert r[..i] == bs[..i] && r[i + 1..] == bs[i + 1..];
    }
  }

  // ---------------------------------------------------------------- properties of release

  /** The source's neighbour test detects exactly the ranges that collide with some free block. */
  lemma DoubleFreeIffOverlap(bs: seq<Block>, o: nat, s: nat)
    requires Ordered(bs)
    ensures DoubleFree(bs, o, s) <==> exists i :: 0 <= i < |bs| && Overlaps(bs[i], o, s)
  {
    var it := UpperBound(bs, o);
    UpperBoundSplits(bs, o);
    if DoubleFree(bs, o, s) {
      if it < |bs| && o + s > bs[it].offset {
        assert Overlaps(bs[it], o, s);
      } else {
        assert Overlaps(bs[it - 1], o, s);
      }
    }
    if i :| 0 <= i < |bs| && Overlaps(bs[i], o, s) {
      if bs[i].offset <= o {
        assert i < it;
        if i < it - 1 { assert bs[i].End() < bs[it - 1].offset; }
      } else {
        assert it <= i;
        if it < i { assert bs[it].End() < bs[i].offset; }
      }
    }
  }

  lemma ReleasedWellFormed(bs: seq<Block>, o: nat, s: nat, capacity: nat)
    requires WellFormed(bs, capacity) && o + s <= capacity && !DoubleFree(bs, o, s)
    ensures WellFormed(Released(bs, o, s), capacity)
  {
    var it := UpperBound(bs, o);
    UpperBoundSplits(bs, o);
    var mergePrev := 0 < it && bs[it - 1].End() == o;
    var mergeNext := it < |bs| && o + s == bs[it].offset;
    if 1 < it { assert bs[it - 2].End() < bs[it - 1].offset; }
    if it + 1 < |bs| { assert bs[it].End() < bs[it + 1].offset; }
    if 0 < it && it < |bs| { assert bs[it - 1].End() < bs[it].offset; }
    var w := ReleaseWindow(bs, o, s);
    OrderedSplice(bs, w.0, w.1, w.2);
    WithinCapacitySplice(bs, w.0, w.1, w.2, capacity);
  }

  /** The merged block covers the blocks it replaces and the released range, and nothing else. */
  lemma WindowCovers(bs: seq<Block>, o: nat, s: nat, a: nat)
    ensures var w := ReleaseWindow(bs, o, s);
            w.2.Contains(a) <==> IsFree(bs[w.0..w.1], a) || o <= a < o + s
  {
    var it := UpperBound(bs, o);
    var mergePrev := 0 < it && bs[it - 1].End() == o;
    var mergeNext := it < |bs| && o + s == bs[it].offset;
    var w := ReleaseWindow(bs, o, s);
    if mergePrev && mergeNext {
      assert bs[w.0..w.1] == [bs[it - 1]] + [bs[it]];
      IsFreeConcat([bs[it - 1]], [bs[it]], a);
      IsFreeSingle(bs[it - 1], a);
      IsFreeSingle(bs[it], a);
    } else if mergePrev || mergeNext {
      assert bs[w.0..w.1] == [bs[w.0]];
      IsFreeSingle(bs[w.0], a);
    } else {
      assert bs[w.0..w.1] == [];
    }
  }

  /** Release adds exactly [o, o + s) to the free addresses. */
  lemma ReleasedFree(bs: seq<Block>, o: nat, s: nat)
    ensures forall a: nat :: IsFree(Released(bs, o, s), a) <==> IsFree(bs, a) || o <= a < o + s
  {
    var w := ReleaseWindow(bs, o, s);
    forall a: nat ensures IsFree(Released(bs, o, s), a) <==> IsFree(bs, a) || o <= a < o + s {
      IsFreeSplice(bs, w.0, w.1, w.2, a);
      IsFreeSplit(bs, w.0, w.1, a);
      WindowCovers(bs, o, s, a);
    }
  }

  /** The merged block holds the bytes of the blocks it replaces and the `s` released ones. */
  lemma WindowBytes(bs: seq<Block>, o: nat, s: nat)
    ensures var w := ReleaseWindow(bs, o, s);
            FreeBytes(bs[w.0..w.1]) + s == w.2.size
  {
    var it := UpperBound(bs, o);
    var mergePrev := 0 < it && bs[it - 1].End() == o;
    var mergeNext := it < |bs| && o + s == bs[it].offset;
    var w := ReleaseWindow(bs, o, s);
    if mergePrev && mergeNext {
      assert bs[w.0..w.1] == [bs[it - 1]] + [bs[it]];
      FreeBytesConcat([bs[it - 1]], [bs[it]]);
      FreeBytesSingle(bs[it - 1]);
      FreeBytesSingle(bs[it]);
    } else if mergePrev || mergeNext {
      assert bs[w.0..w.1] == [bs[w.0]];
      FreeBytesSingle(bs[w.0]);
    } else {
      assert bs[w.0..w.1] == [];
    }
  }

  /** Release raises the free byte count by exactly `s`. */
  lemma ReleasedFreeBytes(bs: seq<Block>, o: nat, s: nat)
    ensures FreeBytes(Released(bs, o, s)) == FreeBytes(bs) + s
  {
    var w := ReleaseWindow(bs, o, s);
    FreeBytesSplice(bs, w.0, w.1, w.2);
    FreeBytesSplit(bs, w.0, w.1);
    WindowBytes(bs, o, s);
  }

  lemma ReleaseUndoesExactTake(bs: seq<Block>, i: nat)
    requires Ordered(bs) && i < |bs| && 0 < bs[i].size
    ensures !DoubleFree(TakeFrom(bs, i, bs[i].size), bs[i].offset, bs[i].size)
    ensures Released(TakeFrom(bs, i, bs[i].size), bs[i].offset, bs[i].size) == bs
  {
    var o, size := bs[i].offset, bs[i].size;
    var r := TakeFrom(bs, i, size);
    ExactTakeShape(bs, i);
    ExactTakeGap(bs, i);
    UpperBoundIs(r, o, i);
    assert !(0 < i && r[i - 1].End() >= o);
    assert !(i < |r| && o + size >= r[i].offset);
    assert ReleaseWindow(r, o, size) == (i, i, Block(o, size));
    assert Released(r, o, size) == r[..i] + [bs[i]] + r[i..];
  }

  /** Once block `i` is used up, the list is the blocks before it followed by the blocks after it. */
  lemma ExactTakeShape(bs: seq<Block>, i: nat)
    requires i < |bs|
    ensures var r := TakeFrom(bs, i, bs[i].size);
            |r| == |bs| - 1 && r[..i] == bs[..i] && r[i..] == bs[i + 1..]
            && (forall j :: 0 <= j < i ==> r[j] == bs[j])
            && (forall j :: i <= j < |r| ==> r[j] == bs[j + 1])
            && bs == r[..i] + [bs[i]] + r[i..]
  {
    var r := TakeFrom(bs, i, bs[i].size);
    assert r == bs[..i] + bs[i + 1..];
    assert r[..i] == bs[..i];
    assert r[i..] == bs[i + 1..];
    assert bs == bs[..i] + [bs[i]] + bs[i + 1..];
  }

  /** Around the place block `i` leaves, the neighbours are apart from it on both sides. */
  lemma ExactTakeGap(bs: seq<Block>, i: nat)
    requires Ordered(bs) && i < |bs|
    ensures var r := TakeFrom(bs, i, bs[i].size);
            (forall j :: 0 <= j < i ==> r[j].End() < bs[i].offset)
            && (i < |r| ==> bs[i].End() < r[i].offset)
  {
    ExactTakeShape(bs, i);
    var r := TakeFrom(bs, i, bs[i].size);
    forall j | 0 <= j < i ensures r[j].End() < bs[i].offset {
      assert r[j] == bs[j];
    }
    if i < |r| {
      assert r[i] == bs[i + 1];
    }
  }

  lemma ReleaseUndoesPartialTake(bs: seq<Block>, i: nat, size: nat)
    requires Ordered(bs) && i < |bs| && 0 < size < bs[i].size
    ensures !DoubleFree(TakeFrom(bs, i, size), bs[i].offset, size)
    ensures Released(TakeFrom(bs, i, size), bs[i].offset, size) == bs
  {
    var o := bs[i].offset;
    var m := Block(o + size, bs[i].size - size);
    var r := bs[i := m];
    assert TakeFrom(bs, i, size) == r;
    if 0 < i { assert bs[i - 1].End() < bs[i].offset; }
    forall j | 0 <= j < i ensures r[j].offset <= o {
      assert r[j] == bs[j] && bs[j].End() < bs[i].offset;
    }
    UpperBoundIs(r, o, i);
    assert ReleaseWindow(r, o, size) == (i, i + 1, Block(o, size + m.size));
    assert Splice(r, i, i + 1, Block(o, size + m.size)) == bs;
  }

  /**
   * Freeing a block that was just allocated restores the free list exactly, so
   * the next allocation of the same size returns the same offset.
   */
  lemma ReleaseUndoesTake(bs: seq<Block>, i: nat, size: nat)
    requires Ordered(bs) && i < |bs| && 0 < size <= bs[i].size
    ensures !DoubleFree(TakeFrom(bs, i, size), bs[i].offset, size)
    ensures Released(TakeFrom(bs, i, size), bs[i].offset, size) == bs
  {
    if size == bs[i].size { ReleaseUndoesExactTake(bs, i); } else { ReleaseUndoesPartialTake(bs, i, size); }
  }
}

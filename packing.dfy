/**
 * The specification of `defragment_memory`: storage elements packed one after
 * the other from offset 0, in ascending order of their old offsets, the free
 * list that leaves behind, and the state of the pass that does the packing.
 */
module Packing {
  import opened Wrappers
  import opened Blocks
  import opened Layout
  import opened Arena

  /** Total size of the named elements: the offset at which the next one is packed. */
  function Extent(pl: map<string, Placement>, names: seq<string>): nat
    requires forall i :: 0 <= i < |names| ==> names[i] in pl
  {
    if names == [] then 0
    else Extent(pl, names[..|names| - 1]) + pl[names[|names| - 1]].size
  }

  /** The free list after compaction: one block from the packed extent to the end, if any room is left. */
  function CompactedFreeList(extent: nat, capacity: nat): (bs: seq<Block>)
    requires extent <= capacity
    ensures WellFormed(bs, capacity)
    ensures forall a: nat :: IsFree(bs, a) <==> extent <= a < capacity
    ensures FreeBytes(bs) == capacity - extent
  {
    if extent < capacity then
      var bs := [Block(extent, capacity - extent)];
      TailBlockFree(bs, extent, capacity);
      bs
    else []
  }

  lemma TailBlockFree(bs: seq<Block>, extent: nat, capacity: nat)
    requires extent < capacity && bs == [Block(extent, capacity - extent)]
    ensures forall a: nat :: IsFree(bs, a) <==> extent <= a < capacity
  {
    forall a: nat ensures IsFree(bs, a) <==> extent <= a < capacity {
      IsFreeSingle(bs[0], a);
    }
  }

  lemma ExtentAppend(pl: map<string, Placement>, names: seq<string>, n: string)
    requires forall i :: 0 <= i < |names| ==> names[i] in pl
    requires n in pl
    ensures Extent(pl, names + [n]) == Extent(pl, names) + pl[n].size
  {
    assert (names + [n])[..|names|] == names;
  }

  /** The extent depends on the sizes only: moving elements does not change it. */
  lemma {:induction false} ExtentSameSizes(pl: map<string, Placement>, pl': map<string, Placement>, names: seq<string>)
    requires forall i :: 0 <= i < |names| ==> names[i] in pl && names[i] in pl' && pl[names[i]].size == pl'[names[i]].size
    ensures Extent(pl, names) == Extent(pl', names)
    decreases |names|
  {
    if names != [] {
      ExtentSameSizes(pl, pl', names[..|names| - 1]);
    }
  }

  /** Each packed element ends no later than where a later one starts. */
  lemma {:induction false} ExtentPrefix(pl: map<string, Placement>, names: seq<string>, i: nat, j: nat)
    requires forall k :: 0 <= k < |names| ==> names[k] in pl
    requires i < j <= |names|
    ensures Extent(pl, names[..i]) + pl[names[i]].size <= Extent(pl, names[..j])
    decreases j - i
  {
    if j == i + 1 {
      assert names[..j][..i] == names[..i];
    } else {
      ExtentPrefix(pl, names, i, j - 1);
      assert names[..j][..j - 1] == names[..j - 1];
    }
  }

  /**
   * Elements packed in `order` (each at the extent of those before it), with
   * every storage element among them, and the tail block as the free list,
   * satisfy the layout invariant.
   */
  lemma PlacedCompacted(pl: map<string, Placement>, order: seq<string>, capacity: nat)
    requires forall i :: 0 <= i < |order| ==> order[i] in pl
    requires forall i, j :: 0 <= i < j < |order| ==> order[i] != order[j]
    requires forall n :: n in pl && pl[n].storage ==> n in order
    requires forall i :: 0 <= i < |order| ==> pl[order[i]].offset == Extent(pl, order[..i])
    requires Extent(pl, order) <= capacity
    ensures Placed(pl, CompactedFreeList(Extent(pl, order), capacity), capacity)
  {
    var ext := Extent(pl, order);
    var bs := CompactedFreeList(ext, capacity);
    PackedWithin(pl, order);
    forall n | n in pl && pl[n].storage
      ensures pl[n].offset + pl[n].size <= ext
    {
      var i :| 0 <= i < |order| && order[i] == n;
    }
    forall n, m | n in pl && m in pl && n != m
      ensures Apart(pl[n], pl[m])
    {
      if pl[n].storage && pl[m].storage {
        var i :| 0 <= i < |order| && order[i] == n;
        var j :| 0 <= j < |order| && order[j] == m;
        PackedApart(pl, order, i, j);
      }
    }
  }

  /** Every element packed in `order` ends within the extent of all of them. */
  lemma PackedWithin(pl: map<string, Placement>, order: seq<string>)
    requires forall i :: 0 <= i < |order| ==> order[i] in pl
    requires forall i :: 0 <= i < |order| ==> pl[order[i]].offset == Extent(pl, order[..i])
    ensures forall i :: 0 <= i < |order| ==> pl[order[i]].offset + pl[order[i]].size <= Extent(pl, order)
  {
    assert order[..|order|] == order;
    forall i | 0 <= i < |order|
      ensures pl[order[i]].offset + pl[order[i]].size <= Extent(pl, order)
    {
      ExtentPrefix(pl, order, i, |order|);
    }
  }

  /** Two different positions of a packing share no byte. */
  lemma PackedApart(pl: map<string, Placement>, order: seq<string>, i: nat, j: nat)
    requires forall k :: 0 <= k < |order| ==> order[k] in pl
    requires forall k :: 0 <= k < |order| ==> pl[order[k]].offset == Extent(pl, order[..k])
    requires i < |order| && j < |order| && i != j
    ensures Apart(pl[order[i]], pl[order[j]])
  {
    if i < j {
      ExtentPrefix(pl, order, i, j);
    } else {
      ExtentPrefix(pl, order, j, i);
    }
  }

  // ---------------------------------------------------------------- the compaction pass

  /** Every entry of `order` is a distinct storage element of `pl`. */
  ghost predicate Lists(pl: map<string, Placement>, order: seq<string>) {
    (forall i :: 0 <= i < |order| ==> order[i] in pl && pl[order[i]].storage)
    && (forall i, j :: 0 <= i < j < |order| ==> order[i] != order[j])
  }

  /** `order` is in ascending order of offset in `pl`. */
  ghost predicate Ascending(pl: map<string, Placement>, order: seq<string>)
    requires forall i :: 0 <= i < |order| ==> order[i] in pl
  {
    forall i, j :: 0 <= i < j < |order| ==> pl[order[i]].offset <= pl[order[j]].offset
  }

  /** `order` lists every storage element of `pl` exactly once, in ascending order of offset. */
  ghost predicate PackOrder(pl: map<string, Placement>, order: seq<string>) {
    Lists(pl, order) && Ascending(pl, order)
    && (forall n :: n in pl && pl[n].storage ==> n in order)
  }

  /**
   * Where the pass puts the elements once it has taken those in `order`: each at
   * the extent of those taken before it, every other element where it was.
   */
  function Repacked(pl: map<string, Placement>, order: seq<string>): (r: map<string, Placement>)
    requires forall i :: 0 <= i < |order| ==> order[i] in pl
    ensures r.Keys == pl.Keys
    decreases |order|
  {
    if order == [] then pl
    else
      var init := order[..|order| - 1];
      var n := order[|order| - 1];
      Repacked(pl, init)[n := pl[n].(offset := Extent(pl, init))]
  }

  /** Taking `n` next puts it at the current extent. */
  lemma RepackedStep(pl: map<string, Placement>, order: seq<string>, n: string)
    requires forall i :: 0 <= i < |order| ==> order[i] in pl
    requires n in pl
    ensures Repacked(pl, order + [n]) == Repacked(pl, order)[n := pl[n].(offset := Extent(pl, order))]
  {
    assert (order + [n])[..|order|] == order;
  }

  /** Repacking keeps sizes and kinds, and leaves the elements not taken where they were. */
  lemma {:induction false} RepackedKeeps(pl: map<string, Placement>, order: seq<string>)
    requires forall i :: 0 <= i < |order| ==> order[i] in pl
    ensures forall k :: k in pl ==> Repacked(pl, order)[k].size == pl[k].size && Repacked(pl, order)[k].storage == pl[k].storage
    ensures forall k :: k in pl && k !in order ==> Repacked(pl, order)[k] == pl[k]
    decreases |order|
  {
    if order != [] {
      var init := order[..|order| - 1];
      RepackedKeeps(pl, init);
      assert order == init + [order[|order| - 1]];
      forall k | k in pl && k !in order
        ensures Repacked(pl, order)[k] == pl[k]
      {
        assert k !in init;
      }
    }
  }

  /** Each element taken sits at the extent of those taken before it. */
  lemma RepackedOffsets(pl: map<string, Placement>, order: seq<string>)
    requires forall i :: 0 <= i < |order| ==> order[i] in pl
    requires forall i, j :: 0 <= i < j < |order| ==> order[i] != order[j]
    ensures forall i :: 0 <= i < |order| ==> Repacked(pl, order)[order[i]].offset == Extent(pl, order[..i])
  {
    forall i | 0 <= i < |order|
      ensures Repacked(pl, order)[order[i]].offset == Extent(pl, order[..i])
    {
      RepackedAt(pl, order, i);
    }
  }

  /** The element taken at position `i` sits at the extent of the `i` taken before it. */
  lemma {:induction false} RepackedAt(pl: map<string, Placement>, order: seq<string>, i: nat)
    requires forall k :: 0 <= k < |order| ==> order[k] in pl
    requires forall k, j :: 0 <= k < j < |order| ==> order[k] != order[j]
    requires i < |order|
    ensures Repacked(pl, order)[order[i]].offset == Extent(pl, order[..i])
    decreases |order|
  {
    var init := order[..|order| - 1];
    if i < |order| - 1 {
      RepackedEarlier(pl, order, i);
      RepackedAt(pl, init, i);
      assert init[..i] == order[..i];
    }
  }

  /** Taking the last element of `order` does not move the ones taken before it. */
  lemma RepackedEarlier(pl: map<string, Placement>, order: seq<string>, i: nat)
    requires forall k :: 0 <= k < |order| ==> order[k] in pl
    requires forall k, j :: 0 <= k < j < |order| ==> order[k] != order[j]
    requires i < |order| - 1
    ensures Repacked(pl, order)[order[i]] == Repacked(pl, order[..|order| - 1])[order[..|order| - 1][i]]
  {
    assert order[i] != order[|order| - 1];
  }

  /** Repacking keeps sizes and kinds, moves only the elements taken, and those to their extents. */
  lemma RepackedFacts(pl: map<string, Placement>, order: seq<string>)
    requires forall i :: 0 <= i < |order| ==> order[i] in pl
    requires forall i, j :: 0 <= i < j < |order| ==> order[i] != order[j]
    ensures forall k :: k in pl ==> Repacked(pl, order)[k].size == pl[k].size && Repacked(pl, order)[k].storage == pl[k].storage
    ensures forall k :: k in pl && k !in order ==> Repacked(pl, order)[k] == pl[k]
    ensures forall i :: 0 <= i < |order| ==> Repacked(pl, order)[order[i]].offset == Extent(pl, order[..i])
  {
    RepackedKeeps(pl, order);
    RepackedOffsets(pl, order);
  }

  /**
   * The state of the pass: `order` has been taken, ascending, before everything
   * in `rest`; `rest` is the remaining storage; `next` is the extent, within the
   * capacity, and no remaining non-empty element starts below it.
   */
  ghost predicate Packing(pl: map<string, Placement>, order: seq<string>, rest: set<string>, next: nat, capacity: nat) {
    Lists(pl, order) && Ascending(pl, order)
    && (forall n :: n in rest ==> n in pl && pl[n].storage && n !in order)
    && (forall n :: n in pl && pl[n].storage && n !in order ==> n in rest)
    && (forall i, n :: 0 <= i < |order| && n in rest ==> pl[order[i]].offset <= pl[n].offset)
    && next == Extent(pl, order) && next <= capacity
    && (forall n :: n in rest && pl[n].size > 0 ==> next <= pl[n].offset)
  }

  /** The storage elements of `pl` fit in the arena and share no byte. */
  ghost predicate Laid(pl: map<string, Placement>, capacity: nat) {
    (forall n :: n in pl && pl[n].storage ==> pl[n].offset + pl[n].size <= capacity)
    && (forall n, m :: n in pl && m in pl && n != m ==> Apart(pl[n], pl[m]))
  }

  /** The pass starts with nothing taken and every storage element remaining. */
  lemma PackingStart(pl: map<string, Placement>, capacity: nat)
    ensures Packing(pl, [], set n | n in pl && pl[n].storage, 0, capacity)
  {
  }

  /** Taking the remaining element of least offset keeps the state of the pass. */
  lemma PackingStep(pl: map<string, Placement>, order: seq<string>, rest: set<string>, next: nat, capacity: nat, n: string)
    requires Laid(pl, capacity) && Packing(pl, order, rest, next, capacity)
    requires n in rest && forall m :: m in rest ==> pl[n].offset <= pl[m].offset
    ensures Packing(pl, order + [n], rest - {n}, next + pl[n].size, capacity)
  {
    AscendingStep(pl, order, rest, n);
    ExtentAppend(pl, order, n);
    forall m | m in rest - {n} && pl[m].size > 0
      ensures next + pl[n].size <= pl[m].offset
    {
      StepGap(pl, order, rest, next, capacity, n, m);
    }
  }

  /** The element of least offset can follow everything taken so far, and precedes everything left. */
  lemma AscendingStep(pl: map<string, Placement>, order: seq<string>, rest: set<string>, n: string)
    requires Lists(pl, order) && Ascending(pl, order)
    requires forall m :: m in rest ==> m in pl && pl[m].storage && m !in order
    requires forall i, m :: 0 <= i < |order| && m in rest ==> pl[order[i]].offset <= pl[m].offset
    requires n in rest && forall m :: m in rest ==> pl[n].offset <= pl[m].offset
    ensures Lists(pl, order + [n]) && Ascending(pl, order + [n])
    ensures forall i, m :: 0 <= i < |order + [n]| && m in rest - {n} ==> pl[(order + [n])[i]].offset <= pl[m].offset
  {
    var order' := order + [n];
    forall i | 0 <= i < |order|
      ensures order'[i] == order[i]
    {
    }
  }

  /**
   * Once a non-empty element `n` of least offset is packed, every other remaining
   * non-empty element still starts at or above the new extent; an empty `n`
   * leaves the extent where it was.
   */
  lemma StepGap(pl: map<string, Placement>, order: seq<string>, rest: set<string>, next: nat, capacity: nat, n: string, m: string)
    requires Laid(pl, capacity) && Packing(pl, order, rest, next, capacity)
    requires n in rest && m in rest && m != n && pl[n].offset <= pl[m].offset
    ensures pl[n].size == 0 || pl[m].size == 0 || next + pl[n].size <= pl[m].offset
    ensures next + pl[n].size <= capacity
  {
    assert Apart(pl[n], pl[m]);
  }

  /**
   * The bytes each storage element held in `mem0`, at its place in `pl0`, are in
   * `mem` at its place in `pl`.
   */
  ghost predicate Carries(mem: seq<byte>, pl: map<string, Placement>, pl0: map<string, Placement>, mem0: seq<byte>) {
    forall n :: n in pl0 && pl0[n].storage ==> CarriesOne(mem, pl, pl0, mem0, n)
  }

  /** The bytes element `n` held in `mem0` at its place in `pl0` are in `mem` at its place in `pl`. */
  ghost predicate CarriesOne(mem: seq<byte>, pl: map<string, Placement>, pl0: map<string, Placement>, mem0: seq<byte>, n: string)
    requires n in pl0
  {
    n in pl && pl[n].offset + pl0[n].size <= |mem| && pl0[n].offset + pl0[n].size <= |mem0|
    && mem[pl[n].offset..pl[n].offset + pl0[n].size] == mem0[pl0[n].offset..pl0[n].offset + pl0[n].size]
  }

  /**
   * Copying the remaining element of least offset down to the extent carries
   * its bytes along and disturbs no other element's bytes.
   */
  lemma CarriesStep(mem: seq<byte>, pl0: map<string, Placement>, mem0: seq<byte>,
                    order: seq<string>, rest: set<string>, next: nat, n: string, pl: map<string, Placement>)
    requires Laid(pl0, |mem0|) && Packing(pl0, order, rest, next, |mem0|) && |mem| == |mem0|
    requires n in rest && forall m :: m in rest ==> pl0[n].offset <= pl0[m].offset
    requires pl == Repacked(pl0, order) && Carries(mem, pl, pl0, mem0)
    requires n in pl && pl[n].offset + pl[n].size <= |mem| && next + pl[n].size <= |mem|
    ensures Carries(Overwrite(mem, next, mem[pl[n].offset..pl[n].offset + pl[n].size]),
                    pl[n := Placement(next, pl[n].size, true)], pl0, mem0)
  {
    RepackedFacts(pl0, order);
    forall k | k in pl0 && pl0[k].storage
      ensures CarriesOne(Overwrite(mem, next, mem[pl[n].offset..pl[n].offset + pl[n].size]),
                         pl[n := Placement(next, pl[n].size, true)], pl0, mem0, k)
    {
      if k != n {
        MissesOther(pl0, order, rest, next, |mem0|, n, k);
      }
      CarriesStepAt(mem, pl0, mem0, pl, next, n, k);
    }
  }

  /** `CarriesStep` for one storage element `k`, given that the copy of `n` misses `k` unless `k` is `n`. */
  lemma CarriesStepAt(mem: seq<byte>, pl0: map<string, Placement>, mem0: seq<byte>,
                      pl: map<string, Placement>, next: nat, n: string, k: string)
    requires n in pl0 && k in pl0 && n in pl && k in pl && pl[n] == pl0[n]
    requires pl[n].offset + pl[n].size <= |mem| && next + pl[n].size <= |mem|
    requires CarriesOne(mem, pl, pl0, mem0, k) && CarriesOne(mem, pl, pl0, mem0, n)
    requires k != n ==> pl[k].offset + pl0[k].size <= next || next + pl0[n].size <= pl[k].offset
                        || pl0[n].size == 0 || pl0[k].size == 0
    ensures CarriesOne(Overwrite(mem, next, mem[pl[n].offset..pl[n].offset + pl[n].size]),
                       pl[n := Placement(next, pl[n].size, true)], pl0, mem0, k)
  {
    var src := mem[pl[n].offset..pl[n].offset + pl[n].size];
    if k == n {
      ReadBackOverwrite(mem, next, src);
    } else {
      OverwriteKeeps(mem, next, src, pl[k].offset, pl0[k].size);
    }
  }

  /** The bytes [next, next + size of n) that the copy writes miss every other storage element's current bytes. */
  lemma MissesOther(pl0: map<string, Placement>, order: seq<string>, rest: set<string>, next: nat, capacity: nat, n: string, k: string)
    requires Laid(pl0, capacity) && Packing(pl0, order, rest, next, capacity)
    requires n in rest && forall m :: m in rest ==> pl0[n].offset <= pl0[m].offset
    requires k in pl0 && pl0[k].storage && k != n
    ensures var lo := Repacked(pl0, order)[k].offset;
            lo + pl0[k].size <= next || next + pl0[n].size <= lo || pl0[n].size == 0 || pl0[k].size == 0
  {
    RepackedFacts(pl0, order);
    if k in order {
      var i :| 0 <= i < |order| && order[i] == k;
      ExtentPrefix(pl0, order, i, |order|);
      assert order[..|order|] == order;
    } else {
      StepGap(pl0, order, rest, next, capacity, n, k);
    }
  }

  /**
   * The state of the pass as values: `pl0` laid out in the arena `mem0`, the
   * elements of `order` packed, `rest` still to go, and the current placements
   * `pl` and arena `mem` carrying every element's original bytes.
   */
  ghost predicate Walk(pl0: map<string, Placement>, mem0: seq<byte>, order: seq<string>, rest: set<string>, next: nat,
                       pl: map<string, Placement>, mem: seq<byte>) {
    Laid(pl0, |mem0|) && Packing(pl0, order, rest, next, |mem0|) && |mem| == |mem0|
    && pl == Repacked(pl0, order) && Carries(mem, pl, pl0, mem0)
  }

  /** The element the pass takes next still sits at its first place, and the copy down to the extent is in bounds. */
  lemma WalkBounds(pl0: map<string, Placement>, mem0: seq<byte>, order: seq<string>, rest: set<string>, next: nat,
                   pl: map<string, Placement>, mem: seq<byte>, n: string)
    requires Walk(pl0, mem0, order, rest, next, pl, mem)
    requires n in rest && forall m :: m in rest ==> pl[n].offset <= pl[m].offset
    ensures n in pl0 && n in pl && pl[n] == pl0[n] && pl0[n].storage
    ensures pl[n].offset + pl[n].size <= |mem| && next + pl[n].size <= |mem|
    ensures next <= pl[n].offset || pl[n].size == 0
    ensures forall m :: m in rest ==> pl0[n].offset <= pl0[m].offset
  {
    RepackedFacts(pl0, order);
    forall m | m in rest
      ensures pl0[n].offset <= pl0[m].offset
    {
      assert pl[m] == pl0[m];
    }
    PackingStep(pl0, order, rest, next, |mem0|, n);
  }

  /** `PackingStep`, with the size of the element taken named by the caller. */
  lemma PackingNext(pl0: map<string, Placement>, order: seq<string>, rest: set<string>, next: nat, capacity: nat,
                    n: string, size: nat)
    requires Laid(pl0, capacity) && Packing(pl0, order, rest, next, capacity)
    requires n in rest && forall m :: m in rest ==> pl0[n].offset <= pl0[m].offset
    requires size == pl0[n].size
    ensures Packing(pl0, order + [n], rest - {n}, next + size, capacity)
  {
    PackingStep(pl0, order, rest, next, capacity, n);
  }

  /** Moving the element taken to the extent gives the repacked placements of the longer order. */
  lemma RepackedNext(pl0: map<string, Placement>, order: seq<string>, rest: set<string>, next: nat, capacity: nat,
                     n: string, pl: map<string, Placement>, size: nat)
    requires Packing(pl0, order, rest, next, capacity) && n in rest
    requires pl == Repacked(pl0, order) && size == pl0[n].size
    ensures pl[n := Placement(next, size, true)] == Repacked(pl0, order + [n])
  {
    RepackedStep(pl0, order, n);
  }

  /**
   * One step of the pass: copying the remaining element of least offset down
   * to the extent, and recording it there, gives the next state of the pass.
   */
  lemma WalkStep(pl0: map<string, Placement>, mem0: seq<byte>, order: seq<string>, rest: set<string>, next: nat,
                 pl: map<string, Placement>, mem: seq<byte>, n: string)
    requires Walk(pl0, mem0, order, rest, next, pl, mem)
    requires n in rest && forall m :: m in rest ==> pl[n].offset <= pl[m].offset
    requires n in pl && pl[n].offset + pl[n].size <= |mem| && next + pl[n].size <= |mem|
    ensures Walk(pl0, mem0, order + [n], rest - {n}, next + pl[n].size, pl[n := Placement(next, pl[n].size, true)],
                 Overwrite(mem, next, mem[pl[n].offset..pl[n].offset + pl[n].size]))
  {
    WalkBounds(pl0, mem0, order, rest, next, pl, mem, n);
    PackingNext(pl0, order, rest, next, |mem0|, n, pl[n].size);
    RepackedNext(pl0, order, rest, next, |mem0|, n, pl, pl[n].size);
    CarriesStep(mem, pl0, mem0, order, rest, next, n, pl);
  }

  /** `WalkStep`, with the new extent, placements and arena named by the caller. */
  lemma WalkMoved(pl0: map<string, Placement>, mem0: seq<byte>, order: seq<string>, rest: set<string>, next: nat,
                  pl: map<string, Placement>, mem: seq<byte>, n: string,
                  next': nat, pl': map<string, Placement>, mem': seq<byte>)
    requires Walk(pl0, mem0, order, rest, next, pl, mem)
    requires n in rest && forall m :: m in rest ==> pl[n].offset <= pl[m].offset
    requires n in pl && pl[n].offset + pl[n].size <= |mem| && next + pl[n].size <= |mem|
    requires next' == next + pl[n].size && pl' == pl[n := Placement(next, pl[n].size, true)]
    requires mem' == Overwrite(mem, next, mem[pl[n].offset..pl[n].offset + pl[n].size])
    ensures Walk(pl0, mem0, order + [n], rest - {n}, next', pl', mem')
  {
    WalkStep(pl0, mem0, order, rest, next, pl, mem, n);
  }

  /** Before the first step nothing is moved: every storage element remains and carries its own bytes. */
  lemma WalkStart(pl0: map<string, Placement>, mem0: seq<byte>)
    requires Laid(pl0, |mem0|)
    ensures Walk(pl0, mem0, [], set n | n in pl0 && pl0[n].storage, 0, pl0, mem0)
  {
    PackingStart(pl0, |mem0|);
  }

  /** The finished pass leaves the elements packed and the tail block free: the layout invariant. */
  lemma PackedPlaced(pl0: map<string, Placement>, order: seq<string>, next: nat, capacity: nat)
    requires Packing(pl0, order, {}, next, capacity)
    ensures PackOrder(pl0, order)
    ensures Placed(Repacked(pl0, order), CompactedFreeList(next, capacity), capacity)
  {
    RepackedFacts(pl0, order);
    var r := Repacked(pl0, order);
    forall i | 0 <= i < |order|
      ensures r[order[i]].offset == Extent(r, order[..i])
    {
      ExtentSameSizes(r, pl0, order[..i]);
    }
    ExtentSameSizes(r, pl0, order);
    PlacedCompacted(r, order, capacity);
  }

  /**
   * After packing to `extent`, the next allocation that fits takes the tail
   * block and lands right after the packed elements.
   */
  lemma AllocationAfterCompaction(extent: nat, capacity: nat, size: nat)
    requires extent < capacity && size <= capacity - extent
    ensures FirstFit(CompactedFreeList(extent, capacity), size) == Some(0)
    ensures CompactedFreeList(extent, capacity)[0].offset == extent
  {
  }

  /** A list of distinct names drawn from `keys` is no longer than `keys`. */
  lemma {:induction false} DistinctWithin(order: seq<string>, keys: set<string>)
    requires forall i :: 0 <= i < |order| ==> order[i] in keys
    requires forall i, j :: 0 <= i < j < |order| ==> order[i] != order[j]
    ensures |order| <= |keys|
    decreases |order|
  {
    if order != [] {
      var t := order[1..];
      forall i | 0 <= i < |t|
        ensures t[i] in keys - {order[0]}
      {
        assert t[i] == order[i + 1];
      }
      DistinctWithin(t, keys - {order[0]});
    }
  }

  /**
   * The defragmentation case of the manager's tests: `var1` (100 bytes at 0) and
   * `var3` (300 bytes at 300) remain once `var2` (200 bytes at 100) is freed. The
   * only packing order moves `var3` down to 100, `var2`'s old offset, and the next
   * 200-byte allocation in a 1024-byte arena lands at 400, right after `var3`.
   */
  lemma DefragmentationCase(order: seq<string>)
    requires PackOrder(map["var1" := Placement(0, 100, true), "var3" := Placement(300, 300, true)], order)
    ensures order == ["var1", "var3"]
    ensures Repacked(map["var1" := Placement(0, 100, true), "var3" := Placement(300, 300, true)], order)["var3"].offset == 100
    ensures Extent(map["var1" := Placement(0, 100, true), "var3" := Placement(300, 300, true)], order) == 100 + 300
    ensures FirstFit(CompactedFreeList(100 + 300, 1024), 200) == Some(0)
    ensures CompactedFreeList(100 + 300, 1024)[0].offset == 100 + 300
  {
    var pl0 := map["var1" := Placement(0, 100, true), "var3" := Placement(300, 300, true)];
    assert "var1" in order && "var3" in order;
    var i :| 0 <= i < |order| && order[i] == "var1";
    var j :| 0 <= j < |order| && order[j] == "var3";
    DistinctWithin(order, pl0.Keys);
    assert pl0.Keys == {"var1", "var3"};
    assert i == 0 && j == 1;
    assert order == ["var1", "var3"];
    assert order[..1] == ["var1"] && order[..0] == [];
    assert Repacked(pl0, order[..1]) == pl0["var1" := pl0["var1"].(offset := 0)];
    AllocationAfterCompaction(100 + 300, 1024, 200);
  }
}

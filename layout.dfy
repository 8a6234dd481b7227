/**
 * Where the registered elements sit in the arena, and the invariant the
 * manager keeps between them and the buffer's free list: every storage
 * element lies inside the arena, none of its bytes is free, and no two
 * storage elements share a byte.
 */
module Layout {
  import opened Blocks
  import opened Elements

  /** An element's place: offset, size, and whether it occupies arena bytes (a reference does not). */
  datatype Placement = Placement(offset: nat, size: nat, storage: bool)
  {
    predicate Covers(a: nat) {
      storage && offset <= a < offset + size
    }
  }

  /** Two placements share no byte: one holds no storage, one is empty, or they do not intersect. */
  predicate Apart(p: Placement, q: Placement) {
    !p.storage || !q.storage || p.size == 0 || q.size == 0
    || p.offset + p.size <= q.offset || q.offset + q.size <= p.offset
  }

  /** `Apart` is exactly the absence of a common byte. */
  lemma ApartIffDisjoint(p: Placement, q: Placement)
    ensures Apart(p, q) <==> forall a: nat :: !(p.Covers(a) && q.Covers(a))
  {
    if !Apart(p, q) {
      var a := if p.offset <= q.offset then q.offset else p.offset;
      assert p.Covers(a) && q.Covers(a);
    }
  }

  lemma ApartSymmetric(p: Placement, q: Placement)
    ensures Apart(p, q) <==> Apart(q, p)
  {
  }

  /** The manager's layout invariant over a name-to-placement map and a free list. */
  ghost predicate Placed(pl: map<string, Placement>, bs: seq<Block>, capacity: nat) {
    (forall n :: n in pl && pl[n].storage ==> pl[n].offset + pl[n].size <= capacity)
    && (forall n, a: nat :: n in pl && pl[n].Covers(a) ==> !IsFree(bs, a))
    && (forall n, m :: n in pl && m in pl && n != m ==> Apart(pl[n], pl[m]))
  }

  /** The placements of the registered descriptors. */
  function Placements(elements: map<string, Descriptor>): (pl: map<string, Placement>)
    reads elements.Values`offset
    ensures pl.Keys == elements.Keys
    ensures forall n :: n in elements ==>
              pl[n] == Placement(elements[n].offset, elements[n].size, !elements[n].IsReference())
  {
    map n | n in elements :: Placement(elements[n].offset, elements[n].size, !elements[n].IsReference())
  }

  /** Filing descriptor `d` under `n` files its placement under `n`. */
  lemma PlacementsInsert(elements: map<string, Descriptor>, n: string, d: Descriptor)
    ensures Placements(elements[n := d]) == Placements(elements)[n := Placement(d.offset, d.size, !d.IsReference())]
  {
  }

  /** Removing the descriptor filed under `n` removes its placement. */
  lemma PlacementsRemove(elements: map<string, Descriptor>, n: string)
    ensures Placements(elements - {n}) == Placements(elements) - {n}
  {
  }

  /**
   * Registering a new storage element on the low `size` bytes of free block `i`,
   * and taking those bytes off the free list, keeps the invariant.
   */
  lemma PlacedAllocate(pl: map<string, Placement>, bs: seq<Block>, capacity: nat, n: string, i: nat, size: nat)
    requires WellFormed(bs, capacity) && Placed(pl, bs, capacity)
    requires n !in pl && i < |bs| && size <= bs[i].size
    ensures Placed(pl[n := Placement(bs[i].offset, size, true)], TakeFrom(bs, i, size), capacity)
  {
    var p := Placement(bs[i].offset, size, true);
    var pl' := pl[n := p];
    var bs' := TakeFrom(bs, i, size);
    TakeFromFree(bs, i, size);
    forall k, a: nat | k in pl' && pl'[k].Covers(a)
      ensures !IsFree(bs', a)
    {
      if k != n {
        assert !IsFree(bs, a);
      }
    }
    forall k, m | k in pl' && m in pl' && k != m
      ensures Apart(pl'[k], pl'[m])
    {
      if k == n || m == n {
        var o := if k == n then m else k;
        var q := pl[o];
        forall a: nat ensures !(p.Covers(a) && q.Covers(a)) {
          if q.Covers(a) {
            assert !IsFree(bs, a);
          }
        }
        ApartIffDisjoint(p, q);
        ApartSymmetric(p, q);
      }
    }
  }

  /** Registering an element without storage (a reference) keeps the invariant. */
  lemma PlacedAddReference(pl: map<string, Placement>, bs: seq<Block>, capacity: nat, n: string, p: Placement)
    requires Placed(pl, bs, capacity) && !p.storage
    ensures Placed(pl[n := p], bs, capacity)
  {
    var pl' := pl[n := p];
    forall k, m | k in pl' && m in pl' && k != m
      ensures Apart(pl'[k], pl'[m])
    {
      if k != n && m != n {
        assert Apart(pl[k], pl[m]);
      }
    }
  }

  /** Unregistering an element without touching the free list keeps the invariant. */
  lemma PlacedRemove(pl: map<string, Placement>, bs: seq<Block>, capacity: nat, n: string)
    requires Placed(pl, bs, capacity)
    ensures Placed(pl - {n}, bs, capacity)
  {
    var pl' := pl - {n};
    forall k, m | k in pl' && m in pl' && k != m
      ensures Apart(pl'[k], pl'[m])
    {
      assert Apart(pl[k], pl[m]);
    }
  }

  /**
   * Unregistering a storage element and returning its bytes to the free list
   * keeps the invariant: no other element owns any of those bytes.
   */
  lemma PlacedRelease(pl: map<string, Placement>, bs: seq<Block>, capacity: nat, n: string)
    requires Ordered(bs) && Placed(pl, bs, capacity) && n in pl && pl[n].storage
    requires !DoubleFree(bs, pl[n].offset, pl[n].size)
    ensures Placed(pl - {n}, Released(bs, pl[n].offset, pl[n].size), capacity)
  {
    var p := pl[n];
    var pl' := pl - {n};
    var bs' := Released(bs, p.offset, p.size);
    ReleasedFree(bs, p.offset, p.size);
    forall k, a: nat | k in pl' && pl'[k].Covers(a)
      ensures !IsFree(bs', a)
    {
      assert !IsFree(bs, a);
      assert Apart(pl[k], p);
      assert !(p.offset <= a < p.offset + p.size);
    }
    PlacedRemove(pl, bs, capacity, n);
  }

  /** Destroying `n` can go through: it is registered, and is a reference or storage whose release is no double free. */
  predicate Releasable(pl: map<string, Placement>, bs: seq<Block>, n: string) {
    n in pl && (!pl[n].storage || !DoubleFree(bs, pl[n].offset, pl[n].size))
  }

  /** The free list once `n` is destroyed: a reference gives no bytes back. */
  function ReleasedFor(pl: map<string, Placement>, bs: seq<Block>, n: string): seq<Block>
    requires n in pl
  {
    if pl[n].storage then Released(bs, pl[n].offset, pl[n].size) else bs
  }
}

/**
 * The pass of `defragment_memory` over the arena bytes: the storage elements,
 * least offset first, are copied down to the running extent.
 */
module Compaction {
  import opened Layout
  import opened Arena
  import opened Packing

  /**
   * The arena side of `defragment_memory`: the storage elements of `pl0`,
   * least offset first, are copied down to the running extent in `data`;
   * `pl` is where each element ends up and `next` the packed extent.
   */
  method Pack(data: array<byte>, pl0: map<string, Placement>) returns (ghost order: seq<string>, next: nat, pl: map<string, Placement>)
    requires Laid(pl0, data.Length)
    modifies data
    ensures PackOrder(pl0, order) && next == Extent(pl0, order) && pl == Repacked(pl0, order)
    ensures pl.Keys == pl0.Keys && forall n :: n in pl0 ==> pl[n].size == pl0[n].size && pl[n].storage == pl0[n].storage
    ensures Carries(data[..], pl, pl0, old(data[..]))
    ensures Placed(pl, CompactedFreeList(next, data.Length), data.Length)
  {
    ghost var mem0 := data[..];
    var rest := set n | n in pl0 && pl0[n].storage;
    order := [];
    next := 0;
    pl := pl0;
    WalkStart(pl0, mem0);
    while rest != {}
      invariant Walk(pl0, mem0, order, rest, next, pl, data[..])
      decreases rest
    {
      ghost var mem := data[..];
      var n := Lowest(rest, pl);
      assert data[..] == mem;
      WalkBounds(pl0, mem0, order, rest, next, pl, mem, n);
      var next', pl' := PackNext(data, next, pl, n);
      WalkMoved(pl0, mem0, order, rest, next, pl, mem, n, next', pl', data[..]);
      order, rest, next, pl := order + [n], rest - {n}, next', pl';
    }
    RepackedFacts(pl0, order);
    PackedPlaced(pl0, order, next, data.Length);
  }

  /** One step of the pass: element `n` goes down to the running extent `next`, bytes and all. */
  method PackNext(data: array<byte>, next: nat, pl: map<string, Placement>, n: string)
    returns (next': nat, pl': map<string, Placement>)
    requires n in pl && pl[n].offset + pl[n].size <= data.Length && next + pl[n].size <= data.Length
    requires next <= pl[n].offset || pl[n].size == 0
    modifies data
    ensures data[..] == Overwrite(old(data[..]), next, old(data[..])[pl[n].offset..pl[n].offset + pl[n].size])
    ensures next' == next + pl[n].size && pl' == pl[n := Placement(next, pl[n].size, true)]
  {
    MoveBytes(data, pl[n].offset, next, pl[n].size);
    next' := next + pl[n].size;
    pl' := pl[n := Placement(next, pl[n].size, true)];
  }

  /** The element of `rest` with the least offset in `pl`. */
  method Lowest(rest: set<string>, pl: map<string, Placement>) returns (n: string)
    requires rest != {} && rest <= pl.Keys
    ensures n in rest && forall m :: m in rest ==> pl[n].offset <= pl[m].offset
  {
    n :| n in rest;
    var todo := rest - {n};
    while todo != {}
      invariant todo <= rest && n in rest
      invariant forall m :: m in rest && m !in todo ==> pl[n].offset <= pl[m].offset
      decreases todo
    {
      var m :| m in todo;
      if pl[m].offset < pl[n].offset {
        n := m;
      }
      todo := todo - {m};
    }
  }

}

/**
 * The program namespaces and the manager's registry (`Program` and the
 * `IManager` contract): the quota gate, name uniqueness, allocation and
 * release through the arena, references, shared-segment grants, the error
 * log, dangling-reference detection and defragmentation.
 *
 * The manager owns every descriptor in `elements`; a program's `elements` map
 * holds non-owning associations into it.
 */
module Registry {
  import opened Wrappers
  import opened Blocks
  import opened Elements
  import opened Layout
  import opened Packing
  import opened Compaction
  import Arena
  import Errors

  // ---------------------------------------------------------------- quota accounting

  /** Bytes an element charges to a program's quota: its size, nothing for a reference. */
  function Charge(d: Descriptor): (r: nat)
    ensures r <= d.size
    ensures d.IsReference() ==> r == 0
    ensures !d.IsReference() ==> r == d.size
  {
    if d.IsReference() then 0 else d.size
  }

  /** Sum of the charges of the elements filed under `keys`. */
  ghost function SumCharges(m: map<string, Descriptor>, keys: set<string>): nat
    requires keys <= m.Keys
    decreases keys
  {
    if keys == {} then 0
    else
      var k :| k in keys;
      Charge(m[k]) + SumCharges(m, keys - {k})
  }

  /** `get_used_memory`: the sizes of a namespace's elements, references excluded. */
  ghost function Used(m: map<string, Descriptor>): (r: nat)
    ensures m == map[] ==> r == 0
    ensures forall n :: n in m ==> Charge(m[n]) <= r
  {
    ChargesWithinSum(m, m.Keys);
    SumCharges(m, m.Keys)
  }

  /** Every element's charge is part of the sum over a set of keys holding it. */
  lemma ChargesWithinSum(m: map<string, Descriptor>, keys: set<string>)
    requires keys <= m.Keys
    ensures forall n :: n in keys ==> Charge(m[n]) <= SumCharges(m, keys)
  {
    forall n | n in keys ensures Charge(m[n]) <= SumCharges(m, keys) {
      SumChargesRemove(m, keys, n);
    }
  }

  /** The sum does not depend on which element is taken out first. */
  lemma {:induction false} SumChargesRemove(m: map<string, Descriptor>, keys: set<string>, k: string)
    requires keys <= m.Keys && k in keys
    ensures SumCharges(m, keys) == Charge(m[k]) + SumCharges(m, keys - {k})
    decreases keys
  {
    var j :| j in keys && SumCharges(m, keys) == Charge(m[j]) + SumCharges(m, keys - {j});
    if j != k {
      SumChargesRemove(m, keys - {j}, k);
      SumChargesRemove(m, keys - {k}, j);
      assert keys - {j} - {k} == keys - {k} - {j};
    }
  }

  /** The sum over `keys` sees only the elements filed under `keys`. */
  lemma {:induction false} SumChargesAgree(m: map<string, Descriptor>, m': map<string, Descriptor>, keys: set<string>)
    requires keys <= m.Keys && keys <= m'.Keys
    requires forall k :: k in keys ==> m[k] == m'[k]
    ensures SumCharges(m, keys) == SumCharges(m', keys)
    decreases keys
  {
    if keys != {} {
      var k :| k in keys;
      SumChargesRemove(m, keys, k);
      SumChargesRemove(m', keys, k);
      SumChargesAgree(m, m', keys - {k});
    }
  }

  /** Filing a new element under a fresh name adds its charge to the used memory. */
  lemma UsedInsert(m: map<string, Descriptor>, n: string, d: Descriptor)
    requires n !in m
    ensures Used(m[n := d]) == Used(m) + Charge(d)
  {
    var m' := m[n := d];
    SumChargesRemove(m', m'.Keys, n);
    assert m'.Keys - {n} == m.Keys;
    SumChargesAgree(m', m, m.Keys);
  }

  /** Removing an element gives its charge back. */
  lemma UsedErase(m: map<string, Descriptor>, n: string)
    requires n in m
    ensures Used(m - {n}) + Charge(m[n]) == Used(m)
  {
    SumChargesRemove(m, m.Keys, n);
    assert (m - {n}).Keys == m.Keys - {n};
    SumChargesAgree(m - {n}, m, m.Keys - {n});
  }

  // ---------------------------------------------------------------- error log

  /** `program_errors(p)`: the entries of the log recorded for program `p`, in log order. */
  function ErrorsOf(log: seq<Errors.Error>, p: string): (r: seq<Errors.Error>)
    ensures |r| <= |log|
    ensures forall e :: e in r ==> e in log && e.program == p
    ensures forall e :: e in log && e.program == p ==> e in r
  {
    if log == [] then []
    else
      var last := log[|log| - 1];
      var r := ErrorsOf(log[..|log| - 1], p) + (if last.program == p then [last] else []);
      assert log == log[..|log| - 1] + [last];
      r
  }

  // ---------------------------------------------------------------- messages

  function QuotaExceeded(program: string): string {
    "The memory limit in the '" + program + "' program has been exceeded."
  }

  function AlreadyExists(n: string): string {
    "The element '" + n + "' already exists."
  }

  function NotFound(n: string): string {
    "The element '" + n + "' does not exist."
  }

  function NotHeld(n: string): string {
    "The program doesn't have the element '" + n + "'."
  }

  function NotStorage(n: string): string {
    "The element '" + n + "' cannot be referenced."
  }

  function NotShared(n: string): string {
    "The element '" + n + "' is not a shared segment."
  }

  function NoProgram(p: string): string {
    "The program '" + p + "' does not exist."
  }

  function ProgramExists(p: string): string {
    "The program '" + p + "' already exists."
  }

  function NotOwner(n: string): string {
    "Program doesn't have acces for segment." + n
  }

  function LastOwner(n: string): string {
    "The segment '" + n + "' has only one program left."
  }

  function Leaked(n: string): string {
    "The element '" + n + "' was not destroyed."
  }

  /** Short forms of the buffer's exception texts, forwarded into the log. */
  function BufferMessage(e: Arena.BufferError): string {
    match e
    case Overflow => "Buffer overflow."
    case OutOfRange => "Invalid offset."
    case DoubleFree => "Double free."
  }

  /**
   * The entry the manager logs when it refuses `destroy_element(n)` from `program`:
   * a memory leak for an unknown name, the buffer's double free otherwise.
   */
  function ManagerRefusal(elements: map<string, Descriptor>, n: string, program: string): (e: Errors.Error)
    ensures e.program == program
    ensures e.kind == Errors.MemoryLeak <==> n !in elements
    ensures e.kind == Errors.DoubleFree <==> n in elements
  {
    if n in elements then Errors.Error(Errors.DoubleFree, BufferMessage(Arena.DoubleFree), program)
    else Errors.Error(Errors.MemoryLeak, NotFound(n), program)
  }

  /** One memory-leak report per leaked element, for program `p`. */
  function LeakReports(names: seq<string>, p: string): (r: seq<Errors.Error>)
    ensures |r| == |names|
    ensures forall i :: 0 <= i < |names| ==> r[i] == Errors.Error(Errors.MemoryLeak, Leaked(names[i]), p)
  {
    if names == [] then []
    else [Errors.Error(Errors.MemoryLeak, Leaked(names[0]), p)] + LeakReports(names[1..], p)
  }

  /** One more leak report extends the log by that report. */
  lemma LeakLogged(log0: seq<Errors.Error>, before: seq<Errors.Error>, after: seq<Errors.Error>,
                   names: seq<string>, k: string, p: string)
    requires before == log0 + LeakReports(names, p)
    requires after == before + [Errors.Error(Errors.MemoryLeak, Leaked(k), p)]
    ensures after == log0 + LeakReports(names + [k], p)
  {
    assert LeakReports(names + [k], p) == LeakReports(names, p) + [Errors.Error(Errors.MemoryLeak, Leaked(k), p)];
  }

  /** A program's destructor reports an element as leaked unless it is a reference or a shared segment. */
  predicate Leaks(d: Descriptor) {
    !d.IsReference() && !d.kind.SharedSegment?
  }

  /** `new Descriptor(name, size, offset, args...)`: a descriptor of the requested storage kind; a segment is created owned by `program`. */
  method Build(n: string, size: nat, offset: nat, kind: Kind, program: string) returns (d: Descriptor)
    requires !kind.Reference?
    ensures fresh(d) && d.name == n && d.size == size && d.offset == offset && d.kind == kind
    ensures d.owners == if kind.SharedSegment? then {program} else {}
  {
    if kind.Scalar? {
      d := new Descriptor.Variable(n, size, offset);
    } else if kind.Array? {
      d := new Descriptor.ArrayOf(n, size, offset, kind.stride);
    } else {
      d := new Descriptor.Segment(n, size, offset, kind.stride, program);
    }
  }

  // ---------------------------------------------------------------- programs

  class Program {
    const name: string
    const filePath: string
    const memoryLimit: nat
    const manager: Manager
    var elements: map<string, Descriptor>

    /** Every element is filed under its own name. */
    predicate Keyed()
      reads this
    {
      forall k :: k in elements ==> elements[k].name == k
    }

    /** A new program has no elements. */
    constructor (name: string, filePath: string, memoryLimit: nat, manager: Manager)
      ensures this.name == name && this.filePath == filePath && this.memoryLimit == memoryLimit
      ensures this.manager == manager && elements == map[]
    {
      this.name := name;
      this.filePath := filePath;
      this.memoryLimit := memoryLimit;
      this.manager := manager;
      elements := map[];
    }

    /** `insert_element`: files the element under its name, unless that name is already taken. */
    method InsertElement(d: Descriptor)
      modifies this`elements
      ensures elements == if d.GetName() in old(elements) then old(elements) else old(elements)[d.GetName() := d]
      ensures old(Keyed()) ==> Keyed()
      ensures old(manager.Valid()) ==> manager.Valid()
    {
      if d.GetName() !in elements {
        elements := elements[d.GetName() := d];
      }
    }

    /** `erase_element`: removes whatever is filed under the element's name. */
    method EraseElement(d: Descriptor)
      modifies this`elements
      ensures elements == old(elements) - {d.GetName()}
      ensures old(Keyed()) ==> Keyed()
      ensures old(manager.Valid()) ==> manager.Valid()
    {
      elements := elements - {d.GetName()};
    }

    /** `get_used_memory`: adds up the charges of the elements one by one. */
    method GetUsedMemory() returns (used: nat)
      ensures used == Used(elements)
    {
      used := 0;
      var keys := elements.Keys;
      while keys != {}
        invariant keys <= elements.Keys
        invariant used + SumCharges(elements, keys) == Used(elements)
        decreases keys
      {
        var k :| k in keys;
        SumChargesRemove(elements, keys, k);
        used := used + Charge(elements[k]);
        keys := keys - {k};
      }
    }

    /** `possible_for_expansion(size)`: `size` more bytes stay within the limit. */
    method PossibleForExpansion(size: nat) returns (ok: bool)
      ensures ok <==> Used(elements) + size <= memoryLimit
    {
      var used := GetUsedMemory();
      ok := used + size <= memoryLimit;
    }

    /**
     * `allocate_element<Descriptor>(n, size)`: over the quota, a size error is
     * logged for this program and the manager is not asked; otherwise the
     * manager allocates, and a new element is associated under `n`.
     */
    method AllocateElement(n: string, size: nat, kind: Kind) returns (r: Option<Descriptor>)
      requires manager.Valid() && !kind.Reference?
      modifies this`elements, manager`elements, manager`log, manager.arena
      ensures manager.Valid() && manager.programs == old(manager.programs)
      ensures old(Keyed()) ==> Keyed()
      ensures Used(old(elements)) + size > memoryLimit ==>
                r.None? && elements == old(elements) && manager.elements == old(manager.elements)
                && manager.arena.blocks == old(manager.arena.blocks)
                && manager.log == old(manager.log) + [Errors.Error(Errors.SizeError, QuotaExceeded(name), name)]
      ensures Used(old(elements)) + size <= memoryLimit ==> Admitted(n, size, kind, r)
    {
      var room := PossibleForExpansion(size);
      if !room {
        manager.RecordError(Errors.SizeError, QuotaExceeded(name), name);
        return None;
      }
      r := Admit(n, size, kind);
    }

    /**
     * The outcome of `allocate_element` once the quota admits it: the manager's
     * refusal (the name is taken, or no free block is large enough) leaves
     * everything but the log as it was; otherwise the new element is
     * registered and associated.
     */
    twostate predicate Admitted(n: string, size: nat, kind: Kind, new r: Option<Descriptor>)
      reads this, manager, manager.arena, if r.Some? then {r.value} else {}
    {
      && (n in old(manager.elements) ==>
            r.None? && elements == old(elements) && manager.elements == old(manager.elements)
            && manager.arena.blocks == old(manager.arena.blocks)
            && manager.log == old(manager.log) + [Errors.Error(Errors.MemoryLeak, AlreadyExists(n), name)])
      && (n !in old(manager.elements) && FirstFit(old(manager.arena.blocks), size).None? ==>
            r.None? && elements == old(elements) && manager.elements == old(manager.elements)
            && manager.arena.blocks == old(manager.arena.blocks)
            && manager.log == old(manager.log) + [Errors.Error(Errors.SizeError, BufferMessage(Arena.Overflow), name)])
      && (n !in old(manager.elements) && FirstFit(old(manager.arena.blocks), size).Some? ==>
            var i := FirstFit(old(manager.arena.blocks), size).value;
            r.Some? && fresh(r.value) && r.value.name == n && r.value.size == size && r.value.kind == kind
            && r.value.offset == old(manager.arena.blocks)[i].offset
            && r.value.owners == (if kind.SharedSegment? then {name} else {})
            && manager.elements == old(manager.elements)[n := r.value]
            && manager.arena.blocks == TakeFrom(old(manager.arena.blocks), i, size)
            && manager.log == old(manager.log)
            && elements == (if n in old(elements) then old(elements) else old(elements)[n := r.value]))
    }

    /** `allocate_element` past the quota gate: the manager allocates and the new element is associated. */
    method Admit(n: string, size: nat, kind: Kind) returns (r: Option<Descriptor>)
      requires manager.Valid() && !kind.Reference?
      modifies this`elements, manager`elements, manager`log, manager.arena
      ensures manager.Valid() && manager.programs == old(manager.programs)
      ensures old(Keyed()) ==> Keyed()
      ensures Admitted(n, size, kind, r)
    {
      r := manager.AllocateElement(n, size, kind, name);
      if r.None? {
        return None;
      }
      InsertElement(r.value);
    }

    /**
     * `destroy_element(n)`: a name this program does not hold is an access
     * error; an element that refuses (a shared segment not solely owned by
     * this program) logs its refusal; otherwise the association is dropped and
     * the manager destroys the element, and if that fails the association is
     * restored.
     */
    method DestroyElement(n: string) returns (ok: bool)
      requires manager.Valid() && Keyed()
      modifies this`elements, manager`elements, manager`log, manager.arena
      ensures manager.Valid() && Keyed() && manager.programs == old(manager.programs)
      ensures n !in old(elements) ==>
                !ok && elements == old(elements) && manager.elements == old(manager.elements)
                && manager.arena.blocks == old(manager.arena.blocks)
                && manager.log == old(manager.log) + [Errors.Error(Errors.AccessError, NotHeld(n), name)]
      ensures n in old(elements) && old(elements[n].DestroyRefusal(name)).Some? ==>
                !ok && elements == old(elements) && manager.elements == old(manager.elements)
                && manager.arena.blocks == old(manager.arena.blocks)
                && manager.log == old(manager.log) + [old(elements[n].DestroyRefusal(name)).value]
      ensures n in old(elements) && old(elements[n].DestroyRefusal(name)).None? ==>
                (ok <==> Releasable(old(Placements(manager.elements)), old(manager.arena.blocks), n))
                && (ok ==> elements == old(elements) - {n} && manager.elements == old(manager.elements) - {n}
                           && manager.arena.blocks == ReleasedFor(old(Placements(manager.elements)), old(manager.arena.blocks), n)
                           && manager.log == old(manager.log))
                && (!ok ==> elements == old(elements) && manager.elements == old(manager.elements)
                            && manager.arena.blocks == old(manager.arena.blocks)
                            && manager.log == old(manager.log) + [ManagerRefusal(old(manager.elements), n, name)])
    {
      if n !in elements {
        manager.RecordError(Errors.AccessError, NotHeld(n), name);
        return false;
      }
      var d := elements[n];
      var refusal := d.DestroyRefusal(name);
      if refusal.Some? {
        manager.RecordError(refusal.value.kind, refusal.value.description, refusal.value.program);
        return false;
      }
      ok := Surrender(d, Placements(manager.elements), manager.arena.blocks);
    }

    /**
     * The association with `d` is dropped and the manager asked to destroy it;
     * when the manager refuses, the association is restored.
     */
    method Surrender(d: Descriptor, ghost pl: map<string, Placement>, ghost bs: seq<Block>) returns (ok: bool)
      requires manager.Valid() && Keyed() && d.name in elements && elements[d.name] == d
      requires pl == Placements(manager.elements) && bs == manager.arena.blocks
      modifies this`elements, manager`elements, manager`log, manager.arena
      ensures manager.Valid() && Keyed() && manager.programs == old(manager.programs)
      ensures ok <==> Releasable(pl, bs, d.name)
      ensures ok ==> elements == old(elements) - {d.name} && manager.elements == old(manager.elements) - {d.name}
                     && manager.arena.blocks == ReleasedFor(pl, bs, d.name) && manager.log == old(manager.log)
      ensures !ok ==> elements == old(elements) && manager.elements == old(manager.elements)
                      && manager.arena.blocks == bs
                      && manager.log == old(manager.log) + [ManagerRefusal(old(manager.elements), d.name, name)]
    {
      EraseElement(d);
      ok := manager.DestroyElement(d.GetName(), name);
      if !ok {
        Restore(d);
        assert elements == old(elements);
      }
    }

    /** Re-associates an element whose association was dropped. */
    method Restore(d: Descriptor)
      requires Keyed() && d.name !in elements
      modifies this`elements
      ensures elements == old(elements)[d.name := d] && Keyed()
      ensures old(manager.Valid()) ==> manager.Valid()
    {
      InsertElement(d);
    }

    /**
     * `make_reference(n, target)`: only an element this program already holds
     * can be referenced (an access error otherwise); the manager creates the
     * reference and it is associated under `n`.
     */
    method MakeReference(n: string, target: string) returns (r: Option<Descriptor>)
      requires manager.Valid()
      modifies this`elements, manager`elements, manager`log
      ensures manager.Valid() && manager.programs == old(manager.programs)
      ensures old(Keyed()) ==> Keyed()
      ensures target !in old(elements) ==>
                r.None? && elements == old(elements) && manager.elements == old(manager.elements)
                && manager.log == old(manager.log) + [Errors.Error(Errors.AccessError, NotHeld(target), name)]
      ensures target in old(elements) && n in old(manager.elements) ==>
                r.None? && elements == old(elements) && manager.elements == old(manager.elements)
                && manager.log == old(manager.log) + [Errors.Error(Errors.MemoryLeak, AlreadyExists(n), name)]
      ensures target in old(elements) && n !in old(manager.elements)
              && (target !in old(manager.elements) || old(manager.elements[target]).IsReference()) ==>
                r.None? && elements == old(elements) && manager.elements == old(manager.elements)
                && manager.log == old(manager.log) + [Errors.Error(Errors.AccessError, NotStorage(target), name)]
      ensures target in old(elements) && n !in old(manager.elements)
              && target in old(manager.elements) && !old(manager.elements[target]).IsReference() ==>
                r.Some? && fresh(r.value) && r.value.name == n && r.value.kind == Reference(target)
                && manager.elements == old(manager.elements)[n := r.value] && manager.log == old(manager.log)
                && elements == (if n in old(elements) then old(elements) else old(elements)[n := r.value])
    {
      if target !in elements {
        manager.RecordError(Errors.AccessError, NotHeld(target), name);
        return None;
      }
      r := manager.MakeReference(n, target, name);
      if r.None? {
        return None;
      }
      InsertElement(r.value);
    }

    /**
     * The destructor `~Program`: every element that is neither a reference nor a
     * shared segment is reported as a memory leak, and the program leaves the
     * owner set of each of its shared segments.
     */
    method Teardown() returns (ghost leaked: seq<string>)
      requires Keyed()
      modifies manager`log, elements.Values`owners
      ensures manager.log == old(manager.log) + LeakReports(leaked, name)
      ensures forall i, j :: 0 <= i < j < |leaked| ==> leaked[i] != leaked[j]
      ensures forall n :: n in leaked <==> n in elements && Leaks(elements[n])
      ensures forall n :: n in elements ==>
                elements[n].owners == if elements[n].kind.SharedSegment? then old(elements[n].owners) - {name} else old(elements[n].owners)
    {
      leaked := [];
      var els := elements;
      var keys := els.Keys;
      while keys != {}
        invariant keys <= els.Keys && elements == els
        invariant manager.log == old(manager.log) + LeakReports(leaked, name)
        invariant forall i, j :: 0 <= i < j < |leaked| ==> leaked[i] != leaked[j]
        invariant forall n :: n in leaked <==> n in els && n !in keys && Leaks(els[n])
        invariant forall n :: n in els ==>
                    els[n].owners == if els[n].kind.SharedSegment? && n !in keys then old(els[n].owners) - {name} else old(els[n].owners)
        decreases keys
      {
        var k :| k in keys;
        var d := els[k];
        ghost var before := manager.log;
        Dismiss(d);
        if Leaks(d) {
          LeakLogged(old(manager.log), before, manager.log, leaked, k, name);
          leaked := leaked + [k];
        }
        keys := keys - {k};
      }
    }

    /** The destructor's work on one element: a leak is reported, a shared segment is left, anything else is untouched. */
    method Dismiss(d: Descriptor)
      modifies manager`log, d`owners
      ensures Leaks(d) ==> manager.log == old(manager.log) + [Errors.Error(Errors.MemoryLeak, Leaked(d.name), name)]
      ensures !Leaks(d) ==> manager.log == old(manager.log)
      ensures d.owners == if d.kind.SharedSegment? then old(d.owners) - {name} else old(d.owners)
    {
      if Leaks(d) {
        manager.RecordError(Errors.MemoryLeak, Leaked(d.GetName()), name);
      } else if d.kind.SharedSegment? {
        d.EraseProgram(name);
      }
    }

    /** `record_error`: logs an error tagged with this program in the manager's log. */
    method RecordError(kind: Errors.ErrorKind, description: string)
      modifies manager`log
      ensures manager.log == old(manager.log) + [Errors.Error(kind, description, name)]
    {
      manager.RecordError(kind, description, name);
    }
  }

  // ---------------------------------------------------------------- the manager

  class Manager {
    const arena: Arena.Buffer
    var elements: map<string, Descriptor>
    var programs: map<string, Program>
    var log: seq<Errors.Error>

    /**
     * The arena's free list is well formed, every element and program is filed
     * under its own name, and the elements' placements agree with the free list.
     */
    ghost predicate Valid()
      reads this`elements, this`programs, arena, elements.Values`offset
    {
      Filed() && Placed(Placements(elements), arena.blocks, arena.capacity)
    }

    /** The arena's free list is well formed and every element and program is filed under its own name. */
    ghost predicate Filed()
      reads this`elements, this`programs, arena
    {
      arena.Valid() && Named()
      && (forall p :: p in programs ==> programs[p].name == p && programs[p].manager == this)
    }

    /** Every element is filed under its own name. */
    ghost predicate Named()
      reads this`elements
    {
      forall n :: n in elements ==> elements[n].name == n
    }

    /** Files a new element whose placement keeps the layout invariant. */
    method Register(d: Descriptor)
      requires Filed() && d.name !in elements
      requires Placed(Placements(elements)[d.name := Placement(d.offset, d.size, !d.IsReference())], arena.blocks, arena.capacity)
      modifies this`elements
      ensures elements == old(elements)[d.name := d] && Valid()
    {
      ghost var pl := Placements(elements)[d.name := Placement(d.offset, d.size, !d.IsReference())];
      PlacementsInsert(elements, d.name, d);
      elements := elements[d.name := d];
      assert Placements(elements) == pl;
    }

    /** Unfiles an element whose removal keeps the layout invariant. */
    method Unregister(n: string)
      requires Filed() && n in elements
      requires Placed(Placements(elements) - {n}, arena.blocks, arena.capacity)
      modifies this`elements
      ensures elements == old(elements) - {n} && Valid()
    {
      ghost var pl := Placements(elements) - {n};
      PlacementsRemove(elements, n);
      elements := elements - {n};
      assert Placements(elements) == pl;
    }

    /** A manager over a fresh arena of `capacity` bytes, with nothing registered. */
    constructor (capacity: nat)
      ensures Valid() && fresh(arena)
      ensures arena.capacity == capacity && arena.blocks == [Block(0, capacity)]
      ensures elements == map[] && programs == map[] && log == []
    {
      arena := new Arena.Buffer(capacity);
      elements := map[];
      programs := map[];
      log := [];
    }

    /** `record_error`: appends one entry to the log. */
    method RecordError(kind: Errors.ErrorKind, description: string, program: string)
      modifies this`log
      ensures log == old(log) + [Errors.Error(kind, description, program)]
    {
      log := log + [Errors.Error(kind, description, program)];
    }

    /** `get_element`: the element filed under `n`, or nothing for an unknown name. */
    function GetElement(n: string): (r: Option<Descriptor>)
      reads this
      ensures r.None? <==> n !in elements
      ensures r.Some? ==> r.value == elements[n]
    {
      if n in elements then Some(elements[n]) else None
    }

    /** `insert_element`: files the element under its name, unless that name is already taken. */
    method InsertElement(d: Descriptor)
      modifies this`elements
      ensures elements == if d.GetName() in old(elements) then old(elements) else old(elements)[d.GetName() := d]
    {
      if d.GetName() !in elements {
        elements := elements[d.GetName() := d];
      }
    }

    /** `erase_element`: removes whatever is filed under the element's name. */
    method EraseElement(d: Descriptor)
      modifies this`elements
      ensures elements == old(elements) - {d.GetName()}
    {
      elements := elements - {d.GetName()};
    }

    /**
     * `valid_allocate`: first-fit allocation in the arena; when no free block
     * is large enough, the buffer's overflow is logged as a size error and no
     * offset comes back.
     */
    method ValidAllocate(size: nat, program: string) returns (offset: Option<nat>)
      requires arena.Valid()
      modifies this`log, arena
      ensures arena.Valid()
      ensures match FirstFit(old(arena.blocks), size)
        case None =>
          offset.None? && arena.blocks == old(arena.blocks)
          && log == old(log) + [Errors.Error(Errors.SizeError, BufferMessage(Arena.Overflow), program)]
        case Some(i) =>
          offset == Some(old(arena.blocks)[i].offset) && arena.blocks == TakeFrom(old(arena.blocks), i, size)
          && log == old(log)
    {
      var r := arena.AllocateBlock(size);
      if r.Failure? {
        RecordError(Errors.SizeError, BufferMessage(r.error), program);
        return None;
      }
      return Some(r.value);
    }

    /**
     * `valid_destroy`: releases [offset, offset + size) in the arena; a range
     * past the end is logged as a size error, a collision with free space as a
     * double free, and the free list is then unchanged.
     */
    method ValidDestroy(offset: nat, size: nat, program: string) returns (ok: bool)
      requires arena.Valid()
      modifies this`log, arena
      ensures arena.Valid()
      ensures offset + size > arena.capacity ==>
                !ok && log == old(log) + [Errors.Error(Errors.SizeError, BufferMessage(Arena.OutOfRange), program)]
      ensures offset + size <= arena.capacity ==> (ok <==> !DoubleFree(old(arena.blocks), offset, size))
      ensures offset + size <= arena.capacity && !ok ==>
                log == old(log) + [Errors.Error(Errors.DoubleFree, BufferMessage(Arena.DoubleFree), program)]
      ensures ok ==> arena.blocks == Released(old(arena.blocks), offset, size) && log == old(log)
      ensures !ok ==> arena.blocks == old(arena.blocks)
    {
      DoubleFreeIffOverlap(arena.blocks, offset, size);
      var r := arena.DestroyBlock(offset, size);
      if r.Fail? {
        var kind := if r.error == Arena.DoubleFree then Errors.DoubleFree else Errors.SizeError;
        RecordError(kind, BufferMessage(r.error), program);
        return false;
      }
      return true;
    }

    /**
     * `allocate_element<Descriptor>` on behalf of `program`: a name already
     * registered is logged as a memory leak; otherwise the arena supplies the
     * offset and a descriptor of the requested kind is built there and filed.
     */
    method AllocateElement(n: string, size: nat, kind: Kind, program: string) returns (r: Option<Descriptor>)
      requires Valid() && !kind.Reference?
      modifies this`elements, this`log, arena
      ensures Valid() && programs == old(programs)
      ensures n in old(elements) ==>
                r.None? && elements == old(elements) && arena.blocks == old(arena.blocks)
                && log == old(log) + [Errors.Error(Errors.MemoryLeak, AlreadyExists(n), program)]
      ensures n !in old(elements) && FirstFit(old(arena.blocks), size).None? ==>
                r.None? && elements == old(elements) && arena.blocks == old(arena.blocks)
                && log == old(log) + [Errors.Error(Errors.SizeError, BufferMessage(Arena.Overflow), program)]
      ensures n !in old(elements) && FirstFit(old(arena.blocks), size).Some? ==>
                var i := FirstFit(old(arena.blocks), size).value;
                r.Some? && fresh(r.value) && r.value.name == n && r.value.size == size && r.value.kind == kind
                && r.value.offset == old(arena.blocks)[i].offset
                && r.value.owners == (if kind.SharedSegment? then {program} else {})
                && elements == old(elements)[n := r.value]
                && arena.blocks == TakeFrom(old(arena.blocks), i, size) && log == old(log)
    {
      if n in elements {
        RecordError(Errors.MemoryLeak, AlreadyExists(n), program);
        return None;
      }
      ghost var pl := Placements(elements);
      ghost var bs := arena.blocks;
      var offset := ValidAllocate(size, program);
      if offset.None? {
        assert Placements(elements) == pl;
        return None;
      }
      ghost var i := FirstFit(bs, size).value;
      var d := Build(n, size, offset.value, kind, program);
      PlacedAllocate(pl, bs, arena.capacity, n, i, size);
      assert Placements(elements) == pl;
      Register(d);
      r := Some(d);
    }

    /**
     * `destroy_element(n)` on behalf of `program`: an unknown name is logged as
     * a memory leak; a reference is unregistered; a storage element's bytes go
     * back to the arena and it is unregistered, unless the arena reports a
     * double free, which is logged and leaves everything registered.
     */
    method DestroyElement(n: string, program: string) returns (ok: bool)
      requires Valid()
      modifies this`elements, this`log, arena
      ensures Valid() && programs == old(programs)
      ensures ok <==> Releasable(old(Placements(elements)), old(arena.blocks), n)
      ensures n !in old(elements) ==>
                elements == old(elements) && arena.blocks == old(arena.blocks)
                && log == old(log) + [Errors.Error(Errors.MemoryLeak, NotFound(n), program)]
      ensures ok ==> elements == old(elements) - {n} && log == old(log)
                     && arena.blocks == ReleasedFor(old(Placements(elements)), old(arena.blocks), n)
      ensures n in old(elements) && !ok ==>
                elements == old(elements) && arena.blocks == old(arena.blocks)
                && log == old(log) + [Errors.Error(Errors.DoubleFree, BufferMessage(Arena.DoubleFree), program)]
    {
      if n !in elements {
        RecordError(Errors.MemoryLeak, NotFound(n), program);
        return false;
      }
      if elements[n].IsReference() {
        PlacedRemove(Placements(elements), arena.blocks, arena.capacity, n);
        Unregister(n);
        return true;
      }
      ok := DestroyStorage(n, program);
    }

    /** The storage case of `destroy_element`: the bytes go back to the arena unless it reports a double free. */
    method DestroyStorage(n: string, program: string) returns (ok: bool)
      requires Valid() && n in elements && !elements[n].IsReference()
      modifies this`elements, this`log, arena
      ensures Valid() && programs == old(programs)
      ensures ok <==> !DoubleFree(old(arena.blocks), old(elements[n].offset), old(elements[n].size))
      ensures ok ==> elements == old(elements) - {n} && log == old(log)
                     && arena.blocks == Released(old(arena.blocks), old(elements[n].offset), old(elements[n].size))
      ensures !ok ==> elements == old(elements) && arena.blocks == old(arena.blocks)
                      && log == old(log) + [Errors.Error(Errors.DoubleFree, BufferMessage(Arena.DoubleFree), program)]
    {
      ghost var pl := Placements(elements);
      ghost var bs := arena.blocks;
      var d := elements[n];
      assert pl[n].storage;
      ok := ValidDestroy(d.offset, d.size, program);
      assert Placements(elements) == pl;
      if ok {
        PlacedRelease(pl, bs, arena.capacity, n);
        Unregister(n);
      }
    }

    /**
     * `make_reference(n, target)` on behalf of `program`: a name already taken is
     * logged as a memory leak, a target that is unknown or is itself a reference
     * as an access error; otherwise a new reference to the target is filed.
     */
    method MakeReference(n: string, target: string, program: string) returns (r: Option<Descriptor>)
      requires Valid()
      modifies this`elements, this`log
      ensures Valid() && programs == old(programs)
      ensures n in old(elements) ==>
                r.None? && elements == old(elements)
                && log == old(log) + [Errors.Error(Errors.MemoryLeak, AlreadyExists(n), program)]
      ensures n !in old(elements) && (target !in old(elements) || old(elements[target]).IsReference()) ==>
                r.None? && elements == old(elements)
                && log == old(log) + [Errors.Error(Errors.AccessError, NotStorage(target), program)]
      ensures n !in old(elements) && target in old(elements) && !old(elements[target]).IsReference() ==>
                r.Some? && fresh(r.value) && r.value.name == n && r.value.kind == Reference(target)
                && elements == old(elements)[n := r.value] && log == old(log)
    {
      if n in elements {
        RecordError(Errors.MemoryLeak, AlreadyExists(n), program);
        return None;
      }
      if target !in elements || elements[target].IsReference() {
        RecordError(Errors.AccessError, NotStorage(target), program);
        return None;
      }
      ghost var pl := Placements(elements);
      var d := elements[target].MakeReference(n);
      PlacedAddReference(pl, arena.blocks, arena.capacity, n, Placement(d.offset, d.size, false));
      assert Placements(elements) == pl;
      Register(d);
      return Some(d);
    }

    /**
     * `add_program(name, file_path, memory_limit)`: a name already taken is an
     * access error and no program comes back; otherwise a new program with no
     * elements is registered under its name.
     */
    method AddProgram(name: string, filePath: string, memoryLimit: nat) returns (r: Option<Program>)
      requires Valid()
      modifies this`programs, this`log
      ensures Valid() && elements == old(elements)
      ensures name in old(programs) ==>
                r.None? && programs == old(programs)
                && log == old(log) + [Errors.Error(Errors.AccessError, ProgramExists(name), name)]
      ensures name !in old(programs) ==>
                r.Some? && fresh(r.value) && programs == old(programs)[name := r.value] && log == old(log)
                && r.value.name == name && r.value.filePath == filePath && r.value.memoryLimit == memoryLimit
                && r.value.manager == this && r.value.elements == map[]
    {
      if name in programs {
        RecordError(Errors.AccessError, ProgramExists(name), name);
        return None;
      }
      var p := new Program(name, filePath, memoryLimit, this);
      programs := programs[name := p];
      return Some(p);
    }

    /**
     * `delete_program(name)`: the program's destructor runs (leak reports, leaving
     * its shared segments) and it is unregistered; its elements stay registered
     * in the manager. An unknown name changes nothing.
     */
    method DeleteProgram(name: string) returns (ghost leaked: seq<string>)
      requires Valid() && (name in programs ==> programs[name].Keyed())
      modifies this`programs, this`log, (if name in programs then programs[name].elements.Values else {})`owners
      ensures Valid() && elements == old(elements) && programs == old(programs) - {name}
      ensures name !in old(programs) ==> log == old(log)
      ensures name in old(programs) ==>
                var p := old(programs[name]);
                log == old(log) + LeakReports(leaked, name)
                && (forall i, j :: 0 <= i < j < |leaked| ==> leaked[i] != leaked[j])
                && (forall n :: n in leaked <==> n in p.elements && Leaks(p.elements[n]))
                && (forall n :: n in p.elements ==>
                      p.elements[n].owners == if p.elements[n].kind.SharedSegment? then old(p.elements[n].owners) - {name} else old(p.elements[n].owners))
    {
      if name !in programs {
        return [];
      }
      var p := programs[name];
      leaked := p.Teardown();
      StillValid();
      Forget(name);
    }

    /** Valid() reads neither the log nor the owner sets: a change to those alone keeps it. */
    twostate lemma StillValid()
      requires old(Valid()) && unchanged(this`elements, this`programs, arena) && unchanged(old(elements).Values`offset)
      ensures Valid()
    {
    }

    /** Drops the program filed under `name`, keeping the invariant. */
    method Forget(name: string)
      requires Valid()
      modifies this`programs
      ensures programs == old(programs) - {name} && Valid()
    {
      programs := programs - {name};
    }

    /**
     * `get_access_to_shared(prog, seg)`: an unknown program, or a name that is not
     * a shared segment, is an access error; a segment the program's quota cannot
     * take is a size error; otherwise the program is associated with the segment
     * and joins its owner set.
     */
    method GetAccessToShared(progName: string, segName: string) returns (ok: bool)
      requires Valid() && (progName in programs ==> programs[progName].Keyed())
      modifies this`log, (if progName in programs then {programs[progName]} else {})`elements
      modifies (if segName in elements then {elements[segName]} else {})`owners
      ensures Valid() && elements == old(elements) && programs == old(programs)
      ensures progName !in programs ==>
                !ok && log == old(log) + [Errors.Error(Errors.AccessError, NoProgram(progName), progName)]
                && (forall q :: q in programs ==> programs[q].elements == old(programs[q].elements))
                && (segName in elements ==> elements[segName].owners == old(elements[segName].owners))
      ensures progName in programs && (segName !in elements || !elements[segName].kind.SharedSegment?) ==>
                !ok && programs[progName].elements == old(programs[progName].elements)
                && (segName in elements ==> elements[segName].owners == old(elements[segName].owners))
                && log == old(log) + [Errors.Error(Errors.AccessError, NotShared(segName), progName)]
      ensures progName in programs && segName in elements && elements[segName].kind.SharedSegment? ==>
                var p := programs[progName];
                var seg := elements[segName];
                (ok <==> Used(old(p.elements)) + seg.size <= p.memoryLimit)
                && (!ok ==> p.elements == old(p.elements) && seg.owners == old(seg.owners)
                            && log == old(log) + [Errors.Error(Errors.SizeError, QuotaExceeded(progName), progName)])
                && (ok ==> seg.owners == old(seg.owners) + {progName} && log == old(log)
                           && p.elements == (if segName in old(p.elements) then old(p.elements) else old(p.elements)[segName := seg])
                           && Used(p.elements) <= p.memoryLimit && p.Keyed())
    {
      if progName !in programs {
        RecordError(Errors.AccessError, NoProgram(progName), progName);
        return false;
      }
      var p := programs[progName];
      if segName !in elements || !elements[segName].kind.SharedSegment? {
        RecordError(Errors.AccessError, NotShared(segName), progName);
        return false;
      }
      var seg := elements[segName];
      var room := p.PossibleForExpansion(seg.size);
      if !room {
        RecordError(Errors.SizeError, QuotaExceeded(progName), progName);
        return false;
      }
      Grant(p, seg);
      return true;
    }

    /** The successful end of `get_access_to_shared`: `p` takes segment `seg` within its quota and joins its owner set. */
    method Grant(p: Program, seg: Descriptor)
      requires Valid()
      requires p.Keyed() && seg.kind.SharedSegment? && Used(p.elements) + seg.size <= p.memoryLimit
      modifies p`elements, seg`owners
      ensures Valid()
      ensures seg.owners == old(seg.owners) + {p.name}
      ensures p.elements == if seg.name in old(p.elements) then old(p.elements) else old(p.elements)[seg.name := seg]
      ensures Used(p.elements) <= p.memoryLimit && p.Keyed()
    {
      if seg.name !in p.elements {
        UsedInsert(p.elements, seg.name, seg);
      }
      p.InsertElement(seg);
      seg.InsertProgram(p.name);
    }

    /**
     * `revoke_access_to_shared(prog, seg)`: an unknown program, a name that is not
     * a shared segment, or a program outside the owner set is an access error; the
     * last owner cannot be revoked (a memory leak is logged instead); otherwise the
     * program leaves the owner set and drops the association.
     */
    method RevokeAccessToShared(progName: string, segName: string) returns (ok: bool)
      requires Valid() && (progName in programs ==> programs[progName].Keyed())
      modifies this`log, (if progName in programs then {programs[progName]} else {})`elements
      modifies (if segName in elements then {elements[segName]} else {})`owners
      ensures Valid() && elements == old(elements) && programs == old(programs)
      ensures progName !in programs ==>
                !ok && log == old(log) + [Errors.Error(Errors.AccessError, NoProgram(progName), progName)]
                && (forall q :: q in programs ==> programs[q].elements == old(programs[q].elements))
                && (segName in elements ==> elements[segName].owners == old(elements[segName].owners))
      ensures progName in programs && (segName !in elements || !elements[segName].kind.SharedSegment?) ==>
                !ok && programs[progName].elements == old(programs[progName].elements)
                && (segName in elements ==> elements[segName].owners == old(elements[segName].owners))
                && log == old(log) + [Errors.Error(Errors.AccessError, NotShared(segName), progName)]
      ensures progName in programs && segName in elements && elements[segName].kind.SharedSegment? ==>
                var p := programs[progName];
                var seg := elements[segName];
                (ok <==> progName in old(seg.owners) && |old(seg.owners)| != 1)
                && (!ok ==> p.elements == old(p.elements) && seg.owners == old(seg.owners))
                && (progName !in old(seg.owners) ==>
                      log == old(log) + [Errors.Error(Errors.AccessError, NotOwner(segName), progName)])
                && (progName in old(seg.owners) && |old(seg.owners)| == 1 ==>
                      log == old(log) + [Errors.Error(Errors.MemoryLeak, LastOwner(segName), progName)])
                && (ok ==> seg.owners == old(seg.owners) - {progName} && seg.owners != {} && log == old(log)
                           && p.elements == old(p.elements) - {segName} && p.Keyed())
    {
      if progName !in programs {
        RecordError(Errors.AccessError, NoProgram(progName), progName);
        return false;
      }
      var p := programs[progName];
      if segName !in elements || !elements[segName].kind.SharedSegment? {
        RecordError(Errors.AccessError, NotShared(segName), progName);
        return false;
      }
      var seg := elements[segName];
      if !seg.CheckAccess(progName) {
        RecordError(Errors.AccessError, NotOwner(segName), progName);
        return false;
      }
      if seg.IsLast() {
        RecordError(Errors.MemoryLeak, LastOwner(segName), progName);
        return false;
      }
      Withdraw(p, seg);
      return true;
    }

    /** The successful end of `revoke_access_to_shared`: `p`, one of several owners of `seg`, leaves it. */
    method Withdraw(p: Program, seg: Descriptor)
      requires Valid()
      requires p.Keyed() && seg.kind.SharedSegment? && p.name in seg.owners && |seg.owners| != 1
      modifies p`elements, seg`owners
      ensures Valid()
      ensures seg.owners == old(seg.owners) - {p.name} && seg.owners != {}
      ensures p.elements == old(p.elements) - {seg.name} && p.Keyed()
    {
      SecondOwnerLeft(seg.owners, p.name);
      seg.EraseProgram(p.name);
      p.EraseElement(seg);
    }

    /** `dungling_reference`: every registered reference whose target name no longer resolves, each once. */
    method DanglingReferences() returns (r: seq<Descriptor>)
      requires Filed()
      ensures forall d :: d in r <==> d in elements.Values && d.IsReference() && !d.IsValid(elements)
      ensures forall i, j :: 0 <= i < j < |r| ==> r[i] != r[j]
    {
      r := [];
      var keys := elements.Keys;
      while keys != {}
        invariant keys <= elements.Keys
        invariant forall d :: d in r <==> d in elements.Values && d.name !in keys && d.IsReference() && !d.IsValid(elements)
        invariant forall i, j :: 0 <= i < j < |r| ==> r[i] != r[j]
        decreases keys
      {
        var k :| k in keys;
        var d := elements[k];
        if d.IsReference() && !d.IsValid(elements) {
          r := r + [d];
        }
        keys := keys - {k};
      }
    }

    /**
     * `defragment_memory`: the storage elements, in ascending order of offset, are
     * packed from offset 0 with their bytes moved along; references stay as they
     * are; the free list becomes the one block after the packed elements.
     */
    method DefragmentMemory() returns (ghost order: seq<string>)
      requires Valid()
      modifies arena, arena.data, elements.Values`offset
      ensures Valid() && elements == old(elements) && programs == old(programs) && log == old(log)
      ensures PackOrder(old(Placements(elements)), order)
      ensures Placements(elements) == Repacked(old(Placements(elements)), order)
      ensures Carries(arena.data[..], Placements(elements), old(Placements(elements)), old(arena.data[..]))
      ensures arena.blocks == CompactedFreeList(Extent(old(Placements(elements)), order), arena.capacity)
    {
      var pl0 := Placements(elements);
      var next, pl;
      order, next, pl := Pack(arena.data, pl0);
      arena.blocks := CompactedFreeList(next, arena.capacity);
      WriteBack(pl);
    }

    /** Gives every registered descriptor the offset `pl` holds for it. */
    method WriteBack(pl: map<string, Placement>)
      requires Named() && pl.Keys == elements.Keys
      requires forall n :: n in elements ==> pl[n].size == elements[n].size && pl[n].storage == !elements[n].IsReference()
      modifies elements.Values`offset
      ensures Placements(elements) == pl
    {
      var todo := elements.Keys;
      while todo != {}
        invariant todo <= elements.Keys
        invariant forall n :: n in elements && n !in todo ==> elements[n].offset == pl[n].offset
        decreases todo
      {
        var k :| k in todo;
        elements[k].SetOffset(pl[k].offset);
        todo := todo - {k};
      }
    }

    /** `program_errors(p)`: the log entries of program `p`, collected in order. */
    method ProgramErrors(p: string) returns (r: seq<Errors.Error>)
      ensures r == ErrorsOf(log, p)
    {
      r := [];
      var k := 0;
      while k < |log|
        invariant 0 <= k <= |log|
        invariant r == ErrorsOf(log[..k], p)
      {
        assert log[..k + 1][..k] == log[..k];
        if log[k].program == p {
          r := r + [log[k]];
        }
        k := k + 1;
      }
      assert log[..k] == log;
    }
  }
}

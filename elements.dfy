/**
 * The memory element descriptors: scalar variables (`MemoryElement`), strided
 * arrays (`ArrayDescriptor`), shared segments (`SharedSegmentDescriptor`) and
 * name-resolved references (`ReferenceDescriptor`), as one class with a kind tag.
 *
 * A reference reaches its target through the manager's `get_element`; here the
 * manager's name-to-element map is passed in as `registry`.
 */
module Elements {
  import opened Wrappers
  import opened Arena
  import Errors

  datatype Kind =
    | Scalar                       // a `MemoryElement` variable: its stride is its size
    | Array(stride: nat)           // `ArrayDescriptor`: `element_size_`
    | SharedSegment(stride: nat)   // `SharedSegmentDescriptor`: an array with an owner set
    | Reference(target: string)    // `ReferenceDescriptor`: `target_name_`, no storage of its own

  /** The exception a typed accessor throws when the type's size does not fit the element. */
  datatype TypedError = SizeMismatch

  // ---------------------------------------------------------------- geometry of a raw access

  /**
   * An array access with `end != 0` copies `end - begin` items, an unsigned
   * subtraction with no check, so it is meaningful only when `begin <= end`.
   */
  predicate RangeOk(kind: Kind, begin: nat, end: nat) {
    (kind.Array? || kind.SharedSegment?) ==> end == 0 || begin <= end
  }

  /** First arena byte a raw access touches; `begin` counts items of an array. */
  function RawStart(kind: Kind, offset: nat, begin: nat): (r: nat)
    requires !kind.Reference?
    ensures offset <= r
    ensures begin == 0 || kind.Scalar? ==> r == offset
  {
    match kind
    case Scalar => offset
    case Array(stride) => offset + begin * stride
    case SharedSegment(stride) => offset + begin * stride
  }

  /**
   * Number of bytes a raw access copies: a scalar always copies its size; an
   * array copies whole items, one for `end == 0` and `end - begin` otherwise.
   */
  function RawLength(kind: Kind, size: nat, begin: nat, end: nat): (r: nat)
    requires !kind.Reference? && RangeOk(kind, begin, end)
    ensures kind.Scalar? ==> r == size
    ensures !kind.Scalar? ==> r == kind.stride * (if end == 0 then 1 else end - begin)
  {
    match kind
    case Scalar => size
    case Array(stride) => if end == 0 then stride else stride * (end - begin)
    case SharedSegment(stride) => if end == 0 then stride else stride * (end - begin)
  }

  /** The stride of a storage element: what a default access (`begin = 0, end = 0`) copies. */
  function StrideOf(kind: Kind, size: nat): (r: nat)
    requires !kind.Reference?
    ensures r == RawLength(kind, size, 0, 0)
  {
    match kind
    case Scalar => size
    case Array(stride) => stride
    case SharedSegment(stride) => stride
  }

  /**
   * Items [b, e) of an array of `count` items lie inside the element's bytes, and
   * the access covers exactly the bytes of those items.
   */
  lemma {:induction false} ItemRangeWithinArray(stride: nat, count: nat, offset: nat, b: nat, e: nat)
    requires b <= e <= count && 0 < e
    ensures RawStart(Array(stride), offset, b) == offset + b * stride
    ensures RawStart(Array(stride), offset, b) + RawLength(Array(stride), count * stride, b, e) == offset + e * stride
    ensures offset + e * stride <= offset + count * stride
  {
    assert stride * (e - b) == e * stride - b * stride;
    assert e * stride <= count * stride by {
      MulMonotone(e, count, stride);
    }
  }

  lemma {:induction false} MulMonotone(x: nat, y: nat, k: nat)
    requires x <= y
    ensures x * k <= y * k
  {
    assert y * k == x * k + (y - x) * k;
  }

  // ---------------------------------------------------------------- typed access guard

  /** The guard of `get_value<T>`/`set_value<T>`, as written: a type of size `tsize` is refused iff it fits neither size. */
  predicate GuardRefusesAsWritten(elemSize: nat, size: nat, tsize: nat) {
    elemSize != tsize && size != tsize
  }

  /** The guard as intended: it also refuses a raw copy longer than the typed value. */
  predicate GuardRefuses(elemSize: nat, size: nat, tsize: nat, copyLength: nat) {
    GuardRefusesAsWritten(elemSize, size, tsize) || copyLength > tsize
  }

  /**
   * `int v; arr->get_value(v, 0, 10)` on an array of ten 4-byte items: the written
   * guard lets it through and the raw read copies 40 bytes into a 4-byte value.
   */
  lemma GuardAsWrittenAdmitsOverflow()
    ensures !GuardRefusesAsWritten(4, 40, 4)
    ensures RawLength(Array(4), 40, 0, 10) == 40 > 4
    ensures GuardRefuses(4, 40, 4, RawLength(Array(4), 40, 0, 10))
  {
  }

  // ---------------------------------------------------------------- arena bytes seen through a span

  /** A span (start, length) fits in an arena of `n` bytes; `None` (a dangling reference) always does. */
  predicate InArena(span: Option<(nat, nat)>, n: nat) {
    span.Some? ==> span.value.0 + span.value.1 <= n
  }

  function SpanLength(span: Option<(nat, nat)>): nat {
    if span.Some? then span.value.1 else 0
  }

  /** The bytes a raw read returns; a read through a dangling reference returns nothing. */
  function Fetched(mem: seq<byte>, span: Option<(nat, nat)>): (r: seq<byte>)
    requires InArena(span, |mem|)
    ensures |r| == SpanLength(span)
  {
    if span.None? then [] else mem[span.value.0..span.value.0 + span.value.1]
  }

  /** The arena after a raw write of the first bytes of `value`; a write through a dangling reference is a no-op. */
  function Stored(mem: seq<byte>, span: Option<(nat, nat)>, value: seq<byte>): (r: seq<byte>)
    requires InArena(span, |mem|) && SpanLength(span) <= |value|
    ensures |r| == |mem|
    ensures span.None? ==> r == mem
    ensures span.Some? ==> forall i :: 0 <= i < |mem| && !(span.value.0 <= i < span.value.0 + span.value.1) ==> r[i] == mem[i]
  {
    if span.None? then mem else Overwrite(mem, span.value.0, value[..span.value.1])
  }

  /** Writing then reading the same span returns the bytes written. */
  lemma RawRoundTrip(mem: seq<byte>, span: Option<(nat, nat)>, value: seq<byte>)
    requires InArena(span, |mem|) && SpanLength(span) <= |value|
    ensures Fetched(Stored(mem, span, value), span) == value[..SpanLength(span)]
  {
    if span.Some? {
      ReadBackOverwrite(mem, span.value.0, value[..span.value.1]);
    }
  }

  // ---------------------------------------------------------------- shared segment owner sets

  /** `is_last` means exactly one program: an owner set of one element is a singleton. */
  lemma {:induction false} SingleOwner(owners: set<string>)
    ensures |owners| == 1 <==> exists p :: owners == {p}
  {
    if |owners| == 1 {
      var p :| p in owners;
      var rest := owners - {p};
      assert |rest| == 0;
      assert rest == {};
      assert owners == {p};
    }
  }

  /** Revoking one owner from a set that holds it and is not a singleton leaves an owner. */
  lemma SecondOwnerLeft(owners: set<string>, p: string)
    requires p in owners && |owners| != 1
    ensures owners - {p} != {}
  {
    assert owners == (owners - {p}) + {p};
  }

  class Descriptor {
    const name: string
    const size: nat
    const kind: Kind
    var offset: nat
    var owners: set<string>

    /** A variable (`MemoryElement`): its stride is its size. */
    constructor Variable(name: string, size: nat, offset: nat)
      ensures this.name == name && this.size == size && this.offset == offset
      ensures kind == Scalar && owners == {}
    {
      this.name := name;
      this.size := size;
      this.offset := offset;
      kind := Scalar;
      owners := {};
    }

    /** `ArrayDescriptor(name, size, offset, element_size)`: total size and stride are kept apart. */
    constructor ArrayOf(name: string, size: nat, offset: nat, elementSize: nat)
      ensures this.name == name && this.size == size && this.offset == offset
      ensures kind == Array(elementSize) && owners == {}
    {
      this.name := name;
      this.size := size;
      this.offset := offset;
      kind := Array(elementSize);
      owners := {};
    }

    /** `SharedSegmentDescriptor(..., program)`: the owner set starts as exactly the creating program. */
    constructor Segment(name: string, size: nat, offset: nat, elementSize: nat, creator: string)
      ensures this.name == name && this.size == size && this.offset == offset
      ensures kind == SharedSegment(elementSize) && owners == {creator}
    {
      this.name := name;
      this.size := size;
      this.offset := offset;
      kind := SharedSegment(elementSize);
      owners := {creator};
    }

    /** `ReferenceDescriptor(name, target_name)`: no storage of its own. */
    constructor ReferenceTo(name: string, target: string)
      ensures this.name == name && kind == Reference(target)
      ensures size == 0 && offset == 0 && owners == {}
    {
      this.name := name;
      size := 0;
      offset := 0;
      kind := Reference(target);
      owners := {};
    }

    predicate IsReference() {
      kind.Reference?
    }

    /**
     * `get_name` of a reference, as written: the name of the element it resolves
     * to, or a null dereference (`None`) when it dangles.
     */
    function ReferenceNameAsWritten(registry: map<string, Descriptor>): (r: Option<string>)
      requires IsReference()
      ensures r.Some? <==> kind.target in registry
      ensures r.Some? ==> r.value == registry[kind.target].name
    {
      if kind.target in registry then Some(registry[kind.target].name) else None
    }

    /** `get_name`, as intended for every kind: the element's own name. */
    function GetName(): (r: string)
      ensures IsReference() ==> r == GetRefName()
    {
      name
    }

    /** `get_ref_name`: a reference's own name. */
    function GetRefName(): (r: string)
      requires IsReference()
      ensures r == name
    {
      name
    }

    /** `make_reference(n)`: a new reference named `n` to this element. */
    method MakeReference(refName: string) returns (r: Descriptor)
      ensures fresh(r) && r.name == refName && r.kind == Reference(name)
      ensures r.IsReference() && r.size == 0 && r.owners == {}
    {
      r := new Descriptor.ReferenceTo(refName, name);
    }

    /** `set_offset`: only the offset changes. */
    method SetOffset(o: nat)
      modifies this`offset
      ensures offset == o
    {
      offset := o;
    }

    // ------------------------------------------------------------ references

    /** `get_element`: the manager's lookup of the target name, redone on every call. */
    function GetElement(registry: map<string, Descriptor>): (r: Option<Descriptor>)
      requires IsReference()
      ensures r.Some? <==> kind.target in registry
      ensures r.Some? ==> r.value == registry[kind.target]
    {
      if kind.target in registry then Some(registry[kind.target]) else None
    }

    /** `is_valid`: the target name currently resolves. */
    predicate IsValid(registry: map<string, Descriptor>)
      requires IsReference()
      ensures IsValid(registry) <==> kind.target in registry
    {
      GetElement(registry).Some?
    }

    /**
     * The storage element whose bytes this element's accessors reach: itself,
     * or for a reference the end of the chain of forwarded lookups.
     */
    function Storage(registry: map<string, Descriptor>, fuel: nat): (r: Option<Descriptor>)
      decreases fuel
      ensures !IsReference() ==> r == Some(this)
      ensures r.Some? ==> !r.value.IsReference() && (r.value == this || r.value in registry.Values)
      ensures IsReference() && r.Some? ==> IsValid(registry)
    {
      if !IsReference() then Some(this)
      else if kind.target !in registry || fuel == 0 then None
      else registry[kind.target].Storage(registry, fuel - 1)
    }

    function Resolved(registry: map<string, Descriptor>): Option<Descriptor> {
      Storage(registry, |registry|)
    }

    /** `get_size`; a dangling reference reports 0. */
    function GetSize(registry: map<string, Descriptor>): (r: nat)
      ensures !IsReference() ==> r == size
      ensures IsReference() && !IsValid(registry) ==> r == 0
    {
      match Resolved(registry)
      case Some(t) => t.size
      case None => 0
    }

    /** `get_elem_size`; a dangling reference reports 0. */
    function GetElemSize(registry: map<string, Descriptor>): (r: nat)
      ensures !IsReference() ==> r == StrideOf(kind, size)
      ensures IsReference() && !IsValid(registry) ==> r == 0
    {
      match Resolved(registry)
      case Some(t) => StrideOf(t.kind, t.size)
      case None => 0
    }

    /** `get_offset`; a dangling reference reports the arena capacity. */
    function GetOffset(registry: map<string, Descriptor>, capacity: nat): (r: nat)
      reads this, registry.Values
      ensures !IsReference() ==> r == offset
      ensures IsReference() && !IsValid(registry) ==> r == capacity
    {
      match Resolved(registry)
      case Some(t) => t.offset
      case None => capacity
    }

    /**
     * The arena bytes (start, length) that a raw access with `begin`/`end` copies.
     * A reference ignores `begin`/`end` and forwards a default access; it copies
     * nothing (`None`) when it dangles.
     */
    function Span(registry: map<string, Descriptor>, begin: nat, end: nat): (r: Option<(nat, nat)>)
      reads this, registry.Values
      requires RangeOk(kind, begin, end)
      ensures !IsReference() ==> r == Some((RawStart(kind, offset, begin), RawLength(kind, size, begin, end)))
    {
      match Resolved(registry)
      case None => None
      case Some(t) =>
        if t == this then Some((RawStart(kind, offset, begin), RawLength(kind, size, begin, end)))
        else Some((RawStart(t.kind, t.offset, 0), RawLength(t.kind, t.size, 0, 0)))
    }

    /** `get_raw_value`: the arena bytes of the span. */
    method GetRaw(registry: map<string, Descriptor>, data: array<byte>, begin: nat, end: nat) returns (value: seq<byte>)
      requires RangeOk(kind, begin, end) && InArena(Span(registry, begin, end), data.Length)
      ensures value == Fetched(data[..], Span(registry, begin, end))
    {
      var span := Span(registry, begin, end);
      if span.None? {
        return [];
      }
      value := ReadBytes(data, span.value.0, span.value.1);
    }

    /** `set_raw_value`: the span's bytes become the first bytes of `value`; nothing else in the arena changes. */
    method SetRaw(registry: map<string, Descriptor>, data: array<byte>, value: seq<byte>, begin: nat, end: nat)
      requires RangeOk(kind, begin, end) && InArena(Span(registry, begin, end), data.Length)
      requires SpanLength(Span(registry, begin, end)) <= |value|
      modifies data
      ensures data[..] == Stored(old(data[..]), Span(registry, begin, end), value)
    {
      var span := Span(registry, begin, end);
      if span.None? {
        return;
      }
      WriteBytes(data, span.value.0, value[..span.value.1]);
    }

    /**
     * `get_value<T>` for a type of `tsize` bytes, with the intended guard: a
     * mismatch throws; otherwise the raw read with the same `begin`/`end`.
     */
    method GetValue(registry: map<string, Descriptor>, data: array<byte>, tsize: nat, begin: nat, end: nat)
      returns (r: Result<seq<byte>, TypedError>)
      requires RangeOk(kind, begin, end) && InArena(Span(registry, begin, end), data.Length)
      ensures r.Failure? <==> GuardRefuses(GetElemSize(registry), GetSize(registry), tsize, SpanLength(Span(registry, begin, end)))
      ensures r.Success? ==> r.value == Fetched(data[..], Span(registry, begin, end)) && |r.value| <= tsize
    {
      var span := Span(registry, begin, end);
      if GuardRefuses(GetElemSize(registry), GetSize(registry), tsize, SpanLength(span)) {
        return Failure(SizeMismatch);
      }
      var bytes := GetRaw(registry, data, begin, end);
      return Success(bytes);
    }

    /**
     * `set_value<T>` with the bytes of the value, with the intended guard: a
     * mismatch throws and leaves the arena unchanged; otherwise the raw write
     * with the same `begin`/`end`.
     */
    method SetValue(registry: map<string, Descriptor>, data: array<byte>, value: seq<byte>, begin: nat, end: nat)
      returns (r: Outcome<TypedError>)
      requires RangeOk(kind, begin, end) && InArena(Span(registry, begin, end), data.Length)
      modifies data
      ensures r.Fail? <==> GuardRefuses(GetElemSize(registry), GetSize(registry), |value|, SpanLength(Span(registry, begin, end)))
      ensures r.Fail? ==> data[..] == old(data[..])
      ensures r.Pass? ==> data[..] == Stored(old(data[..]), Span(registry, begin, end), value)
    {
      var span := Span(registry, begin, end);
      if GuardRefuses(GetElemSize(registry), GetSize(registry), |value|, SpanLength(span)) {
        return Fail(SizeMismatch);
      }
      SetRaw(registry, data, value, begin, end);
      return Pass;
    }

    // ------------------------------------------------------------ shared segments

    /** `insert_program`: adds the name; an owner already present leaves the set as it was. */
    method InsertProgram(p: string)
      requires kind.SharedSegment?
      modifies this`owners
      ensures owners == old(owners) + {p}
      ensures p in old(owners) ==> owners == old(owners)
    {
      owners := owners + {p};
    }

    /** `erase_program`: removes the name if present, and is a no-op otherwise. */
    method EraseProgram(p: string)
      requires kind.SharedSegment?
      modifies this`owners
      ensures owners == old(owners) - {p}
      ensures p !in old(owners) ==> owners == old(owners)
    {
      owners := owners - {p};
    }

    /** `check_access`: membership in the owner set. */
    predicate CheckAccess(p: string)
      reads this
      requires kind.SharedSegment?
      ensures CheckAccess(p) <==> DestroyRefusal(p).None? || DestroyRefusal(p).value.kind == Errors.MemoryLeak
    {
      p in owners
    }

    /** `is_last`: exactly one program has access. */
    predicate IsLast()
      reads this
      requires kind.SharedSegment?
      ensures IsLast() <==> exists p :: owners == {p}
    {
      SingleOwner(owners);
      |owners| == 1
    }

    /**
     * `is_possible_to_destroy(p)`: the error it records, or `None` when `p` may
     * destroy the element. Only a shared segment can refuse: a non-owner gets an
     * access error, an owner beside others a memory leak.
     */
    function DestroyRefusal(p: string): (r: Option<Errors.Error>)
      reads this
      ensures r.None? <==> (kind.SharedSegment? ==> owners == {p})
      ensures r.Some? ==> kind.SharedSegment? && r.value.program == p
      ensures r.Some? ==> (r.value.kind == Errors.AccessError <==> p !in owners)
      ensures r.Some? ==> (r.value.kind == Errors.MemoryLeak <==> p in owners)
    {
      SingleOwner(owners);
      if !kind.SharedSegment? then None
      else if p !in owners then
        Some(Errors.Error(Errors.AccessError, "Program doesn't have acces for segment." + name, p))
      else if |owners| != 1 then
        Some(Errors.Error(Errors.MemoryLeak, "The segment '" + name + "' is is still used by others programs.", p))
      else None
    }
  }

  /**
   * A shared segment's owner set over a grant and a revoke: created by `p` it is
   * `p`'s alone; once `q` is inserted it is shared, `q` has access, and
   * neither program may destroy it (each is told of a memory leak); once `q` is
   * erased again `p` is the last owner and may destroy it, and `q` has lost access.
   */
  method SegmentSharing(name: string, size: nat, offset: nat, elementSize: nat, p: string, q: string)
    returns (lastAtStart: bool, lastShared: bool, lastAfter: bool, accessShared: bool, accessAfter: bool,
             refusalShared: (Option<Errors.Error>, Option<Errors.Error>), refusalAfter: (Option<Errors.Error>, Option<Errors.Error>))
    requires p != q
    ensures lastAtStart && !lastShared && lastAfter
    ensures accessShared && !accessAfter
    ensures refusalShared.0.Some? && refusalShared.0.value.kind == Errors.MemoryLeak && refusalShared.0.value.program == p
    ensures refusalShared.1.Some? && refusalShared.1.value.kind == Errors.MemoryLeak && refusalShared.1.value.program == q
    ensures refusalAfter.0.None?
    ensures refusalAfter.1.Some? && refusalAfter.1.value.kind == Errors.AccessError && refusalAfter.1.value.program == q
  {
    var seg := new Descriptor.Segment(name, size, offset, elementSize, p);
    lastAtStart := seg.IsLast();
    seg.InsertProgram(q);
    assert seg.owners == {p, q};
    lastShared := seg.IsLast();
    accessShared := seg.CheckAccess(q);
    refusalShared := (seg.DestroyRefusal(p), seg.DestroyRefusal(q));
    seg.EraseProgram(q);
    assert seg.owners == {p};
    lastAfter := seg.IsLast();
    accessAfter := seg.CheckAccess(q);
    refusalAfter := (seg.DestroyRefusal(p), seg.DestroyRefusal(q));
  }

  // ---------------------------------------------------------------- properties of references

  /**
   * A reference to a storage element reports the target's size, stride and offset,
   * and every raw access, whatever its `begin` and `end`, covers the target's whole default span.
   */
  lemma ReferenceForwards(registry: map<string, Descriptor>, r: Descriptor, capacity: nat)
    requires r.IsReference() && r.kind.target in registry && !registry[r.kind.target].IsReference()
    ensures r.IsValid(registry)
    ensures r.GetSize(registry) == registry[r.kind.target].GetSize(registry)
    ensures r.GetElemSize(registry) == registry[r.kind.target].GetElemSize(registry)
    ensures r.GetOffset(registry, capacity) == registry[r.kind.target].GetOffset(registry, capacity)
    ensures forall b: nat, e: nat :: r.Span(registry, b, e) == registry[r.kind.target].Span(registry, 0, 0)
  {
    var t := registry[r.kind.target];
    assert |registry| > 0 by {
      assert r.kind.target in registry.Keys;
    }
    assert r.Resolved(registry) == Some(t);
  }

  /** A reference whose target is gone reports size 0, offset `capacity`, and its raw accesses copy nothing. */
  lemma DanglingSentinels(registry: map<string, Descriptor>, r: Descriptor, capacity: nat)
    requires r.IsReference() && !r.IsValid(registry)
    ensures r.GetSize(registry) == 0 && r.GetElemSize(registry) == 0
    ensures r.GetOffset(registry, capacity) == capacity
    ensures forall b: nat, e: nat :: r.Span(registry, b, e).None?
  {
  }

  /**
   * `ReferenceDescriptor::get_name` as written reports the target's name: a
   * reference "myRef" to "myVar" is named "myVar", not "myRef".
   */
  lemma ReferenceNameAsWrittenIsTargetName(registry: map<string, Descriptor>, r: Descriptor)
    requires r.IsReference() && r.kind.target in registry
    requires registry[r.kind.target].name == r.kind.target && r.name != r.kind.target
    ensures r.ReferenceNameAsWritten(registry) == Some(r.kind.target)
    ensures r.ReferenceNameAsWritten(registry) != Some(r.GetName())
    ensures r.GetName() == r.GetRefName()
  {
  }
}

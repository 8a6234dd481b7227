# MemoryManager, modelled in Dafny

MemoryManager simulates process memory. A manager owns three things:

- a fixed-capacity byte arena with a first-fit free-list allocator that coalesces neighbouring free blocks;
- a registry mapping names to memory elements. An element is a scalar variable, a strided array, a shared segment with an owner set, or a reference that finds its target by name on every access;
- a set of programs. Each program holds associations to elements within a byte quota and reports errors into a shared log.

The manager also finds dangling references and compacts the arena (defragmentation).

The model includes:

- `Blocks`: the free list as a sorted sequence of `Block(offset, size)`, with first fit, upper bound, the double-free test and coalescing release as functions.
- `Arena`: the `Buffer` class. Its `blocks` field is updated in place and its bytes are an `array<byte>`.
- `Errors`: the error kinds, the message table and the description text.
- `Elements`: one `Descriptor` class with a `Kind` tag for the four descriptor types. It has:
  - the raw accessors, which read and write the arena array;
  - the typed accessors with their size guard;
  - reference resolution through the registry map;
  - the owner-set operations of shared segments.
- `Layout`: the invariant the manager keeps between its elements and the free list. Every storage element lies inside the arena, none of its bytes is free, and no two storage elements share a byte.
- `Packing` and `Compaction`: defragmentation. `Packing` gives a specification on values (each element moves to the sum of the sizes stacked before it). `Compaction` has the in-place pass over the arena bytes.
- `Registry`: the `Program` and `Manager` classes, which refer to each other, so they share a module.

`Manager.Valid()` (the free list is well formed, Layout's invariant holds, every element is filed under its own name) is established by the constructor. Every manager operation that changes elements, the arena or the program table preserves it: allocation, destruction, references, programs, shared access and defragmentation.

IManager.hpp declares the manager's interface; no implementation of it is part of this model. The model follows the interface's doc comments, the `Program` code that calls it, and the tests. So the message texts of the errors the manager logs, and the revoke path's owner check, are the model's own choices. The model's defragmentation moves storage elements in ascending order of offset.

## Model

| member | source | states |
|---|---|---|
| Blocks.FirstFit | Memory/include/Memory/Buffer.hpp:144-146 | the index found is a block of at least `size` bytes and every earlier block is smaller; no index exactly when every block is too small |
| Blocks.TakeFrom | Memory/include/Memory/Buffer.hpp:148-152 | a used-up block is erased and the blocks after it shift down by one; otherwise the block keeps its end and starts `size` bytes higher; every other block is unchanged |
| Blocks.UpperBound | Memory/include/Memory/Buffer.hpp:169-170 | every block before the position starts at or before the offset, and the block at the position starts after it |
| Blocks.DoubleFree | Memory/include/Memory/Buffer.hpp:171-173 | a refused release collides with some free block |
| Blocks.ReleaseWindow | Memory/include/Memory/Buffer.hpp:174-187 | the merge replaces at most two neighbouring blocks, by one block covering the released range |
| Blocks.Released | Memory/include/Memory/Buffer.hpp:174-187 | a release changes the number of free blocks by at most one |
| Blocks.DoubleFreeIffOverlap | Memory/include/Memory/Buffer.hpp:171-173 | the neighbour test on the blocks around the upper bound refuses a release exactly when some free block of the whole list collides with the range |
| Blocks.FreshList | Memory/include/Memory/Buffer.hpp:105 | the initial one-block list is well formed, holds `capacity` free bytes, and an address is free exactly when it is below the capacity |
| Blocks.TakeFromWellFormed | Memory/include/Memory/Buffer.hpp:148-152 | taking bytes off the low end of a block (erasing the block when it is used up) keeps the list sorted, gapped and inside the arena |
| Blocks.TakeFromFree | Memory/include/Memory/Buffer.hpp:148-152 | the taken bytes were free, and afterwards an address is free exactly when it was free and is not one of them |
| Blocks.TakeFromFreeBytes | Memory/include/Memory/Buffer.hpp:148-152 | allocation lowers the total of free bytes by exactly the size taken |
| Blocks.ReleasedWellFormed | Memory/include/Memory/Buffer.hpp:174-187 | inserting, or merging with the previous block, the next block or both, keeps the list sorted, gapped and inside the arena |
| Blocks.ReleasedFree | Memory/include/Memory/Buffer.hpp:174-187 | after a release an address is free exactly when it was free before or lies in the released range |
| Blocks.ReleasedFreeBytes | Memory/include/Memory/Buffer.hpp:174-187 | a release raises the total of free bytes by exactly the released size |
| Blocks.ReleaseUndoesTake | Memory/include/Memory/Buffer.hpp:142-187 | releasing the bytes an allocation just took is no double free, and it restores the free list exactly |
| Arena.Overwrite | 3/Memory/source/MemoryElement.cpp:24-27 | the copy keeps the arena size, puts the bytes at the target and leaves every other byte as it was |
| Arena.ReadBackOverwrite | 3/Memory/source/MemoryElement.cpp:24-27 | bytes copied into the arena read back unchanged |
| Arena.OverwriteTwice | 3/Memory/source/MemoryElement.cpp:24-27 | a second copy to the same place hides the first one completely |
| Arena.OverwriteKeeps | 3/Memory/source/MemoryElement.cpp:24-27 | a copy leaves every byte range that it does not touch unchanged |
| Arena.OverwriteSame | 3/Memory/source/MemoryElement.cpp:24-27 | copying a range's own bytes in place changes nothing |
| Arena.ReadBytes | 3/Memory/source/MemoryElement.cpp:19-22 | the loop copies out exactly the arena bytes of the range |
| Arena.WriteBytes | 3/Memory/source/MemoryElement.cpp:24-27 | the loop leaves the arena with the value in the range and every other byte unchanged |
| Arena.MoveBytes | 3/Memory/include/Memory/IManager.hpp:239-242 | moving a range to a lower offset (a forward copy) puts the range's old bytes at the target and leaves every other byte unchanged |
| Arena.Buffer.constructor | Memory/include/Memory/Buffer.hpp:105 | a new buffer has one free block covering the whole capacity, and all of its bytes are free |
| Arena.Buffer.GetBlocks | Memory/include/Memory/Buffer.hpp:195-197 | the free list that is handed out is well formed |
| Arena.Buffer.AllocateBlock | Memory/include/Memory/Buffer.hpp:142-154 | the first fit's offset comes back and its bytes leave the free list, or an overflow error when no block fits; the free total drops by the size |
| Arena.Buffer.FindFit | Memory/include/Memory/Buffer.hpp:144-146 | the linear search stops at the first block of at least the size, or at the end exactly when there is none |
| Arena.Buffer.Take | Memory/include/Memory/Buffer.hpp:148-152 | the chosen block is erased or shrunk from below by the size |
| Arena.Buffer.DestroyBlock | Memory/include/Memory/Buffer.hpp:166-188 | an out-of-range error exactly when the range passes the capacity, and a double free exactly when it collides with free space; on success exactly the range becomes free and the free total rises by its size; a failure changes nothing |
| Arena.Buffer.SearchUpperBound | Memory/include/Memory/Buffer.hpp:169-170 | the binary search finds the upper-bound position |
| Arena.Buffer.Merge | Memory/include/Memory/Buffer.hpp:174-187 | the coalescing branches produce the specified release of the range |
| Errors.Code | 3/Memory/include/Memory/Error.hpp:8-13 | every kind's code indexes the four-entry message table |
| Errors.KindName | 3/Memory/source/Error.cpp:6 | a kind's name is the table entry at its code |
| Errors.Error.Description | 3/Memory/source/Error.cpp:5-8 | as written, the description contains the kind's name and the message |
| Errors.Error.DescriptionWithProgram | 3/Tests/source/TestError.cpp:11-14 | the intended description contains the kind's name, the program's name and the message |
| Errors.DescriptionLacks | 3/Memory/source/Error.cpp:7 | a character found neither in the fixed prefix with the kind's name nor in the message is not in the written description |
| Errors.DescriptionOmitsProgram | 3/Tests/source/TestError.cpp:6-15 | for the test's error the written description lacks "test_program" and the intended one contains it |
| Elements.RawStart | 3/Memory/source/ArrayDescriptor.cpp:7-14 | a raw access starts at or after the element's offset, and exactly at it for a scalar or for `begin == 0` |
| Elements.RawLength | 3/Memory/source/ArrayDescriptor.cpp:7-14 | a scalar copies its whole size; an array or segment copies whole items, one for `end == 0` and `end - begin` otherwise |
| Elements.StrideOf | 3/Memory/source/ArrayDescriptor.cpp:7-14 | the stride is what a default access (`begin = end = 0`) copies |
| Elements.ItemRangeWithinArray | 3/Memory/source/ArrayDescriptor.cpp:7-14 | items [b, e) of an array start at `offset + b * stride`, end at `offset + e * stride`, and stay inside the element |
| Elements.GuardAsWrittenAdmitsOverflow | 3/Memory/include/Memory/IMemoryElement.hpp:124-125 | the written guard lets a 40-byte range read into a 4-byte value; the intended guard refuses it |
| Elements.Fetched | 3/Memory/source/MemoryElement.cpp:19-22 | a raw read yields exactly as many bytes as the span covers |
| Elements.Stored | 3/Memory/source/MemoryElement.cpp:24-27 | a raw write keeps the arena size and every byte outside the span, and a dangling access changes nothing |
| Elements.RawRoundTrip | 3/Memory/source/ArrayDescriptor.cpp:7-23 | a raw read of the span just written returns the written bytes |
| Elements.SingleOwner | 3/Memory/source/SharedSegmentDescriptor.cpp:20-22 | `is_last`'s count test holds exactly when one program owns the segment |
| Elements.SecondOwnerLeft | 3/Memory/source/SharedSegmentDescriptor.cpp:9-12 | removing an owner that is not the only one leaves the segment owned |
| Elements.SegmentSharing | 3/Tests/source/TestSharedSegment.cpp:32-88 | a new segment of program p is last; once q is inserted it is not, q has access, and both p and q get a memory-leak refusal; once q is erased it is last again, q has no access, p may destroy it and q gets an access error |
| Elements.Descriptor.Variable | Memory/include/Memory/ArrayDescriptor.hpp:30-31 | a scalar element has the given name, size and offset and no owners |
| Elements.Descriptor.ArrayOf | Memory/include/Memory/ArrayDescriptor.hpp:30-31 | an array element has the given geometry and item size |
| Elements.Descriptor.Segment | Memory/include/Memory/SharedSegmentDescriptor.hpp:35-37 | a shared segment starts with its creating program as its only owner |
| Elements.Descriptor.ReferenceTo | 3/Memory/source/MemoryElement.cpp:29-31 | a reference has its own name and target, and no storage |
| Elements.Descriptor.ReferenceNameAsWritten | 3/Memory/source/ReferenceDescriptor.cpp:11-13 | as written, a reference's name is the resolved target's name, and there is none (a null dereference) when it dangles |
| Elements.Descriptor.GetName | 3/Memory/source/MemoryElement.cpp:7 | an element's own name; for a reference it is the same as `get_ref_name` |
| Elements.Descriptor.GetRefName | 3/Memory/source/ReferenceDescriptor.cpp:39-41 | a reference's own name, whatever its target |
| Elements.Descriptor.IsValid | 3/Memory/source/ReferenceDescriptor.cpp:27-29 | a reference is valid exactly when its target name is registered |
| Elements.Descriptor.GetSize | 3/Memory/source/ReferenceDescriptor.cpp:15-25 | a storage element's own size; 0 for a dangling reference |
| Elements.Descriptor.GetElemSize | 3/Memory/source/ReferenceDescriptor.cpp:15-25 | a storage element's stride (its size for a scalar, `element_size_` for an array); 0 for a dangling reference |
| Elements.Descriptor.GetOffset | 3/Memory/source/ReferenceDescriptor.cpp:15-25 | a storage element's own offset; the arena capacity for a dangling reference |
| Elements.Descriptor.MakeReference | 3/Memory/source/MemoryElement.cpp:29-31 | a new reference under the given name, aimed at this element's name |
| Elements.Descriptor.SetOffset | 3/Memory/source/MemoryElement.cpp:15-17 | only the offset changes, to the value given |
| Elements.Descriptor.GetElement | 3/Memory/source/ReferenceDescriptor.cpp:7-9 | the registry entry of the target name, or none exactly when the name is unregistered |
| Elements.Descriptor.Storage | 3/Memory/source/ReferenceDescriptor.cpp:15-25 | forwarding ends at a storage element of the registry (or the element itself), and a reference that forwards anywhere is valid |
| Elements.Descriptor.Span | 3/Memory/source/ArrayDescriptor.cpp:7-14 | a storage element's raw access covers the bytes its own geometry selects |
| Elements.Descriptor.GetRaw | 3/Memory/source/ArrayDescriptor.cpp:7-14 | the value read is the arena bytes of the span; a dangling reference reads nothing |
| Elements.Descriptor.SetRaw | 3/Memory/source/ArrayDescriptor.cpp:16-23 | the span's bytes become the value's and nothing else in the arena changes |
| Elements.Descriptor.GetValue | 3/Memory/include/Memory/IMemoryElement.hpp:121-127 | a size mismatch exactly when the intended guard of the first Findings row refuses; otherwise the span's bytes, never more than the type holds |
| Elements.Descriptor.SetValue | 3/Memory/include/Memory/IMemoryElement.hpp:138-144 | a size mismatch exactly when the intended guard of the first Findings row refuses, and then the arena is unchanged; otherwise the raw write |
| Elements.Descriptor.InsertProgram | 3/Memory/source/SharedSegmentDescriptor.cpp:5-7 | the program joins the owner set, and inserting an owner twice changes nothing |
| Elements.Descriptor.EraseProgram | 3/Memory/source/SharedSegmentDescriptor.cpp:9-12 | the program leaves the owner set, and erasing a non-owner changes nothing |
| Elements.Descriptor.CheckAccess | 3/Memory/source/SharedSegmentDescriptor.cpp:14-18 | a program has access exactly when the destroy check either lets it destroy the segment or refuses it only for a memory leak |
| Elements.Descriptor.IsLast | 3/Memory/source/SharedSegmentDescriptor.cpp:20-22 | true exactly when the owner set is a single program |
| Elements.Descriptor.DestroyRefusal | 3/Memory/source/SharedSegmentDescriptor.cpp:24-34 | destruction is allowed exactly for a non-segment or a segment the program owns alone; a non-owner gets an access error and an owner beside others gets a memory leak, logged against the program |
| Elements.ReferenceForwards | 3/Memory/source/ReferenceDescriptor.cpp:15-29 | a reference to a storage element is valid and reports the target's size, item size and offset; every raw access through it, whatever its `begin` and `end`, covers the target's whole default span |
| Elements.DanglingSentinels | 3/Memory/source/ReferenceDescriptor.cpp:27-37 | a dangling reference reports size 0 and offset equal to the capacity, and its raw accesses, for any `begin` and `end`, touch nothing |
| Elements.ReferenceNameAsWrittenIsTargetName | 3/Memory/source/ReferenceDescriptor.cpp:11-13 | as written, a reference "myRef" to "myVar" reports "myVar", which is not its own name |
| Layout.ApartIffDisjoint | Memory/include/Memory/Buffer.hpp:17-20 | two placements are apart exactly when no byte belongs to both |
| Layout.PlacedAllocate | 3/Memory/include/Memory/IManager.hpp:260-269 | an element filed on the low bytes of a free block, with those bytes taken off the list, keeps the layout invariant |
| Layout.PlacedAddReference | 3/Memory/include/Memory/IManager.hpp:101-109 | filing a reference (no storage) keeps the layout invariant |
| Layout.PlacedRemove | 3/Memory/include/Memory/IManager.hpp:94-99 | unfiling an element keeps the layout invariant |
| Layout.PlacedRelease | 3/Memory/include/Memory/IManager.hpp:111-119 | unfiling a storage element and releasing its bytes keeps the layout invariant |
| Packing.CompactedFreeList | 3/Memory/include/Memory/IManager.hpp:239-242 | after compaction the free list is well formed, an address is free exactly when it is at or past the packed extent, and the free total is the rest of the arena |
| Packing.PlacedCompacted | 3/Memory/include/Memory/IManager.hpp:239-242 | elements stacked from 0 in the given order keep the layout invariant with the compacted free list |
| Packing.RepackedFacts | 3/Memory/include/Memory/IManager.hpp:239-242 | each moved element lands at the sum of the sizes before it in the order; sizes and kinds are kept, and references stay where they were |
| Packing.PackedPlaced | 3/Memory/include/Memory/IManager.hpp:239-242 | an ascending order of all storage elements exists, and packing in it keeps the layout invariant |
| Packing.AllocationAfterCompaction | 3/Tests/source/TestManager.cpp:185-188 | after compaction, first fit of anything that fits returns the block that begins at the packed extent |
| Packing.DefragmentationCase | 3/Tests/source/TestManager.cpp:165-189 | with var1 at 0 (100 bytes) and var3 at 300 (300 bytes), var3 moves to 100 and a 200-byte allocation lands at 400, right after var3 |
| Compaction.Pack | 3/Memory/include/Memory/IManager.hpp:239-242 | the pass moves the storage elements in ascending order of offset, so each lands where the packing specification puts it and carries its old bytes; the compacted free list then keeps the layout invariant |
| Compaction.PackNext | 3/Memory/include/Memory/IManager.hpp:239-242 | one element's bytes move down to the running extent, which grows by its size |
| Compaction.Lowest | 3/Memory/include/Memory/IManager.hpp:239-242 | the element chosen has the least offset of the remaining ones |
| Registry.Charge | 3/Memory/include/Memory/Program.hpp:103-108 | a reference charges nothing, a storage element its size, so no element charges more than its size |
| Registry.Used | 3/Memory/include/Memory/Program.hpp:103-108 | no elements use nothing, and every element's charge is part of the used memory |
| Registry.UsedInsert | 3/Memory/include/Memory/Program.hpp:103-108 | associating a new element raises the used memory by its charge |
| Registry.UsedErase | 3/Memory/include/Memory/Program.hpp:103-108 | dropping an association lowers the used memory by its charge |
| Registry.ErrorsOf | 3/Memory/include/Memory/IManager.hpp:217-223 | exactly the log entries of the program, taken from the log |
| Registry.LeakReports | 3/Memory/include/Memory/Program.hpp:117-120 | one memory-leak entry per leaked name, in order, against the program |
| Registry.Build | 3/Memory/include/Memory/IManager.hpp:264 | the new descriptor has the given name, size, offset and kind; a shared segment is owned by the requesting program |
| Registry.ManagerRefusal | 3/Memory/include/Memory/IManager.hpp:111-119 | the manager's refusal of a destroy is a memory leak exactly when the name is unknown and a double free exactly when it is known, against the requesting program |
| Registry.Program.constructor | 3/Memory/include/Memory/Program.hpp:44-45 | a program starts with its name, path, limit and manager, and no elements |
| Registry.Program.InsertElement | 3/Memory/include/Memory/Program.hpp:54-59 | associates the element under its name unless the name is already associated |
| Registry.Program.EraseElement | 3/Memory/include/Memory/Program.hpp:61-66 | drops the association under the element's name |
| Registry.Program.GetUsedMemory | 3/Memory/include/Memory/Program.hpp:103-108 | the loop sums the charges of the associated elements |
| Registry.Program.PossibleForExpansion | 3/Memory/include/Memory/Program.hpp:94-101 | true exactly when the used memory plus the size stays within the limit |
| Registry.Program.AllocateElement | 3/Memory/include/Memory/Program.hpp:134-144 | over quota: a size error against the program, and nothing else changes; within quota: the manager's outcome, and a new element is associated |
| Registry.Program.Admit | 3/Memory/include/Memory/Program.hpp:140-143 | a duplicate name or a full arena is refused with its error, or the element is registered, given the first fit's offset, and associated |
| Registry.Program.DestroyElement | 3/Memory/include/Memory/Program.hpp:85-92 | an unheld name is an access error; a segment's refusal is logged; otherwise success exactly when the release can go through, with both maps and the free list updated and the log unchanged, or all of them unchanged except for the manager's one refusal entry (a memory leak for an unknown name, a double free otherwise) |
| Registry.Program.Surrender | 3/Memory/include/Memory/Program.hpp:85-92 | the association is dropped while the manager destroys the element, and restored exactly when the manager refuses; the log gains nothing on success and exactly the manager's refusal entry otherwise |
| Registry.Program.Restore | 3/Memory/include/Memory/Program.hpp:85-92 | the dropped association comes back |
| Registry.Program.MakeReference | 3/Memory/include/Memory/Program.hpp:68-75 | only a held element can be referenced; the manager's refusals leave both maps unchanged; a new reference is filed and associated |
| Registry.Program.Teardown | 3/Memory/include/Memory/Program.hpp:117-120 | exactly the held elements that are neither references nor segments are reported, each once; the program leaves every segment's owner set |
| Registry.Program.Dismiss | 3/Memory/include/Memory/Program.hpp:117-120 | one element at teardown: reported if it leaks, and the program leaves its owner set if it is a segment |
| Registry.Program.RecordError | 3/Memory/include/Memory/Program.hpp:77-83 | one entry against this program is appended to the manager's log |
| Registry.Manager.constructor | Memory/include/Memory/Buffer.hpp:105 | a manager starts valid, with a fresh one-block arena, no elements, no programs and an empty log |
| Registry.Manager.Register | 3/Memory/include/Memory/IManager.hpp:87-92 | filing an element whose placement keeps the layout invariant keeps the manager valid |
| Registry.Manager.Unregister | 3/Memory/include/Memory/IManager.hpp:94-99 | unfiling an element keeps the manager valid when the layout still holds |
| Registry.Manager.RecordError | 3/Memory/include/Memory/IManager.hpp:138-145 | exactly one entry is appended to the log |
| Registry.Manager.GetElement | 3/Memory/include/Memory/IManager.hpp:167-173 | the element filed under the name, or nothing exactly when the name is unknown |
| Registry.Manager.InsertElement | 3/Memory/include/Memory/IManager.hpp:87-92 | files the element under its own name unless the name is taken |
| Registry.Manager.EraseElement | 3/Memory/include/Memory/IManager.hpp:94-99 | removes whatever is filed under the element's name |
| Registry.Manager.ValidAllocate | 3/Memory/include/Memory/IManager.hpp:46-53 | the first fit's offset with those bytes taken, or, when nothing fits, no offset, an unchanged free list and one size error |
| Registry.Manager.ValidDestroy | 3/Memory/include/Memory/IManager.hpp:55-64 | a range past the end is a size error; otherwise success exactly when the release is no double free (logged otherwise); on success the range is released, and on failure the free list is unchanged |
| Registry.Manager.AllocateElement | 3/Memory/include/Memory/IManager.hpp:260-269 | a duplicate name is refused (the check made by `check_exist_with_allocate_error`, lines 66-74), as is a full arena; otherwise a descriptor of the kind is filed at the first fit; the manager stays valid throughout |
| Registry.Manager.DestroyElement | 3/Memory/include/Memory/IManager.hpp:111-119 | success exactly when the element is known and its release can go through; an unknown name is logged (`check_exist_with_destroy_error`, lines 76-84); a storage element's bytes return to the free list |
| Registry.Manager.DestroyStorage | 3/Memory/include/Memory/IManager.hpp:111-119 | a storage element is unfiled and its bytes released exactly when that is no double free; on a double free nothing but the log changes |
| Registry.Manager.MakeReference | 3/Memory/include/Memory/IManager.hpp:101-109 | a taken name or a target that is unknown or is a reference is refused with its error; otherwise a new reference to the target is filed |
| Registry.Manager.AddProgram | 3/Memory/include/Memory/IManager.hpp:121-129 | a taken name comes back empty with an access error; otherwise a new empty program under that name is registered |
| Registry.Manager.DeleteProgram | 3/Memory/include/Memory/IManager.hpp:131-136 | the program is unregistered after its teardown reports its leaks and leaves its segments; elements stay registered; an unknown name changes nothing |
| Registry.Manager.Forget | 3/Memory/include/Memory/IManager.hpp:131-136 | only the named program leaves the program table, and the manager stays valid |
| Registry.Manager.GetAccessToShared | 3/Memory/include/Memory/IManager.hpp:147-155 | an unknown program or a non-segment is an access error that leaves the segment's owners and the program maps unchanged; success exactly when the quota can take the segment; then the program holds it, within its limit, and owns it |
| Registry.Manager.Grant | 3/Memory/include/Memory/IManager.hpp:147-155 | the granted program holds the segment, within its limit, and joins the owner set; the manager stays valid |
| Registry.Manager.RevokeAccessToShared | 3/Memory/include/Memory/IManager.hpp:157-165 | an unknown program or a non-segment is an access error that leaves the segment's owners and the program maps unchanged; otherwise success exactly when the program owns the segment beside others; a non-owner is an access error, the last owner a memory leak; on success it leaves the owners, which stay non-empty, and drops the segment |
| Registry.Manager.Withdraw | 3/Memory/include/Memory/IManager.hpp:157-165 | one of several owners leaves the segment and drops it, and the segment stays owned |
| Registry.Manager.DanglingReferences | 3/Memory/include/Memory/IManager.hpp:225-230 | exactly the registered references whose target name does not resolve, each once |
| Registry.Manager.DefragmentMemory | 3/Memory/include/Memory/IManager.hpp:239-242 | storage elements are packed from 0 in ascending order of offset with their bytes carried along; references and names are unchanged; the free list is the single block after the packed extent; the manager stays valid |
| Registry.Manager.WriteBack | 3/Memory/include/Memory/IManager.hpp:239-242 | every registered descriptor ends with the offset the packing assigns it |
| Registry.Manager.ProgramErrors | 3/Memory/include/Memory/IManager.hpp:217-223 | the loop collects exactly the program's log entries |

## Left out

- `statistics`: a per-program ratio computed in floating point; not modelled.
- The GUI, the presenter and view code, the benchmark and `main` are not part of this model.
- Templates over value types, such as `get_value<T>`, are modelled by the type's byte size and a sequence of bytes. `static_assert` on trivial copyability has no counterpart.
- Exceptions become result values. `allocate_block` and `destroy_block` return a `Result`/`Outcome` with the error that would be thrown. A typed accessor returns `SizeMismatch`.
- Ownership through `unique_ptr` and raw pointers is modelled by object identity. Freeing descriptors and use-after-free are not modelled.
- No implementation of the manager is part of this model, so several of its details are the model's own choices:
  - the message texts of the errors it logs;
  - the check that a revoking program is an owner;
  - the ascending-offset order of defragmentation;
  - `delete_program` of an unknown name being a no-op;
  - the refusal to reference a reference.
- Destroying a reference releases no arena bytes: a reference has no storage of its own, so only its registry entry and associations go.
- Registry.BufferMessage: the logged buffer errors are short fixed texts. The out-of-range text of Memory/include/Memory/Buffer.hpp:168 also gives the offset and size; the model omits them, because number formatting is not modelled.
- Registry.Build: a shared segment's first owner is the allocating program; the explicit owner argument of the constructor (Memory/include/Memory/SharedSegmentDescriptor.hpp:35-37) is not modelled. Every caller in the repository passes the allocating program.
- Registry.Program.DestroyElement: when the manager refuses, the program's association is restored (Registry.Program.Surrender and Registry.Program.Restore). This keeps the program's map in step with the manager's.
- Registry.Manager.GetAccessToShared: the quota test adds the segment's size even when the program already holds the segment. A repeated grant can therefore be refused for quota, although a successful one leaves the association map as it was.
- Registry.Program.PossibleForExpansion: compares `used + size <= limit` on unbounded integers. It does not model an unsigned subtraction `limit - used` that wraps when usage already exceeds the limit.
- Elements.Descriptor.Storage: a chain of references is followed for at most as many steps as there are registered elements. A longer chain, or a cycle, resolves as dangling instead of recursing forever.
- Elements.DanglingSentinels: the source dereferences a null target here. The model gives instead the sentinels the tests expect (Tests/source/TestMemoryElement.cpp:91-93): size 0, offset equal to the capacity, and raw accesses that do nothing.
- Elements.RawLength: requires `begin <= end` when `end != 0`. An unsigned `end - begin` that wraps is undefined behaviour in the source and is not modelled.
- Elements.Descriptor.SetRaw: requires the caller's buffer to hold at least the span's bytes. A shorter buffer means reading past it, which is undefined behaviour.
- Arena.MoveBytes: modelled as a forward byte copy to a lower offset. That is the only direction defragmentation needs. The library call the pass would use is not part of this model.
- Getters that only return a field (`get_programs`, `get_memory_elements`, `get_data`, `get_capacity`, `all_errors`) are modelled as field reads.
- The older revision files `3/Memory/include/Memory/Manager.hpp`, `3/Memory/source/Program.cpp`, `3/Memory/include/Memory/ReferenceDescriptor.hpp`, `3/Memory/source/VariableDescriptor.cpp` and the two-argument `Error(type, program)` of `3/Memory/include/Memory/Error.hpp` are superseded by the files cited above. They are not modelled.
- Concurrency: not applicable; the program is single-threaded.

## Findings

| source | as written | input that shows it | evidently intended | confidence | as-written member | corrected member |
|---|---|---|---|---|---|---|
| 3/Memory/include/Memory/IMemoryElement.hpp:124-125 | the typed guard checks only that `sizeof(T)` equals the item size or the element size, then copies whatever the `begin`/`end` range selects | `int v; a.get_value(v, 0, 10)` on an array of ten 4-byte items copies 40 bytes into a 4-byte value | also refuse a raw copy longer than `sizeof(T)` (the same holds for `set_value`, lines 141-142, corrected in Elements.Descriptor.SetValue) | not executed | Elements.GuardAsWrittenAdmitsOverflow | Elements.Descriptor.GetValue |
| 3/Memory/source/ReferenceDescriptor.cpp:11-13 | `get_name` of a reference returns the target's name, and dereferences null when the reference dangles | a reference "myRef" to "myVar" reports "myVar"; the test at 3/Tests/source/TestManager.cpp:104 expects "myRef" | a reference reports its own name, never touching the target | not executed | Elements.ReferenceNameAsWrittenIsTargetName | Elements.Descriptor.GetName |
| 3/Memory/source/Error.cpp:7 | the description is the kind's name and the message, without the program | `Error(SIZE_ERROR, "Memory limit exceeded", "test_program")`; the test at 3/Tests/source/TestError.cpp:13 looks for "test_program" | the description also names the program | not executed | Errors.DescriptionOmitsProgram | Errors.Error.DescriptionWithProgram |

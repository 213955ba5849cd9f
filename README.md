# SHMEMSpace allocation records, modelled in Dafny

This project models the OpenSHMEM memory space of Kokkos Remote Spaces, as
one processing element sees it:

- `Kokkos::Experimental::SHMEMSpace`, the memory-space facade. It holds an
  allocation mode and an extent, allocates blocks from the symmetric heap and
  frees them.
- `SharedAllocationRecord<SHMEMSpace, void>`, the reference-counted record
  behind every tracked allocation. Each allocation is one block holding a
  128-byte header followed by the user payload. The header holds a
  back-pointer to the record and a label of at most 120 bytes. The record
  resolves a payload pointer back to itself through that header
  (`get_record`). It supports tracked allocation, release and reallocation
  by copy.
- The host-to-SHMEM and SHMEM-to-host `DeepCopy`, a plain `n`-byte copy, and
  the SHMEM-to-SHMEM copy that reallocation uses.

Files:

- `bytes.dfy`: bytes and 64-bit words; the little-endian pointer encoding;
  `strncpy`; reading a NUL-terminated label back; memcpy's effect on a
  buffer (`Splice`).
- `symmetric_heap.dfy`:
  - the outcomes of the operations (`Ok`, or failure by abort, runtime
    error, `bad_alloc` or undefined behaviour);
  - the symmetric heap, a class over a map from block addresses to bytes;
  - pointers that remember the block they point into.
- `shmem_space.dfy`: the `SHMEMSpace` class.
- `deep_copy.dfy`: the copies, as byte-by-byte loops over arrays and the heap.
- `allocation_record.dfy`:
  - the header layout;
  - the block size computation;
  - the reference-count transitions, as functions on the record table;
  - the `Records` class, which holds the live records of one process and the
    heap their blocks come from.

The record class inherits `increment`, `decrement`, the deallocation hook
and the header layout from a base class in Kokkos core. That base class is
not part of this model. The model assumes the base class behaves as follows:

- the header is an 8-byte back-pointer followed by a 120-byte label
  (`maximum_label_length` is 128 minus the pointer size);
- `increment` adds one to the count;
- `decrement` subtracts one, and when the count reaches zero it runs the
  destructor, which frees the whole block through the record's space.

Records are host objects. They live in a map keyed by their host address,
and operator new hands out fresh addresses from a counter.

The model follows the code on these points:

- The allocation mode is any `int`. Only `Symmetric` is accepted, and only
  when allocating. The setter accepts every value.
- The extent is stored and never read.
- A null block from `shmem_malloc` is not checked. The model's heap never
  fails to provide a block.

## Model

| member | source | states |
|---|---|---|
| Space.SHMEMSpace.constructor | src/SHMEMSPACE/Kokkos_SHMEMSpace.cpp:55 | a default space allocates symmetrically |
| Space.SHMEMSpace.CopyOf | src/SHMEMSPACE/Kokkos_SHMEMSpace.cpp:151 | the record's copy of the space has the same mode and extent |
| Space.SHMEMSpace.SetAllocationMode | src/SHMEMSPACE/Kokkos_SHMEMSpace.cpp:58-60 | any mode is stored as given; the extent stays |
| Space.SHMEMSpace.SetExtent | src/SHMEMSPACE/Kokkos_SHMEMSpace.cpp:62 | the extent is stored as given; the mode stays |
| Space.SHMEMSpace.Allocate | src/SHMEMSPACE/Kokkos_SHMEMSpace.cpp:64-84 | size 0 gives null and leaves the heap alone, in every mode; a non-zero size aborts unless the mode is Symmetric, leaving the heap alone; otherwise the result is a new block of exactly that size and no other block changes |
| Space.SHMEMSpace.Deallocate | src/SHMEMSPACE/Kokkos_SHMEMSpace.cpp:86-88 | exactly the given block is freed, whatever size is passed; null frees nothing |
| SymmetricHeap.Heap.Malloc | src/SHMEMSPACE/Kokkos_SHMEMSpace.cpp:78 | shmem_malloc returns a block that was not live before, of the requested length, and changes no other block |
| SymmetricHeap.Heap.Free | src/SHMEMSPACE/Kokkos_SHMEMSpace.cpp:87 | shmem_free removes exactly that block; freeing null does nothing |
| DeepCopy.CopyToHost | src/SHMEMSPACE/Kokkos_SHMEMSpace.cpp:96-99 | the n bytes at the SHMEM source land at the host destination; every other host byte and the heap stay unchanged |
| DeepCopy.CopyToShmem | src/SHMEMSPACE/Kokkos_SHMEMSpace.cpp:101-104 | the n host bytes land at the SHMEM destination; no other byte of that block and no other block changes |
| DeepCopy.CopyWithinShmem | src/SHMEMSPACE/Kokkos_SHMEMSpace.cpp:202-204 | the n bytes at the source land at the destination, in another block; nothing else changes |
| DeepCopy.CopyRoundTrip | src/SHMEMSPACE/Kokkos_SHMEMSpace.cpp:96-104 | copying bytes to SHMEM and back to the host returns the same bytes |
| Bytes.WordRoundTrip | src/SHMEMSPACE/Kokkos_SHMEMSpace.cpp:160-161 | a record address stored as 8 little-endian bytes reads back as the same address |
| Bytes.StrNCpyCString | src/SHMEMSPACE/Kokkos_SHMEMSpace.cpp:163-164 | a label written with strncpy into n bytes reads back as the label's C string, cut to n bytes |
| Bytes.StrNCpyOfLabel | src/SHMEMSPACE/Kokkos_SHMEMSpace.cpp:163-164 | a label without NUL is stored as its first n bytes, padded with NUL up to n |
| AllocationRecord.HeaderRoundTrip | src/SHMEMSPACE/Kokkos_SHMEMSpace.cpp:159-164 | the header written by the constructor is 128 bytes, names the new record, and holds the label cut to maximum_label_length |
| AllocationRecord.RelabelKeepsLabel | src/SHMEMSPACE/Kokkos_SHMEMSpace.cpp:199-200 | a new header written with the label read from an old header (get_label) holds the same label |
| AllocationRecord.AllocationSizeWraps | src/SHMEMSPACE/Kokkos_SHMEMSpace.cpp:148-150 | as written, sizeof(Header) + size wraps in size_t: a user size 64 below SIZE_MAX asks for a 64-byte block, too small for the header alone |
| AllocationRecord.AllocationSize | src/SHMEMSPACE/Kokkos_SHMEMSpace.cpp:148-150 | the block size is the header plus exactly the user size, or bad_alloc when that does not fit in size_t |
| AllocationRecord.Records.GetRecord | src/SHMEMSPACE/Kokkos_SHMEMSpace.cpp:212-231 | null raises the runtime error; if the header names a record whose m_alloc_ptr is not that header, the runtime error is raised too; a record is returned only when its m_alloc_ptr is the header in front of the pointer and that header names it |
| AllocationRecord.Records.ResolvesOwnPayload | src/SHMEMSPACE/Kokkos_SHMEMSpace.cpp:219-230 | get_record of a record's data() returns that record while its header is intact |
| AllocationRecord.Records.ResolvesOnlyPayload | src/SHMEMSPACE/Kokkos_SHMEMSpace.cpp:219-230 | get_record succeeds only on the data() pointer of the record it returns |
| AllocationRecord.Records.Allocate | src/SHMEMSPACE/Kokkos_SHMEMSpace.cpp:136-165 | a new record at a fresh address owns a new block of header size plus user size; its header names it and holds the truncated label; it has its own copy of the space and count zero; get_record of its payload finds it; it is bad_alloc when operator new or the size fails, and abort when the policy is not symmetric, with nothing changed |
| AllocationRecord.Records.Destroy | src/SHMEMSPACE/Kokkos_SHMEMSpace.cpp:115-134 | the record goes, and exactly its block is freed |
| AllocationRecord.Records.Increment | src/SHMEMSPACE/Kokkos_SHMEMSpace.cpp:179 | the count goes up by one; nothing else changes |
| AllocationRecord.Records.Decrement | src/SHMEMSPACE/Kokkos_SHMEMSpace.cpp:190 | the count goes down by one, and the record and its block go when it reaches zero; a zero count is an error and changes nothing |
| AllocationRecord.ReleaseDiscipline | src/SHMEMSPACE/Kokkos_SHMEMSpace.cpp:190 | a record with count c survives c - 1 decrements, with its count lowered by that many, and is gone after the c-th; no other record changes |
| AllocationRecord.RetainReleaseBalance | src/SHMEMSPACE/Kokkos_SHMEMSpace.cpp:179-190 | a tracked allocation retained k more times survives k releases with count one and is removed by the next |
| AllocationRecord.TrackedRoundTrip | src/SHMEMSPACE/Kokkos_SHMEMSpace.cpp:169-192 | allocate_tracked followed by deallocate_tracked leaves the record table and the heap as they were |
| AllocationRecord.Records.AllocateTracked | src/SHMEMSPACE/Kokkos_SHMEMSpace.cpp:169-182 | size 0 gives null and creates nothing; otherwise the result is the payload of a new record with count one, resolvable by get_record, with the requested size and label and its own copy of the space, and the next record address advances by one; the only failures are bad_alloc, when no record address is left or the size does not fit, and abort, for a non-symmetric space, each exactly under its condition and changing nothing, so every other request succeeds |
| AllocationRecord.Records.DeallocateTracked | src/SHMEMSPACE/Kokkos_SHMEMSpace.cpp:184-192 | null changes nothing; a pointer get_record rejects fails the same way with nothing changed; otherwise exactly the resolved record is decremented |
| AllocationRecord.ReallocationComposes | src/SHMEMSPACE/Kokkos_SHMEMSpace.cpp:198-207 | allocating the new record and then copying, incrementing the new record and decrementing the old one is a reallocation |
| AllocationRecord.Records.ReallocateTracked | src/SHMEMSPACE/Kokkos_SHMEMSpace.cpp:194-210 | the old record is resolved first, and a failure there changes nothing; then a reallocation, the new record holding its own copy of the old record's space, with the same mode and extent; get_record of the result finds the new record; allocation failures change nothing; decrementing an old record whose count is zero is an error |
| AllocationRecord.Records.Transfer | src/SHMEMSPACE/Kokkos_SHMEMSpace.cpp:202-207 | the copy, the increment of the new record and the decrement of the old one: the new record's payload starts with the old one's bytes and its header is untouched |
| AllocationRecord.Records.CopyPayload | src/SHMEMSPACE/Kokkos_SHMEMSpace.cpp:202-204 | n payload bytes of one record are copied into another's payload; the header and every other block stay |

## Left out

- `fence` (src/SHMEMSPACE/Kokkos_SHMEMSpace.cpp:90) is a collective barrier across processing elements. Synchronisation between processes is not modelled.
- `name()` is declared in the header file, which is not part of this model.
- `shmem_n_pes` and `shmem_my_pe` (lines 76-77) compute values that are never used.
- OpenSHMEM is modelled as one process's view of an abstract heap. Symmetric offsets on other processing elements are not modelled.
- The `s_root_record` registry and `print_records` (lines 112-113, 234-239) are left out. The registry is debug-only linkage in the base class. Printing is stream output.
- The profiling hooks (lines 122-130, 152-158) are calls into an external instrumentation library and are left out.
- tpls/libquo/src/cxx/utils.cpp only writes enumerator names to a stream and is not part of this model.
- The header layout, `increment`, `decrement` and the deallocation hook come from the base class. They are modelled as stated above, not from its source.
- Following a null or dangling back-pointer in `get_record` is undefined behaviour. It is modelled as the failure `Undefined`, not as an outcome.
- A record's `get_label` is read as a C string bounded by the 120-byte label field.
- SymmetricHeap.Heap.Malloc: the contents of a new block are left unspecified by the contract, and the library's allocation failure is not modelled, because the source never checks for it.
- AllocationRecord.Records.Increment: the count is an unbounded natural number, so a 32-bit overflow of the reference count is not modelled.
- AllocationRecord.Records.Decrement: decrementing a zero count is modelled as a runtime error that changes nothing, because the base class's behaviour for it is not part of this model.
- Space.SHMEMSpace.constructor: the C++ default constructor leaves `extent` uninitialised, so the contract says nothing about it.
- DeepCopy.CopyWithinShmem: requires source and destination in different blocks, which always holds in reallocation, where it is used.
- Aliasing of host arrays with SHMEM memory is not modelled. Host buffers are Dafny arrays, and SHMEM memory is the heap's map.

## Findings

| source | as written | input that shows it | evidently intended | confidence | as-written member | corrected member |
|---|---|---|---|---|---|---|
| src/SHMEMSPACE/Kokkos_SHMEMSpace.cpp:148-150 | `sizeof(SharedAllocationHeader) + arg_alloc_size` is computed in size_t and wraps | `arg_alloc_size = SIZE_MAX - 63` requests a 64-byte block, and the 128-byte header is then written past its end | the block holds the header plus the whole payload, or the allocation fails | not executed | AllocationRecord.AllocationSizeWraps | AllocationRecord.AllocationSize |

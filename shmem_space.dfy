/**
 * Kokkos::Experimental::SHMEMSpace: the memory-space facade over the
 * OpenSHMEM symmetric heap. It carries an allocation policy and an extent,
 * and allocates and frees whole blocks.
 */
module Space {
  import opened Bytes
  import opened Outcomes
  import opened SymmetricHeap

  /** A C++ int. */
  type Int32 = x: int | -0x8000_0000 <= x < 0x8000_0000

  /** A C++ int64_t. */
  type Int64 = x: int | -0x8000_0000_0000_0000 <= x < 0x8000_0000_0000_0000

  /**
   * The value of the Symmetric enumerator of the allocation-mode enum. Only
   * whether a mode equals it matters to this backend.
   */
  const Symmetric: Int32 := 0

  class SHMEMSpace {
    var allocationMode: Int32
    var extent: Int64

    /** The default space uses symmetric allocation. */
    constructor ()
      ensures allocationMode == Symmetric
    {
      allocationMode := Symmetric;
    }

    /** The copy a record keeps of the space that allocated it. */
    constructor CopyOf(other: SHMEMSpace)
      ensures allocationMode == other.allocationMode && extent == other.extent
    {
      allocationMode := other.allocationMode;
      extent := other.extent;
    }

    /** impl_set_allocation_mode: any int is accepted; the policy is checked when allocating. */
    method SetAllocationMode(mode: Int32)
      modifies this
      ensures allocationMode == mode && extent == old(extent)
    {
      allocationMode := mode;
    }

    /** impl_set_extent: stored only; this backend never reads it. */
    method SetExtent(e: Int64)
      modifies this
      ensures extent == e && allocationMode == old(allocationMode)
    {
      extent := e;
    }

    /**
     * allocate: a zero size gives null without touching the heap; a non-zero
     * size aborts unless the policy is symmetric, and otherwise yields a fresh
     * block of exactly that many bytes and changes no other block.
     */
    method Allocate(heap: Heap, size: Word) returns (r: Result<Ptr>)
      requires heap.Valid()
      modifies heap
      ensures heap.Valid()
      ensures size == 0 ==> r == Ok(Null) && unchanged(heap)
      ensures size > 0 && allocationMode != Symmetric ==> r == Err(Abort) && unchanged(heap)
      ensures size > 0 && allocationMode == Symmetric ==>
                && r.Ok? && r.value.At? && r.value.offset == 0
                && r.value.base !in old(heap.blocks) && r.value.base in heap.blocks
                && |heap.blocks[r.value.base]| == size
                && heap.blocks == old(heap.blocks)[r.value.base := heap.blocks[r.value.base]]
    {
      r := Ok(Null);
      if size != 0 {
        if allocationMode == Symmetric {
          var p := heap.Malloc(size);
          r := Ok(p);
        } else {
          r := Err(Abort);
        }
      }
    }

    /** deallocate: frees the block; the size argument is ignored. */
    method Deallocate(heap: Heap, p: Ptr, size: Word)
      requires heap.Valid()
      requires p.Null? || (p.offset == 0 && p.base in heap.blocks)
      modifies heap
      ensures heap.Valid()
      ensures heap.blocks == if p.Null? then old(heap.blocks) else old(heap.blocks) - {p.base}
    {
      heap.Free(p);
    }
  }
}

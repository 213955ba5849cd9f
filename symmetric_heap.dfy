/**
 * Outcomes of the operations: a value, or the way the operation fails.
 */
module Outcomes {

  datatype Failure =
    | Abort          // Kokkos::abort: the process terminates with a message
    | RuntimeError   // Kokkos::Impl::throw_runtime_exception: a catchable error
    | BadAlloc       // operator new cannot provide the record object
    | Undefined      // the C++ code would dereference memory it does not own

  datatype Result<T> = Ok(value: T) | Err(failure: Failure)
}

/**
 * An abstract OpenSHMEM symmetric heap, as seen from one processing element:
 * the live blocks, each a base address with its bytes. Pointers carry the
 * block they were derived from, so pointer arithmetic that leaves a block is
 * visible as a pointer that no longer addresses readable bytes.
 */
module SymmetricHeap {
  import opened Bytes

  type Addr = nat

  /** A C pointer: null, or an offset into the block at address base. */
  datatype Ptr = Null | At(base: Addr, offset: int)

  /** Pointer arithmetic on a char pointer: p + k. */
  function Advance(p: Ptr, k: int): Ptr
  {
    if p.Null? then Null else At(p.base, p.offset + k)
  }

  /** p addresses n bytes that lie inside one live block. */
  predicate InBlock(blocks: map<Addr, seq<Byte>>, p: Ptr, n: nat)
  {
    p.At? && p.base in blocks && 0 <= p.offset && p.offset + n <= |blocks[p.base]|
  }

  /** The n bytes p addresses. */
  function Load(blocks: map<Addr, seq<Byte>>, p: Ptr, n: nat): (s: seq<Byte>)
    requires InBlock(blocks, p, n)
    ensures |s| == n
  {
    blocks[p.base][p.offset..p.offset + n]
  }

  class Heap {
    var blocks: map<Addr, seq<Byte>>
    var next: Addr   // the base of the next block handed out

    ghost predicate Valid()
      reads this
    {
      0 < next && forall a :: a in blocks ==> 0 < a < next
    }

    constructor ()
      ensures Valid() && blocks == map[]
    {
      blocks := map[];
      next := 1;
    }

    /**
     * shmem_malloc: a new block of n bytes whose contents are unspecified.
     * The library's failure to allocate is not modelled.
     */
    method Malloc(n: nat) returns (p: Ptr)
      requires Valid()
      modifies this
      ensures Valid()
      ensures p.At? && p.offset == 0 && p.base !in old(blocks)
      ensures p.base in blocks && |blocks[p.base]| == n
      ensures blocks == old(blocks)[p.base := blocks[p.base]]
    {
      p := At(next, 0);
      blocks := blocks[next := Zeros(n)];
      next := next + 1;
    }

    /** shmem_free: releases the block p is the base of; freeing null does nothing. */
    method Free(p: Ptr)
      requires Valid()
      requires p.Null? || (p.offset == 0 && p.base in blocks)
      modifies this
      ensures Valid()
      ensures blocks == if p.Null? then old(blocks) else old(blocks) - {p.base}
    {
      if p.At? {
        blocks := blocks - {p.base};
      }
    }

    /** Writes bytes at p, inside one live block. */
    method Store(p: Ptr, bytes: seq<Byte>)
      requires Valid() && InBlock(blocks, p, |bytes|)
      modifies this
      ensures Valid()
      ensures blocks == old(blocks)[p.base := Splice(old(blocks)[p.base], p.offset, bytes)]
      ensures Load(blocks, p, |bytes|) == bytes
    {
      SpliceFacts(blocks[p.base], p.offset, bytes);
      blocks := blocks[p.base := Splice(blocks[p.base], p.offset, bytes)];
    }
  }
}

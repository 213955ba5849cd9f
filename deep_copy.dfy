/**
 * DeepCopy between host memory and the SHMEM space: a plain memcpy of n
 * bytes, written out byte by byte. Host buffers are arrays; SHMEM memory is
 * addressed through pointers into the symmetric heap.
 */
module DeepCopy {
  import opened Bytes
  import opened SymmetricHeap

  /**
   * DeepCopy<HostSpace, SHMEMSpace>: copies n bytes from SHMEM memory at src
   * into the host buffer dst from index dstStart on; the rest of dst and the
   * heap stay as they were.
   */
  method CopyToHost(dst: array<Byte>, dstStart: nat, heap: Heap, src: Ptr, n: nat)
    requires dstStart + n <= dst.Length
    requires InBlock(heap.blocks, src, n)
    modifies dst
    ensures dst[..] == Splice(old(dst[..]), dstStart, Load(heap.blocks, src, n))
  {
    ghost var bytes := Load(heap.blocks, src, n);
    var i := 0;
    while i < n
      invariant 0 <= i <= n
      invariant forall k :: dstStart <= k < dstStart + i ==> dst[k] == bytes[k - dstStart]
      invariant forall k :: 0 <= k < dst.Length && !(dstStart <= k < dstStart + i) ==> dst[k] == old(dst[k])
    {
      dst[dstStart + i] := heap.blocks[src.base][src.offset + i];
      i := i + 1;
    }
    SpliceFacts(old(dst[..]), dstStart, bytes);
    assert dst[..] == Splice(old(dst[..]), dstStart, bytes);
  }

  /**
   * DeepCopy<SHMEMSpace, HostSpace>: copies n bytes of the host buffer src,
   * from index srcStart on, into SHMEM memory at dst; no other block and no
   * byte of dst's block outside those n changes.
   */
  method CopyToShmem(heap: Heap, dst: Ptr, src: array<Byte>, srcStart: nat, n: nat)
    requires heap.Valid()
    requires InBlock(heap.blocks, dst, n)
    requires srcStart + n <= src.Length
    modifies heap
    ensures heap.Valid()
    ensures heap.blocks ==
              old(heap.blocks)[dst.base := Splice(old(heap.blocks)[dst.base], dst.offset, src[srcStart..srcStart + n])]
  {
    var i := 0;
    assert Splice(heap.blocks[dst.base], dst.offset, []) == heap.blocks[dst.base];
    assert heap.blocks == heap.blocks[dst.base := heap.blocks[dst.base]];
    while i < n
      invariant 0 <= i <= n
      invariant heap.Valid()
      invariant heap.blocks ==
                  old(heap.blocks)[dst.base := Splice(old(heap.blocks)[dst.base], dst.offset, src[srcStart..srcStart + i])]
    {
      var x := src[srcStart + i];
      SpliceExtend(old(heap.blocks)[dst.base], dst.offset, src[srcStart..srcStart + i], x);
      assert src[srcStart..srcStart + i] + [x] == src[srcStart..srcStart + i + 1];
      heap.Store(Advance(dst, i), [x]);
      i := i + 1;
    }
  }

  /**
   * DeepCopy<SHMEMSpace, SHMEMSpace>, as reallocation uses it: copies n bytes
   * from src to dst, two pointers into different blocks.
   */
  method CopyWithinShmem(heap: Heap, dst: Ptr, src: Ptr, n: nat)
    requires heap.Valid()
    requires InBlock(heap.blocks, dst, n) && InBlock(heap.blocks, src, n)
    requires dst.base != src.base
    modifies heap
    ensures heap.Valid()
    ensures heap.blocks ==
              old(heap.blocks)[dst.base := Splice(old(heap.blocks)[dst.base], dst.offset, Load(old(heap.blocks), src, n))]
  {
    var i := 0;
    assert Splice(heap.blocks[dst.base], dst.offset, []) == heap.blocks[dst.base];
    assert heap.blocks == heap.blocks[dst.base := heap.blocks[dst.base]];
    while i < n
      invariant 0 <= i <= n
      invariant heap.Valid()
      invariant heap.blocks ==
                  old(heap.blocks)[dst.base := Splice(old(heap.blocks)[dst.base], dst.offset, Load(old(heap.blocks), src, i))]
    {
      var x := heap.blocks[src.base][src.offset + i];
      assert Load(old(heap.blocks), src, i + 1) == Load(old(heap.blocks), src, i) + [x];
      SpliceExtend(old(heap.blocks)[dst.base], dst.offset, Load(old(heap.blocks), src, i), x);
      heap.Store(Advance(dst, i), [x]);
      i := i + 1;
    }
  }

  /**
   * A host-to-SHMEM copy followed by a SHMEM-to-host copy of the same range
   * brings back the bytes that were staged on the host.
   */
  lemma CopyRoundTrip(block: seq<Byte>, at: nat, staged: seq<Byte>, host: seq<Byte>, hostAt: nat)
    requires at + |staged| <= |block| && hostAt + |staged| <= |host|
    ensures var remote := Splice(block, at, staged);
            Splice(host, hostAt, remote[at..at + |staged|])[hostAt..hostAt + |staged|] == staged
  {
    SpliceFacts(block, at, staged);
    SpliceFacts(host, hostAt, staged);
  }
}

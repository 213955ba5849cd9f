/**
 * SharedAllocationRecord<SHMEMSpace, void>: the reference-counted record of
 * one tracked allocation. Each allocation is one block of the symmetric heap
 * holding a 128-byte header (a pointer back to the record and the label)
 * followed by the user's payload. The records themselves live in host
 * memory; here they are the entries of a table keyed by their host address,
 * the value the header stores as its back-pointer.
 */
module AllocationRecord {
  import opened Bytes
  import opened Outcomes
  import opened SymmetricHeap
  import opened Space
  import opened DeepCopy

  /** sizeof(SharedAllocationRecord<void, void>*) on a 64-bit host. */
  const PointerSize: nat := 8

  /** sizeof(SharedAllocationHeader): the back-pointer and the label field fill 128 bytes. */
  const HeaderSize: nat := 128

  /** SharedAllocationHeader::maximum_label_length. */
  const MaximumLabelLength: nat := HeaderSize - PointerSize

  /** The header the record constructor writes: m_record, then strncpy of the label into m_label. */
  function HeaderBytes(record: Word, text: seq<Byte>): seq<Byte>
  {
    ToLE(record, PointerSize) + StrNCpy(text, MaximumLabelLength)
  }

  /** m_record: the record address a header names. */
  function HeaderRecord(header: seq<Byte>): Word
    requires |header| >= PointerSize
  {
    WordBytesAreWord(header[..PointerSize]);
    FromLE(header[..PointerSize])
  }

  /** get_label: the label a header holds, read as a C string within the label field. */
  function HeaderLabel(header: seq<Byte>): seq<Byte>
    requires |header| == HeaderSize
  {
    CString(header[PointerSize..])
  }

  /**
   * A header written for a record names that record, and its label reads back
   * as the given label cut to maximum_label_length bytes.
   */
  lemma HeaderRoundTrip(record: Word, text: seq<Byte>)
    ensures |HeaderBytes(record, text)| == HeaderSize
    ensures HeaderRecord(HeaderBytes(record, text)) == record
    ensures HeaderLabel(HeaderBytes(record, text)) == Truncate(CString(text), MaximumLabelLength)
  {
    var h := HeaderBytes(record, text);
    assert h[..PointerSize] == ToLE(record, PointerSize);
    assert h[PointerSize..] == StrNCpy(text, MaximumLabelLength);
    WordRoundTrip(record);
    StrNCpyCString(text, MaximumLabelLength);
  }

  /** Writing a header with the label read from another header keeps that label. */
  lemma RelabelKeepsLabel(header: seq<Byte>, record: Word)
    requires |header| == HeaderSize
    ensures HeaderLabel(HeaderBytes(record, HeaderLabel(header))) == HeaderLabel(header)
  {
    var c := HeaderLabel(header);
    HeaderRoundTrip(record, c);
    CStringPrefix(header[PointerSize..]);
    CStringOfNoNul(c);
  }

  /**
   * sizeof(SharedAllocationHeader) + arg_alloc_size as the constructor
   * computes it: in size_t, so it wraps for sizes close to SIZE_MAX.
   */
  function AllocationSizeAsWritten(size: Word): Word
  {
    (HeaderSize + size) % WordLimit
  }

  /**
   * For a user size within 64 bytes of SIZE_MAX the block requested is
   * smaller than the header alone, while size() still reports the user size.
   */
  lemma AllocationSizeWraps()
    ensures var size: Word := SizeMax - 63;
            && AllocationSizeAsWritten(size) == 64 < HeaderSize
            && (AllocationSizeAsWritten(size) - HeaderSize) % WordLimit == size
  {
  }

  /**
   * The block size, with the overflow reported: a block always holds the
   * header and exactly the requested payload after it.
   */
  function AllocationSize(size: Word): (r: Result<Word>)
    ensures r.Ok? ==> HeaderSize <= r.value && r.value - HeaderSize == size
    ensures r.Err? ==> r.failure == BadAlloc && AllocationSizeAsWritten(size) < HeaderSize
  {
    if size <= SizeMax - HeaderSize then Ok(HeaderSize + size) else Err(BadAlloc)
  }

  /** The record's state: m_alloc_ptr, m_alloc_size, m_space and the reference count. */
  datatype Record = Record(allocPtr: Ptr, allocSize: Word, space: SHMEMSpace, count: nat)

  /** data(): the payload starts just past the header. */
  function Data(rec: Record): Ptr
  {
    Advance(rec.allocPtr, HeaderSize)
  }

  /** size(): the user size. */
  function UserSize(rec: Record): int
  {
    rec.allocSize - HeaderSize
  }

  /** SharedAllocationHeader::get_header: the header sits at a fixed negative offset from the payload. */
  function HeadOf(p: Ptr): Ptr
  {
    Advance(p, -(HeaderSize as int))
  }

  /** The record owns a live block of its allocation size, starting at its m_alloc_ptr. */
  predicate Owns(blocks: map<Addr, seq<Byte>>, rec: Record)
  {
    && rec.allocPtr.At? && rec.allocPtr.offset == 0
    && rec.allocPtr.base in blocks
    && |blocks[rec.allocPtr.base]| == rec.allocSize
    && HeaderSize <= rec.allocSize
  }

  /**
   * The record table agrees with the heap: records sit below the next host
   * address, never at 0, and each owns a live block of its own.
   */
  ghost predicate Consistent(blocks: map<Addr, seq<Byte>>, recs: map<Word, Record>, nextAddress: nat)
  {
    && 0 < nextAddress <= WordLimit
    && (forall a :: a in recs ==> 0 < a < nextAddress && Owns(blocks, recs[a]))
    && (forall a, b :: a in recs && b in recs && recs[a].allocPtr.base == recs[b].allocPtr.base ==> a == b)
  }

  /** A record placed at the next host address, owning a new block, keeps the table consistent. */
  lemma AddRecordConsistent(blocks: map<Addr, seq<Byte>>, recs: map<Word, Record>, nextAddress: nat,
                            rec: Record, blocks': map<Addr, seq<Byte>>)
    requires Consistent(blocks, recs, nextAddress) && nextAddress < WordLimit
    requires rec.allocPtr.At? && rec.allocPtr.base !in blocks && Owns(blocks', rec)
    requires blocks' == blocks[rec.allocPtr.base := blocks'[rec.allocPtr.base]]
    ensures Consistent(blocks', recs[nextAddress := rec], nextAddress + 1)
  {
    var recs' := recs[nextAddress := rec];
    forall a | a in recs'
      ensures 0 < a < nextAddress + 1 && Owns(blocks', recs'[a])
    {
      if a != nextAddress {
        assert recs'[a] == recs[a] && Owns(blocks, recs[a]);
      }
    }
  }

  /** Rewriting bytes inside live blocks, without changing any block's length, keeps the table consistent. */
  lemma ContentsChangeConsistent(blocks: map<Addr, seq<Byte>>, recs: map<Word, Record>, nextAddress: nat,
                                 blocks': map<Addr, seq<Byte>>)
    requires Consistent(blocks, recs, nextAddress)
    requires blocks'.Keys == blocks.Keys && forall b :: b in blocks ==> |blocks'[b]| == |blocks[b]|
    ensures Consistent(blocks', recs, nextAddress)
  {
    forall a | a in recs
      ensures Owns(blocks', recs[a])
    {
      assert Owns(blocks, recs[a]);
    }
  }

  /** Decrementing one record commutes with adding a different one. */
  lemma ReleaseAfterAdd(recs: map<Word, Record>, o: Word, a: Word, rec: Record)
    requires o in recs && recs[o].count > 0 && a !in recs
    ensures o in recs[a := rec] && Released(recs[a := rec], o) == Released(recs, o)[a := rec]
  {
  }

  /** Freeing one record's block commutes with writing a different block. */
  lemma ReleasedBlocksAfterWrite(blocks: map<Addr, seq<Byte>>, recs: map<Word, Record>, o: Word,
                                 base: Addr, contents: seq<Byte>)
    requires o in recs && recs[o].allocPtr.At? && base != recs[o].allocPtr.base
    ensures ReleasedBlocks(blocks[base := contents], recs, o) == ReleasedBlocks(blocks, recs, o)[base := contents]
  {
  }

  /** Decrementing one record commutes with incrementing a different one. */
  lemma ReleaseAfterRetain(recs: map<Word, Record>, o: Word, a: Word)
    requires o in recs && recs[o].count > 0 && a in recs && a != o
    ensures o in Retained(recs, a)
    ensures Released(Retained(recs, a), o) == Released(recs, o)[a := recs[a].(count := recs[a].count + 1)]
  {
  }

  /** RecordBase::increment. */
  function Retained(recs: map<Word, Record>, a: Word): map<Word, Record>
    requires a in recs
  {
    recs[a := recs[a].(count := recs[a].count + 1)]
  }

  /** RecordBase::decrement of a positive count: the record goes when its count reaches zero. */
  function Released(recs: map<Word, Record>, a: Word): map<Word, Record>
    requires a in recs && recs[a].count > 0
  {
    if recs[a].count == 1 then recs - {a} else recs[a := recs[a].(count := recs[a].count - 1)]
  }

  /** The heap after that decrement: the record's block is freed with it. */
  function ReleasedBlocks(blocks: map<Addr, seq<Byte>>, recs: map<Word, Record>, a: Word): map<Addr, seq<Byte>>
    requires a in recs && recs[a].allocPtr.At?
  {
    if recs[a].count == 1 then blocks - {recs[a].allocPtr.base} else blocks
  }

  /** j successive decrements of record a. */
  function ReleasedTimes(recs: map<Word, Record>, a: Word, j: nat): map<Word, Record>
    requires a in recs && j <= recs[a].count
    decreases j
  {
    if j == 0 then recs
    else
      var next := Released(recs, a);
      if a in next then ReleasedTimes(next, a, j - 1) else next
  }

  /**
   * A record with count c survives any c - 1 decrements, with its count
   * lowered by that many, and is gone after the c-th; no other record is
   * affected.
   */
  lemma {:induction false} ReleaseDiscipline(recs: map<Word, Record>, a: Word, j: nat)
    requires a in recs && 0 < recs[a].count && j <= recs[a].count
    ensures j < recs[a].count ==> ReleasedTimes(recs, a, j) == recs[a := recs[a].(count := recs[a].count - j)]
    ensures j == recs[a].count ==> ReleasedTimes(recs, a, j) == recs - {a}
  {
    if j > 0 {
      var next := Released(recs, a);
      if recs[a].count == 1 {
        assert a !in next && ReleasedTimes(recs, a, j) == next;
      } else {
        assert a in next && ReleasedTimes(recs, a, j) == ReleasedTimes(next, a, j - 1);
        ReleaseDiscipline(next, a, j - 1);
        if j < recs[a].count {
          assert next[a := next[a].(count := next[a].count - (j - 1))] == recs[a := recs[a].(count := recs[a].count - j)];
        } else {
          assert next - {a} == recs - {a};
        }
      }
    }
  }

  /**
   * A tracked allocation (count 1) retained k more times survives k releases
   * and is freed by the next one.
   */
  lemma RetainReleaseBalance(recs: map<Word, Record>, a: Word, k: nat)
    requires a in recs && recs[a].count == 1
    ensures var held := recs[a := recs[a].(count := 1 + k)];
            && a in ReleasedTimes(held, a, k) && ReleasedTimes(held, a, k)[a].count == 1
            && ReleasedTimes(held, a, k + 1) == recs - {a}
  {
    var held := recs[a := recs[a].(count := 1 + k)];
    ReleaseDiscipline(held, a, k);
    ReleaseDiscipline(held, a, k + 1);
    assert held - {a} == recs - {a};
  }

  /**
   * A tracked allocation released once, before anyone retains it, leaves the
   * record table and the heap exactly as they were before it was made.
   */
  lemma TrackedRoundTrip(blocks: map<Addr, seq<Byte>>, recs: map<Word, Record>, a: Word, rec: Record,
                         contents: seq<Byte>)
    requires a !in recs && rec.count == 1 && rec.allocPtr.At? && rec.allocPtr.base !in blocks
    ensures Released(recs[a := rec], a) == recs
    ensures ReleasedBlocks(blocks[rec.allocPtr.base := contents], recs[a := rec], a) == blocks
  {
  }

  /**
   * What reallocating record o to size bytes does to the table and the heap
   * when the new record can be made, at address a: a new record of that size,
   * under o's label, holding o's first min(old size, size) payload bytes, with
   * count one, in a block that did not exist before; and o decremented. The
   * operation succeeds exactly when o's count was positive.
   */
  ghost predicate Reallocation(blocks: map<Addr, seq<Byte>>, recs: map<Word, Record>,
                               blocks': map<Addr, seq<Byte>>, recs': map<Word, Record>,
                               o: Word, a: Word, size: Word, ok: bool)
  {
    && o in recs && Owns(blocks, recs[o])
    && a !in recs && a in recs' && Owns(blocks', recs'[a])
    && var was := recs[o];
       var rec := recs'[a];
       var base := rec.allocPtr.base;
       var kept := Min(UserSize(was), size);
       && (ok <==> was.count > 0)
       && rec.count == 1 && UserSize(rec) == size
       && HeaderLabel(Load(blocks', rec.allocPtr, HeaderSize)) == HeaderLabel(Load(blocks, was.allocPtr, HeaderSize))
       && Load(blocks', Data(rec), kept) == Load(blocks, Data(was), kept)
       && base !in blocks
       && recs' == (if was.count > 0 then Released(recs, o) else recs)[a := rec]
       && blocks' == (if was.count > 0 then ReleasedBlocks(blocks, recs, o) else blocks)[base := blocks'[base]]
  }

  /**
   * Allocating the new record and then moving the payload across (copy,
   * increment of the new record, decrement of the old one) is a reallocation.
   */
  lemma ReallocationComposes(blocks: map<Addr, seq<Byte>>, recs: map<Word, Record>,
                             mid: map<Addr, seq<Byte>>, recsMid: map<Word, Record>,
                             blocks': map<Addr, seq<Byte>>, recs': map<Word, Record>,
                             o: Word, a: Word, size: Word, ok: bool)
    requires o in recs && Owns(blocks, recs[o]) && a !in recs
    // after the allocation
    requires a in recsMid && recsMid == recs[a := recsMid[a]]
    requires Owns(mid, recsMid[a]) && recsMid[a].count == 0 && UserSize(recsMid[a]) == size
    requires recsMid[a].allocPtr.base !in blocks
    requires mid == blocks[recsMid[a].allocPtr.base := mid[recsMid[a].allocPtr.base]]
    requires HeaderLabel(Load(mid, recsMid[a].allocPtr, HeaderSize)) == HeaderLabel(Load(blocks, recs[o].allocPtr, HeaderSize))
    // after the transfer
    requires a in recs' && recs'[a] == recsMid[a].(count := 1) && Owns(blocks', recs'[a])
    requires (ok <==> recs[o].count > 0)
    requires recs' == (if recs[o].count > 0 then Released(recsMid, o) else recsMid)[a := recs'[a]]
    requires blocks' == (if recs[o].count > 0 then ReleasedBlocks(mid, recsMid, o) else mid)
                          [recsMid[a].allocPtr.base := blocks'[recsMid[a].allocPtr.base]]
    requires Load(blocks', recs'[a].allocPtr, HeaderSize) == Load(mid, recs'[a].allocPtr, HeaderSize)
    requires Load(blocks', Data(recs'[a]), Min(UserSize(recs[o]), size))
               == Load(mid, Data(recs[o]), Min(UserSize(recs[o]), size))
    ensures Reallocation(blocks, recs, blocks', recs', o, a, size, ok)
  {
    var was := recs[o];
    var base := recsMid[a].allocPtr.base;
    assert was.allocPtr.base != base;
    assert recsMid[o] == was;
    if was.count > 0 {
      ReleaseAfterAdd(recs, o, a, recsMid[a]);
      ReleasedBlocksAfterWrite(blocks, recs, o, base, mid[base]);
    }
  }

  /**
   * The SharedAllocationRecord<SHMEMSpace, void> objects of one process,
   * with the symmetric heap their blocks come from.
   */
  class Records {
    const heap: Heap
    var records: map<Word, Record>
    var nextAddress: nat   // where operator new places the next record

    ghost predicate Valid()
      reads this, heap
    {
      heap.Valid() && Consistent(heap.blocks, records, nextAddress)
    }

    constructor (heap: Heap)
      requires heap.Valid()
      ensures Valid() && this.heap == heap && records == map[] && nextAddress == 1
    {
      this.heap := heap;
      records := map[];
      nextAddress := 1;
    }

    /** The header of record a still names a. */
    predicate HeaderIntact(a: Word)
      reads this, heap
    {
      && a in records
      && InBlock(heap.blocks, records[a].allocPtr, HeaderSize)
      && HeaderRecord(Load(heap.blocks, records[a].allocPtr, HeaderSize)) == a
    }

    /**
     * get_record: resolves a payload pointer to its record through the header
     * in front of it. A null pointer, and a header whose record does not have
     * that header as m_alloc_ptr, raise the source's runtime error; reading a
     * header outside live memory, or following a null or dangling
     * back-pointer, is undefined there and a failure here.
     */
    function GetRecord(p: Ptr): (r: Result<Word>)
      reads this, heap
      ensures p.Null? ==> r == Err(RuntimeError)
      ensures r.Ok? ==>
                && p.At? && r.value in records
                && records[r.value].allocPtr == HeadOf(p)
                && InBlock(heap.blocks, HeadOf(p), HeaderSize)
                && HeaderRecord(Load(heap.blocks, HeadOf(p), HeaderSize)) == r.value
      ensures p.At? && InBlock(heap.blocks, HeadOf(p), HeaderSize) &&
              HeaderRecord(Load(heap.blocks, HeadOf(p), HeaderSize)) in records &&
              records[HeaderRecord(Load(heap.blocks, HeadOf(p), HeaderSize))].allocPtr != HeadOf(p)
              ==> r == Err(RuntimeError)
    {
      if p.Null? then Err(RuntimeError)
      else
        var head := HeadOf(p);
        if !InBlock(heap.blocks, head, HeaderSize) then Err(Undefined)
        else
          var record := HeaderRecord(Load(heap.blocks, head, HeaderSize));
          // A null back-pointer names no record: record addresses are never 0.
          if record !in records then Err(Undefined)
          else if records[record].allocPtr != head then Err(RuntimeError)
          else Ok(record)
    }

    /** Every record whose header is intact is found from its payload pointer. */
    lemma ResolvesOwnPayload(a: Word)
      requires Valid() && HeaderIntact(a)
      ensures GetRecord(Data(records[a])) == Ok(a)
    {
      assert HeadOf(Data(records[a])) == records[a].allocPtr;
    }

    /** get_record succeeds only on the payload pointer of the record it returns. */
    lemma ResolvesOnlyPayload(p: Ptr, a: Word)
      requires Valid() && GetRecord(p) == Ok(a)
      ensures p == Data(records[a]) && HeaderIntact(a)
    {
    }

    /**
     * allocate: operator new for the record, then the constructor: one block
     * of sizeof(Header) + size bytes from the space, the back-pointer and the
     * truncated label written into its header, a private copy of the space,
     * and a count of zero.
     */
    method Allocate(space: SHMEMSpace, text: seq<Byte>, size: Word) returns (r: Result<Word>)
      requires Valid()
      modifies this, heap
      ensures Valid()
      ensures r == Err(BadAlloc) <==> old(nextAddress) == WordLimit || size > SizeMax - HeaderSize
      ensures r == Err(Abort) <==>
                old(nextAddress) < WordLimit && size <= SizeMax - HeaderSize && space.allocationMode != Symmetric
      ensures r.Err? ==> (r.failure == BadAlloc || r.failure == Abort) && unchanged(this) && heap.blocks == old(heap.blocks)
      ensures r.Ok? ==> r.value in records
      ensures r.Ok? ==>
                var a := r.value;
                var rec := records[a];
                var base := rec.allocPtr.base;
                && a == old(nextAddress) && nextAddress == a + 1
                && a !in old(records) && records == old(records)[a := rec]
                && rec.count == 0 && rec.allocSize == HeaderSize + size && UserSize(rec) == size
                && fresh(rec.space)
                && rec.space.allocationMode == space.allocationMode && rec.space.extent == space.extent
                && base !in old(heap.blocks) && heap.blocks == old(heap.blocks)[base := heap.blocks[base]]
                && Load(heap.blocks, rec.allocPtr, HeaderSize) == HeaderBytes(a, text)
                && HeaderLabel(Load(heap.blocks, rec.allocPtr, HeaderSize)) == Truncate(CString(text), MaximumLabelLength)
                && GetRecord(Data(rec)) == Ok(a)
    {
      if nextAddress == WordLimit {
        return Err(BadAlloc);
      }
      var total := AllocationSize(size);
      if total.Err? {
        return Err(BadAlloc);
      }
      var block := space.Allocate(heap, total.value);
      if block.Err? {
        return Err(block.failure);
      }
      var a: Word := nextAddress;
      var p := block.value;
      ghost var before := heap.blocks;
      HeaderRoundTrip(a, text);
      heap.Store(p, HeaderBytes(a, text));
      var copy := new SHMEMSpace.CopyOf(space);
      var rec := Record(p, total.value, copy, 0);
      SpliceFacts(before[p.base], 0, HeaderBytes(a, text));
      AddRecordConsistent(old(heap.blocks), records, nextAddress, rec, heap.blocks);
      records := records[a := rec];
      nextAddress := nextAddress + 1;
      ResolvesOwnPayload(a);
      r := Ok(a);
    }

    /** RecordBase::increment: the count goes up by one; nothing else changes. */
    method Increment(a: Word)
      requires Valid() && a in records
      modifies this
      ensures Valid()
      ensures records == Retained(old(records), a) && nextAddress == old(nextAddress)
    {
      records := Retained(records, a);
    }

    /**
     * The deallocation hook and the destructor: the record is deleted and its
     * space frees exactly the record's block.
     */
    method Destroy(a: Word)
      requires Valid() && a in records
      modifies this, heap
      ensures Valid()
      ensures records == old(records) - {a} && nextAddress == old(nextAddress)
      ensures heap.blocks == old(heap.blocks) - {old(records[a]).allocPtr.base}
    {
      var rec := records[a];
      rec.space.Deallocate(heap, rec.allocPtr, rec.allocSize);
      records := records - {a};
    }

    /**
     * RecordBase::decrement: the count goes down by one and the record is
     * destroyed when it reaches zero; decrementing a zero count is an error
     * that changes nothing.
     */
    method Decrement(a: Word) returns (r: Result<()>)
      requires Valid() && a in records
      modifies this, heap
      ensures Valid() && nextAddress == old(nextAddress)
      ensures old(records[a].count) == 0 ==> r == Err(RuntimeError) && unchanged(this) && unchanged(heap)
      ensures old(records[a].count) > 0 ==>
                && r == Ok(())
                && records == Released(old(records), a)
                && heap.blocks == ReleasedBlocks(old(heap.blocks), old(records), a)
    {
      var count := records[a].count;
      if count == 0 {
        return Err(RuntimeError);
      } else if count == 1 {
        Destroy(a);
      } else {
        records := records[a := records[a].(count := count - 1)];
      }
      r := Ok(());
    }

    /**
     * allocate_tracked: a zero size gives null and creates nothing; otherwise
     * the payload pointer of a new record whose count is one.
     */
    method AllocateTracked(space: SHMEMSpace, text: seq<Byte>, size: Word) returns (r: Result<Ptr>)
      requires Valid()
      modifies this, heap
      ensures Valid()
      ensures size == 0 ==> r == Ok(Null) && unchanged(this) && unchanged(heap)
      ensures size > 0 ==>
                (r == Err(BadAlloc) <==> old(nextAddress) == WordLimit || size > SizeMax - HeaderSize)
      ensures size > 0 ==>
                (r == Err(Abort) <==>
                   old(nextAddress) < WordLimit && size <= SizeMax - HeaderSize && space.allocationMode != Symmetric)
      ensures r.Err? ==> (r.failure == BadAlloc || r.failure == Abort) && unchanged(this) && heap.blocks == old(heap.blocks)
      ensures size > 0 && r.Ok? ==>
                && GetRecord(r.value) == Ok(old(nextAddress))
                && nextAddress == old(nextAddress) + 1
                && var a := old(nextAddress);
                   var rec := records[a];
                   var base := rec.allocPtr.base;
                   && a !in old(records) && records == old(records)[a := rec]
                   && r.value == Data(rec)
                   && rec.count == 1 && UserSize(rec) == size
                   && fresh(rec.space)
                   && rec.space.allocationMode == space.allocationMode && rec.space.extent == space.extent
                   && base !in old(heap.blocks) && heap.blocks == old(heap.blocks)[base := heap.blocks[base]]
                   && HeaderLabel(Load(heap.blocks, rec.allocPtr, HeaderSize)) == Truncate(CString(text), MaximumLabelLength)
    {
      if size == 0 {
        return Ok(Null);
      }
      var made := Allocate(space, text, size);
      if made.Err? {
        return Err(made.failure);
      }
      Increment(made.value);
      r := Ok(Data(records[made.value]));
    }

    /**
     * deallocate_tracked: null is ignored; otherwise the pointer is resolved
     * and exactly the resolved record is decremented.
     */
    method DeallocateTracked(p: Ptr) returns (r: Result<()>)
      requires Valid()
      modifies this, heap
      ensures Valid() && nextAddress == old(nextAddress)
      ensures p.Null? ==> r == Ok(()) && unchanged(this) && unchanged(heap)
      ensures p.At? && old(GetRecord(p)).Err? ==>
                r == Err(old(GetRecord(p)).failure) && unchanged(this) && unchanged(heap)
      ensures p.At? && old(GetRecord(p)).Ok? && old(records[GetRecord(p).value].count) == 0 ==>
                r == Err(RuntimeError) && unchanged(this) && unchanged(heap)
      ensures p.At? && old(GetRecord(p)).Ok? && old(records[GetRecord(p).value].count) > 0 ==>
                && r == Ok(())
                && records == Released(old(records), old(GetRecord(p)).value)
                && heap.blocks == ReleasedBlocks(old(heap.blocks), old(records), old(GetRecord(p)).value)
    {
      if p.At? {
        var found := GetRecord(p);
        if found.Err? {
          return Err(found.failure);
        }
        r := Decrement(found.value);
      } else {
        r := Ok(());
      }
    }
    /**
     * reallocate_tracked: resolves the old record, allocates a new record of
     * the requested size in a copy of the old record's space under the old
     * label, copies min(old size, new size) payload bytes across, then
     * increments the new record and decrements the old one.
     */
    method ReallocateTracked(p: Ptr, size: Word) returns (r: Result<Ptr>)
      requires Valid()
      modifies this, heap
      ensures Valid()
      ensures old(GetRecord(p)).Err? ==>
                r == Err(old(GetRecord(p)).failure) && unchanged(this) && unchanged(heap)
      ensures old(GetRecord(p)).Ok? ==>
                var o := old(GetRecord(p)).value;
                && p == old(Data(records[o]))
                && (r == Err(BadAlloc) <==> old(nextAddress) == WordLimit || size > SizeMax - HeaderSize)
                && (r == Err(Abort) <==>
                      && old(nextAddress) < WordLimit && size <= SizeMax - HeaderSize
                      && old(records[o].space.allocationMode) != Symmetric)
                && (r == Err(BadAlloc) || r == Err(Abort) ==> unchanged(this) && heap.blocks == old(heap.blocks))
      ensures old(GetRecord(p)).Ok? && r != Err(BadAlloc) && r != Err(Abort) ==>
                var o := old(GetRecord(p)).value;
                var a := old(nextAddress);
                && (r.Err? ==> r.failure == RuntimeError)
                && Reallocation(old(heap.blocks), old(records), heap.blocks, records, o, a, size, r.Ok?)
                && nextAddress == a + 1
                && fresh(records[a].space)
                && records[a].space.allocationMode == old(records[o].space.allocationMode)
                && records[a].space.extent == old(records[o].space.extent)
                && (r.Ok? ==> r.value == Data(records[a]) && GetRecord(r.value) == Ok(a))
    {
      var found := GetRecord(p);
      if found.Err? {
        return Err(found.failure);
      }
      var o := found.value;
      var was := records[o];
      ResolvesOnlyPayload(p, o);
      var oldLabel := HeaderLabel(Load(heap.blocks, was.allocPtr, HeaderSize));
      var made := Allocate(was.space, oldLabel, size);
      if made.Err? {
        return Err(made.failure);
      }
      var a := made.value;
      var rec := records[a];
      ghost var afterAlloc := heap.blocks;
      ghost var recsAfterAlloc := records;
      RelabelKeepsLabel(Load(old(heap.blocks), was.allocPtr, HeaderSize), a);
      var kept := Min(UserSize(was), UserSize(rec));
      var moved := Transfer(o, a, kept);
      ReallocationComposes(old(heap.blocks), old(records), afterAlloc, recsAfterAlloc, heap.blocks, records,
                           o, a, size, moved.Ok?);
      if moved.Err? {
        return Err(moved.failure);
      }
      ResolvesOwnPayload(a);
      r := Ok(Data(rec));
    }

    /**
     * The tail of reallocate_tracked: copies n payload bytes from record o to
     * the new record a, increments a, then decrements o.
     */
    method Transfer(o: Word, a: Word, n: nat) returns (r: Result<()>)
      requires Valid() && o in records && a in records && o != a
      requires records[a].count == 0
      requires n <= UserSize(records[a]) && n <= UserSize(records[o])
      modifies this, heap
      ensures Valid() && nextAddress == old(nextAddress)
      ensures (r.Ok? <==> old(records[o].count) > 0) && (r.Err? ==> r.failure == RuntimeError)
      ensures a in records && records[a] == old(records[a]).(count := 1)
      ensures var base := old(records[a]).allocPtr.base;
              && base in heap.blocks
              && records == (if old(records[o].count) > 0 then Released(old(records), o) else old(records))[a := records[a]]
              && heap.blocks ==
                   (if old(records[o].count) > 0 then ReleasedBlocks(old(heap.blocks), old(records), o)
                    else old(heap.blocks))[base := heap.blocks[base]]
              && Load(heap.blocks, records[a].allocPtr, HeaderSize) == Load(old(heap.blocks), records[a].allocPtr, HeaderSize)
              && Load(heap.blocks, Data(records[a]), n) == Load(old(heap.blocks), Data(old(records[o])), n)
    {
      var base := records[a].allocPtr.base;
      CopyPayload(a, o, n);
      ghost var copied := heap.blocks;
      assert copied == old(heap.blocks)[base := copied[base]];
      Increment(a);
      if old(records[o].count) > 0 {
        ReleaseAfterRetain(old(records), o, a);
        ReleasedBlocksAfterWrite(old(heap.blocks), old(records), o, base, copied[base]);
        assert ReleasedBlocks(copied, records, o) == ReleasedBlocks(copied, old(records), o);
      }
      r := Decrement(o);
    }

    /**
     * The SHMEM-to-SHMEM DeepCopy of reallocation: n bytes from the payload
     * of record src to the payload of record dst. Only dst's payload changes.
     */
    method CopyPayload(dst: Word, src: Word, n: nat)
      requires Valid() && dst in records && src in records && dst != src
      requires n <= UserSize(records[dst]) && n <= UserSize(records[src])
      modifies heap
      ensures Valid()
      ensures var base := records[dst].allocPtr.base;
              && heap.blocks.Keys == old(heap.blocks).Keys
              && (forall b :: b in heap.blocks && b != base ==> heap.blocks[b] == old(heap.blocks)[b])
              && Load(heap.blocks, records[dst].allocPtr, HeaderSize) == Load(old(heap.blocks), records[dst].allocPtr, HeaderSize)
              && Load(heap.blocks, Data(records[dst]), n) == Load(old(heap.blocks), Data(records[src]), n)
    {
      var to := records[dst];
      var from := records[src];
      CopyWithinShmem(heap, Data(to), Data(from), n);
      SpliceFacts(old(heap.blocks)[to.allocPtr.base], HeaderSize, Load(old(heap.blocks), Data(from), n));
      ContentsChangeConsistent(old(heap.blocks), records, nextAddress, heap.blocks);
    }
  }
}

/** The accounting wrappers of alloc.c over the small-memory manager (the build in which the size
    of a block comes from memAllocSize, so that no prefix is added). */
module Alloc {
  import opened Utils
  import opened HeapSpec
  import opened Heap

  const SIZEOF_LONG: nat := 8

  function MallocMinSize(x: nat): nat {
    if x > 0 then x else SIZEOF_LONG
  }

  class Zmalloc {
    const manager: MemManager
    var usedMemory: nat

    /** All traffic goes through the wrappers: the bytes they count, plus one header for each live
        block, are the bytes the manager counts. */
    ghost predicate Valid()
      reads this, manager, manager.heap
    {
      manager.Valid() && usedMemory + SIZEOF_STRUCT_MEM * UsedCount(manager.bs) == manager.used
    }

    constructor (size: nat)
      requires 0 < size && size % MEM_ALIGNMENT == 0
      ensures Valid() && usedMemory == 0 && fresh(manager) && fresh(manager.heap)
    {
      manager := new MemManager(size);
      usedMemory := 0;
    }

    /** ztrymalloc_usable; usable is 0 with None. What is given covers the request, and exceeds it by less
        than the rounding and a rest that could not stand alone. */
    method TryMallocUsable(request: nat) returns (ptr: Option<nat>, usable: nat)
      requires Valid() && request <= SIZE_MAX
      modifies this, manager, manager.heap
      ensures Valid()
      ensures ptr.None? ==> usable == 0 && usedMemory == old(usedMemory) && manager.bs == old(manager.bs)
      ensures var n := Rounded(if request > 0 then request else SIZEOF_LONG);
              ptr.None? <==> request >= SIZE_MAX / 2 || NoneFits(old(manager.bs), manager.heapEnd, n)
      ensures ptr.Some? ==> usable >= request && usable >= MIN_SIZE_ALIGNED && usedMemory == old(usedMemory) + usable
      ensures ptr.Some? ==> usable < LEAST_REST + MIN_SIZE_ALIGNED || usable < LEAST_REST + request + MEM_ALIGNMENT
      ensures ptr.Some? ==> UsedCount(manager.bs) == UsedCount(old(manager.bs)) + 1
      ensures var n := Rounded(if request > 0 then request else SIZEOF_LONG);
              ptr.Some? ==>
                exists i :: 0 <= i < |old(manager.bs)| && Fits(old(manager.bs), manager.heapEnd, i, n)
                  && manager.GetsOne(old(manager.bs), manager.bs, i, n)
                  && ptr.value == manager.bs[i].off + SIZEOF_STRUCT_MEM
                  && usable == Payload(manager.bs, manager.heapEnd, i)
    {
      hide UsedBytes, UsedCount, LowestFree, Tiling, Live;
      usable := 0;
      if request >= SIZE_MAX / 2 {
        return None, 0;
      }
      ghost var b, end := manager.bs, manager.heapEnd;
      var size := MallocMinSize(request);
      RoundedCovers(size);
      ptr := manager.MemAlloc(size);
      if ptr.None? {
        return;
      }
      ghost var i: nat :| i < |b| && Fits(b, end, i, Rounded(size)) && manager.bs == AllocAt(b, end, i, Rounded(size))
                          && ptr.value == b[i].off + SIZEOF_STRUCT_MEM;
      manager.AllocGetsOne(b, i, Rounded(size));
      AllocBytes(b, end, i, Rounded(size));
      usable := manager.MemAllocSize(ptr, i);
      usedMemory := usedMemory + usable;
    }

    /** zfree of NULL or of a live payload. */
    method Zfree(ptr: Option<nat>, ghost i: nat)
      requires Valid()
      requires ptr.Some? ==> i < |manager.bs| && manager.bs[i].used && ptr.value == manager.bs[i].off + SIZEOF_STRUCT_MEM
      modifies this, manager, manager.heap
      ensures Valid()
      ensures ptr.None? ==> usedMemory == old(usedMemory) && manager.bs == old(manager.bs)
      ensures ptr.Some? ==> manager.bs == FreeAt(old(manager.bs), i)
      ensures ptr.Some? ==>
                var size := Payload(old(manager.bs), manager.heapEnd, i);
                && usedMemory == old(usedMemory) - size
                && Live(manager.bs, manager.heapEnd)
                   == Live(old(manager.bs), manager.heapEnd) - {(ptr.value - SIZEOF_STRUCT_MEM, size)}
    {
      if ptr.None? {
        return;
      }
      hide UsedBytes, LowestFree, Live;
      FreeBytes(manager.bs, manager.heapEnd, i);
      CountsFit(i);
      var size := manager.MemAllocSize(ptr, i);
      usedMemory := usedMemory - size;
      manager.MemFree(ptr, i);
    }

    /** The wrappers never count less than a live block holds. */
    lemma CountsFit(i: nat)
      requires Valid() && i < |manager.bs| && manager.bs[i].used
      ensures Payload(manager.bs, manager.heapEnd, i) <= usedMemory
    {
      FreeBytes(manager.bs, manager.heapEnd, i);
      FreeKeepsHeap(manager.bs, manager.heapEnd, i);
      HeadersCounted(FreeAt(manager.bs, i), manager.heapEnd);
    }
  }
}

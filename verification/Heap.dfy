/** The small-memory manager of mem.c: block headers kept in place in the heap, linked by offsets.
    heap[p] stands for the header struct at byte offset p; payload bytes are not modelled. */
module Heap {
  import opened Utils
  import opened HeapSpec

  datatype Header = Header(prev: nat, next: nat, used: bool)

  class MemManager {
    const heap: array<Header>
    const memSizeAligned: nat
    const heapEnd: nat  // MEM_SIZE_ALIGNED + SIZEOF_STRUCT_MEM, the offset of the last entry
    var heapFree: nat
    var err: nat
    var used: nat
    var max: nat

    ghost var bs: seq<Block>

    function Prev(b: seq<Block>, i: nat): nat
      requires i < |b|
    {
      if i == 0 then 0 else b[i - 1].off
    }

    /** The header of block i says what the tiling says. */
    ghost predicate HeaderOk(b: seq<Block>, i: nat)
      requires i < |b|
      reads heap
    {
      b[i].off < heap.Length && heap[b[i].off] == Header(Prev(b, i), Next(b, heapEnd, i), b[i].used)
    }

    ghost predicate Linked(b: seq<Block>)
      reads heap
    {
      forall i {:trigger HeaderOk(b, i)} :: 0 <= i < |b| ==> HeaderOk(b, i)
    }

    ghost predicate Valid()
      reads this, heap
    {
      && heapEnd == memSizeAligned + SIZEOF_STRUCT_MEM && heap.Length == heapEnd + 1
      && heap[heapEnd].next == heapEnd
      && HeapOk(bs, heapEnd) && Linked(bs)
      && heapFree == LowestFree(bs, heapEnd)
      && used == UsedBytes(bs, heapEnd) && used <= max
    }

    /** memInit: one free block and the end entry. */
    constructor (size: nat)
      requires 0 < size && size % MEM_ALIGNMENT == 0
      ensures Valid() && memSizeAligned == size && bs == [Block(0, false)]
      ensures used == 0 && max == 0 && err == 0 && heapFree == 0
      ensures fresh(heap)
    {
      memSizeAligned := size;
      heapEnd := size + SIZEOF_STRUCT_MEM;
      heap := new Header[size + SIZEOF_STRUCT_MEM + 1](_ => Header(0, 0, false));
      heapFree, err, used, max := 0, 0, 0, 0;
      bs := [Block(0, false)];
      new;
      heap[0] := Header(0, size + SIZEOF_STRUCT_MEM, false);
      heap[heapEnd] := Header(heapEnd, heapEnd, false);
    }

    /** Offsets of different blocks differ and lie below the end. */
    lemma Apart(b: seq<Block>, i: nat)
      requires Tiling(b, heapEnd) && i < |b|
      ensures b[i].off + SIZEOF_STRUCT_MEM < Next(b, heapEnd, i) <= heapEnd
      ensures forall k :: 0 <= k < |b| && k != i ==> b[k].off != b[i].off
    {
      Ordered(b, heapEnd, i, |b|);
      if i + 1 < |b| {
        Ordered(b, heapEnd, i + 1, |b|);
      }
      forall k | 0 <= k < |b| && k != i
        ensures b[k].off != b[i].off
      {
        if k < i {
          Ordered(b, heapEnd, k, i);
        } else {
          Ordered(b, heapEnd, i, k);
        }
      }
    }

    /** One live block has come into being where block i was, for a request of size bytes. It has no more than a
        rest that could not stand alone, and exactly size bytes if the rest could; the other live blocks are
        what they were. */
    ghost predicate GetsOne(b: seq<Block>, b': seq<Block>, i: nat, size: nat)
      requires i < |b|
    {
      && i < |b'| && b'[i] == Block(b[i].off, true)
      && var p := Payload(b', heapEnd, i);
      && Live(b', heapEnd) == Live(b, heapEnd) + {(b[i].off, p)}
      && size <= p < size + LEAST_REST && (Payload(b, heapEnd, i) >= size + LEAST_REST ==> p == size)
    }

    lemma AllocGetsOne(b: seq<Block>, i: nat, size: nat)
      requires i < |b| && Fits(b, heapEnd, i, size)
      ensures GetsOne(b, AllocAt(b, heapEnd, i, size), i, size)
    {
      AllocTakes(b, heapEnd, i, size);
      AllocHere(b, heapEnd, i, size);
      LiveAfterAlloc(b, heapEnd, i, size);
    }

    /** memAlloc. The result is the payload offset, or None for NULL. */
    method MemAlloc(request: nat) returns (ptr: Option<nat>)
      requires Valid() && request <= SIZE_MAX
      modifies this, heap
      ensures Valid()
      ensures ptr.None? <==>
                request == 0 || NoneFits(old(bs), heapEnd, Rounded(request))
      ensures ptr.None? ==> bs == old(bs) && used == old(used) && heapFree == old(heapFree) && max == old(max)
      ensures ptr.None? ==> err == old(err) + (if request != 0 && Rounded(request) <= memSizeAligned then 1 else 0)
      ensures ptr.Some? ==>
                exists i :: 0 <= i < |old(bs)| && Fits(old(bs), heapEnd, i, Rounded(request))
                  && (forall k :: 0 <= k < i ==> !Fits(old(bs), heapEnd, k, Rounded(request)))
                  && bs == AllocAt(old(bs), heapEnd, i, Rounded(request))
                  && ptr.value == old(bs)[i].off + SIZEOF_STRUCT_MEM
                  && GetsOne(old(bs), bs, i, Rounded(request))
      ensures ptr.Some? ==> err == old(err) && max == if old(max) < used then used else old(max)
    {
      hide GetsOne;
      if request == 0 {
        return None;
      }
      var size := Rounded(request);
      RoundedCovers(request);
      if size > memSizeAligned {
        NoneThatLarge(size);
        return None;
      }
      ghost var i: nat := LowestFreeIndex(bs, heapEnd);
      var p := heapFree;
      while p <= memSizeAligned - size
        invariant unchanged(this) && unchanged(heap)
        invariant i <= |bs| && p == (if i < |bs| then bs[i].off else heapEnd)
        invariant forall k :: 0 <= k < i ==> !Fits(bs, heapEnd, k, size)
        decreases heapEnd - p
      {
        Apart(bs, i);
        assert HeaderOk(bs, i);
        var mem := heap[p];
        if !mem.used && mem.next - (p + SIZEOF_STRUCT_MEM) >= size {
          Take(p, size, i);
          return Some(p + SIZEOF_STRUCT_MEM);
        }
        p := mem.next;
        i := i + 1;
      }
      NothingBehind(i, size);
      err := err + 1;
      return None;
    }

    lemma NoneThatLarge(size: nat)
      requires Valid() && size > memSizeAligned
      ensures NoneFits(bs, heapEnd, size)
    {
      forall k | 0 <= k < |bs|
        ensures !Fits(bs, heapEnd, k, size)
      {
        Apart(bs, k);
      }
    }

    /** The scan may stop at memSizeAligned - size: nothing behind it is large enough. */
    lemma NothingBehind(i: nat, size: nat)
      requires Tiling(bs, heapEnd) && heapEnd == memSizeAligned + SIZEOF_STRUCT_MEM && i <= |bs|
      requires (if i < |bs| then bs[i].off else heapEnd) > memSizeAligned - size
      ensures forall k :: i <= k < |bs| ==> !Fits(bs, heapEnd, k, size)
    {
      forall k | i <= k < |bs|
        ensures !Fits(bs, heapEnd, k, size)
      {
        Apart(bs, k);
        if i < k {
          Ordered(bs, heapEnd, i, k);
        }
      }
    }

    /** Splits block i, at offset p, behind a payload of size bytes. */
    method Split(p: nat, size: nat, ghost b: seq<Block>, ghost i: nat)
      requires Tiling(b, heapEnd) && Linked(b) && heap.Length == heapEnd + 1 && heap[heapEnd].next == heapEnd
      requires i < |b| && b[i].off == p && Splits(b, heapEnd, i, size)
      modifies heap
      ensures Linked(AllocAt(b, heapEnd, i, size)) && heap[heapEnd].next == heapEnd
    {
      Apart(b, i);
      assert HeaderOk(b, i);
      var mem := heap[p];
      var p2 := p + SIZEOF_STRUCT_MEM + size;
      heap[p2] := Header(p, mem.next, false);
      heap[p] := Header(mem.prev, p2, true);
      if mem.next != heapEnd {
        heap[mem.next] := Header(p2, heap[mem.next].next, heap[mem.next].used);
      }
      ghost var b' := AllocAt(b, heapEnd, i, size);
      forall k | 0 <= k < |b'|
        ensures HeaderOk(b', k)
      {
        if k < i {
          assert old(HeaderOk(b, k));
          Ordered(b, heapEnd, k, i);
        } else if k > i + 1 {
          assert old(HeaderOk(b, k - 1));
          Ordered(b, heapEnd, i, k - 1);
          Apart(b, k - 1);
        }
      }
    }

    /** Flags block i, at offset p, as used or free. */
    method Flag(p: nat, u: bool, ghost b: seq<Block>, ghost i: nat)
      requires Tiling(b, heapEnd) && Linked(b) && heap.Length == heapEnd + 1 && heap[heapEnd].next == heapEnd
      requires i < |b| && b[i].off == p
      modifies heap
      ensures Linked(b[i := Block(p, u)]) && heap[heapEnd].next == heapEnd
    {
      Apart(b, i);
      assert HeaderOk(b, i);
      heap[p] := Header(heap[p].prev, heap[p].next, u);
      ghost var b' := b[i := Block(p, u)];
      forall k | 0 <= k < |b'|
        ensures HeaderOk(b', k)
      {
        assert old(HeaderOk(b, k));
      }
    }

    /** Moves the cached pointer from block i to the next free block. */
    method AdvanceFree(ghost i: nat)
      requires Tiling(bs, heapEnd) && Linked(bs)
      requires i < |bs| && heapFree == bs[i].off && forall k :: 0 <= k < i ==> bs[k].used
      requires heap.Length == heapEnd + 1
      modifies this`heapFree
      ensures heapFree == LowestFree(bs, heapEnd)
    {
      ghost var j := i;
      var cur := heapFree;
      assert HeaderOk(bs, i);
      Apart(bs, i);
      while heap[cur].used && cur != heapEnd
        invariant i <= j <= |bs| && cur == (if j < |bs| then bs[j].off else heapEnd)
        invariant cur < heap.Length && (j < |bs| ==> heap[cur].used == bs[j].used && cur != heapEnd)
        invariant forall k :: 0 <= k < j ==> bs[k].used
        decreases |bs| - j
      {
        assert HeaderOk(bs, j);
        cur := heap[cur].next;
        j := j + 1;
        if j < |bs| {
          assert HeaderOk(bs, j);
          Apart(bs, j);
        }
      }
      heapFree := cur;
      LowestFreeIs(bs, heapEnd, j);
    }

    lemma FreePointer(b: seq<Block>, i: nat, size: nat)
      requires Tiling(b, heapEnd) && i < |b| && Fits(b, heapEnd, i, size)
      ensures LowestFree(b, heapEnd) == b[i].off ==> forall k :: 0 <= k < i ==> b[k].used
      ensures LowestFree(b, heapEnd) != b[i].off ==>
                LowestFree(AllocAt(b, heapEnd, i, size), heapEnd) == LowestFree(b, heapEnd)
    {
      var j := LowestFreeIndex(b, heapEnd);
      if j < i {
        Apart(b, i);
        var b' := AllocAt(b, heapEnd, i, size);
        assert forall k :: 0 <= k < i ==> b'[k] == b[k];
        LowestFreeIs(b', heapEnd, j);
      }
    }

    /** The part of memAlloc that takes block i, at offset p, for a payload of size bytes. */
    method Take(p: nat, size: nat, ghost i: nat)
      requires Valid() && i < |bs| && bs[i].off == p && Fits(bs, heapEnd, i, size)
      requires size % MEM_ALIGNMENT == 0 && size >= MIN_SIZE_ALIGNED
      modifies this`heapFree, this`used, this`max, this`bs, heap
      ensures Valid() && bs == AllocAt(old(bs), heapEnd, i, size) && GetsOne(old(bs), bs, i, size)
      ensures max == if old(max) < used then used else old(max)
    {
      hide LowestFree, UsedBytes, GetsOne;
      ghost var b := AllocAt(bs, heapEnd, i, size);
      AllocGetsOne(bs, i, size);
      AllocKeepsHeap(bs, heapEnd, i, size);
      AllocBytes(bs, heapEnd, i, size);
      FreePointer(bs, i, size);
      Apart(bs, i);
      assert HeaderOk(bs, i);
      var mem := heap[p];
      if mem.next - (p + SIZEOF_STRUCT_MEM) >= size + SIZEOF_STRUCT_MEM + MIN_SIZE_ALIGNED {
        Split(p, size, bs, i);
        used := used + size + SIZEOF_STRUCT_MEM;
      } else {
        assert b == bs[i := Block(p, true)];
        Flag(p, true, bs, i);
        used := used + mem.next - p;
      }
      if max < used {
        max := used;
      }
      bs := b;
      if p == heapFree {
        AdvanceFree(i);
      }
    }

    /** memAllocSize of a live payload. */
    method MemAllocSize(ptr: Option<nat>, ghost i: nat) returns (size: nat)
      requires Valid()
      requires ptr.Some? ==> i < |bs| && bs[i].used && ptr.value == bs[i].off + SIZEOF_STRUCT_MEM
      ensures ptr.None? ==> size == 0
      ensures ptr.Some? ==> size == Payload(bs, heapEnd, i)
    {
      if ptr.None? {
        return 0;
      }
      assert HeaderOk(bs, i);
      Apart(bs, i);
      var mem := ptr.value - SIZEOF_STRUCT_MEM;
      return heap[mem].next - mem - SIZEOF_STRUCT_MEM;
    }

    /** memFree of NULL or of a live payload; i says which block it belongs to. */
    method MemFree(ptr: Option<nat>, ghost i: nat)
      requires Valid()
      requires ptr.Some? ==> i < |bs| && bs[i].used && ptr.value == bs[i].off + SIZEOF_STRUCT_MEM
      modifies this, heap
      ensures Valid() && max == old(max) && err == old(err)
      ensures bs == if ptr.None? then old(bs) else FreeAt(old(bs), i)
      ensures ptr.Some? ==>
                Live(bs, heapEnd) == Live(old(bs), heapEnd) - {(old(bs)[i].off, Payload(old(bs), heapEnd, i))}
    {
      if ptr.None? {
        return;
      }
      hide LowestFree, UsedBytes, NoFreeNeighbours, FreeAt, BlockOk, Live;
      ghost var b := FreeAt(bs, i);
      FreeKeepsHeap(bs, heapEnd, i);
      FreeBytes(bs, heapEnd, i);
      HeadersCounted(b, heapEnd);
      Apart(bs, i);
      assert HeaderOk(bs, i);
      var mem := ptr.value - SIZEOF_STRUCT_MEM;
      ghost var b0 := bs[i := Block(mem, false)];
      FlagKeepsTiling(bs, heapEnd, i, false);
      LowestFreeAfterFlag(bs, heapEnd, i);
      Flag(mem, false, bs, i);
      if mem < heapFree {
        heapFree := mem;
      }
      assert HeaderOk(b0, i);
      used := used - (heap[mem].next - mem);
      bs := b0;
      FreeAtFlagged(old(bs), i);
      LiveAfterFree(old(bs), heapEnd, i);
      MemPlugHoles(mem, i);
    }

    /** Block i, at offset p, swallows block i + 1, at offset q. */
    method Join(p: nat, q: nat, ghost b: seq<Block>, ghost i: nat)
      requires Tiling(b, heapEnd) && Linked(b) && heap.Length == heapEnd + 1 && heap[heapEnd].next == heapEnd
      requires i + 1 < |b| && b[i].off == p && b[i + 1].off == q
      modifies heap
      ensures Linked(Without(b, i + 1)) && heap[heapEnd].next == heapEnd
    {
      Apart(b, i);
      Apart(b, i + 1);
      assert HeaderOk(b, i) && HeaderOk(b, i + 1);
      var r := heap[q].next;
      heap[p] := Header(heap[p].prev, r, heap[p].used);
      if r != heapEnd {
        heap[r] := Header(p, heap[r].next, heap[r].used);
      }
      ghost var b' := Without(b, i + 1);
      forall k | 0 <= k < |b'|
        ensures HeaderOk(b', k)
      {
        if k < i {
          assert old(HeaderOk(b, k));
        } else if k > i {
          assert old(HeaderOk(b, k + 1));
          Apart(b, k + 1);
        }
        if k < i {
          Ordered(b, heapEnd, k, i + 1);
        }
      }
    }

    /** memPlugHoles for block i, at offset mem, which has just become free. */
    method MemPlugHoles(mem: nat, ghost i: nat)
      requires Tiling(bs, heapEnd) && Linked(bs) && heap.Length == heapEnd + 1 && heap[heapEnd].next == heapEnd
      requires heapFree == LowestFree(bs, heapEnd)
      requires i < |bs| && bs[i] == Block(mem, false)
      modifies this`heapFree, this`bs, heap
      ensures Linked(bs) && heapFree == LowestFree(bs, heapEnd) && heap[heapEnd].next == heapEnd
      ensures bs == FreeAt(old(bs), i)
    {
      hide LowestFree;
      assert bs[i := Block(mem, false)] == bs;
      Apart(bs, i);
      assert HeaderOk(bs, i);
      var nmem := heap[mem].next;
      if i + 1 < |bs| {
        assert HeaderOk(bs, i + 1);
        Apart(bs, i + 1);
        LowestFreeAfterMerge(bs, heapEnd, i);
      }
      if mem != nmem && !heap[nmem].used && nmem != heapEnd {
        if heapFree == nmem {
          heapFree := mem;
        }
        NotLowest(bs, i);
        Join(mem, nmem, bs, i);
        WithoutKeepsTiling(bs, heapEnd, i + 1);
        bs := Without(bs, i + 1);
      }
      Apart(bs, i);
      assert HeaderOk(bs, i);
      var pmem := heap[mem].prev;
      if 0 < i {
        assert HeaderOk(bs, i - 1);
        Apart(bs, i - 1);
        if !bs[i - 1].used {
          LowestFreeAfterMerge(bs, heapEnd, i - 1);
        }
      }
      if pmem != mem && !heap[pmem].used {
        if heapFree == mem {
          heapFree := pmem;
        }
        NotLowest(bs, i - 1);
        Join(pmem, mem, bs, i - 1);
        bs := Without(bs, i);
      }
    }

    /** A free block behind a free block is not the lowest. */
    lemma NotLowest(b: seq<Block>, i: nat)
      requires Tiling(b, heapEnd) && i + 1 < |b| && !b[i].used
      ensures LowestFree(b, heapEnd) != b[i + 1].off
    {
      var j := LowestFreeIndex(b, heapEnd);
      Ordered(b, heapEnd, j, i + 1);
    }
  }
}

/** The single-producer single-consumer ring queue (lfqueue.c, lfqueue.h). Elements are abstract
    values; masking with size - 1 is the remainder by size, which is a power of two. */
module Lfqueues {
  import opened Utils
  import opened Bits

  /** uint32_t subtraction of the free-running counters. */
  function Sub32(a: nat, b: nat): nat {
    Low32(a + TWO_32 - Low32(b))
  }

  lemma Sub32OfCounters(a: nat, b: nat)
    requires b <= a < b + TWO_32
    ensures Sub32(Low32(a), Low32(b)) == a - b
  {
    assert a % TWO_32 + TWO_32 - b % TWO_32 == (a - b) + TWO_32 * (1 + b / TWO_32 - a / TWO_32);
    ModUnique(a % TWO_32 + TWO_32 - b % TWO_32, TWO_32, 1 + b / TWO_32 - a / TWO_32, a - b);
  }

  lemma Sum32(total: nat, n: nat)
    ensures Low32(Low32(total) + n) == Low32(total + n)
  {
    AddToSlot(total, n, TWO_32);
  }

  /** i is one of the n slots from offset on, going round the end of the ring. */
  predicate InRun(i: nat, offset: nat, n: nat, size: nat) {
    offset <= i < offset + n || i + size < offset + n
  }

  /** The ring holds contents from element number first on. */
  ghost predicate Holds<T>(ring: seq<T>, size: nat, first: nat, contents: seq<T>) {
    && 0 < size <= |ring|
    && forall k {:trigger contents[k]} :: 0 <= k < |contents| ==> ring[Slot(first + k, size)] == contents[k]
  }

  /** A slot in use is none of the n slots behind the last element put. */
  lemma OtherSlot(i: nat, total: nat, n: nat, size: nat)
    requires 0 < size && i < total && total + n <= i + size
    ensures !InRun(Slot(i, size), Slot(total, size), n, size)
  {
    var x, offset := Slot(i, size), Slot(total, size);
    hide Slot;
    if InRun(x, offset, n, size) {
      var j := if x >= offset then x - offset else x - offset + size;
      SplitIsSlot(total, j, size);
      SlotsDiffer(i, total + j, size);
    }
  }

  lemma HoldsAfterPut<T>(ring: seq<T>, ring': seq<T>, size: nat, first: nat, contents: seq<T>, src: seq<T>)
    requires Holds(ring, size, first, contents) && |ring'| == |ring| && |contents| + |src| <= size
    requires var offset := Slot(first + |contents|, size);
             && (forall j :: 0 <= j < |src| ==> ring'[SplitSlot(offset, j, size)] == src[j])
             && (forall i :: 0 <= i < size && !InRun(i, offset, |src|, size) ==> ring'[i] == ring[i])
    ensures Holds(ring', size, first, contents + src)
  {
    hide Slot, SplitSlot, InRun;
    var total := first + |contents|;
    forall k {:trigger (contents + src)[k]} | 0 <= k < |contents| + |src|
      ensures ring'[Slot(first + k, size)] == (contents + src)[k]
    {
      if k < |contents| {
        OtherSlot(first + k, total, |src|, size);
      } else {
        SplitIsSlot(total, k - |contents|, size);
      }
    }
  }

  lemma HoldsAfterGet<T>(ring: seq<T>, size: nat, first: nat, contents: seq<T>, dst: seq<T>)
    requires Holds(ring, size, first, contents) && |dst| <= |contents| && |dst| <= size
    requires forall j :: 0 <= j < |dst| ==> dst[j] == ring[SplitSlot(Slot(first, size), j, size)]
    ensures dst == contents[..|dst|] && Holds(ring, size, first + |dst|, contents[|dst|..])
  {
    hide Slot, SplitSlot;
    forall j | 0 <= j < |dst|
      ensures dst[j] == contents[j]
    {
      SplitIsSlot(first, j, size);
    }
    var rest := contents[|dst|..];
    forall k {:trigger rest[k]} | 0 <= k < |rest|
      ensures ring[Slot(first + |dst| + k, size)] == rest[k]
    {
      assert rest[k] == contents[|dst| + k];
    }
  }

  class Lfqueue<T> {
    var in_: nat   // uint32_t, as is out_
    var out_: nat
    const size: nat
    const buffer: array<T>

    ghost var put: nat          // elements put so far
    ghost var got: nat          // elements taken so far
    ghost var contents: seq<T>  // the elements between them, oldest first

    ghost predicate Valid()
      reads this, buffer
    {
      && IsPowerOf2(size) && 0 < size < TWO_32 && size <= buffer.Length
      && in_ == Low32(put) && out_ == Low32(got)
      && put == got + |contents| && |contents| <= size
      && Holds(buffer[..], size, got, contents)
    }

    /** lfqueueInit: a capacity that is no power of two is rounded down to one. */
    constructor (buffer: array<T>, size: nat)
      requires 2 <= size < TWO_32 && size <= buffer.Length
      ensures Valid() && contents == [] && this.buffer == buffer
      ensures IsPowerOf2(this.size) && this.size <= size < 2 * this.size
    {
      var capacity := size;
      OneBitIsPower(size);
      if !HasOneBit(Word(size)) {
        capacity := RoundDownPowOfTwo(size);
        assert size != 2 * capacity by { Doubled(capacity); }
      }
      this.buffer, this.size := buffer, capacity;
      in_, out_ := 0, 0;
      put, got, contents := 0, 0, [];
    }

    function Used(): (n: nat)
      requires Valid()
      reads this, buffer
      ensures n == |contents|
    {
      Sub32OfCounters(put, got);
      Sub32(in_, out_)
    }

    function Avail(): (n: nat)
      requires Valid()
      reads this, buffer
      ensures n == size - |contents|
    {
      size - Used()
    }

    predicate IsFull()
      requires Valid()
      reads this, buffer
      ensures IsFull() <==> |contents| == size
    {
      Used() >= size
    }

    predicate IsEmpty()
      requires Valid()
      reads this, buffer
      ensures IsEmpty() <==> contents == []
    {
      Sub32OfCounters(put, got);
      in_ == out_
    }

    /** The copy of lfqueuePut: one memcpy, or two where the end of the buffer is in the way. */
    method CopyIn(src: seq<T>, n: nat, offset: nat)
      requires n <= |src| && n <= size <= buffer.Length && offset < size
      modifies buffer
      ensures forall j :: 0 <= j < n ==> buffer[SplitSlot(offset, j, size)] == src[j]
      ensures forall i :: 0 <= i < size && !InRun(i, offset, n, size) ==> buffer[i] == old(buffer[i])
    {
      if n <= size - offset {
        forall j | 0 <= j < n {
          buffer[offset + j] := src[j];
        }
      } else {
        var k := size - offset;
        forall j | 0 <= j < k {
          buffer[offset + j] := src[j];
        }
        forall j | 0 <= j < n - k {
          buffer[j] := src[k + j];
        }
      }
    }

    /** lfqueuePut: as many of the elements as fit, in order. */
    method Put(src: seq<T>) returns (n: nat)
      requires Valid() && |src| < TWO_32
      modifies this`in_, this`put, this`contents, buffer
      ensures Valid() && n == Min(|src|, size - |old(contents)|)
      ensures contents == old(contents) + src[..n]
    {
      hide Low32, Slot, SplitSlot, IsPowerOf2, InRun, Sub32, Holds;
      var avail := Avail();
      if avail == 0 {
        assert src[..0] == [] && contents + [] == contents;
        return 0;
      }
      n := Min(|src|, avail);
      var offset := Slot(in_, size);
      WrapKeepsSlot(put, size);
      Sum32(put, n);
      ghost var ring := buffer[..];
      CopyIn(src, n, offset);
      HoldsAfterPut(ring, buffer[..], size, got, contents, src[..n]);
      in_ := Low32(in_ + n);
      put := put + n;
      contents := contents + src[..n];
    }

    /** The copy of lfqueueGet. */
    method CopyOut(n: nat, offset: nat) returns (dst: seq<T>)
      requires n <= size <= buffer.Length && offset < size
      ensures |dst| == n && forall j :: 0 <= j < n ==> dst[j] == buffer[SplitSlot(offset, j, size)]
    {
      if n <= size - offset {
        dst := buffer[offset..offset + n];
      } else {
        dst := buffer[offset..size] + buffer[..n - (size - offset)];
      }
    }

    /** lfqueueGet: up to max elements, oldest first. */
    method Get(max: nat) returns (dst: seq<T>)
      requires Valid()
      modifies this`out_, this`got, this`contents
      ensures Valid() && dst == old(contents)[..Min(max, |old(contents)|)]
      ensures contents == old(contents)[|dst|..]
    {
      hide Low32, Slot, SplitSlot, IsPowerOf2, Sub32, Holds;
      var used := Used();
      if used == 0 {
        return [];
      }
      var n := Min(max, used);
      var offset := Slot(out_, size);
      WrapKeepsSlot(got, size);
      Sum32(got, n);
      dst := CopyOut(n, offset);
      HoldsAfterGet(buffer[..], size, got, contents, dst);
      out_ := Low32(out_ + n);
      got := got + n;
      contents := contents[n..];
    }
  }
}

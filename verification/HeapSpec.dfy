/** The first-fit heap as a value (mem.c): the blocks that tile it, lowest first, and what an
    allocation and a release do to them. Offsets count from the start of the heap. */
module HeapSpec {

  const SIZE_MAX: nat := 0xffff_ffff_ffff_ffff
  const MEM_ALIGNMENT: nat := 4
  const MIN_SIZE_ALIGNED: nat := 12
  const SIZEOF_STRUCT_MEM: nat := 24  // two size_t and a byte, padded, on a 64-bit target

  /** A header and the least payload: a rest smaller than that stays with the block in front of it. */
  const LEAST_REST: nat := SIZEOF_STRUCT_MEM + MIN_SIZE_ALIGNED

  /** A block starts with its header at off and reaches to the next block. */
  datatype Block = Block(off: nat, used: bool)

  /** MEM_ALIGN_UP in size_t arithmetic: the addition wraps. */
  function AlignUp(size: nat): nat {
    (size + MEM_ALIGNMENT - 1) % (SIZE_MAX + 1) / MEM_ALIGNMENT * MEM_ALIGNMENT
  }

  /** The payload size memAlloc looks for. */
  function Rounded(size: nat): nat {
    if AlignUp(size) < MIN_SIZE_ALIGNED then MIN_SIZE_ALIGNED else AlignUp(size)
  }

  function Next(bs: seq<Block>, end: nat, i: nat): nat {
    if i + 1 < |bs| then bs[i + 1].off else end
  }

  function Payload(bs: seq<Block>, end: nat, i: nat): int
    requires i < |bs|
  {
    Next(bs, end, i) - bs[i].off - SIZEOF_STRUCT_MEM
  }

  /** A heap smaller than the smallest request is one block for ever. */
  function MinPayload(end: nat): int {
    if end - SIZEOF_STRUCT_MEM < MIN_SIZE_ALIGNED then end - SIZEOF_STRUCT_MEM else MIN_SIZE_ALIGNED
  }

  /** Block i is aligned and reaches to the next one with a header and at least the least payload. */
  predicate BlockOk(bs: seq<Block>, end: nat, i: nat)
    requires i < |bs|
  {
    bs[i].off % MEM_ALIGNMENT == 0 && Payload(bs, end, i) >= MinPayload(end)
  }

  /** The blocks tile [0, end). */
  ghost predicate Tiling(bs: seq<Block>, end: nat) {
    && bs != [] && bs[0].off == 0
    && end > SIZEOF_STRUCT_MEM && end % MEM_ALIGNMENT == 0
    && forall i {:trigger BlockOk(bs, end, i)} :: 0 <= i < |bs| ==> BlockOk(bs, end, i)
  }

  /** Blocks come in order of their offsets, each below end. */
  lemma {:induction false} Ordered(bs: seq<Block>, end: nat, i: nat, j: nat)
    requires Tiling(bs, end) && i < j <= |bs|
    ensures Next(bs, end, i) <= (if j < |bs| then bs[j].off else end)
    ensures bs[i].off + SIZEOF_STRUCT_MEM < Next(bs, end, i)
    decreases j - i
  {
    assert BlockOk(bs, end, i);
    if i + 1 < j {
      Ordered(bs, end, i + 1, j);
    }
  }

  predicate UsedPair(bs: seq<Block>, i: nat)
    requires i + 1 < |bs|
  {
    bs[i].used || bs[i + 1].used
  }

  ghost predicate NoFreeNeighbours(bs: seq<Block>) {
    forall i {:trigger UsedPair(bs, i)} :: 0 <= i < |bs| - 1 ==> UsedPair(bs, i)
  }

  ghost predicate HeapOk(bs: seq<Block>, end: nat) {
    Tiling(bs, end) && NoFreeNeighbours(bs)
  }

  /** Where the lowest free block is, or end. */
  function LowestFree(bs: seq<Block>, end: nat): nat {
    if bs == [] then end else if !bs[0].used then bs[0].off else LowestFree(bs[1..], end)
  }

  /** The bytes of used blocks, headers included. */
  function UsedBytes(bs: seq<Block>, end: nat): int {
    if bs == [] then 0
    else (if bs[0].used then Next(bs, end, 0) - bs[0].off else 0) + UsedBytes(bs[1..], end)
  }

  function UsedCount(bs: seq<Block>): nat {
    if bs == [] then 0 else (if bs[0].used then 1 else 0) + UsedCount(bs[1..])
  }

  predicate Fits(bs: seq<Block>, end: nat, i: nat, size: nat)
    requires i < |bs|
  {
    !bs[i].used && Payload(bs, end, i) >= size
  }

  ghost predicate NoneFits(bs: seq<Block>, end: nat, size: nat) {
    forall i :: 0 <= i < |bs| ==> !Fits(bs, end, i, size)
  }

  // ---- allocation ----

  predicate Splits(bs: seq<Block>, end: nat, i: nat, size: nat)
    requires i < |bs|
  {
    Payload(bs, end, i) >= size + SIZEOF_STRUCT_MEM + MIN_SIZE_ALIGNED
  }

  /** Block i serves a request for size bytes: split if the rest can hold a block of its own. */
  function AllocAt(bs: seq<Block>, end: nat, i: nat, size: nat): seq<Block>
    requires i < |bs|
  {
    var off := bs[i].off;
    if Splits(bs, end, i, size)
    then bs[..i] + [Block(off, true), Block(off + SIZEOF_STRUCT_MEM + size, false)] + bs[i + 1..]
    else bs[..i] + [Block(off, true)] + bs[i + 1..]
  }

  // ---- release ----

  function Without(bs: seq<Block>, i: nat): seq<Block>
    requires i < |bs|
  {
    bs[..i] + bs[i + 1..]
  }

  /** Block i becomes free and swallows the block behind it if that is free. */
  function FreeForward(bs: seq<Block>, i: nat): seq<Block>
    requires i < |bs|
  {
    var b := bs[i := Block(bs[i].off, false)];
    if i + 1 < |b| && !b[i + 1].used then Without(b, i + 1) else b
  }

  /** Then the block in front of it, if free, swallows block i. */
  function FreeAt(bs: seq<Block>, i: nat): seq<Block>
    requires i < |bs|
  {
    var b := FreeForward(bs, i);
    if 0 < i && !b[i - 1].used then Without(b, i) else b
  }

  /** Flagging the block free first changes nothing. */
  lemma FreeAtFlagged(bs: seq<Block>, i: nat)
    requires i < |bs|
    ensures FreeAt(bs[i := Block(bs[i].off, false)], i) == FreeAt(bs, i)
  {
    var b := bs[i := Block(bs[i].off, false)];
    assert b[i := Block(b[i].off, false)] == b;
  }

  // ---- both keep the heap in order ----

  lemma AllocKeepsTiling(bs: seq<Block>, end: nat, i: nat, size: nat)
    requires Tiling(bs, end) && i < |bs| && Fits(bs, end, i, size)
    requires size % MEM_ALIGNMENT == 0 && size >= MIN_SIZE_ALIGNED
    ensures Tiling(AllocAt(bs, end, i, size), end)
    ensures Payload(AllocAt(bs, end, i, size), end, i) >= size
  {
    var b := AllocAt(bs, end, i, size);
    var d := |b| - |bs|;
    assert BlockOk(bs, end, i);
    forall k | 0 <= k < |b|
      ensures BlockOk(b, end, k)
    {
      if k < i {
        assert BlockOk(bs, end, k);
      } else if i + d < k {
        assert BlockOk(bs, end, k - d);
      }
    }
  }

  lemma AllocKeepsPairs(bs: seq<Block>, end: nat, i: nat, size: nat)
    requires NoFreeNeighbours(bs) && i < |bs| && !bs[i].used
    ensures NoFreeNeighbours(AllocAt(bs, end, i, size))
    ensures AllocAt(bs, end, i, size)[i] == Block(bs[i].off, true)
  {
    var b := AllocAt(bs, end, i, size);
    var d := |b| - |bs|;
    if i + 1 < |bs| {
      assert UsedPair(bs, i);
    }
    forall k | 0 <= k < |b| - 1
      ensures UsedPair(b, k)
    {
      if k + 1 < i {
        assert UsedPair(bs, k);
      } else if i + d < k {
        assert UsedPair(bs, k - d);
      }
    }
  }

  lemma AllocKeepsHeap(bs: seq<Block>, end: nat, i: nat, size: nat)
    requires HeapOk(bs, end) && i < |bs| && Fits(bs, end, i, size)
    requires size % MEM_ALIGNMENT == 0 && size >= MIN_SIZE_ALIGNED
    ensures HeapOk(AllocAt(bs, end, i, size), end)
    ensures AllocAt(bs, end, i, size)[i] == Block(bs[i].off, true)
    ensures Payload(AllocAt(bs, end, i, size), end, i) >= size
  {
    hide Tiling, NoFreeNeighbours;
    AllocKeepsTiling(bs, end, i, size);
    AllocKeepsPairs(bs, end, i, size);
  }

  /** A request gets what it asks for and no more than a rest that cannot stand alone; where the block
      has more, exactly what it asks for, and the rest is one free block behind it. */
  lemma AllocTakes(bs: seq<Block>, end: nat, i: nat, size: nat)
    requires i < |bs| && Fits(bs, end, i, size)
    ensures var b := AllocAt(bs, end, i, size);
            var off, had, p := bs[i].off, Payload(bs, end, i), Payload(b, end, i);
            && size <= p < size + LEAST_REST
            && (had >= size + LEAST_REST ==>
                  && p == size
                  && b == bs[..i] + [Block(off, true), Block(off + SIZEOF_STRUCT_MEM + size, false)] + bs[i + 1..])
            && (had < size + LEAST_REST ==> p == had && b == bs[i := Block(off, true)])
  {
    var b := AllocAt(bs, end, i, size);
    assert i + 1 < |bs| ==> bs[i + 1..][0] == bs[i + 1];
    assert Payload(bs, end, i) < size + LEAST_REST ==> b == bs[i := Block(bs[i].off, true)];
  }

  lemma WithoutKeepsTiling(bs: seq<Block>, end: nat, i: nat)
    requires Tiling(bs, end) && 0 < i < |bs|
    ensures Tiling(Without(bs, i), end)
  {
    var b := Without(bs, i);
    forall k | 0 <= k < |b|
      ensures BlockOk(b, end, k)
    {
      var j := if k < i then k else k + 1;
      assert BlockOk(bs, end, j);
      if k == i - 1 {
        assert BlockOk(bs, end, i);
      }
    }
  }

  lemma FlagKeepsTiling(bs: seq<Block>, end: nat, i: nat, u: bool)
    requires Tiling(bs, end) && i < |bs|
    ensures Tiling(bs[i := Block(bs[i].off, u)], end)
  {
    var b := bs[i := Block(bs[i].off, u)];
    forall k | 0 <= k < |bs|
      ensures BlockOk(b, end, k)
    {
      assert BlockOk(bs, end, k);
    }
  }

  lemma FreeKeepsTiling(bs: seq<Block>, end: nat, i: nat)
    requires Tiling(bs, end) && i < |bs|
    ensures Tiling(FreeAt(bs, i), end)
  {
    var b0 := bs[i := Block(bs[i].off, false)];
    FlagKeepsTiling(bs, end, i, false);
    hide Tiling, Without, BlockOk;
    if i + 1 < |b0| && !b0[i + 1].used {
      WithoutKeepsTiling(b0, end, i + 1);
    }
    if 0 < i && !FreeForward(bs, i)[i - 1].used {
      WithoutKeepsTiling(FreeForward(bs, i), end, i);
    }
  }

  /** After the forward merge only block i and the one in front of it can both be free. */
  lemma ForwardPairs(bs: seq<Block>, i: nat, k: nat)
    requires NoFreeNeighbours(bs) && i < |bs| && k + 1 < |FreeForward(bs, i)| && k + 1 != i
    ensures UsedPair(FreeForward(bs, i), k)
  {
    var d := |bs| - |FreeForward(bs, i)|;
    if k < i {
      assert UsedPair(bs, k);
    } else {
      assert UsedPair(bs, k + d);
    }
  }

  lemma FreeKeepsPairs(bs: seq<Block>, i: nat)
    requires NoFreeNeighbours(bs) && i < |bs|
    ensures NoFreeNeighbours(FreeAt(bs, i))
  {
    var b1, b2 := FreeForward(bs, i), FreeAt(bs, i);
    assert forall k :: 0 <= k < i ==> b1[k] == bs[k];
    var e := |b1| - |b2|;
    if i > 1 {
      assert UsedPair(bs, i - 2);
    }
    forall k | 0 <= k < |b2| - 1
      ensures UsedPair(b2, k)
    {
      if k + 1 != i {
        ForwardPairs(bs, i, k);
      }
      if e == 1 && k + 1 < |b1| - 1 && k + 2 != i {
        ForwardPairs(bs, i, k + 1);
      }
    }
  }

  lemma FreeKeepsHeap(bs: seq<Block>, end: nat, i: nat)
    requires HeapOk(bs, end) && i < |bs|
    ensures HeapOk(FreeAt(bs, i), end)
  {
    hide Tiling, NoFreeNeighbours;
    FreeKeepsTiling(bs, end, i);
    FreeKeepsPairs(bs, i);
  }

  /** Round trip: releasing a block just allocated restores the tiling, split or not. */
  lemma FreeUndoesAlloc(bs: seq<Block>, end: nat, i: nat, size: nat)
    requires HeapOk(bs, end) && i < |bs| && Fits(bs, end, i, size)
    ensures FreeAt(AllocAt(bs, end, i, size), i) == bs
  {
    if i + 1 < |bs| {
      assert UsedPair(bs, i);
    }
    if 0 < i {
      assert UsedPair(bs, i - 1);
    }
    var b := AllocAt(bs, end, i, size);
    if Splits(bs, end, i, size) {
      assert FreeForward(b, i) == bs;
    } else {
      assert b[i := Block(bs[i].off, false)] == bs;
    }
  }

  // ---- live blocks ----

  ghost function UsedOffsets(bs: seq<Block>): set<nat> {
    set i | 0 <= i < |bs| && bs[i].used :: bs[i].off
  }

  lemma WithoutUsed(bs: seq<Block>, i: nat)
    requires i < |bs| && !bs[i].used
    ensures UsedOffsets(Without(bs, i)) == UsedOffsets(bs)
  {
    var b := Without(bs, i);
    forall k | 0 <= k < |bs| && bs[k].used
      ensures bs[k].off in UsedOffsets(b)
    {
      assert b[if k < i then k else k - 1] == bs[k];
    }
    assert forall k :: 0 <= k < |b| ==> b[k] == bs[if k < i then k else k + 1];
  }

  /** A release ends the life of exactly its own block. */
  lemma FreeEndsOneBlock(bs: seq<Block>, end: nat, i: nat)
    requires Tiling(bs, end) && i < |bs| && bs[i].used
    ensures UsedOffsets(FreeAt(bs, i)) == UsedOffsets(bs) - {bs[i].off}
  {
    var b0 := bs[i := Block(bs[i].off, false)];
    assert UsedOffsets(b0) == UsedOffsets(bs) - {bs[i].off} by {
      forall k | 0 <= k < |bs| && k != i
        ensures b0[k] == bs[k] && bs[k].off != bs[i].off
      {
        if k < i {
          Ordered(bs, end, k, i);
        } else {
          Ordered(bs, end, i, k);
        }
      }
      forall x | x in UsedOffsets(bs) - {bs[i].off}
        ensures x in UsedOffsets(b0)
      {
        var k :| 0 <= k < |bs| && bs[k].used && bs[k].off == x;
        assert b0[k] == bs[k];
      }
    }
    var b1 := FreeForward(bs, i);
    if i + 1 < |b0| && !b0[i + 1].used {
      WithoutUsed(b0, i + 1);
    }
    assert !b1[i].used;
    if 0 < i && !b1[i - 1].used {
      WithoutUsed(b1, i);
    }
  }

  ghost predicate ReleasesTo(bs: seq<Block>, order: seq<nat>, bs': seq<Block>)
    decreases |order|
  {
    if order == [] then bs' == bs
    else exists i :: 0 <= i < |bs| && bs[i].used && bs[i].off == order[0] && ReleasesTo(FreeAt(bs, i), order[1..], bs')
  }

  lemma FirstPair(bs: seq<Block>)
    requires NoFreeNeighbours(bs)
    ensures |bs| > 1 ==> UsedPair(bs, 0)
  {
  }

  /** Releasing every live block, in whatever order, leaves the single initial free block. */
  lemma {:induction false} ReleaseAll(bs: seq<Block>, end: nat, order: seq<nat>, bs': seq<Block>)
    requires HeapOk(bs, end) && ReleasesTo(bs, order, bs')
    requires forall i :: 0 <= i < |bs| && bs[i].used ==> bs[i].off in order
    ensures bs' == [Block(0, false)]
    decreases |order|
  {
    if order == [] {
      FirstPair(bs);
    } else {
      var i :| 0 <= i < |bs| && bs[i].used && bs[i].off == order[0] && ReleasesTo(FreeAt(bs, i), order[1..], bs');
      FreeKeepsHeap(bs, end, i);
      FreeEndsOneBlock(bs, end, i);
      var b := FreeAt(bs, i);
      forall k | 0 <= k < |b| && b[k].used
        ensures b[k].off in order[1..]
      {
        assert b[k].off in UsedOffsets(b);
      }
      ReleaseAll(FreeAt(bs, i), end, order[1..], bs');
    }
  }

  /** Payloads of different live blocks do not overlap, and lie inside the heap. */
  lemma PayloadsDisjoint(bs: seq<Block>, end: nat, i: nat, j: nat)
    requires Tiling(bs, end) && i < j < |bs|
    ensures bs[i].off + SIZEOF_STRUCT_MEM + Payload(bs, end, i) <= bs[j].off
    ensures bs[j].off + SIZEOF_STRUCT_MEM + Payload(bs, end, j) <= end
  {
    Ordered(bs, end, i, j);
    Ordered(bs, end, j, |bs|);
  }

  // ---- what the users see: where the live blocks are, and how large ----

  ghost function Live(bs: seq<Block>, end: nat): set<(nat, int)> {
    set i | 0 <= i < |bs| && bs[i].used :: (bs[i].off, Payload(bs, end, i))
  }

  lemma LiveHas(bs: seq<Block>, end: nat, i: nat)
    requires i < |bs| && bs[i].used
    ensures (bs[i].off, Payload(bs, end, i)) in Live(bs, end)
  {
  }

  /** Where block k is after an allocation from block i. */
  function Moved(bs: seq<Block>, b: seq<Block>, i: nat, k: nat): int {
    if k <= i then k else k + |b| - |bs|
  }

  lemma AllocElsewhere(bs: seq<Block>, end: nat, i: nat, size: nat, k: nat)
    requires i < |bs| && k < |bs| && k != i
    ensures var b := AllocAt(bs, end, i, size);
            var j := Moved(bs, b, i, k);
            0 <= j < |b| && b[j] == bs[k] && Payload(b, end, j) == Payload(bs, end, k)
  {
  }

  lemma AllocHere(bs: seq<Block>, end: nat, i: nat, size: nat)
    requires i < |bs|
    ensures var b := AllocAt(bs, end, i, size);
            && |bs| <= |b| <= |bs| + 1 && b[i] == Block(bs[i].off, true)
            && (|b| > |bs| ==> !b[i + 1].used)
  {
  }

  /** An allocation adds its own block and changes no other. */
  lemma LiveAfterAlloc(bs: seq<Block>, end: nat, i: nat, size: nat)
    requires i < |bs| && Fits(bs, end, i, size)
    ensures var b := AllocAt(bs, end, i, size);
            Live(b, end) == Live(bs, end) + {(bs[i].off, Payload(b, end, i))}
  {
    hide AllocAt, Payload;
    AllocHere(bs, end, i, size);
    var b := AllocAt(bs, end, i, size);
    forall x | x in Live(bs, end)
      ensures x in Live(b, end)
    {
      var k :| 0 <= k < |bs| && bs[k].used && x == (bs[k].off, Payload(bs, end, k));
      AllocElsewhere(bs, end, i, size, k);
      LiveHas(b, end, Moved(bs, b, i, k));
    }
    forall x | x in Live(b, end)
      ensures x in Live(bs, end) || x == (bs[i].off, Payload(b, end, i))
    {
      var j :| 0 <= j < |b| && b[j].used && x == (b[j].off, Payload(b, end, j));
      if j != i {
        var k := if j < i then j else j - (|b| - |bs|);
        AllocElsewhere(bs, end, i, size, k);
        LiveHas(bs, end, k);
      }
    }
    LiveHas(b, end, i);
  }

  /** Dropping a free block behind a free block changes no live one. */
  lemma LiveWithout(bs: seq<Block>, end: nat, i: nat)
    requires 0 < i < |bs| && !bs[i].used && !bs[i - 1].used
    ensures Live(Without(bs, i), end) == Live(bs, end)
  {
    var b := Without(bs, i);
    forall x | x in Live(bs, end)
      ensures x in Live(b, end)
    {
      var k :| 0 <= k < |bs| && bs[k].used && x == (bs[k].off, Payload(bs, end, k));
      LiveHas(b, end, if k < i then k else k - 1);
    }
    forall x | x in Live(b, end)
      ensures x in Live(bs, end)
    {
      var j :| 0 <= j < |b| && b[j].used && x == (b[j].off, Payload(b, end, j));
      LiveHas(bs, end, if j < i then j else j + 1);
    }
  }

  lemma LiveFlagged(bs: seq<Block>, end: nat, i: nat)
    requires Tiling(bs, end) && i < |bs| && bs[i].used
    ensures Live(bs[i := Block(bs[i].off, false)], end) == Live(bs, end) - {(bs[i].off, Payload(bs, end, i))}
  {
    var b := bs[i := Block(bs[i].off, false)];
    forall k | 0 <= k < |bs|
      ensures b[k].off == bs[k].off && Payload(b, end, k) == Payload(bs, end, k)
      ensures k != i ==> b[k] == bs[k] && bs[k].off != bs[i].off
    {
      if k < i {
        Ordered(bs, end, k, i);
      } else if i < k {
        Ordered(bs, end, i, k);
      }
    }
    forall x | x in Live(bs, end) && x != (bs[i].off, Payload(bs, end, i))
      ensures x in Live(b, end)
    {
      var k :| 0 <= k < |bs| && bs[k].used && x == (bs[k].off, Payload(bs, end, k));
      LiveHas(b, end, k);
    }
  }

  /** A release removes its own block and changes no other. */
  lemma LiveAfterFree(bs: seq<Block>, end: nat, i: nat)
    requires Tiling(bs, end) && i < |bs| && bs[i].used
    ensures Live(FreeAt(bs, i), end) == Live(bs, end) - {(bs[i].off, Payload(bs, end, i))}
  {
    hide Live;
    LiveFlagged(bs, end, i);
    var b0, b1 := bs[i := Block(bs[i].off, false)], FreeForward(bs, i);
    if i + 1 < |b0| && !b0[i + 1].used {
      LiveWithout(b0, end, i + 1);
    }
    if 0 < i && !b1[i - 1].used {
      LiveWithout(b1, end, i);
    }
  }

  /** Where the two tilings agree so far, the next blocks agree too. */
  lemma NextBlockAgrees(a: seq<Block>, b: seq<Block>, end: nat, k: nat)
    requires HeapOk(a, end) && HeapOk(b, end) && Live(a, end) == Live(b, end)
    requires k < |a| && k < |b| && a[k].off == b[k].off
    ensures a[k] == b[k] && Next(a, end, k) <= Next(b, end, k)
  {
    var x := (a[k].off, Payload(a, end, k));
    if a[k].used {
      LiveHas(a, end, k);
      var j :| 0 <= j < |b| && b[j].used && x == (b[j].off, Payload(b, end, j));
      SameOffset(b, end, j, k);
    } else {
      if b[k].used {
        LiveHas(b, end, k);
        var y := (b[k].off, Payload(b, end, k));
        var j :| 0 <= j < |a| && a[j].used && y == (a[j].off, Payload(a, end, j));
        SameOffset(a, end, j, k);
      }
      FreeReachesAsFar(a, b, end, k);
    }
  }

  lemma SameOffset(bs: seq<Block>, end: nat, j: nat, k: nat)
    requires Tiling(bs, end) && j < |bs| && k < |bs| && bs[j].off == bs[k].off
    ensures j == k
  {
    if j < k {
      Ordered(bs, end, j, k);
    } else if k < j {
      Ordered(bs, end, k, j);
    }
  }

  /** A free block reaches to the next live one. */
  lemma FreeReachesAsFar(a: seq<Block>, b: seq<Block>, end: nat, k: nat)
    requires HeapOk(a, end) && HeapOk(b, end) && Live(a, end) == Live(b, end)
    requires k < |a| && k < |b| && a[k].off == b[k].off && !a[k].used && !b[k].used
    ensures Next(a, end, k) <= Next(b, end, k)
  {
    Ordered(a, end, k, |a|);
    if k + 1 < |b| {
      assert UsedPair(b, k);
      LiveHas(b, end, k + 1);
      var y := (b[k + 1].off, Payload(b, end, k + 1));
      var j :| 0 <= j < |a| && a[j].used && y == (a[j].off, Payload(a, end, j));
      Ordered(b, end, k, k + 1);
      if j < k {
        Ordered(a, end, j, k);
      } else {
        Ordered(a, end, k, j);
      }
    }
  }

  lemma {:induction false} PrefixAgrees(a: seq<Block>, b: seq<Block>, end: nat, k: nat)
    requires HeapOk(a, end) && HeapOk(b, end) && Live(a, end) == Live(b, end) && k <= |a|
    ensures k <= |b| && a[..k] == b[..k]
    ensures k > 0 ==> Next(a, end, k - 1) == Next(b, end, k - 1)
  {
    if k > 0 {
      PrefixAgrees(a, b, end, k - 1);
      if k > 1 {
        Ordered(a, end, k - 1, |a|);
      }
      NextBlockAgrees(a, b, end, k - 1);
      NextBlockAgrees(b, a, end, k - 1);
    }
  }

  /** The live blocks determine the heap: between them, and nowhere else, there is one free block. */
  lemma LiveDetermines(a: seq<Block>, b: seq<Block>, end: nat)
    requires HeapOk(a, end) && HeapOk(b, end) && Live(a, end) == Live(b, end)
    ensures a == b
  {
    PrefixAgrees(a, b, end, |a|);
    PrefixAgrees(b, a, end, |b|);
  }

  // ---- accounting ----

  /** The bytes of a run of blocks that is followed by something at stop. */
  lemma UsedBytesAppend(a: seq<Block>, b: seq<Block>, end: nat)
    ensures UsedBytes(a + b, end) == UsedBytes(a, if b == [] then end else b[0].off) + UsedBytes(b, end)
    ensures UsedCount(a + b) == UsedCount(a) + UsedCount(b)
  {
    if a == [] {
      assert a + b == b;
    } else {
      UsedBytesAppend(a[1..], b, end);
      assert (a + b)[1..] == a[1..] + b;
      assert Next(a + b, end, 0) == Next(a, if b == [] then end else b[0].off, 0);
    }
  }

  lemma UsedBytesOne(x: Block, stop: nat)
    ensures UsedBytes([x], stop) == if x.used then stop - x.off else 0
    ensures UsedCount([x]) == if x.used then 1 else 0
  {
    assert [x][1..] == [];
  }

  lemma UsedBytesAt(p: seq<Block>, x: Block, q: seq<Block>, end: nat)
    ensures var stop := if q == [] then end else q[0].off;
            UsedBytes(p + [x] + q, end) == UsedBytes(p, x.off) + (if x.used then stop - x.off else 0) + UsedBytes(q, end)
    ensures UsedCount(p + [x] + q) == UsedCount(p) + (if x.used then 1 else 0) + UsedCount(q)
  {
    var stop := if q == [] then end else q[0].off;
    UsedBytesAppend(p + [x], q, end);
    UsedBytesAppend(p, [x], stop);
    UsedBytesOne(x, stop);
  }

  /** Dropping a free block leaves the accounts alone. */
  lemma WithoutBytes(bs: seq<Block>, end: nat, i: nat)
    requires 0 < i < |bs| && !bs[i].used && !bs[i - 1].used
    ensures UsedBytes(Without(bs, i), end) == UsedBytes(bs, end)
    ensures UsedCount(Without(bs, i)) == UsedCount(bs)
  {
    var p, x, y, q := bs[..i - 1], bs[i - 1], bs[i], bs[i + 1..];
    assert bs == p + [x] + ([y] + q) && Without(bs, i) == p + [x] + q;
    UsedBytesAt(p, x, [y] + q, end);
    UsedBytesAt(p, x, q, end);
    UsedBytesAt([], y, q, end);
    assert [] + [y] + q == [y] + q;
  }

  lemma AllocBytes(bs: seq<Block>, end: nat, i: nat, size: nat)
    requires i < |bs| && !bs[i].used
    ensures var b := AllocAt(bs, end, i, size);
            UsedBytes(b, end) == UsedBytes(bs, end) + Payload(b, end, i) + SIZEOF_STRUCT_MEM
    ensures UsedCount(AllocAt(bs, end, i, size)) == UsedCount(bs) + 1
  {
    var p, x, q := bs[..i], bs[i], bs[i + 1..];
    var x' := Block(x.off, true);
    assert bs == p + [x] + q;
    UsedBytesAt(p, x, q, end);
    if Splits(bs, end, i, size) {
      var y := Block(x.off + SIZEOF_STRUCT_MEM + size, false);
      assert AllocAt(bs, end, i, size) == p + [x'] + ([y] + q);
      UsedBytesAt(p, x', [y] + q, end);
      UsedBytesAt([], y, q, end);
      assert [] + [y] + q == [y] + q;
    } else {
      assert AllocAt(bs, end, i, size) == p + [x'] + q;
      UsedBytesAt(p, x', q, end);
    }
  }

  lemma FreeBytes(bs: seq<Block>, end: nat, i: nat)
    requires i < |bs| && bs[i].used
    ensures UsedBytes(FreeAt(bs, i), end) == UsedBytes(bs, end) - Payload(bs, end, i) - SIZEOF_STRUCT_MEM
    ensures UsedCount(FreeAt(bs, i)) == UsedCount(bs) - 1
  {
    var p, x, q := bs[..i], bs[i], bs[i + 1..];
    var b0 := bs[i := Block(x.off, false)];
    assert bs == p + [x] + q && b0 == p + [Block(x.off, false)] + q;
    UsedBytesAt(p, x, q, end);
    UsedBytesAt(p, Block(x.off, false), q, end);
    var b1 := FreeForward(bs, i);
    if i + 1 < |b0| && !b0[i + 1].used {
      WithoutBytes(b0, end, i + 1);
    }
    if 0 < i && !b1[i - 1].used {
      WithoutBytes(b1, end, i);
    }
  }

  /** Every used block accounts for at least its header. */
  lemma {:induction false} HeadersCounted(bs: seq<Block>, end: nat)
    requires end > SIZEOF_STRUCT_MEM && forall i {:trigger BlockOk(bs, end, i)} :: 0 <= i < |bs| ==> BlockOk(bs, end, i)
    ensures UsedBytes(bs, end) >= SIZEOF_STRUCT_MEM * UsedCount(bs)
  {
    if bs != [] {
      assert BlockOk(bs, end, 0);
      forall i | 0 <= i < |bs| - 1
        ensures BlockOk(bs[1..], end, i)
      {
        assert BlockOk(bs, end, i + 1);
      }
      HeadersCounted(bs[1..], end);
    }
  }

  // ---- the cached pointer to the lowest free block ----

  lemma LowestFreeIs(bs: seq<Block>, end: nat, i: nat)
    requires i <= |bs| && forall k :: 0 <= k < i ==> bs[k].used
    requires i < |bs| ==> !bs[i].used
    ensures LowestFree(bs, end) == if i < |bs| then bs[i].off else end
  {
    if bs != [] && i > 0 {
      LowestFreeIs(bs[1..], end, i - 1);
    }
  }

  /** Where the cached pointer stands. */
  lemma LowestFreeIndex(bs: seq<Block>, end: nat) returns (i: nat)
    ensures i <= |bs| && (forall k :: 0 <= k < i ==> bs[k].used) && (i < |bs| ==> !bs[i].used)
    ensures LowestFree(bs, end) == if i < |bs| then bs[i].off else end
  {
    i := 0;
    while i < |bs| && bs[i].used
      invariant i <= |bs| && forall k :: 0 <= k < i ==> bs[k].used
    {
      i := i + 1;
    }
    LowestFreeIs(bs, end, i);
  }

  /** A block turned free moves the pointer down to itself if it is the lowest now. */
  lemma LowestFreeAfterFlag(bs: seq<Block>, end: nat, i: nat)
    requires Tiling(bs, end) && i < |bs| && bs[i].used
    ensures var f := LowestFree(bs, end);
            LowestFree(bs[i := Block(bs[i].off, false)], end) == if bs[i].off < f then bs[i].off else f
  {
    var j := LowestFreeIndex(bs, end);
    var b := bs[i := Block(bs[i].off, false)];
    LowestFreeIs(b, end, if i < j then i else j);
    Ordered(bs, end, i, |bs|);
    if j < i {
      Ordered(bs, end, j, i);
    } else if i < j {
      Ordered(bs, end, i, j);
    }
  }

  /** Merging a free block into a free block in front of it does not move the pointer. */
  lemma LowestFreeAfterMerge(bs: seq<Block>, end: nat, i: nat)
    requires i + 1 < |bs| && !bs[i].used
    ensures LowestFree(Without(bs, i + 1), end) == LowestFree(bs, end)
  {
    var j := LowestFreeIndex(bs, end);
    var b := Without(bs, i + 1);
    assert forall k :: 0 <= k <= i ==> b[k] == bs[k];
    LowestFreeIs(b, end, j);
  }

  // ---- requests ----

  /** The payload asked for is large enough for the request exactly when the rounding did not wrap: the three
      largest size_t values come out as 12 bytes. Otherwise it is the least multiple of four that will do. */
  lemma RoundedCovers(size: nat)
    requires size <= SIZE_MAX
    ensures size <= Rounded(size) <==> size <= SIZE_MAX - (MEM_ALIGNMENT - 1)
    ensures size > SIZE_MAX - (MEM_ALIGNMENT - 1) ==> Rounded(size) == MIN_SIZE_ALIGNED
    ensures Rounded(size) % MEM_ALIGNMENT == 0 && Rounded(size) >= MIN_SIZE_ALIGNED
    ensures Rounded(size) == MIN_SIZE_ALIGNED || Rounded(size) < size + MEM_ALIGNMENT
  {
  }
}

/** The fixed-block pools of mempool.c. All pools are cut from one static region; the word in front
    of a block links it into its pool's free list, or names the pool while the block is in use. */
module MemPools {
  import opened Utils

  const MEM_ALIGNMENT: nat := 8  // sizeof(size_t)
  const SIZEOF_HEADER: nat := 8  // sizeof(uint8_t *)

  /** What a word of the region holds; Raw is a user's data. */
  datatype Word = Null | Addr(a: nat) | Owner(pool: MemPool) | Raw(n: nat)

  /** MEM_ALIGN_UP. */
  function AlignUp(size: nat): (r: nat)
    ensures r % MEM_ALIGNMENT == 0 && size <= r < size + MEM_ALIGNMENT
  {
    (size + MEM_ALIGNMENT - 1) / MEM_ALIGNMENT * MEM_ALIGNMENT
  }

  ghost predicate Distinct(s: seq<nat>) {
    forall i, j :: 0 <= i < j < |s| ==> s[i] != s[j]
  }

  ghost function UpTo(n: nat): (r: set<nat>)
    ensures |r| == n && forall x: nat :: x in r <==> x < n
  {
    if n == 0 then {} else UpTo(n - 1) + {n - 1}
  }

  ghost function Members(s: seq<nat>): (r: set<nat>)
    requires Distinct(s)
    ensures |r| == |s| && forall x :: x in r <==> x in s
  {
    if s == [] then {} else Members(s[1..]) + {s[0]}
  }

  /** Different numbers below n are at most n, and n only if they are all of them. */
  lemma Pigeons(s: seq<nat>, n: nat)
    requires Distinct(s) && forall x :: x in s ==> x < n
    ensures |s| <= n && (|s| == n <==> forall k: nat :: k < n ==> k in s)
  {
    var seen, all := Members(s), UpTo(n);
    assert seen <= all;
    assert |all| == |seen| + |all - seen| by {
      assert all == seen + (all - seen);
    }
    if |s| == n {
      assert all - seen == {};
      assert forall k: nat :: k < n ==> k in all;
    } else {
      assert all - seen != {};
      var k :| k in all - seen;
    }
  }

  lemma {:induction false} MulGrows(a: nat, b: nat, s: nat)
    requires a <= b
    ensures a * s <= b * s
    decreases b - a
  {
    if a < b {
      MulGrows(a, b - 1, s);
    }
  }

  lemma Multiples(k: nat, l: nat, n: nat, s: nat)
    requires k < l <= n
    ensures 0 <= k * s && k * s + s <= l * s <= s * n
  {
    assert (k + 1) * s == k * s + s;
    MulGrows(k + 1, l, s);
    MulGrows(l, n, s);
  }

  class MemPool {
    const start: nat
    const block_size: nat
    const total_blocks: nat
    const size: nat
    var block_list: Word
    var free_blocks: nat
    var err: nat

    /** The numbers of the free blocks, in the order of the list. */
    ghost var free: seq<nat>

    function Step(): nat {
      block_size + SIZEOF_HEADER
    }

    /** The address of block k, whose first word is the header. */
    function Block(k: nat): nat {
      start + k * Step()
    }

    /** The address that the users of block k get. */
    function Payload(k: nat): nat {
      Block(k) + SIZEOF_HEADER
    }

    ghost function LinkTo(fs: seq<nat>, i: nat): Word {
      if i < |fs| then Addr(Block(fs[i])) else Null
    }

    ghost predicate FreeAt(mem: seq<Word>, fs: seq<nat>, i: nat)
      requires i < |fs|
    {
      fs[i] < total_blocks && Block(fs[i]) < |mem| && mem[Block(fs[i])] == LinkTo(fs, i + 1)
    }

    ghost predicate UsedAt(mem: seq<Word>, k: nat) {
      Block(k) < |mem| && mem[Block(k)] == Owner(this)
    }

    /** The blocks fs are linked from head on, each once; the headers of all others name the pool. */
    ghost predicate ListOk(mem: seq<Word>, head: Word, fs: seq<nat>) {
      && head == LinkTo(fs, 0) && Distinct(fs)
      && (forall i {:trigger FreeAt(mem, fs, i)} :: 0 <= i < |fs| ==> FreeAt(mem, fs, i))
      && (forall k {:trigger UsedAt(mem, k)} :: 0 <= k < total_blocks && k !in fs ==> UsedAt(mem, k))
    }

    ghost predicate Live(k: nat)
      reads this`free
    {
      k < total_blocks && k !in free
    }

    ghost predicate Valid(mem: seq<Word>)
      reads this
    {
      && size == Step() * total_blocks && start + size <= |mem|
      && ListOk(mem, block_list, free) && free_blocks == |free|
    }

    constructor (start: nat, block_count: nat, block_size: nat)
      ensures this.start == start && total_blocks == block_count && size == Step() * total_blocks
      ensures this.block_size == AlignUp(block_size) && block_list == Addr(start)
      ensures free_blocks == block_count && err == 0 && free == seq(block_count, k => k)
    {
      this.start, total_blocks, this.block_size := start, block_count, AlignUp(block_size);
      size := (AlignUp(block_size) + SIZEOF_HEADER) * block_count;
      block_list, free_blocks, err := Addr(start), block_count, 0;
      free := seq(block_count, k => k);
    }

    /** Blocks lie inside the pool and do not overlap. */
    lemma BlocksApart(k: nat, l: nat)
      requires k < l <= total_blocks
      ensures start <= Block(k) && Payload(k) + block_size <= Block(l) <= start + Step() * total_blocks
    {
      Multiples(k, l, total_blocks, Step());
    }

    /** They lie back to back, each behind one header, and fill the pool. */
    lemma BackToBack(k: nat)
      ensures Block(0) == start && Payload(k) == Block(k) + SIZEOF_HEADER
      ensures Block(k + 1) == Payload(k) + block_size
      ensures size == Step() * total_blocks ==> Block(total_blocks) == start + size
    {
      assert (k + 1) * Step() == k * Step() + Step();
    }

    lemma OtherBlock(k: nat, l: nat)
      requires k < total_blocks && l < total_blocks && k != l
      ensures Block(k) != Block(l)
    {
      BlocksApart(if k < l then k else l, if k < l then l else k);
    }

    /** Taking the first block off the list. */
    lemma AfterTake(mem: seq<Word>, head: Word, fs: seq<nat>)
      requires ListOk(mem, head, fs) && fs != []
      ensures FreeAt(mem, fs, 0)
      ensures ListOk(mem[Block(fs[0]) := Owner(this)], mem[Block(fs[0])], fs[1..])
    {
      assert FreeAt(mem, fs, 0);
      var mem', rest := mem[Block(fs[0]) := Owner(this)], fs[1..];
      forall i | 0 <= i < |rest|
        ensures FreeAt(mem', rest, i)
      {
        assert FreeAt(mem, fs, i + 1);
        OtherBlock(fs[0], fs[i + 1]);
      }
      forall k | 0 <= k < total_blocks && k !in rest
        ensures UsedAt(mem', k)
      {
        if k != fs[0] {
          assert UsedAt(mem, k);
          OtherBlock(fs[0], k);
        }
      }
    }

    /** Putting a live block in front of the list. */
    lemma AfterGive(mem: seq<Word>, head: Word, fs: seq<nat>, k: nat)
      requires ListOk(mem, head, fs) && k < total_blocks && k !in fs
      ensures UsedAt(mem, k)
      ensures ListOk(mem[Block(k) := head], Addr(Block(k)), [k] + fs)
    {
      assert UsedAt(mem, k);
      var mem', more := mem[Block(k) := head], [k] + fs;
      forall i | 0 <= i < |more|
        ensures FreeAt(mem', more, i)
      {
        if i > 0 {
          assert FreeAt(mem, fs, i - 1);
          OtherBlock(k, fs[i - 1]);
        }
      }
      forall l | 0 <= l < total_blocks && l !in more
        ensures UsedAt(mem', l)
      {
        assert l != k && l !in fs && UsedAt(mem, l);
        OtherBlock(k, l);
      }
    }

    /** Writes that miss the headers of the pool do not matter to it. */
    lemma StillOk(mem: seq<Word>, mem': seq<Word>, head: Word, fs: seq<nat>)
      requires ListOk(mem, head, fs) && |mem'| == |mem|
      requires forall k :: 0 <= k < total_blocks && Block(k) < |mem| ==> mem'[Block(k)] == mem[Block(k)]
      ensures ListOk(mem', head, fs)
    {
      forall i | 0 <= i < |fs|
        ensures FreeAt(mem', fs, i)
      {
        assert FreeAt(mem, fs, i);
      }
      forall k | 0 <= k < total_blocks && k !in fs
        ensures UsedAt(mem', k)
      {
        assert UsedAt(mem, k);
      }
    }

    /** A header names the pool mp exactly if the block is a live block of mp. */
    lemma HeaderNames(mem: seq<Word>, k: nat, mp: MemPool)
      requires Valid(mem) && k < total_blocks && Block(k) < |mem|
      ensures mem[Block(k)] == Owner(mp) <==> mp == this && Live(k)
    {
      if k in free {
        var i :| 0 <= i < |free| && free[i] == k;
        assert FreeAt(mem, free, i);
      } else {
        assert UsedAt(mem, k);
      }
    }

    /** Each block is either live or once on the list, and its header tells which. */
    lemma Conservation(mem: seq<Word>, k: nat)
      requires Valid(mem) && k < total_blocks
      ensures Block(k) < |mem| && (mem[Block(k)] == Owner(this) <==> Live(k))
      ensures free_blocks <= total_blocks
      ensures free_blocks == total_blocks <==> forall l: nat :: l < total_blocks ==> l in free
      ensures Live(k) ==> free_blocks < total_blocks
    {
      forall l | l in free
        ensures l < total_blocks
      {
        var i :| 0 <= i < |free| && free[i] == l;
        assert FreeAt(mem, free, i);
      }
      Pigeons(free, total_blocks);
      if k in free {
        var i :| 0 <= i < |free| && free[i] == k;
        assert FreeAt(mem, free, i);
      } else {
        assert UsedAt(mem, k);
      }
    }

    ghost predicate ChainedAt(mem: seq<Word>, k: nat) {
      Block(k) < |mem| && mem[Block(k)] == Addr(Block(k + 1))
    }

    /** All blocks linked in the order of their addresses make a free list. */
    lemma AllFree(mem: seq<Word>)
      requires total_blocks > 0 && Block(total_blocks - 1) < |mem| && mem[Block(total_blocks - 1)] == Null
      requires forall k {:trigger ChainedAt(mem, k)} :: 0 <= k < total_blocks - 1 ==> ChainedAt(mem, k)
      ensures ListOk(mem, Addr(Block(0)), seq(total_blocks, k => k))
    {
      var fs: seq<nat> := seq(total_blocks, k => k);
      forall i | 0 <= i < |fs|
        ensures FreeAt(mem, fs, i)
      {
        assert i < total_blocks - 1 ==> ChainedAt(mem, i);
      }
      forall k | 0 <= k < total_blocks
        ensures k in fs
      {
        assert fs[k] == k;
      }
    }

    /** The loop of memPoolDefine that links the new blocks, and the store that ends the list. */
    method LinkAll(mem: array<Word>)
      requires size == Step() * total_blocks && start + size <= mem.Length && total_blocks > 0
      requires block_list == Addr(start) && free_blocks == total_blocks && free == seq(total_blocks, k => k)
      modifies mem
      ensures Valid(mem[..]) && mem[..start] == old(mem[..start])
    {
      var offset := 0;
      while offset < total_blocks
        invariant offset <= total_blocks
        invariant forall k {:trigger ChainedAt(mem[..], k)} :: 0 <= k < offset ==> ChainedAt(mem[..], k)
        invariant mem[..start] == old(mem[..start])
      {
        SetLink(mem, offset, Addr(Block(offset + 1)));
        offset := offset + 1;
      }
      SetLink(mem, offset - 1, Null);
      AllFree(mem[..]);
    }

    /** One store of that loop. */
    method SetLink(mem: array<Word>, k: nat, w: Word)
      requires size == Step() * total_blocks && start + size <= mem.Length && k < total_blocks
      modifies mem
      ensures Block(k) < mem.Length && mem[Block(k)] == w && mem[..start] == old(mem[..start])
      ensures forall l {:trigger ChainedAt(mem[..], l)} :: 0 <= l < total_blocks && l != k && old(ChainedAt(mem[..], l))
                ==> ChainedAt(mem[..], l)
    {
      BlocksApart(k, k + 1);
      forall l | 0 <= l < total_blocks && l != k
        ensures Block(l) != Block(k)
      {
        OtherBlock(k, l);
      }
      hide Block;
      mem[Block(k)] := w;
    }

    /** What lies above address c is nothing to a pool below it. */
    lemma StillValid(mem: seq<Word>, mem': seq<Word>, c: nat)
      requires Valid(mem) && start + size <= c <= |mem| == |mem'| && mem[..c] == mem'[..c]
      ensures Valid(mem')
    {
      forall k | 0 <= k < total_blocks
        ensures Block(k) < c
      {
        BlocksApart(k, k + 1);
      }
      hide Block;
      forall k | 0 <= k < total_blocks
        ensures mem'[Block(k)] == mem[Block(k)]
      {
        assert mem'[..c][Block(k)] == mem[..c][Block(k)];
      }
      StillOk(mem, mem', block_list, free);
    }

    /** memPoolAlloc: the first block of the list, or NULL and an error. */
    method Alloc(mem: array<Word>) returns (ptr: Option<nat>)
      requires Valid(mem[..])
      modifies mem, this`block_list, this`free_blocks, this`err, this`free
      ensures Valid(mem[..])
      ensures old(free) == [] ==> ptr == None && err == old(err) + 1 && free == old(free) && mem[..] == old(mem[..])
      ensures old(free) != [] ==>
                var k := old(free)[0];
                && ptr == Some(Payload(k)) && old(!Live(k)) && Live(k) && free == old(free)[1..]
                && err == old(err) && Block(k) < mem.Length && mem[..] == old(mem[..])[Block(k) := Owner(this)]
    {
      if free_blocks <= 0 || block_list == Null {
        err := err + 1;
        return None;
      }
      AfterTake(mem[..], block_list, free);
      hide ListOk;
      var block_ptr := block_list.a;
      block_list := mem[block_ptr];
      mem[block_ptr] := Owner(this);
      free_blocks, free := free_blocks - 1, free[1..];
      return Some(block_ptr + SIZEOF_HEADER);
    }

    /** memPoolFree for a block in use in this pool: it becomes the first of the list. A block that is
        free already, or of another pool, is refused and counted as an error. */
    method Free(mem: array<Word>, ptr: nat, ghost q: MemPool, ghost k: nat)
      requires Valid(mem[..]) && q.Valid(mem[..]) && k < q.total_blocks && ptr == q.Payload(k)
      modifies mem, this`block_list, this`free_blocks, this`err, this`free
      ensures Valid(mem[..])
      ensures old(q == this && Live(k)) ==>
                && free == [k] + old(free) && err == old(err)
                && Block(k) < mem.Length && mem[..] == old(mem[..])[Block(k) := old(block_list)]
      ensures !old(q == this && Live(k)) ==> err == old(err) + 1 && free == old(free) && mem[..] == old(mem[..])
    {
      q.Conservation(mem[..], k);
      var block_ptr := ptr - SIZEOF_HEADER;
      if mem[block_ptr] != Owner(this) {
        q.HeaderNames(mem[..], k, this);
        err := err + 1;
        return;
      }
      q.HeaderNames(mem[..], k, this);
      AfterGive(mem[..], block_list, free, k);
      assert free_blocks < total_blocks;
      hide ListOk;
      mem[block_ptr] := block_list;
      block_list := Addr(block_ptr);
      free_blocks, free := free_blocks + 1, [k] + free;
    }

    /** Freeing the block just allocated brings back the list and the memory. */
    method AllocThenFree(mem: array<Word>)
      requires Valid(mem[..]) && free != []
      modifies mem, this`block_list, this`free_blocks, this`err, this`free
      ensures Valid(mem[..]) && free == old(free) && block_list == old(block_list)
      ensures mem[..] == old(mem[..]) && err == old(err) && free_blocks == old(free_blocks)
    {
      ghost var k := free[0];
      assert FreeAt(mem[..], free, 0);
      var ptr := Alloc(mem);
      Free(mem, ptr.value, this, k);
    }
  }

  class Region {
    const mem: array<Word>
    var mp_current_start: nat
    ghost var pools: seq<MemPool>

    ghost predicate PoolOk(i: nat)
      requires i < |pools|
      reads this, mem, pools
    {
      pools[i].Valid(mem[..]) && pools[i].total_blocks > 0 && pools[i].start + pools[i].size <= mp_current_start
    }

    ghost predicate Valid()
      reads this, mem, pools
    {
      && mp_current_start <= mem.Length
      && (forall i {:trigger PoolOk(i)} :: 0 <= i < |pools| ==> PoolOk(i))
      && forall i, j :: 0 <= i < j < |pools| ==> pools[i].start + pools[i].size <= pools[j].start
    }

    /** Two live blocks, of one pool or of two, have payloads that do not overlap. */
    lemma PayloadsDisjoint(i: nat, k: nat, j: nat, l: nat)
      requires Valid() && i <= j < |pools| && k < pools[i].total_blocks && l < pools[j].total_blocks
      requires i < j || k < l
      ensures pools[i].Payload(k) + pools[i].block_size <= pools[j].Block(l)
      ensures pools[j].Payload(l) + pools[j].block_size <= mem.Length
    {
      assert PoolOk(i) && PoolOk(j);
      hide MemPool.Block, MemPool.Step, MemPool.ListOk;
      pools[i].BlocksApart(k, k + 1);
      pools[j].BlocksApart(l, l + 1);
      if i == j {
        pools[i].BlocksApart(k, l);
      }
    }

    /** The headers of different blocks are at different places, none of them inside a payload. */
    lemma HeadersApart(i: nat, k: nat, j: nat, l: nat)
      requires Valid() && i < |pools| && k < pools[i].total_blocks && j < |pools| && l < pools[j].total_blocks
      requires i != j || k != l
      ensures var p := pools[i]; !(p.Block(k) <= pools[j].Block(l) < p.Payload(k) + p.block_size)
    {
      if i < j || (i == j && k < l) {
        PayloadsDisjoint(i, k, j, l);
      } else {
        PayloadsDisjoint(j, l, i, k);
      }
    }

    lemma OtherPools(i: nat, j: nat)
      requires Valid() && i < |pools| && j < |pools| && i != j
      ensures pools[i] != pools[j] && pools[j].Valid(mem[..])
    {
      assert PoolOk(i) && PoolOk(j);
      HeadersApart(i, 0, j, 0);
    }

    /** A write to block k of pool i, its header included, is nothing to the other pools. */
    lemma OthersOk(i: nat, k: nat, a: nat, w: Word, j: nat)
      requires Valid() && i < |pools| && k < pools[i].total_blocks && j < |pools| && i != j
      requires pools[i].Block(k) <= a < pools[i].Payload(k) + pools[i].block_size && a < mem.Length
      ensures pools[i] != pools[j] && pools[j].Valid(mem[..][a := w])
    {
      OtherPools(i, j);
      var q := pools[j];
      forall l | 0 <= l < q.total_blocks
        ensures q.Block(l) != a
      {
        HeadersApart(i, k, j, l);
      }
      q.StillOk(mem[..], mem[..][a := w], q.block_list, q.free);
    }

    /** A write to a word of block k of pool i leaves the other pools alone. */
    lemma OthersAfterWrite(i: nat, k: nat, a: nat, w: Word)
      requires Valid() && i < |pools| && k < pools[i].total_blocks
      requires pools[i].Block(k) <= a < pools[i].Payload(k) + pools[i].block_size
      ensures a < mem.Length
      ensures forall j :: 0 <= j < |pools| && j != i ==>
                pools[i] != pools[j] && pools[j].Valid(mem[..]) && pools[j].Valid(mem[..][a := w])
    {
      assert PoolOk(i);
      pools[i].BlocksApart(k, k + 1);
      hide MemPool.Valid, MemPool.Block;
      forall j | 0 <= j < |pools| && j != i
        ensures pools[i] != pools[j] && pools[j].Valid(mem[..]) && pools[j].Valid(mem[..][a := w])
      {
        OthersOk(i, k, a, w, j);
        OtherPools(i, j);
      }
    }

    /** memPoolDefine. The linker script is taken to reserve enough room: the code does not ask. */
    method Define(block_count: nat, block_size: nat) returns (mp: MemPool)
      requires Valid() && block_size > 0 && block_count > 0
      requires mp_current_start + AlignUp((AlignUp(block_size) + SIZEOF_HEADER) * block_count) <= mem.Length
      modifies this, mem
      ensures Valid() && fresh(mp) && pools == old(pools) + [mp] && mp.start == old(mp_current_start)
      ensures mp.total_blocks == block_count && mp.block_size == AlignUp(block_size)
      ensures mp.size == (mp.block_size + SIZEOF_HEADER) * block_count
      ensures mp_current_start == mp.start + AlignUp(mp.size)
      ensures mp.err == 0 && mp.free_blocks == block_count && mp.free == seq(block_count, k => k)
      ensures mem[..old(mp_current_start)] == old(mem[..mp_current_start])
    {
      mp := new MemPool(mp_current_start, block_count, block_size);
      label made:
      mp.LinkAll(mem);
      forall j | 0 <= j < |pools|
        ensures pools[j].Valid(mem[..])
      {
        assert old@made(PoolOk(j));
        pools[j].StillValid(old@made(mem[..]), mem[..], mp_current_start);
      }
      hide MemPool.Valid, MemPool.Block;
      forall j | 0 <= j < |pools|
        ensures pools[j].total_blocks > 0 && pools[j].start + pools[j].size <= mp.start
      {
        assert old@made(PoolOk(j));
      }
      mp_current_start := mp_current_start + AlignUp(mp.size);
      pools := pools + [mp];
    }

    /** memPoolAlloc on a pool of the region. */
    method Alloc(mp: MemPool) returns (ptr: Option<nat>)
      requires Valid() && mp in pools
      modifies mem, mp`block_list, mp`free_blocks, mp`err, mp`free
      ensures Valid() && ptr == if old(mp.free) == [] then None else Some(mp.Payload(old(mp.free)[0]))
      ensures mp.free == if old(mp.free) == [] then [] else old(mp.free)[1..]
      ensures mp.err == old(mp.err) + if old(mp.free) == [] then 1 else 0
    {
      ghost var i :| 0 <= i < |pools| && pools[i] == mp;
      assert PoolOk(i);
      ghost var k := if mp.free == [] then 0 else mp.free[0];
      assert k < mp.total_blocks by {
        assert mp.free != [] ==> mp.FreeAt(mem[..], mp.free, 0);
      }
      OthersAfterWrite(i, k, mp.Block(k), Owner(mp));
      hide MemPool.Valid, MemPool.Block, MemPool.Payload, MemPool.Live;
      ptr := mp.Alloc(mem);
      forall j | 0 <= j < |pools| && j != i
        ensures PoolOk(j)
      {
        assert old(PoolOk(j)) && pools[j] != mp && pools[j].Valid(mem[..]);
      }
    }

    /** memPoolFree on a pool of the region, of any block of any of the pools. */
    method Free(mp: MemPool, ptr: nat, ghost q: MemPool, ghost k: nat)
      requires Valid() && mp in pools && q in pools && k < q.total_blocks && ptr == q.Payload(k)
      modifies mem, mp`block_list, mp`free_blocks, mp`err, mp`free
      ensures Valid()
      ensures old(q == mp && mp.Live(k)) ==> mp.free == [k] + old(mp.free) && mp.err == old(mp.err)
      ensures !old(q == mp && mp.Live(k)) ==>
                mp.free == old(mp.free) && mp.err == old(mp.err) + 1 && mem[..] == old(mem[..])
    {
      ghost var i :| 0 <= i < |pools| && pools[i] == mp;
      ghost var j :| 0 <= j < |pools| && pools[j] == q;
      assert PoolOk(i) && PoolOk(j);
      ghost var l := if q == mp then k else 0;
      OthersAfterWrite(i, l, mp.Block(l), mp.block_list);
      hide MemPool.Valid, MemPool.Block, MemPool.Payload, MemPool.Live;
      mp.Free(mem, ptr, q, k);
      forall j | 0 <= j < |pools| && j != i
        ensures PoolOk(j)
      {
        assert old(PoolOk(j)) && pools[j] != mp && pools[j].Valid(mem[..]);
      }
    }

    /** A user fills in its block: any word of the payload of a live block of pool i. */
    method Store(a: nat, w: Word, ghost i: nat, ghost k: nat)
      requires Valid() && i < |pools| && pools[i].Live(k)
      requires pools[i].Payload(k) <= a < pools[i].Payload(k) + pools[i].block_size
      modifies mem
      ensures Valid() && a < mem.Length && mem[..] == old(mem[..])[a := w]
    {
      OthersAfterWrite(i, k, a, w);
      assert PoolOk(i);
      ghost var p := pools[i];
      forall l | 0 <= l < p.total_blocks
        ensures p.Block(l) != a
      {
        if l != k {
          HeadersApart(i, k, i, l);
        }
      }
      p.StillOk(mem[..], mem[..][a := w], p.block_list, p.free);
      assert p.Valid(mem[..][a := w]);
      hide MemPool.Valid, MemPool.Block, MemPool.Payload, MemPool.Live;
      mem[a] := w;
      forall j | 0 <= j < |pools|
        ensures PoolOk(j)
      {
        assert old(PoolOk(j)) && pools[j].Valid(mem[..]);
      }
    }
  }
}

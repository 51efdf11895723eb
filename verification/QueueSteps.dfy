/** The ring queue with its producer and its consumer interleaved: reading the peer's counter,
    copying one element, and publishing the own counter are separate steps (lfqueue.c). */
module QueueSteps {
  import opened Utils
  import opened Bits
  import opened Lfqueues

  /** Outside a call, or inside one with the elements (for the consumer: their number) it settled
      on after reading the peer's counter, and how many it has copied. */
  datatype Producer<T> = Resting | Writing(src: seq<T>, done: nat)
  datatype Consumer<T> = Waiting | Reading(n: nat, dst: seq<T>)

  /** buffer, in and out are the shared memory; put and got are history: what has been published
      by the producer and handed out by the consumer. */
  datatype Ring<T> = Ring(buffer: seq<T>, in_: nat, out_: nat, producer: Producer<T>, consumer: Consumer<T>,
                          put: seq<T>, got: seq<T>)

  datatype Step<T> =
    | BeginPut(src: seq<T>)
    | CopyIn
    | EndPut
    | BeginGet(max: nat)
    | CopyOut
    | EndGet

  /** None where the step is not enabled. */
  datatype Outcome<T> = Next(r: Ring<T>) | Disabled

  function WriteSlot<T>(r: Ring<T>): nat
    requires r.buffer != [] && r.producer.Writing?
  {
    Slot(Slot(r.in_, |r.buffer|) + r.producer.done, |r.buffer|)
  }

  function ReadSlot<T>(r: Ring<T>): nat
    requires r.buffer != [] && r.consumer.Reading?
  {
    Slot(Slot(r.out_, |r.buffer|) + |r.consumer.dst|, |r.buffer|)
  }

  function Do<T>(r: Ring<T>, step: Step<T>): Outcome<T>
    requires r.buffer != []
  {
    match step
    case BeginPut(src) =>
      var avail := |r.buffer| - Sub32(r.in_, r.out_);
      if !r.producer.Resting? || avail <= 0 then Disabled
      else Next(r.(producer := Writing(src[..Min(|src|, avail)], 0)))
    case CopyIn =>
      if !r.producer.Writing? || r.producer.done >= |r.producer.src| then Disabled
      else Next(r.(buffer := r.buffer[WriteSlot(r) := r.producer.src[r.producer.done]],
                   producer := Writing(r.producer.src, r.producer.done + 1)))
    case EndPut =>
      if !r.producer.Writing? || r.producer.done != |r.producer.src| then Disabled
      else Next(r.(in_ := Low32(r.in_ + |r.producer.src|), producer := Resting, put := r.put + r.producer.src))
    case BeginGet(max) =>
      var used := Sub32(r.in_, r.out_);
      if !r.consumer.Waiting? || used == 0 then Disabled
      else Next(r.(consumer := Reading(Min(max, used), [])))
    case CopyOut =>
      if !r.consumer.Reading? || |r.consumer.dst| >= r.consumer.n then Disabled
      else Next(r.(consumer := Reading(r.consumer.n, r.consumer.dst + [r.buffer[ReadSlot(r)]])))
    case EndGet =>
      if !r.consumer.Reading? || |r.consumer.dst| != r.consumer.n then Disabled
      else Next(r.(out_ := Low32(r.out_ + r.consumer.n), consumer := Waiting, got := r.got + r.consumer.dst))
  }

  // ---- the invariant ----

  ghost predicate CountersOk<T>(r: Ring<T>) {
    && |r.buffer| < TWO_32 && IsPowerOf2(|r.buffer|)
    && r.in_ == Low32(|r.put|) && r.out_ == Low32(|r.got|)
    && |r.got| <= |r.put| <= |r.got| + |r.buffer|
  }

  /** The slots between the counters hold what was put and not yet taken. */
  ghost predicate RingHolds<T>(r: Ring<T>)
    requires r.buffer != []
  {
    forall i {:trigger r.put[i]} :: |r.got| <= i < |r.put| ==> r.buffer[Slot(i, |r.buffer|)] == r.put[i]
  }

  ghost predicate ProducerOk<T>(r: Ring<T>)
    requires r.buffer != []
  {
    r.producer.Writing? ==>
      && r.producer.done <= |r.producer.src|
      && |r.put| + |r.producer.src| <= |r.got| + |r.buffer|
      && forall j {:trigger r.producer.src[j]} :: 0 <= j < r.producer.done ==>
           r.buffer[Slot(|r.put| + j, |r.buffer|)] == r.producer.src[j]
  }

  ghost predicate ConsumerOk<T>(r: Ring<T>) {
    r.consumer.Reading? ==>
      && |r.consumer.dst| <= r.consumer.n && |r.got| + r.consumer.n <= |r.put|
      && forall j {:trigger r.consumer.dst[j]} :: 0 <= j < |r.consumer.dst| ==> r.consumer.dst[j] == r.put[|r.got| + j]
  }

  ghost predicate Fifo<T>(r: Ring<T>) {
    r.got <= r.put
  }

  ghost predicate Inv<T>(r: Ring<T>) {
    r.buffer != [] && CountersOk(r) && RingHolds(r) && ProducerOk(r) && ConsumerOk(r) && Fifo(r)
  }

  ghost predicate Init<T>(r: Ring<T>) {
    && 2 <= |r.buffer| < TWO_32 && IsPowerOf2(|r.buffer|)
    && r.in_ == 0 && r.out_ == 0 && r.producer.Resting? && r.consumer.Waiting? && r.put == [] && r.got == []
  }

  lemma UsedIs<T>(r: Ring<T>)
    requires CountersOk(r)
    ensures Sub32(r.in_, r.out_) == |r.put| - |r.got|
  {
    Sub32OfCounters(|r.put|, |r.got|);
  }

  lemma WriteSlotIs<T>(r: Ring<T>)
    requires r.buffer != [] && CountersOk(r) && r.producer.Writing?
    ensures WriteSlot(r) == Slot(|r.put| + r.producer.done, |r.buffer|)
  {
    WrapKeepsSlot(|r.put|, |r.buffer|);
    AddToSlot(|r.put|, r.producer.done, |r.buffer|);
  }

  lemma ReadSlotIs<T>(r: Ring<T>)
    requires r.buffer != [] && CountersOk(r) && r.consumer.Reading?
    ensures ReadSlot(r) == Slot(|r.got| + |r.consumer.dst|, |r.buffer|)
  {
    WrapKeepsSlot(|r.got|, |r.buffer|);
    AddToSlot(|r.got|, |r.consumer.dst|, |r.buffer|);
  }

  /** The slot the producer writes next is none of those that hold an element still to be taken, so
      in particular it is not the slot the consumer reads, now or later in the same call. */
  lemma NoSlotIsReadWhileWritten<T>(r: Ring<T>, i: nat)
    requires Inv(r) && r.producer.Writing? && r.producer.done < |r.producer.src|
    requires |r.got| <= i < |r.put| + r.producer.done
    ensures Slot(i, |r.buffer|) != WriteSlot(r)
    ensures r.consumer.Reading? && |r.consumer.dst| < r.consumer.n ==> ReadSlot(r) != WriteSlot(r)
  {
    hide RingHolds, Slot, Fifo;
    WriteSlotIs(r);
    SlotsDiffer(i, |r.put| + r.producer.done, |r.buffer|);
    if r.consumer.Reading? && |r.consumer.dst| < r.consumer.n {
      ReadSlotIs(r);
      SlotsDiffer(|r.got| + |r.consumer.dst|, |r.put| + r.producer.done, |r.buffer|);
    }
  }

  lemma CopyInInv<T>(r: Ring<T>)
    requires Inv(r) && Do(r, CopyIn).Next?
    ensures Inv(Do(r, CopyIn).r)
  {
    var r' := Do(r, CopyIn).r;
    hide Slot, WriteSlot, IsPowerOf2;
    WriteSlotIs(r);
    forall i {:trigger r.put[i]} | |r.got| <= i < |r.put|
      ensures r'.buffer[Slot(i, |r.buffer|)] == r.put[i]
    {
      NoSlotIsReadWhileWritten(r, i);
    }
    forall j {:trigger r.producer.src[j]} | 0 <= j < r.producer.done
      ensures r'.buffer[Slot(|r.put| + j, |r.buffer|)] == r.producer.src[j]
    {
      NoSlotIsReadWhileWritten(r, |r.put| + j);
    }
  }

  lemma EndPutInv<T>(r: Ring<T>)
    requires Inv(r) && Do(r, EndPut).Next?
    ensures Inv(Do(r, EndPut).r)
  {
    var r' := Do(r, EndPut).r;
    Sum32(|r.put|, |r.producer.src|);
    hide Slot, IsPowerOf2;
    forall i {:trigger r'.put[i]} | |r.got| <= i < |r'.put|
      ensures r'.buffer[Slot(i, |r.buffer|)] == r'.put[i]
    {
      if i >= |r.put| {
        assert r'.put[i] == r.producer.src[i - |r.put|];
      } else {
        assert r'.put[i] == r.put[i];
      }
    }
  }

  lemma ConsumerInv<T>(r: Ring<T>, step: Step<T>)
    requires Inv(r) && Do(r, step).Next? && (step.BeginGet? || step.CopyOut? || step.EndGet?)
    ensures Inv(Do(r, step).r)
  {
    UsedIs(r);
    if step.CopyOut? {
      ReadSlotIs(r);
      hide Slot, ReadSlot;
      assert r.put[|r.got| + |r.consumer.dst|] == r.buffer[ReadSlot(r)];
    } else if step.EndGet? {
      Sum32(|r.got|, r.consumer.n);
      hide Slot;
      assert r.got + r.consumer.dst == r.put[..|r.got| + r.consumer.n];
    }
  }

  lemma StepInv<T>(r: Ring<T>, step: Step<T>)
    requires Inv(r) && Do(r, step).Next?
    ensures Inv(Do(r, step).r)
  {
    match step
    case BeginPut(src) => UsedIs(r);
    case CopyIn => CopyInInv(r);
    case EndPut => EndPutInv(r);
    case _ => ConsumerInv(r, step);
  }

  ghost predicate RunTo<T>(r: Ring<T>, steps: seq<Step<T>>, r': Ring<T>)
    requires r.buffer != []
    decreases |steps|
  {
    if steps == [] then r == r'
    else Do(r, steps[0]).Next? && Do(r, steps[0]).r.buffer != [] && RunTo(Do(r, steps[0]).r, steps[1..], r')
  }

  lemma {:induction false} RunInv<T>(r: Ring<T>, steps: seq<Step<T>>, r': Ring<T>)
    requires Inv(r) && RunTo(r, steps, r')
    ensures Inv(r')
    decreases |steps|
  {
    if steps != [] {
      StepInv(r, steps[0]);
      RunInv(Do(r, steps[0]).r, steps[1..], r');
    }
  }

  /** Under every interleaving, across any number of wraps of the 32-bit counters, the elements
      handed out are a prefix of the elements put, and never more than the capacity are in between. */
  lemma RefinesFifo<T>(r0: Ring<T>, steps: seq<Step<T>>, r: Ring<T>)
    requires Init(r0) && RunTo(r0, steps, r)
    ensures r.got <= r.put && |r.put| - |r.got| <= |r.buffer|
    ensures Sub32(r.in_, r.out_) == |r.put| - |r.got|
  {
    RunInv(r0, steps, r);
    UsedIs(r);
  }

  // ---- whole calls ----

  /** Parts of other runs may be interleaved with a call, but not its own end. */
  ghost predicate Without<T>(steps: seq<Step<T>>, step: Step<T>) {
    forall i :: 0 <= i < |steps| ==> steps[i] != step
  }

  /** A get can begin exactly if something is queued, and it settles on as many elements as are there, up to
      the number asked for. */
  lemma BeginGetSettles<T>(r: Ring<T>, max: nat)
    requires Inv(r) && r.consumer.Waiting?
    ensures Do(r, BeginGet(max)).Next? <==> |r.put| > |r.got|
    ensures |r.put| > |r.got| ==>
              Do(r, BeginGet(max)) == Next(r.(consumer := Reading(Min(max, |r.put| - |r.got|), [])))
  {
    UsedIs(r);
  }

  /** A put can begin exactly if there is room, and it settles on as many elements as there is room for. */
  lemma BeginPutSettles<T>(r: Ring<T>, src: seq<T>)
    requires Inv(r) && r.producer.Resting?
    ensures Do(r, BeginPut(src)).Next? <==> |r.put| - |r.got| < |r.buffer|
    ensures |r.put| - |r.got| < |r.buffer| ==>
              var n := Min(|src|, |r.buffer| - (|r.put| - |r.got|));
              Do(r, BeginPut(src)) == Next(r.(producer := Writing(src[..n], 0)))
  {
    UsedIs(r);
  }

  lemma EndGetHandsOut<T>(r: Ring<T>)
    requires Inv(r) && Do(r, EndGet).Next?
    ensures Do(r, EndGet).r.got == r.got + r.put[|r.got|..|r.got| + r.consumer.n]
  {
    assert r.consumer.dst == r.put[|r.got|..|r.got| + r.consumer.n];
  }

  lemma GetGoesOn<T>(r: Ring<T>, step: Step<T>)
    requires Inv(r) && Do(r, step).Next? && r.consumer.Reading? && step != EndGet
    ensures var r1 := Do(r, step).r;
            && r1.buffer != [] && r1.consumer.Reading? && r1.consumer.n == r.consumer.n && r1.got == r.got
            && r1.put[|r.got|..|r.got| + r.consumer.n] == r.put[|r.got|..|r.got| + r.consumer.n]
  {
  }

  lemma {:induction false} GetEnds<T>(r: Ring<T>, steps: seq<Step<T>>, r': Ring<T>)
    requires Inv(r) && RunTo(r, steps + [EndGet], r') && r.consumer.Reading? && Without(steps, EndGet)
    ensures r'.got == r.got + r.put[|r.got|..|r.got| + r.consumer.n]
    decreases |steps|
  {
    if steps == [] {
      assert steps + [EndGet] == [EndGet] && RunTo(Do(r, EndGet).r, [], r');
      EndGetHandsOut(r);
    } else {
      var step := steps[0];
      assert (steps + [EndGet])[1..] == steps[1..] + [EndGet];
      assert step != EndGet;
      StepInv(r, step);
      GetGoesOn(r, step);
      hide Do, Inv;
      GetEnds(Do(r, step).r, steps[1..], r');
    }
  }

  lemma PutGoesOn<T>(r: Ring<T>, step: Step<T>)
    requires Inv(r) && Do(r, step).Next? && r.producer.Writing? && step != EndPut
    ensures var r1 := Do(r, step).r;
            r1.buffer != [] && r1.producer.Writing? && r1.producer.src == r.producer.src && r1.put == r.put
  {
  }

  lemma {:induction false} PutEnds<T>(r: Ring<T>, steps: seq<Step<T>>, r': Ring<T>)
    requires Inv(r) && RunTo(r, steps + [EndPut], r') && r.producer.Writing? && Without(steps, EndPut)
    ensures r'.put == r.put + r.producer.src
    decreases |steps|
  {
    if steps == [] {
      assert steps + [EndPut] == [EndPut] && RunTo(Do(r, EndPut).r, [], r');
    } else {
      var step := steps[0];
      assert (steps + [EndPut])[1..] == steps[1..] + [EndPut];
      assert step != EndPut;
      StepInv(r, step);
      PutGoesOn(r, step);
      hide Do, Inv;
      PutEnds(Do(r, step).r, steps[1..], r');
    }
  }

  /** Whatever the producer does between its beginning and its end, a get hands out exactly the oldest
      elements of those that were queued when it began, as many as it asked for if they were so many. */
  lemma GetHandsOut<T>(r: Ring<T>, max: nat, steps: seq<Step<T>>, r': Ring<T>)
    requires Inv(r) && RunTo(r, [BeginGet(max)] + (steps + [EndGet]), r') && Without(steps, EndGet)
    ensures |r.put| > |r.got|
    ensures r'.got == r.got + r.put[|r.got|..|r.got| + Min(max, |r.put| - |r.got|)]
  {
    hide Slot, WriteSlot, ReadSlot, IsPowerOf2, Low32;
    BeginGetSettles(r, max);
    StepInv(r, BeginGet(max));
    assert ([BeginGet(max)] + (steps + [EndGet]))[1..] == steps + [EndGet];
    hide Inv;
    GetEnds(Do(r, BeginGet(max)).r, steps, r');
  }

  /** Whatever the consumer does meanwhile, a put publishes exactly the first elements it was given, as many as
      there was room for when it began. */
  lemma PutPublishes<T>(r: Ring<T>, src: seq<T>, steps: seq<Step<T>>, r': Ring<T>)
    requires Inv(r) && RunTo(r, [BeginPut(src)] + (steps + [EndPut]), r') && Without(steps, EndPut)
    ensures |r.put| - |r.got| < |r.buffer|
    ensures r'.put == r.put + src[..Min(|src|, |r.buffer| - (|r.put| - |r.got|))]
  {
    hide Slot, WriteSlot, ReadSlot, IsPowerOf2, Low32;
    BeginPutSettles(r, src);
    StepInv(r, BeginPut(src));
    assert ([BeginPut(src)] + (steps + [EndPut]))[1..] == steps + [EndPut];
    hide Inv;
    PutEnds(Do(r, BeginPut(src)).r, steps, r');
  }

  /** A call that has begun can always go on, copying until it has copied what it settled on and then ending:
      neither side ever waits for the other. */
  lemma CallsGoOn<T>(r: Ring<T>)
    requires Inv(r)
    ensures r.consumer.Reading? ==>
              if |r.consumer.dst| < r.consumer.n then Do(r, CopyOut).Next? else Do(r, EndGet).Next?
    ensures r.producer.Writing? ==>
              if r.producer.done < |r.producer.src| then Do(r, CopyIn).Next? else Do(r, EndPut).Next?
  {
  }

  // ---- lfqueueGet and lfqueuePut as such calls ----

  lemma {:induction false} RestOfGet<T>(r: Ring<T>) returns (steps: seq<Step<T>>, r': Ring<T>)
    requires Inv(r) && r.consumer.Reading?
    ensures RunTo(r, steps + [EndGet], r') && Without(steps, EndGet)
    ensures r'.buffer == r.buffer && r'.consumer.Waiting? && r'.producer == r.producer && r'.put == r.put
    decreases r.consumer.n - |r.consumer.dst|
  {
    CallsGoOn(r);
    if |r.consumer.dst| < r.consumer.n {
      StepInv(r, CopyOut);
      var rest;
      rest, r' := RestOfGet(Do(r, CopyOut).r);
      steps := [CopyOut] + rest;
      assert (steps + [EndGet])[1..] == rest + [EndGet];
    } else {
      steps, r' := [], Do(r, EndGet).r;
      assert steps + [EndGet] == [EndGet] && RunTo(r', [], r');
    }
  }

  lemma {:induction false} RestOfPut<T>(r: Ring<T>) returns (steps: seq<Step<T>>, r': Ring<T>)
    requires Inv(r) && r.producer.Writing?
    ensures RunTo(r, steps + [EndPut], r') && Without(steps, EndPut)
    ensures |r'.buffer| == |r.buffer| && r'.producer.Resting? && r'.consumer == r.consumer && r'.got == r.got
    decreases |r.producer.src| - r.producer.done
  {
    CallsGoOn(r);
    if r.producer.done < |r.producer.src| {
      StepInv(r, CopyIn);
      var rest;
      rest, r' := RestOfPut(Do(r, CopyIn).r);
      steps := [CopyIn] + rest;
      assert (steps + [EndPut])[1..] == rest + [EndPut];
    } else {
      steps, r' := [], Do(r, EndPut).r;
      assert steps + [EndPut] == [EndPut] && RunTo(r', [], r');
    }
  }

  lemma WholeGet<T>(r: Ring<T>, max: nat) returns (steps: seq<Step<T>>, r': Ring<T>)
    requires Inv(r) && AtRest(r) && |r.put| > |r.got|
    ensures RunTo(r, steps, r') && Inv(r') && AtRest(r') && |r'.buffer| == |r.buffer| && r'.put == r.put
    ensures r'.got == r.got + r.put[|r.got|..|r.got| + Min(max, |r.put| - |r.got|)]
  {
    BeginGetSettles(r, max);
    StepInv(r, BeginGet(max));
    var r1 := Do(r, BeginGet(max)).r;
    var copies;
    copies, r' := RestOfGet(r1);
    steps := [BeginGet(max)] + (copies + [EndGet]);
    assert steps[1..] == copies + [EndGet];
    hide Do, Inv;
    GetHandsOut(r, max, copies, r');
    RunInv(r, steps, r');
  }

  lemma WholePut<T>(r: Ring<T>, src: seq<T>) returns (steps: seq<Step<T>>, r': Ring<T>)
    requires Inv(r) && AtRest(r) && |r.put| - |r.got| < |r.buffer|
    ensures RunTo(r, steps, r') && Inv(r') && AtRest(r') && |r'.buffer| == |r.buffer| && r'.got == r.got
    ensures r'.put == r.put + src[..Min(|src|, |r.buffer| - (|r.put| - |r.got|))]
  {
    BeginPutSettles(r, src);
    StepInv(r, BeginPut(src));
    var r1 := Do(r, BeginPut(src)).r;
    var copies;
    copies, r' := RestOfPut(r1);
    steps := [BeginPut(src)] + (copies + [EndPut]);
    assert steps[1..] == copies + [EndPut];
    hide Do, Inv;
    PutPublishes(r, src, copies, r');
    RunInv(r, steps, r');
  }

  ghost predicate AtRest<T>(r: Ring<T>) {
    r.producer.Resting? && r.consumer.Waiting?
  }

  /** The queue object is in the state r: its counters, and the elements between them. */
  ghost predicate Same<T>(q: Lfqueue<T>, r: Ring<T>)
    reads q, q.buffer
  {
    && q.Valid() && Inv(r) && AtRest(r) && |r.buffer| == q.size
    && q.in_ == r.in_ && q.out_ == r.out_ && q.put == |r.put| && q.got == |r.got|
    && q.contents == r.put[|r.got|..]
  }

  /** lfqueueGet is a run of the steps of one get, or of none where nothing is queued. */
  method GetIsCall<T>(q: Lfqueue<T>, max: nat, ghost r: Ring<T>)
    returns (dst: seq<T>, ghost steps: seq<Step<T>>, ghost r': Ring<T>)
    requires Same(q, r)
    modifies q`out_, q`got, q`contents
    ensures RunTo(r, steps, r') && Same(q, r') && r'.got == r.got + dst && r'.put == r.put
  {
    dst := q.Get(max);
    if |r.put| > |r.got| {
      steps, r' := WholeGet(r, max);
    } else {
      steps, r' := [], r;
    }
  }

  /** lfqueuePut is a run of the steps of one put, or of none where there is no room. */
  method PutIsCall<T>(q: Lfqueue<T>, src: seq<T>, ghost r: Ring<T>)
    returns (n: nat, ghost steps: seq<Step<T>>, ghost r': Ring<T>)
    requires Same(q, r) && |src| < TWO_32
    modifies q`in_, q`put, q`contents, q.buffer
    ensures RunTo(r, steps, r') && Same(q, r') && n <= |src| && r'.put == r.put + src[..n] && r'.got == r.got
  {
    n := q.Put(src);
    if |r.put| - |r.got| < |r.buffer| {
      steps, r' := WholePut(r, src);
    } else {
      steps, r' := [], r;
    }
  }
}

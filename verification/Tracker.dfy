/** The tracker side: the wrapped lock and unlock calls, the event generators and the dispatcher
    (trait.c, dispatcher.c) as code, proved against the producer steps of Protocol. */
module Tracker {
  import opened Utils
  import opened Bits
  import opened LockGraphs
  import opened Lfqueues
  import opened Protocol
  import opened Vertices

  /** eventQueueMemPool and eventQueueBufferMemPool: a queue takes a block of each. */
  class QueuePools {
    const eventQueueMemPool: BlockPool
    const eventQueueBufferMemPool: BlockPool

    ghost predicate Valid()
      reads eventQueueMemPool, eventQueueBufferMemPool
    {
      && eventQueueMemPool != eventQueueBufferMemPool
      && eventQueueMemPool.capacity == eventQueueBufferMemPool.capacity == NUMBER_OF_EVENTQUEUE
      && eventQueueMemPool.live == eventQueueBufferMemPool.live <= NUMBER_OF_EVENTQUEUE
    }

    /** memPoolAllInit, for these two pools. */
    constructor ()
      ensures Valid() && eventQueueMemPool.live == 0
      ensures fresh(eventQueueMemPool) && fresh(eventQueueBufferMemPool)
    {
      eventQueueMemPool := new BlockPool(NUMBER_OF_EVENTQUEUE);
      eventQueueBufferMemPool := new BlockPool(NUMBER_OF_EVENTQUEUE);
    }

    ghost function InUse(): nat
      reads eventQueueMemPool
    {
      eventQueueMemPool.live
    }
  }

  /** The thread-local dispatcher. ev is the one event record that every call overwrites. */
  class Dispatcher {
    const tid: nat
    const pools: QueuePools
    var eq: Lfqueue?<Event>
    var ev: Event

    ghost var th: Thread  // this thread in the protocol

    ghost function Repr(): set<object>
      reads this`eq
    {
      if eq == null then {this} else {this, eq, eq.buffer}
    }

    ghost predicate QueueOk()
      reads this, Repr()
    {
      if eq == null then th.queue == []
      else eq.Valid() && eq.size == NUMBER_OF_EVENT && th.queue == eq.contents
    }

    /** The queue holds what the protocol says, and between the two events of a lock call the record
        still names the mutex of the first. */
    ghost predicate Valid()
      reads this, Repr()
    {
      && QueueOk() && (eq != null <==> HasQueue(th))
      && (eq == null ==> th.phase == Idle && th.held == {})
      && (th.phase.Waiting? || th.phase.Acquired? ==> ev == Wait(th.phase.m))
    }

    constructor (tid: nat, pools: QueuePools)
      ensures Valid() && this.tid == tid && this.pools == pools
      ensures th == Thread(Idle, {}, [], []) && Repr() == {this}
    {
      this.tid, this.pools, eq, ev := tid, pools, null, Wait(0);
      th := Thread(Idle, {}, [], []);
    }

    /** dispatcherInit: the queue is made when the thread asks for its first mutex. ok is false where
        eventQueueInit asserts that it has got its two blocks. */
    method DispatcherInit() returns (ok: bool)
      requires Valid() && pools.Valid()
      modifies this`eq, pools.eventQueueMemPool, pools.eventQueueBufferMemPool
      ensures ok == (old(eq) != null || old(pools.InUse()) < NUMBER_OF_EVENTQUEUE) && pools.Valid()
      ensures pools.InUse() == old(pools.InUse()) + if ok && old(eq) == null then 1 else 0
      ensures !ok || old(eq) != null ==> eq == old(eq)
      ensures ok ==> eq != null && QueueOk()
      ensures ok && old(eq) == null ==> fresh(eq) && fresh(eq.buffer) && eq.contents == []
    {
      if eq != null {
        return true;
      }
      var queueBlock := pools.eventQueueMemPool.live < pools.eventQueueMemPool.capacity;
      var bufferBlock := pools.eventQueueBufferMemPool.live < pools.eventQueueBufferMemPool.capacity;
      if !queueBlock || !bufferBlock {
        return false;
      }
      pools.eventQueueMemPool.live := pools.eventQueueMemPool.live + 1;
      pools.eventQueueBufferMemPool.live := pools.eventQueueBufferMemPool.live + 1;
      var buffer := new Event[NUMBER_OF_EVENT](_ => Wait(0));
      assert IsPowerOf2(NUMBER_OF_EVENT) by {
        assert Pow2(8) == 256;
      }
      eq := new Lfqueue(buffer, NUMBER_OF_EVENT);
      PowersApart(eq.size, NUMBER_OF_EVENT);
      ok := true;
    }

    /** dispatcherInvoke: the put of one event, which the source asserts to return 1. */
    method Invoke() returns (ret: nat)
      requires eq != null && eq.Valid() && eq.size == NUMBER_OF_EVENT
      modifies eq, eq.buffer
      ensures eq.Valid() && ret == if |old(eq.contents)| < NUMBER_OF_EVENT then 1 else 0
      ensures eq.contents == if ret == 1 then old(eq.contents) + [ev] else old(eq.contents)
    {
      ret := eq.Put([ev]);
      assert [ev][..0] == [] && [ev][..1] == [ev];
    }

    /** generateWaitEvent; ok is false where the source aborts: without a queue for a new thread, or
        without room in the queue it has. */
    method GenerateWaitEvent(m: nat) returns (ok: bool)
      requires Valid() && pools.Valid() && th.phase == Idle
      modifies Repr(), pools.eventQueueMemPool, pools.eventQueueBufferMemPool
      ensures Valid() && pools.Valid() && fresh(Repr() - old(Repr()))
      ensures ok == CanWait(old(th), old(pools.InUse()))
      ensures pools.InUse() == old(pools.InUse()) + if ok && !HasQueue(old(th)) then 1 else 0
      ensures th == if ok then old(th).(phase := Waiting(m), queue := old(th).queue + [Wait(m)]) else old(th)
      ensures IsStep(old(th), PushWait(tid, m), ok, th, old(pools.InUse()))
    {
      ok := DispatcherInit();
      if ok {
        ev := Wait(m);
        var ret := Invoke();
        ok := ret == 1;
        th := if ok then th.(phase := Waiting(m), queue := th.queue + [Wait(m)]) else th;
      }
    }

    /** generateHoldEvent, called with the mutex that the native lock has just given: the source's
        assertions on the dispatcher and on the recorded mutex hold. */
    method GenerateHoldEvent(m: nat) returns (ok: bool)
      requires Valid() && th.phase == Acquired(m)
      modifies Repr()
      ensures fresh(Repr() - old(Repr())) && ok == (|old(th).queue| < NUMBER_OF_EVENT)
      ensures ok ==> Valid()
                     && th == old(th).(phase := Idle, held := old(th).held + {m}, queue := old(th).queue + [Hold(m)])
      ensures IsStep(old(th), PushHold(tid), ok, th, 0)
    {
      assert eq != null;
      assert m == ev.m;
      ev := Hold(m);
      var ret := Invoke();
      ok := ret == 1;
      if ok {
        th := th.(phase := Idle, held := th.held + {m}, queue := th.queue + [Hold(m)]);
      }
    }

    /** generateReleaseEvent, called after the native unlock of m. */
    method GenerateReleaseEvent(m: nat) returns (ok: bool)
      requires Valid() && th.phase == Released(m)
      modifies Repr()
      ensures Valid() && fresh(Repr() - old(Repr())) && ok == (|old(th).queue| < NUMBER_OF_EVENT)
      ensures th == if ok then old(th).(phase := Idle, queue := old(th).queue + [Release(m)]) else old(th)
      ensures IsStep(old(th), PushRelease(tid), ok, th, 0)
    {
      assert eq != null;
      ev := Release(m);
      var ret := Invoke();
      ok := ret == 1;
      th := if ok then th.(phase := Idle, queue := th.queue + [Release(m)]) else th;
    }

    /** There is a queue for the thread, and room in it. */
    predicate CanWait(th: Thread, inUse: nat) {
      (HasQueue(th) || inUse < NUMBER_OF_EVENTQUEUE) && |th.queue| < NUMBER_OF_EVENT
    }

    /** What the step means for the state machine, in any state that has this thread in it and, for
        a WAIT, as many queues in use as the pools have given out. */
    ghost predicate IsStep(before: Thread, step: Step, ok: bool, after: Thread, inUse: nat) {
      forall s: State {:trigger Do(s, step)} ::
        tid in s.threads && s.threads[tid] == before && (step.PushWait? ==> |QueuesInUse(s)| == inUse) ==>
          Do(s, step) == if ok then Next(s.(threads := s.threads[tid := after])) else Abort
    }

    /** The native lock gives the mutex once nobody owns it, and blocks as long as somebody does. */
    ghost method Locked(m: nat)
      requires Valid() && th.phase == Waiting(m)
      modifies this`th
      ensures Valid() && th == old(th).(phase := Acquired(m))
      ensures forall s: State {:trigger Do(s, NativeLock(tid))} :: tid in s.threads && s.threads[tid] == old(th) ==>
                Do(s, NativeLock(tid)) == if m in s.owner then Disabled
                                          else Next(s.(threads := s.threads[tid := th], owner := s.owner[m := tid]))
    {
      th := th.(phase := Acquired(m));
    }

    ghost method Unlocked(m: nat)
      requires Valid() && th.phase == Idle && m in th.held
      modifies this`th
      ensures Valid() && th == old(th).(phase := Released(m), held := old(th).held - {m})
      ensures forall s: State {:trigger Do(s, NativeUnlock(tid, m))} :: tid in s.threads && s.threads[tid] == old(th) ==>
                Do(s, NativeUnlock(tid, m)) == Next(s.(threads := s.threads[tid := th], owner := s.owner - {m}))
    {
      th := th.(phase := Released(m), held := th.held - {m});
    }

    /** The checker takes events of this thread while the thread is inside a call. */
    method Taken(max: nat)
      requires Valid() && eq != null
      modifies eq`out_, eq`got, eq`contents, this`th
      ensures Valid() && eq.buffer == old(eq.buffer)
      ensures var k := Min(max, |old(th).queue|);
              th == old(th).(queue := old(th).queue[k..], consumed := old(th).consumed + old(th).queue[..k])
    {
      var evs := eq.Get(max);
      th := th.(queue := th.queue[|evs|..], consumed := th.consumed + evs);
    }

    /** pthread_mutex_lock as wrapped: WAIT, the native lock, HOLD. While the thread waits the checker
        takes up to taken events; the call aborts exactly if it finds no room for the first event, or
        none then for the second. */
    method MutexLock(m: nat, taken: nat) returns (ok: bool)
      requires Valid() && pools.Valid() && th.phase == Idle
      modifies Repr(), pools.eventQueueMemPool, pools.eventQueueBufferMemPool
      ensures fresh(Repr() - old(Repr())) && pools.Valid()
      ensures var q := old(th).queue + [Wait(m)];
              var k := Min(taken, |q|);
              && ok == (CanWait(old(th), old(pools.InUse())) && |q| - k < NUMBER_OF_EVENT)
              && (ok ==> Valid() && th == Thread(Idle, old(th).held + {m}, q[k..] + [Hold(m)], old(th).consumed + q[..k]))
    {
      hide IsStep, QueueOk;
      ok := GenerateWaitEvent(m);
      if !ok {
        return;
      }
      Taken(taken);
      Locked(m);
      ok := GenerateHoldEvent(m);
    }

    /** pthread_mutex_unlock as wrapped: the native unlock, then RELEASE. */
    method MutexUnlock(m: nat) returns (ok: bool)
      requires Valid() && th.phase == Idle && m in th.held
      modifies Repr()
      ensures ok == (|old(th).queue| < NUMBER_OF_EVENT) && fresh(Repr() - old(Repr())) && Valid()
      ensures ok ==> th == old(th).(held := old(th).held - {m}, queue := old(th).queue + [Release(m)])
    {
      hide IsStep;
      Unlocked(m);
      ok := GenerateReleaseEvent(m);
    }
  }

  lemma PowersApart(a: nat, b: nat)
    requires IsPowerOf2(a) && IsPowerOf2(b) && a <= b < 2 * a
    ensures a == b
  {
    var i: nat :| a == Pow2(i);
    var j: nat :| b == Pow2(j);
    if i < j {
      Pow2Grows(i, j);
    } else if j < i {
      Pow2Grows(j, i);
    }
  }
}

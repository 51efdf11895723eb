/** The checker's pass over the event queues (eventLoopEnter), while the other threads go on. */
module Consumer {
  import opened Graph
  import opened LockGraphs
  import opened Lfqueues
  import opened Protocol
  import opened Deadlock
  import opened EventLoop
  import opened Passes

  // ---- what any run does to a thread's events ----

  /** Events are only added at the end, and taken in order. */
  ghost predicate Grown(th: Thread, th': Thread) {
    th.consumed <= th'.consumed && th.consumed + th.queue <= th'.consumed + th'.queue
  }

  ghost predicate GrownIn(s: State, s': State, t: nat) {
    t in s.threads && t in s'.threads && Grown(s.threads[t], s'.threads[t])
  }

  lemma StepGrows(s: State, step: Step)
    requires Do(s, step).Next?
    ensures Do(s, step).s.threads.Keys == s.threads.Keys
    ensures forall t :: t in s.threads ==> GrownIn(s, Do(s, step).s, t)
  {
    hide Handle, QueuesInUse;
    var th, th' := s.threads[step.t], Do(s, step).s.threads[step.t];
    if step.Consume? {
      assert th.consumed + [th.queue[0]] + th.queue[1..] == th.consumed + th.queue;
    } else {
      assert th.queue <= th'.queue && th'.consumed == th.consumed;
      assert th'.consumed + th'.queue == (th.consumed + th.queue) + th'.queue[|th.queue|..];
    }
  }

  lemma {:induction false} RunGrows(s: State, steps: seq<Step>, s': State)
    requires RunTo(s, steps, s')
    ensures s'.threads.Keys == s.threads.Keys
    ensures forall t :: t in s.threads ==> GrownIn(s, s', t)
    decreases |steps|
  {
    if steps != [] {
      var s1 := Do(s, steps[0]).s;
      StepGrows(s, steps[0]);
      RunGrows(s1, steps[1..], s');
      forall t | t in s.threads
        ensures GrownIn(s, s', t)
      {
        assert GrownIn(s, s1, t) && GrownIn(s1, s', t);
      }
    }
  }

  /** Whatever order the hash map gives the queues in, however the pass is cut into steps, and whatever the
      threads push meanwhile: two passes that take from each thread as many of the events it had queued at
      the start lead to the same graph. */
  lemma OrderDoesNotMatter(s: State, steps1: seq<Step>, s1: State, steps2: seq<Step>, s2: State)
    requires Inv(s) && RunTo(s, steps1, s1) && RunTo(s, steps2, s2)
    requires forall t :: t in s.threads ==> t in s1.threads && t in s2.threads
    requires forall t :: t in s.threads ==>
               |s1.threads[t].consumed| == |s2.threads[t].consumed| <= |s.threads[t].consumed + s.threads[t].queue|
    ensures s1.graph == s2.graph
  {
    hide Inv, RunTo;
    RunInv(s, steps1, s1);
    RunInv(s, steps2, s2);
    RunGrows(s, steps1, s1);
    RunGrows(s, steps2, s2);
    forall t | t in s1.threads
      ensures s1.threads[t].consumed == s2.threads[t].consumed
    {
      assert GrownIn(s, s1, t) && GrownIn(s, s2, t);
      TakenPart(s.threads[t], s1.threads[t]);
      TakenPart(s.threads[t], s2.threads[t]);
    }
    GraphFollowsConsumed(s1, s2);
  }

  lemma TakenPart(th: Thread, th': Thread)
    requires Grown(th, th') && |th'.consumed| <= |th.consumed + th.queue|
    ensures th'.consumed == (th.consumed + th.queue)[..|th'.consumed|]
  {
    var all := th'.consumed + th'.queue;
    assert all[..|th'.consumed|] == th'.consumed;
  }

  lemma {:induction false} RunsJoin(s: State, steps: seq<Step>, s1: State, more: seq<Step>, s2: State)
    requires RunTo(s, steps, s1) && RunTo(s1, more, s2)
    ensures RunTo(s, steps + more, s2)
    decreases |steps|
  {
    hide Do;
    if steps == [] {
      assert [] + more == more;
    } else {
      RunsJoin(Do(s, steps[0]).s, steps[1..], s1, more, s2);
      assert (steps + more)[1..] == steps[1..] + more;
    }
  }

  /** After a pass over all queues, in which everybody may have gone on: every deadlock that was there at the
      start is in the graph, and every cycle of threads that have nothing queued is a deadlock. */
  lemma PassMeetsReality(s: State, steps: seq<Step>, s': State, w: seq<(nat, nat)>)
    requires Reachable(s) && RunTo(s, steps, s') && forall t :: t in s.threads ==> CaughtUp(s, s', t)
    ensures CircularWait(s, w) ==> GraphCycle(s'.graph.arcs, w) && CircularWait(s', w)
    ensures (forall i :: 0 <= i < |w| ==> Quiet(s', w[i].0)) ==>
              (GraphCycle(s'.graph.arcs, w) <==> CircularWait(s', w))
  {
    ReachableInv(s);
    RunInv(s, steps, s');
    hide Inv;
    if CircularWait(s, w) {
      forall i | 0 <= i < |w|
        ensures CaughtUp(s, s', w[i].0)
      {
        assert WaitsForNext(s, w, i);
      }
      PassCatchesDeadlock(s, steps, s', w);
    }
    if forall i :: 0 <= i < |w| ==> Quiet(s', w[i].0) {
      QuietCycleIsDeadlock(s', w);
    }
  }

  ghost predicate OnlyConsumes(steps: seq<Step>) {
    forall i :: 0 <= i < |steps| ==> steps[i].Consume?
  }

  /** A pass on its own changes nothing about who waits and who owns. */
  lemma {:induction false} ConsumesKeep(s: State, steps: seq<Step>, s': State)
    requires RunTo(s, steps, s') && OnlyConsumes(steps)
    ensures s'.threads.Keys == s.threads.Keys && s'.owner == s.owner
    ensures forall t :: t in s.threads ==> WorkedIn(s, s', t)
    decreases |steps|
  {
    if steps != [] {
      var s1 := Do(s, steps[0]).s;
      var th := s.threads[steps[0].t];
      assert th.consumed + [th.queue[0]] + th.queue[1..] == th.consumed + th.queue;
      assert WorkedIn(s, s1, steps[0].t);
      ConsumesKeep(s1, steps[1..], s');
      forall t | t in s.threads
        ensures WorkedIn(s, s', t)
      {
        assert WorkedIn(s1, s', t);
      }
    }
  }

  /** And if nobody has gone on, the graph has a cycle after the pass exactly if threads were deadlocked. */
  lemma QuietPassMeetsReality(s: State, steps: seq<Step>, s': State)
    requires Reachable(s) && RunTo(s, steps, s') && OnlyConsumes(steps)
    requires forall t :: t in s.threads ==> CaughtUp(s, s', t)
    ensures (exists a :: IsCycle(s'.graph.arcs, a)) <==> (exists w :: CircularWait(s, w))
  {
    var s0, steps0 :| Init(s0) && RunTo(s0, steps0, s);
    RunsJoin(s0, steps0, s, steps, s');
    ConsumesKeep(s, steps, s');
    forall t | t in s'.threads
      ensures Quiet(s', t)
    {
      assert WorkedIn(s, s', t) && CaughtUp(s, s', t);
      var th, th' := s.threads[t], s'.threads[t];
      assert |th'.consumed + th'.queue| == |th.consumed + th.queue|;
    }
    CycleIffDeadlock(s');
    forall w
      ensures CircularWait(s, w) <==> CircularWait(s', w)
    {
      SameWaits(s, s', w);
    }
  }

  lemma SameWaits(s: State, s': State, w: seq<(nat, nat)>)
    requires s'.threads.Keys == s.threads.Keys && s'.owner == s.owner
    requires forall t :: t in s.threads ==> WorkedIn(s, s', t)
    ensures CircularWait(s, w) <==> CircularWait(s', w)
  {
    forall i | 0 <= i < |w|
      ensures WaitsForNext(s, w, i) <==> WaitsForNext(s', w, i)
    {
      assert w[i].0 in s.threads ==> WorkedIn(s, s', w[i].0);
    }
  }

  // ---- the code ----

  ghost predicate QueueOk(q: Lfqueue<Event>, ths: map<nat, Thread>, t: nat)
    reads q, q.buffer
  {
    t in ths && q.Valid() && q.size == NUMBER_OF_EVENT && q.contents == ths[t].queue
  }

  /** The queue objects of eventQueueMap, one for each thread, hold the threads' queues. */
  ghost predicate QueuesOk(queues: map<nat, Lfqueue<Event>>, qs: set<Lfqueue<Event>>, ths: map<nat, Thread>)
    reads qs, set q | q in qs :: q.buffer
  {
    && (forall t :: t in queues ==> queues[t] in qs && QueueOk(queues[t], ths, t))
    && (forall t, u :: t in queues && u in queues && t != u ==>
          queues[t] != queues[u] && queues[t].buffer != queues[u].buffer)
  }

  function Taken(ths: map<nat, Thread>, t: nat): map<nat, Thread>
    requires t in ths && ths[t].queue != []
  {
    var th := ths[t];
    ths[t := th.(queue := th.queue[1..], consumed := th.consumed + [th.queue[0]])]
  }

  /** eventQueueGet on one of the queues. */
  method GetEvent(t: nat, queues: map<nat, Lfqueue<Event>>, ghost qs: set<Lfqueue<Event>>, ghost ths: map<nat, Thread>)
    returns (ev: Event)
    requires QueuesOk(queues, qs, ths) && t in queues && ths[t].queue != []
    modifies qs`out_, qs`got, qs`contents
    ensures ev == ths[t].queue[0] && QueuesOk(queues, qs, Taken(ths, t))
  {
    var q := queues[t];
    var evs := q.Get(1);
    ev := evs[0];
    hide Lfqueue.Valid;
    forall u | u in queues
      ensures QueueOk(queues[u], Taken(ths, t), u)
    {
      assert old(QueueOk(queues[u], ths, u));
    }
  }

  /** A push by the thread t, for which there is room. */
  method PutEvent(t: nat, ev: Event, queues: map<nat, Lfqueue<Event>>, ghost qs: set<Lfqueue<Event>>,
                  ghost ths: map<nat, Thread>, ghost ths': map<nat, Thread>)
    requires QueuesOk(queues, qs, ths) && t in queues && |ths[t].queue| < NUMBER_OF_EVENT
    requires ths'.Keys == ths.Keys && ths'[t].queue == ths[t].queue + [ev]
    requires forall u :: u in ths && u != t ==> ths'[u].queue == ths[u].queue
    modifies qs`in_, qs`put, qs`contents, set q | q in qs :: q.buffer
    ensures QueuesOk(queues, qs, ths')
  {
    var q := queues[t];
    var n := q.Put([ev]);
    assert [ev][..1] == [ev];
    hide Lfqueue.Valid;
    forall u | u in queues
      ensures QueueOk(queues[u], ths', u)
    {
      assert old(QueueOk(queues[u], ths, u));
    }
  }

  /** A step of one of the other threads, if it is enabled. */
  method OtherStep(step: Step, queues: map<nat, Lfqueue<Event>>, ghost qs: set<Lfqueue<Event>>, s: State)
    returns (s': State)
    requires QueuesOk(queues, qs, s.threads)
    modifies qs`in_, qs`put, qs`contents, set q | q in qs :: q.buffer
    ensures QueuesOk(queues, qs, s'.threads) && s'.graph == s.graph
    ensures !step.Consume? && step.t in queues && Do(s, step).Next? ==> Do(s, step) == Next(s')
    ensures step.Consume? || step.t !in queues || !Do(s, step).Next? ==> s' == s
  {
    s' := s;
    if !Happens(s, step, queues.Keys) {
      return;
    }
    var next := Do(s, step);
    ProducerFrame(s, step);
    PushedAtEnd(s, step);
    hide Do, QueuesOk;
    var q, q' := s.threads[step.t].queue, next.s.threads[step.t].queue;
    if q' != q {
      PutEvent(step.t, q'[|q|], queues, qs, s.threads, next.s.threads);
    } else {
      SameQueues(queues, qs, s.threads, next.s.threads);
    }
    s' := next.s;
  }

  lemma PushedAtEnd(s: State, step: Step)
    requires Do(s, step).Next? && !step.Consume?
    ensures var q, q' := s.threads[step.t].queue, Do(s, step).s.threads[step.t].queue;
            q' == q || (|q| < NUMBER_OF_EVENT && |q'| == |q| + 1 && q' == q + [q'[|q|]])
  {
  }

  lemma SameQueues(queues: map<nat, Lfqueue<Event>>, qs: set<Lfqueue<Event>>, ths: map<nat, Thread>,
                   ths': map<nat, Thread>)
    requires QueuesOk(queues, qs, ths)
    requires ths'.Keys == ths.Keys && forall t :: t in ths ==> ths'[t].queue == ths[t].queue
    ensures QueuesOk(queues, qs, ths')
  {
    forall t | t in queues
      ensures QueueOk(queues[t], ths', t)
    {
      assert QueueOk(queues[t], ths, t);
    }
  }

  /** The checker's graph and the queue objects are in the state s. */
  ghost predicate InState(c: Checker, queues: map<nat, Lfqueue<Event>>, qs: set<Lfqueue<Event>>, s: State)
    reads c, c.objs, c.threadVertexMemPool, c.mutexVertexMemPool, c.arcMemPool
    reads qs, set q | q in qs :: q.buffer
  {
    c.Valid() && c.g == s.graph && QueuesOk(queues, qs, s.threads)
  }

  /** How many of t's events the checker has taken so far. */
  function Took(s: State, t: nat): nat {
    if t in s.threads then |s.threads[t].consumed| else 0
  }

  /** A run in which nothing is taken from any queue. */
  ghost predicate PushRun(s: State, steps: seq<Step>, s': State) {
    RunTo(s, steps, s') && forall t {:trigger Took(s', t)} :: Took(s', t) == Took(s, t) && Queued(s', t) >= Queued(s, t)
  }

  lemma NoPush(s: State)
    ensures PushRun(s, [], s)
  {
  }

  lemma OnePushMore(s: State, steps: seq<Step>, s1: State, step: Step)
    requires PushRun(s, steps, s1) && Do(s1, step).Next? && !step.Consume?
    ensures PushRun(s, steps + [step], Do(s1, step).s)
  {
    RunExtend(s, steps, s1, step);
    PushedAtEnd(s1, step);
    ProducerFrame(s1, step);
    hide RunTo, Handle, QueuesInUse;
    var s2 := Do(s1, step).s;
    forall t
      ensures Took(s2, t) == Took(s, t) && Queued(s2, t) >= Queued(s, t)
    {
      assert Took(s1, t) == Took(s, t);
    }
  }

  /** What the other threads do between two moves of the checker. */
  method Others(script: seq<Step>, c: Checker, queues: map<nat, Lfqueue<Event>>, ghost qs: set<Lfqueue<Event>>, s: State)
    returns (s': State, ghost steps: seq<Step>)
    requires InState(c, queues, qs, s)
    modifies qs`in_, qs`put, qs`contents, set q | q in qs :: q.buffer
    ensures InState(c, queues, qs, s') && s' == After(s, script, queues.Keys) && PushRun(s, steps, s')
    ensures script == [] ==> steps == []
  {
    hide Checker.Valid, QueuesOk, PushRun, Do, After;
    NoPush(s);
    AfterOne(s, script, 0, queues.Keys);
    s', steps := s, [];
    for i := 0 to |script|
      invariant InState(c, queues, qs, s') && s' == After(s, script[..i], queues.Keys) && PushRun(s, steps, s')
      invariant script == [] ==> steps == []
    {
      AfterOne(s, script, i, queues.Keys);
      ghost var s1 := s';
      s' := OtherStep(script[i], queues, qs, s');
      if Happens(s1, script[i], queues.Keys) {
        OnePushMore(s, steps, s1, script[i]);
        steps := steps + [script[i]];
      }
    }
    assert script[..|script|] == script;
  }

  lemma QueuedInState(c: Checker, t: nat, queues: map<nat, Lfqueue<Event>>, qs: set<Lfqueue<Event>>, s: State)
    requires InState(c, queues, qs, s) && t in queues
    ensures t in s.threads && queues[t] in qs && queues[t].Valid() && |queues[t].contents| == Queued(s, t)
    ensures var q := s.threads[t].queue;
            q != [] ==>
              var h := Handle(s.graph, t, q[0]);
              Do(s, Consume(t)) ==
              if h.None? then Abort else Next(s.(threads := Taken(s.threads, t), graph := h.value))
  {
    hide Checker.Valid, Handle;
    assert QueueOk(queues[t], s.threads, t);
  }

  /** One turn of the loop over a queue: take one event and handle it. */
  method TakeOne(c: Checker, t: nat, queues: map<nat, Lfqueue<Event>>, ghost qs: set<Lfqueue<Event>>, s: State)
    returns (ok: bool, s': State)
    requires InState(c, queues, qs, s) && t in queues && Queued(s, t) > 0
    modifies c, c.threadVertexMemPool, c.mutexVertexMemPool, c.arcMemPool, c.objs
    modifies qs`out_, qs`got, qs`contents
    ensures ok ==> Do(s, Consume(t)) == Next(s') && InState(c, queues, qs, s') && fresh(c.objs - old(c.objs))
    ensures !ok ==> Do(s, Consume(t)).Abort? && s' == s
  {
    hide Checker.Valid, Handle, QueuesOk, QueueOk, Do, Taken;
    QueuedInState(c, t, queues, qs, s);
    var next := Do(s, Consume(t));
    var ev := GetEvent(t, queues, qs, s.threads);
    ok := c.EventHandler(t, ev);
    s' := if ok then next.s else s;
  }

  lemma PushesOnly(s: State, steps: seq<Step>, s': State, t: nat)
    requires PushRun(s, steps, s')
    ensures Queued(s', t) >= Queued(s, t)
  {
    assert Took(s', t) == Took(s, t);
  }

  /** The other threads move, to s1, and then the checker takes an event. */
  method MoveAndTake(script: seq<Step>, c: Checker, t: nat, queues: map<nat, Lfqueue<Event>>,
                     ghost qs: set<Lfqueue<Event>>, s: State)
    returns (ok: bool, s': State, ghost more: seq<Step>, ghost s1: State)
    requires InState(c, queues, qs, s) && t in queues && Queued(s, t) > 0
    modifies c, c.threadVertexMemPool, c.mutexVertexMemPool, c.arcMemPool, c.objs
    modifies qs`in_, qs`put, qs`out_, qs`got, qs`contents, set q | q in qs :: q.buffer
    ensures PushRun(s, more, s1) && (script == [] ==> more == []) && s1 == After(s, script, queues.Keys)
    ensures ok ==> Do(s1, Consume(t)) == Next(s') && InState(c, queues, qs, s') && fresh(c.objs - old(c.objs))
    ensures !ok ==> Do(s1, Consume(t)).Abort? && s' == s1
  {
    hide *;
    s', more := Others(script, c, queues, qs, s);
    PushesOnly(s, more, s', t);
    s1 := s';
    ok, s' := TakeOne(c, t, queues, qs, s');
  }

  /** On the way from s to s', with num of the all events of t still to be taken. */
  ghost predicate Taking(s: State, steps: seq<Step>, s': State, t: nat, all: nat, num: nat) {
    && RunTo(s, steps, s') && t in s.threads && t in s'.threads
    && num <= Queued(s', t) && Queued(s, t) <= all && Took(s', t) + num == Took(s, t) + all
    && forall u {:trigger Took(s', u)} :: u != t ==> Took(s', u) == Took(s, u)
  }

  lemma StartTaking(s: State, steps: seq<Step>, s': State, t: nat)
    requires PushRun(s, steps, s') && t in s'.threads
    ensures Taking(s, steps, s', t, Queued(s', t), Queued(s', t))
  {
    RunGrows(s, steps, s');
    hide RunTo;
    assert Took(s', t) == Took(s, t);
  }

  lemma PushedMeanwhile(s: State, steps: seq<Step>, s1: State, t: nat, all: nat, num: nat, more: seq<Step>, s2: State)
    requires Taking(s, steps, s1, t, all, num) && PushRun(s1, more, s2)
    ensures Taking(s, steps + more, s2, t, all, num)
  {
    RunsJoin(s, steps, s1, more, s2);
    RunGrows(s1, more, s2);
    hide RunTo;
    assert Took(s2, t) == Took(s1, t);
    forall u | u != t
      ensures Took(s2, u) == Took(s, u)
    {
      assert Took(s1, u) == Took(s, u);
    }
  }

  lemma StillQueued(s: State, steps: seq<Step>, s': State, t: nat, all: nat, num: nat)
    requires Taking(s, steps, s', t, all, num)
    ensures num <= Queued(s', t)
  {
  }

  lemma OneTaken(s: State, steps: seq<Step>, s1: State, t: nat, all: nat, num: nat)
    requires Taking(s, steps, s1, t, all, num) && num > 0 && Do(s1, Consume(t)).Next?
    ensures Taking(s, steps + [Consume(t)], Do(s1, Consume(t)).s, t, all, num - 1)
  {
    RunExtend(s, steps, s1, Consume(t));
    hide RunTo, Handle;
    forall u | u != t
      ensures Took(Do(s1, Consume(t)).s, u) == Took(s, u)
    {
      assert Took(s1, u) == Took(s, u);
    }
  }

  lemma AllTaken(s: State, steps: seq<Step>, s': State, t: nat, all: nat, num: nat)
    requires Taking(s, steps, s', t, all, num)
    ensures RunTo(s, steps, s') && (num == 0 ==> CaughtUp(s, s', t) && TookFrom(s, s', t, all))
  {
  }

  /** So many events of t have been taken, and nobody else's. */
  ghost predicate TookFrom(s: State, s': State, t: nat, n: nat) {
    forall u {:trigger Took(s', u)} :: Took(s', u) == Took(s, u) + if u == t then n else 0
  }

  ghost predicate Silent(others: nat -> seq<Step>) {
    forall n :: others(n) == []
  }

  ghost predicate IfSilent(others: nat -> seq<Step>, steps: seq<Step>) {
    Silent(others) ==> OnlyConsumes(steps)
  }

  lemma SilentOthers(others: nat -> seq<Step>, n: nat, steps: seq<Step>, more: seq<Step>)
    requires others(n) == [] ==> more == []
    ensures IfSilent(others, more)
    ensures IfSilent(others, steps) ==> IfSilent(others, steps + more)
  {
  }

  lemma ConsumesJoin(others: nat -> seq<Step>, steps: seq<Step>, more: seq<Step>, t: nat)
    ensures IfSilent(others, [])
    ensures IfSilent(others, steps) ==> IfSilent(others, steps + [Consume(t)])
    ensures IfSilent(others, steps) && IfSilent(others, more) ==> IfSilent(others, steps + more)
  {
  }

  /** The loop over one queue: as many events as it holds when the loop begins, in order. The other threads
      move before the length is read and before each event is taken; their moves come from others. */
  method DrainQueue(c: Checker, t: nat, queues: map<nat, Lfqueue<Event>>, ghost qs: set<Lfqueue<Event>>,
                    others: nat -> seq<Step>, k: nat, s: State)
    returns (ok: bool, k': nat, s': State, ghost steps: seq<Step>)
    requires InState(c, queues, qs, s) && t in queues
    modifies c, c.threadVertexMemPool, c.mutexVertexMemPool, c.arcMemPool, c.objs
    modifies qs`in_, qs`put, qs`out_, qs`got, qs`contents, set q | q in qs :: q.buffer
    ensures RunTo(s, steps, s') && IfSilent(others, steps)
    ensures ok ==> InState(c, queues, qs, s') && CaughtUp(s, s', t) && fresh(c.objs - old(c.objs))
    ensures var s1 := After(s, others(k), queues.Keys);
            var n := Queued(s1, t);
            && s' == AfterTurns(s1, t, n, others, k + 1, queues.Keys)
            && (ok ==> k' == k + 1 + n && TookFrom(s, s', t, n))
    ensures !ok ==> Do(s', Consume(t)).Abort?
  {
    hide *;
    s', steps := Others(others(k), c, queues, qs, s);
    ghost var all := Queued(s', t);
    SilentOthers(others, k, [], steps);
    QueuedInState(c, t, queues, qs, s');
    var num := queues[t].Used();
    StartTaking(s, steps, s', t);
    ok, k' := true, k + 1;
    ghost var goal := AfterTurns(s', t, all, others, k', queues.Keys);
    while num > 0
      invariant ok && InState(c, queues, qs, s') && Taking(s, steps, s', t, all, num) && IfSilent(others, steps)
      invariant k' + num == k + 1 + all && goal == AfterTurns(s', t, num, others, k', queues.Keys)
      invariant fresh(c.objs - old(c.objs))
    {
      OneTurn(s', t, num, others, k', queues.Keys);
      StillQueued(s, steps, s', t, all, num);
      ghost var s0, s1, more := s', s', [];
      ok, s', more, s1 := MoveAndTake(others(k'), c, t, queues, qs, s');
      PushedMeanwhile(s, steps, s0, t, all, num, more, s1);
      SilentOthers(others, k', steps, more);
      steps, k' := steps + more, k' + 1;
      AllTaken(s, steps, s1, t, all, num);
      if !ok {
        return;
      }
      OneTaken(s, steps, s1, t, all, num);
      ConsumesJoin(others, steps, [], t);
      steps, num := steps + [Consume(t)], num - 1;
    }
    AllTaken(s, steps, s', t, all, num);
    OneTurn(s', t, num, others, k', queues.Keys);
  }

  lemma OneTurn(s: State, t: nat, num: nat, others: nat -> seq<Step>, k: nat, known: set<nat>)
    ensures num == 0 ==> AfterTurns(s, t, num, others, k, known) == s
    ensures num > 0 ==>
              var s1 := After(s, others(k), known);
              AfterTurns(s, t, num, others, k, known)
              == match Do(s1, Consume(t)) case Next(s2) => AfterTurns(s2, t, num - 1, others, k + 1, known) case _ => s1
  {
    hide Do, After;
  }

  ghost predicate CaughtUpOn(s: State, s': State, ts: seq<nat>) {
    forall t :: t in ts ==> CaughtUp(s, s', t)
  }

  /** Of no other thread has anything been taken. */
  ghost predicate OnlyFrom(s: State, s': State, ts: seq<nat>) {
    forall u {:trigger Took(s', u)} :: u !in ts ==> Took(s', u) == Took(s, u)
  }

  lemma OneFrom(s: State, s1: State, s2: State, ts: seq<nat>, t: nat, n: nat)
    ensures OnlyFrom(s, s1, ts) && TookFrom(s1, s2, t, n) ==> OnlyFrom(s, s2, ts + [t])
    ensures OnlyFrom(s, s, [])
  {
    forall u | u !in ts + [t] && OnlyFrom(s, s1, ts) && TookFrom(s1, s2, t, n)
      ensures Took(s2, u) == Took(s, u)
    {
      assert Took(s1, u) == Took(s, u);
    }
  }

  lemma OneMore(s: State, steps: seq<Step>, s1: State, more: seq<Step>, s2: State, ts: seq<nat>)
    requires RunTo(s, steps, s1) && RunTo(s1, more, s2) && CaughtUpOn(s, s1, ts)
    ensures RunTo(s, steps + more, s2) && CaughtUpOn(s, s2, ts)
    ensures forall t :: CaughtUp(s1, s2, t) ==> CaughtUpOn(s, s2, ts + [t])
  {
    RunsJoin(s, steps, s1, more, s2);
    RunGrows(s, steps, s1);
    RunGrows(s1, more, s2);
    hide RunTo;
    forall t | t in s.threads
      ensures t in s1.threads && t in s2.threads
      ensures |s1.threads[t].consumed| + |s1.threads[t].queue| >= |s.threads[t].consumed| + |s.threads[t].queue|
      ensures |s2.threads[t].consumed| >= |s1.threads[t].consumed|
    {
      assert GrownIn(s, s1, t) && GrownIn(s1, s2, t);
      var th, th1 := s.threads[t], s1.threads[t];
      assert |th.consumed + th.queue| <= |th1.consumed + th1.queue|;
    }
  }

  /** eventLoopEnter: order is how the iterator of eventQueueMap lists its keys, and others is what the other
      threads do meanwhile. The pass is a run of the protocol; at its end the checker has taken from each of
      these queues, and from no other, every event that was there when the pass began, and its objects spell
      out the graph. If it aborts, so does the step it has come to. */
  method EventLoopEnter(c: Checker, queues: map<nat, Lfqueue<Event>>, order: seq<nat>,
                        others: nat -> seq<Step>, ghost qs: set<Lfqueue<Event>>, s: State)
    returns (ok: bool, s': State, ghost steps: seq<Step>)
    requires InState(c, queues, qs, s) && forall t :: t in order ==> t in queues
    modifies c, c.threadVertexMemPool, c.mutexVertexMemPool, c.arcMemPool, c.objs
    modifies qs`in_, qs`put, qs`out_, qs`got, qs`contents, set q | q in qs :: q.buffer
    ensures RunTo(s, steps, s') && (Silent(others) ==> OnlyConsumes(steps))
    ensures ok ==> InState(c, queues, qs, s') && OnlyFrom(s, s', order) && forall t :: t in order ==> CaughtUp(s, s', t)
    ensures ok ==> s' == AfterPass(s, order, others, 0, queues.Keys)
    ensures !ok ==> exists t :: t in order && Do(s', Consume(t)).Abort?
  {
    hide RunTo, InState, OnlyConsumes, CaughtUp, Silent, OnlyFrom, TookFrom, After, AfterTurns, Queued;
    NoStep(s);
    OneFrom(s, s, s, [], 0, 0);
    ok, s', steps := true, s, [];
    var k := 0;
    for i := 0 to |order|
      invariant ok && InState(c, queues, qs, s') && RunTo(s, steps, s') && IfSilent(others, steps)
      invariant CaughtUpOn(s, s', order[..i]) && OnlyFrom(s, s', order[..i])
      invariant AfterPass(s, order, others, 0, queues.Keys) == AfterPass(s', order[i..], others, k, queues.Keys)
      invariant fresh(c.objs - old(c.objs))
    {
      ghost var s1, more := s', [];
      ghost var n := Queued(After(s', others(k), queues.Keys), order[i]);
      ok, k, s', more := DrainQueue(c, order[i], queues, qs, others, k, s');
      OneMore(s, steps, s1, more, s', order[..i]);
      ConsumesJoin(others, steps, more, 0);
      steps := steps + more;
      if !ok {
        return;
      }
      OneFrom(s, s1, s', order[..i], order[i], n);
      assert order[..i + 1] == order[..i] + [order[i]] && order[i..][1..] == order[i + 1..];
    }
    assert order[..|order|] == order && order[0..] == order;
  }

  lemma NoStep(s: State)
    ensures RunTo(s, [], s) && OnlyConsumes([])
  {
  }
}

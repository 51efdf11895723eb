/** Tracker and checker as one state machine (trait.c, dispatcher.c, eventLoop.c). The native
    lock operation and the push of its event are separate steps, and the checker takes events
    from the per-thread queues in any relative order. */
module Protocol {
  import opened Utils
  import opened Graph
  import opened LockGraphs

  const NUMBER_OF_EVENT: nat := 256
  const NUMBER_OF_EVENTQUEUE: nat := NUMBER_OF_THREAD

  /** Where a thread stands inside the wrapped lock and unlock calls: WAIT pushed but the mutex
      not obtained, mutex obtained but HOLD not pushed, mutex freed but RELEASE not pushed. */
  datatype Phase = Idle | Waiting(m: nat) | Acquired(m: nat) | Released(m: nat)

  /** consumed is a history variable: the events the checker has taken from this thread. */
  datatype Thread = Thread(phase: Phase, held: set<nat>, queue: seq<Event>, consumed: seq<Event>)

  datatype State = State(threads: map<nat, Thread>, owner: map<nat, nat>, graph: LockGraph)

  datatype Step =
    | PushWait(t: nat, m: nat)
    | NativeLock(t: nat)
    | PushHold(t: nat)
    | NativeUnlock(t: nat, m: nat)
    | PushRelease(t: nat)
    | Consume(t: nat)

  datatype Outcome = Next(s: State) | Disabled | Abort

  function Push(s: State, t: nat, th: Thread, ev: Event): Outcome {
    if |th.queue| >= NUMBER_OF_EVENT then Abort  // dispatcherInvoke asserts that the put succeeds
    else Next(s.(threads := s.threads[t := th.(queue := th.queue + [ev])]))
  }

  /** The thread has asked for a mutex before: its dispatcher has got a queue then. */
  predicate HasQueue(th: Thread) {
    th.queue != [] || th.consumed != []
  }

  /** The threads that own a block of eventQueueMemPool, and one of the pool of the buffers. */
  function QueuesInUse(s: State): set<nat> {
    set t | t in s.threads && HasQueue(s.threads[t])
  }

  function Do(s: State, step: Step): Outcome {
    if step.t !in s.threads then Disabled
    else
      var t, th := step.t, s.threads[step.t];
      match step
      case PushWait(_, m) =>
        if !th.phase.Idle? then Disabled
        else if !HasQueue(th) && |QueuesInUse(s)| >= NUMBER_OF_EVENTQUEUE then Abort  // eventQueueInit asserts its blocks
        else Push(s, t, th.(phase := Waiting(m)), Wait(m))
      case NativeLock(_) =>
        if th.phase.Waiting? && th.phase.m !in s.owner
        then Next(s.(threads := s.threads[t := th.(phase := Acquired(th.phase.m))], owner := s.owner[th.phase.m := t]))
        else Disabled
      case PushHold(_) =>
        if th.phase.Acquired?
        then Push(s, t, th.(phase := Idle, held := th.held + {th.phase.m}), Hold(th.phase.m))
        else Disabled
      case NativeUnlock(_, m) =>
        if th.phase.Idle? && m in th.held
        then Next(s.(threads := s.threads[t := th.(phase := Released(m), held := th.held - {m})], owner := s.owner - {m}))
        else Disabled
      case PushRelease(_) =>
        if th.phase.Released? then Push(s, t, th.(phase := Idle), Release(th.phase.m)) else Disabled
      case Consume(_) =>
        if th.queue == [] then Disabled
        else
          var g := Handle(s.graph, t, th.queue[0]);
          if g.None? then Abort
          else Next(s.(threads := s.threads[t := th.(queue := th.queue[1..], consumed := th.consumed + [th.queue[0]])],
                       graph := g.value))
  }

  ghost predicate Init(s: State) {
    && (forall t :: t in s.threads ==> s.threads[t] == Thread(Idle, {}, [], []))
    && s.owner == map[]
    && s.graph == EMPTY
  }

  ghost predicate RunTo(s: State, steps: seq<Step>, s': State)
    decreases |steps|
  {
    if steps == [] then s == s'
    else Do(s, steps[0]).Next? && RunTo(Do(s, steps[0]).s, steps[1..], s')
  }

  ghost predicate Reachable(s: State) {
    exists s0, steps :: Init(s0) && RunTo(s0, steps, s)
  }

  // ---- the invariant ----

  function MutexVids(ms: set<nat>): set<Vid> {
    set m | m in ms :: M(m)
  }

  /** What the thread's own events, pushed so far, amount to. */
  function PushedView(th: Thread): View {
    match th.phase
    case Idle => View({}, MutexVids(th.held))
    case Waiting(m) => View({M(m)}, MutexVids(th.held))
    case Acquired(m) => View({M(m)}, MutexVids(th.held))
    case Released(m) => View({}, MutexVids(th.held + {m}))
  }

  predicate Owns(th: Thread, m: nat) {
    m in th.held || th.phase == Acquired(m)
  }

  /** A mutex between its two operations is not among those held. */
  predicate PhaseOk(th: Thread) {
    th.phase.Acquired? || th.phase.Released? ==> th.phase.m !in th.held
  }

  /** A mutex is owned by the one thread whose books say so. */
  ghost predicate OwnerOk(s: State) {
    && (forall t :: t in s.threads ==> PhaseOk(s.threads[t]))
    && (forall t, m {:trigger Owns(s.threads[t], m)} :: t in s.threads && Owns(s.threads[t], m) ==>
          m in s.owner && s.owner[m] == t)
    && (forall m :: m in s.owner ==> s.owner[m] in s.threads && Owns(s.threads[s.owner[m]], m))
  }

  /** The events still queued lead from the checker's view of the thread to what the thread has
      pushed, and the events consumed lead to the checker's view. */
  ghost predicate Synced(s: State, t: nat)
    requires t in s.threads
  {
    var th := s.threads[t];
    && |th.queue| <= NUMBER_OF_EVENT
    && Replay(ViewOf(s.graph.arcs, t), th.queue) == Some(PushedView(th))
    && Replay(View({}, {}), th.consumed) == Some(ViewOf(s.graph.arcs, t))
  }

  ghost predicate AllSynced(s: State) {
    && (forall t :: t in s.threads ==> Synced(s, t))
    && (forall t :: t !in s.threads ==> ViewOf(s.graph.arcs, t) == View({}, {}))
  }

  ghost predicate Named(s: State, v: Vid) {
    match v
    case T(t) => t in s.threads && exists m :: Wait(m) in s.threads[t].consumed
    case M(m) => exists t :: t in s.threads && Wait(m) in s.threads[t].consumed
  }

  ghost predicate VerticesOk(s: State) {
    forall v :: v in s.graph.vertices <==> Named(s, v)
  }

  ghost predicate QueuesFit(s: State) {
    |QueuesInUse(s)| <= NUMBER_OF_EVENTQUEUE
  }

  ghost predicate Inv(s: State) {
    && OwnerOk(s) && QueuesFit(s)
    && AllSynced(s)
    && VerticesOk(s)
    && WellShaped(s.graph) && WithinPools(s.graph)
  }

  lemma InitInv(s: State)
    requires Init(s)
    ensures Inv(s)
  {
    forall t
      ensures ViewOf(s.graph.arcs, t) == View({}, {})
    {
    }
    assert MutexVids({}) == {};
    assert QueuesInUse(s) == {};
  }

  /** A push leaves the graph alone and appends one event that fits the phase. */
  lemma PushSynced(s: State, t: nat, th: Thread, ev: Event)
    requires t in s.threads && Synced(s, t) && |th.queue| < NUMBER_OF_EVENT
    requires th.queue == s.threads[t].queue && th.consumed == s.threads[t].consumed
    requires Apply(PushedView(s.threads[t]), ev) == Some(PushedView(th))
    ensures Push(s, t, th, ev).Next? && Synced(Push(s, t, th, ev).s, t)
  {
    ReplayAppend(ViewOf(s.graph.arcs, t), th.queue, ev);
  }

  lemma PushedViewSteps(th: Thread, m: nat)
    ensures th.phase == Idle ==> Apply(PushedView(th), Wait(m)) == Some(PushedView(th.(phase := Waiting(m))))
    ensures th.phase == Acquired(m) && m !in th.held ==>
              Apply(PushedView(th), Hold(m)) == Some(PushedView(th.(phase := Idle, held := th.held + {m})))
    ensures th.phase == Released(m) && m !in th.held ==>
              Apply(PushedView(th), Release(m)) == Some(PushedView(th.(phase := Idle)))
    ensures th.phase == Idle && m in th.held ==>
              PushedView(th) == PushedView(th.(phase := Released(m), held := th.held - {m}))
  {
    assert MutexVids(th.held + {m}) == MutexVids(th.held) + {M(m)};
    if m !in th.held {
      assert MutexVids(th.held + {m}) - {M(m)} == MutexVids(th.held);
    } else {
      assert th.held - {m} + {m} == th.held;
    }
  }

  lemma OwnerKept(s: State, s': State, t: nat)
    requires OwnerOk(s) && t in s.threads && t in s'.threads && s'.threads == s.threads[t := s'.threads[t]]
    requires s'.owner == s.owner && PhaseOk(s'.threads[t])
    requires forall m :: Owns(s'.threads[t], m) <==> Owns(s.threads[t], m)
    ensures OwnerOk(s')
  {
  }

  lemma OwnerGained(s: State, s': State, t: nat, m: nat)
    requires OwnerOk(s) && t in s.threads && t in s'.threads && s'.threads == s.threads[t := s'.threads[t]]
    requires m !in s.owner && s'.owner == s.owner[m := t] && PhaseOk(s'.threads[t])
    requires forall x :: Owns(s'.threads[t], x) <==> Owns(s.threads[t], x) || x == m
    ensures OwnerOk(s')
  {
  }

  lemma OwnerLost(s: State, s': State, t: nat, m: nat)
    requires OwnerOk(s) && t in s.threads && t in s'.threads && s'.threads == s.threads[t := s'.threads[t]]
    requires Owns(s.threads[t], m) && s'.owner == s.owner - {m} && PhaseOk(s'.threads[t])
    requires forall x :: Owns(s'.threads[t], x) <==> Owns(s.threads[t], x) && x != m
    ensures OwnerOk(s')
  {
  }

  /** Mutual exclusion: the owner map and the threads' own books agree after every step. */
  lemma OwnerStep(s: State, step: Step)
    requires OwnerOk(s) && Do(s, step).Next?
    ensures OwnerOk(Do(s, step).s)
  {
    assert PhaseOk(s.threads[step.t]) && (step.NativeLock? ==> !Owns(s.threads[step.t], s.threads[step.t].phase.m));
    hide OwnerOk, Handle, QueuesInUse, HasQueue;
    var s', t := Do(s, step).s, step.t;
    if step.NativeLock? {
      OwnerGained(s, s', t, s.threads[t].phase.m);
    } else if step.NativeUnlock? {
      OwnerLost(s, s', t, step.m);
    } else {
      OwnerKept(s, s', t);
    }
  }

  lemma ProducerSynced(s: State, step: Step)
    requires OwnerOk(s) && Do(s, step).Next? && !step.Consume?
    requires Synced(s, step.t)
    ensures Synced(Do(s, step).s, step.t)
  {
    hide Replay, ViewOf, MutexVids;
    var t, th := step.t, s.threads[step.t];
    var m := if step.PushWait? || step.NativeUnlock? then step.m else th.phase.m;
    PushedViewSteps(th, m);
    if step.PushWait? {
      PushSynced(s, t, th.(phase := Waiting(m)), Wait(m));
    } else if step.PushHold? {
      PushSynced(s, t, th.(phase := Idle, held := th.held + {m}), Hold(m));
    } else if step.PushRelease? {
      PushSynced(s, t, th.(phase := Idle), Release(m));
    }
  }

  lemma ProducerFrame(s: State, step: Step)
    requires Do(s, step).Next? && !step.Consume?
    ensures var s' := Do(s, step).s;
            && step.t in s.threads
            && s'.graph == s.graph && s'.threads.Keys == s.threads.Keys
            && (forall x :: x in s.threads ==> s'.threads[x].consumed == s.threads[x].consumed)
            && (forall x :: x in s.threads && x != step.t ==> s'.threads[x] == s.threads[x])
  {
  }

  /** A thread's first WAIT takes a queue, a later one does not. */
  lemma QueuesAfterWait(s: State, t: nat, m: nat)
    requires Do(s, PushWait(t, m)).Next?
    ensures |QueuesInUse(Do(s, PushWait(t, m)).s)| == |QueuesInUse(s)| + if HasQueue(s.threads[t]) then 0 else 1
  {
    var s' := Do(s, PushWait(t, m)).s;
    assert QueuesInUse(s') == QueuesInUse(s) + {t};
    if HasQueue(s.threads[t]) {
      assert QueuesInUse(s) + {t} == QueuesInUse(s);
    }
  }

  lemma QueuesStep(s: State, step: Step)
    requires QueuesFit(s) && Do(s, step).Next? && Synced(s, step.t)
    ensures QueuesFit(Do(s, step).s)
  {
    if step.PushWait? {
      QueuesAfterWait(s, step.t, step.m);
    } else {
      NoQueueMeansIdle(s, step.t);
      assert QueuesInUse(Do(s, step).s) == QueuesInUse(s);
    }
  }

  lemma NoQueueMeansIdle(s: State, t: nat)
    requires t in s.threads && Synced(s, t)
    ensures !HasQueue(s.threads[t]) ==> s.threads[t].phase == Idle
  {
    var th := s.threads[t];
    assert !HasQueue(th) ==> PushedView(th) == View({}, {});
    assert th.phase != Idle ==> M(th.phase.m) in PushedView(th).waits + PushedView(th).held;
  }

  /** Steps other than Consume leave the graph alone. */
  lemma ProducerStep(s: State, step: Step)
    requires Inv(s) && Do(s, step).Next? && !step.Consume?
    ensures Inv(Do(s, step).s)
  {
    hide Do, OwnerOk, QueuesFit, Synced, WellShaped, WithinPools, Named;
    ProducerFrame(s, step);
    OwnerStep(s, step);
    QueuesStep(s, step);
    ProducerSynced(s, step);
    var s' := Do(s, step).s;
    forall v
      ensures Named(s', v) <==> Named(s, v)
    {
      NamedByConsumed(s, s', v);
    }
    forall x | x in s'.threads
      ensures Synced(s', x)
    {
      if x != step.t {
        SyncedFrame(s, s', x);
      }
    }
  }

  lemma SyncedFrame(s: State, s': State, t: nat)
    requires t in s.threads && t in s'.threads && s'.threads[t] == s.threads[t]
    requires ViewOf(s'.graph.arcs, t) == ViewOf(s.graph.arcs, t)
    ensures Synced(s, t) ==> Synced(s', t)
  {
  }

  lemma NamedByConsumed(s: State, s': State, v: Vid)
    requires s.threads.Keys == s'.threads.Keys
    requires forall x :: x in s.threads ==> s'.threads[x].consumed == s.threads[x].consumed
    ensures Named(s', v) <==> Named(s, v)
  {
  }

  lemma ConsumeVertices(s: State, t: nat)
    requires VerticesOk(s) && Do(s, Consume(t)).Next?
    ensures VerticesOk(Do(s, Consume(t)).s)
  {
    var s' := Do(s, Consume(t)).s;
    var ev := s.threads[t].queue[0];
    assert s'.threads[t].consumed == s.threads[t].consumed + [ev];
    assert forall x, e :: x in s.threads ==>
             (e in s'.threads[x].consumed <==> e in s.threads[x].consumed || (x == t && e == ev));
    forall v
      ensures v in s'.graph.vertices <==> Named(s', v)
    {
      assert v in s.graph.vertices <==> Named(s, v);
      if ev.Wait? && v == T(t) {
        assert Wait(ev.m) in s'.threads[t].consumed;
      }
    }
  }

  lemma ConsumeSynced(s: State, t: nat)
    requires t in s.threads && Synced(s, t) && Do(s, Consume(t)).Next?
    requires WellShaped(s.graph) && WithinPools(s.graph)
    ensures Synced(Do(s, Consume(t)).s, t)
  {
    var th := s.threads[t];
    HandleOk(s.graph, t, th.queue[0]);
    ReplayAppend(View({}, {}), th.consumed, th.queue[0]);
  }

  lemma ConsumeStep(s: State, t: nat)
    requires Inv(s) && Do(s, Consume(t)).Next?
    ensures Inv(Do(s, Consume(t)).s)
  {
    var s' := Do(s, Consume(t)).s;
    assert Synced(s, t);
    HandleOk(s.graph, t, s.threads[t].queue[0]);
    ConsumeSynced(s, t);
    OwnerStep(s, Consume(t));
    QueuesStep(s, Consume(t));
    ConsumeVertices(s, t);
    hide OwnerOk, QueuesFit, Replay, ViewOf, MutexVids, WellShaped, WithinPools, PushedView, VerticesOk, Handle;
    forall x | x in s'.threads
      ensures Synced(s', x)
    {
      assert Synced(s, x);
    }
  }

  lemma StepInv(s: State, step: Step)
    requires Inv(s) && Do(s, step).Next?
    ensures Inv(Do(s, step).s)
  {
    if step.Consume? {
      ConsumeStep(s, step.t);
    } else {
      ProducerStep(s, step);
    }
  }

  lemma {:induction false} RunInv(s: State, steps: seq<Step>, s': State)
    requires Inv(s) && RunTo(s, steps, s')
    ensures Inv(s')
    decreases |steps|
  {
    if steps != [] {
      StepInv(s, steps[0]);
      RunInv(Do(s, steps[0]).s, steps[1..], s');
    }
  }

  /** Every reachable state meets the invariant. */
  lemma ReachableInv(s: State)
    requires Reachable(s)
    ensures Inv(s)
  {
    var s0, steps :| Init(s0) && RunTo(s0, steps, s);
    InitInv(s0);
    RunInv(s0, steps, s);
  }

  // ---- no abort, and the two ways there is one ----

  /** The thread vertices are not more than the threads that have consumed events. */
  lemma {:induction false} ThreadVerticesCount(vs: set<Vid>, ts: set<nat>)
    requires forall v :: v in Threads(vs) ==> v.tid in ts
    ensures |Threads(vs)| <= |ts|
    decreases ts
  {
    if ts == {} {
      assert Threads(vs) == {};
    } else {
      var t :| t in ts;
      ThreadVerticesCount(vs - {T(t)}, ts - {t});
      assert Threads(vs) - {T(t)} == Threads(vs - {T(t)});
    }
  }

  /** Whoever has an event queued finds its thread vertex, or a block for it. */
  lemma ThreadPoolSuffices(s: State, t: nat)
    requires VerticesOk(s) && QueuesFit(s) && t in s.threads && s.threads[t].queue != []
    ensures T(t) in s.graph.vertices || |Threads(s.graph.vertices)| < NUMBER_OF_VERTEX_THREAD
  {
    if T(t) !in s.graph.vertices {
      forall v | v in Threads(s.graph.vertices)
        ensures v.tid in QueuesInUse(s) - {t}
      {
        assert Named(s, v);
      }
      ThreadVerticesCount(s.graph.vertices, QueuesInUse(s) - {t});
      assert t in QueuesInUse(s);
    }
  }

  /** In a reachable state a step aborts the program exactly when it is the first WAIT of a thread
      that finds all queues in use, or pushes into a full queue, or consumes a WAIT while the arc
      pool, or for a new mutex the mutex pool, is exhausted. No other assertion of the handlers, of
      addEdge or of deleteEdge can fail. */
  lemma AbortExactly(s: State, step: Step)
    requires Reachable(s) && step.t in s.threads
    ensures var th := s.threads[step.t];
            Do(s, step).Abort? <==>
              || (step.PushWait? && th.phase.Idle? && !HasQueue(th) && |QueuesInUse(s)| == NUMBER_OF_EVENTQUEUE)
              || (|th.queue| == NUMBER_OF_EVENT && match step
                    case PushWait(_, _) => th.phase.Idle?
                    case PushHold(_) => th.phase.Acquired?
                    case PushRelease(_) => th.phase.Released?
                    case _ => false)
              || (step.Consume? && th.queue != [] && th.queue[0].Wait?
                  && (|s.graph.arcs| == NUMBER_OF_ARC
                      || (M(th.queue[0].m) !in s.graph.vertices
                          && |Mutexes(s.graph.vertices)| == NUMBER_OF_VERTEX_MUTEX)))
  {
    ReachableInv(s);
    assert Synced(s, step.t);
    var th := s.threads[step.t];
    if step.Consume? && th.queue != [] {
      HandleOk(s.graph, step.t, th.queue[0]);
      ThreadPoolSuffices(s, step.t);
    }
  }

  /** The wrapped calls wait nowhere but in the native lock: a thread can always do its next step, unless that
      is to obtain a mutex somebody owns. */
  lemma OnlyTheLockBlocks(s: State, t: nat)
    requires t in s.threads
    ensures var th := s.threads[t];
            (exists step: Step :: step.t == t && !step.Consume? && !Do(s, step).Disabled?)
            <==> !(th.phase.Waiting? && th.phase.m in s.owner)
    ensures Do(s, Consume(t)).Disabled? <==> s.threads[t].queue == []
  {
    hide Handle, QueuesInUse;
    var step := match s.threads[t].phase
                case Idle => PushWait(t, 0)
                case Waiting(_) => NativeLock(t)
                case Acquired(_) => PushHold(t)
                case Released(_) => PushRelease(t);
    assert step.t == t && !step.Consume?;
    assert Do(s, step).Disabled? <==> s.threads[t].phase.Waiting? && s.threads[t].phase.m in s.owner;
  }

  // ---- real circular waits ----

  /** w lists (thread, mutex) pairs; thread i waits in the native lock for its mutex, which is
      owned by the next thread in the list. */
  ghost predicate WaitsForNext(s: State, w: seq<(nat, nat)>, i: nat)
    requires i < |w|
  {
    && w[i].0 in s.threads && s.threads[w[i].0].phase == Waiting(w[i].1)
    && w[i].1 in s.owner && s.owner[w[i].1] == w[Succ(i, |w|)].0
  }

  ghost predicate CircularWait(s: State, w: seq<(nat, nat)>) {
    w != [] && forall i {:trigger WaitsForNext(s, w, i)} :: 0 <= i < |w| ==> WaitsForNext(s, w, i)
  }

  /** Once threads wait for each other in a circle they do so for ever, whatever anyone does. */
  lemma CircularWaitStays(s: State, w: seq<(nat, nat)>, step: Step)
    requires OwnerOk(s) && CircularWait(s, w) && Do(s, step).Next?
    ensures CircularWait(Do(s, step).s, w)
    ensures forall i :: 0 <= i < |w| && w[i].0 in s.threads && s.threads[w[i].0].queue == [] ==>
              Do(s, step).s.threads[w[i].0].queue == []
  {
    hide Handle;
    var s' := Do(s, step).s;
    forall i | 0 <= i < |w|
      ensures WaitsForNext(s', w, i)
      ensures w[i].0 in s.threads && s.threads[w[i].0].queue == [] ==> s'.threads[w[i].0].queue == []
    {
      assert WaitsForNext(s, w, i) && WaitsForNext(s, w, Succ(i, |w|));
      assert step.NativeUnlock? ==> Owns(s.threads[step.t], step.m);
    }
  }

  /** The view of t after the checker has worked off t's queue. */
  function Drained(s: State, t: nat): View {
    if t !in s.threads then View({}, {})
    else
      var r := Replay(ViewOf(s.graph.arcs, t), s.threads[t].queue);
      if r.None? then View({}, {}) else r.value
  }

  /** In the drained views thread i waits for its mutex and the next thread holds it. */
  ghost predicate DrainedLink(s: State, w: seq<(nat, nat)>, i: nat)
    requires i < |w|
  {
    M(w[i].1) in Drained(s, w[i].0).waits && M(w[i].1) in Drained(s, w[Succ(i, |w|)].0).held
  }

  ghost predicate DrainedCycle(s: State, w: seq<(nat, nat)>) {
    w != [] && forall i {:trigger DrainedLink(s, w, i)} :: 0 <= i < |w| ==> DrainedLink(s, w, i)
  }

  lemma DrainedIsPushed(s: State, t: nat)
    requires AllSynced(s)
    ensures Drained(s, t) == if t in s.threads then PushedView(s.threads[t]) else View({}, {})
  {
    assert t in s.threads ==> Synced(s, t);
  }

  /** No false alarm and no missed deadlock once the queues are accounted for: the cycle that the
      outstanding events lead to is a real circular wait, and conversely. */
  lemma DrainedCycleIsDeadlock(s: State, w: seq<(nat, nat)>)
    requires Inv(s)
    ensures DrainedCycle(s, w) <==> CircularWait(s, w)
  {
    forall i | 0 <= i < |w| && DrainedCycle(s, w)
      ensures WaitsForNext(s, w, i)
    {
      assert DrainedLink(s, w, i) && DrainedLink(s, w, Succ(i, |w|));
      LinkIsReal(s, w[i].0, w[i].1, w[Succ(i, |w|)].0, w[Succ(i, |w|)].1);
    }
    forall i | 0 <= i < |w| && CircularWait(s, w)
      ensures DrainedLink(s, w, i)
    {
      assert WaitsForNext(s, w, i) && WaitsForNext(s, w, Succ(i, |w|));
      DrainedIsPushed(s, w[i].0);
      DrainedIsPushed(s, w[Succ(i, |w|)].0);
    }
  }

  /** When t is drained to waiting for m and t' to holding m while waiting itself, t really waits
      and t' really owns m. */
  lemma LinkIsReal(s: State, t: nat, m: nat, t': nat, m': nat)
    requires Inv(s)
    requires M(m) in Drained(s, t).waits
    requires M(m) in Drained(s, t').held && M(m') in Drained(s, t').waits
    ensures t in s.threads && s.threads[t].phase == Waiting(m)
    ensures m in s.owner && s.owner[m] == t'
  {
    hide Drained, WellShaped, WithinPools, VerticesOk;
    DrainedIsPushed(s, t);
    DrainedIsPushed(s, t');
    hide AllSynced;
    assert Owns(s.threads[t'], m) && (s.threads[t].phase == Acquired(m) ==> Owns(s.threads[t], m));
  }
}

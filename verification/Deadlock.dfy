/** What a cycle in the checker's graph says about the threads, and what the graph depends on. */
module Deadlock {
  import opened Utils
  import opened Graph
  import opened LockGraphs
  import opened Protocol

  /** Thread i has an arc to its mutex, which has an arc to the next thread. */
  ghost predicate GraphLink(a: Arcs, w: seq<(nat, nat)>, i: nat)
    requires i < |w|
  {
    Edge(a, T(w[i].0), M(w[i].1)) && Edge(a, M(w[i].1), T(w[Succ(i, |w|)].0))
  }

  ghost predicate GraphCycle(a: Arcs, w: seq<(nat, nat)>) {
    w != [] && forall i {:trigger GraphLink(a, w, i)} :: 0 <= i < |w| ==> GraphLink(a, w, i)
  }

  /** The vertices of w in order: thread, mutex, thread, mutex, ... */
  function CycleOf(w: seq<(nat, nat)>): (c: seq<Vid>)
    ensures |c| == 2 * |w|
    ensures forall i :: 0 <= i < |w| ==> c[2 * i] == T(w[i].0) && c[2 * i + 1] == M(w[i].1)
  {
    seq(2 * |w|, k requires 0 <= k < 2 * |w| => if k % 2 == 0 then T(w[k / 2].0) else M(w[k / 2].1))
  }

  lemma CycleOfIsCycle(a: Arcs, w: seq<(nat, nat)>)
    requires GraphCycle(a, w)
    ensures IsCycle(a, CycleOf(w))
  {
    hide CycleOf;
    var c := CycleOf(w);
    forall k | 0 <= k < |c|
      ensures Edge(a, c[k], c[Succ(k, |c|)])
    {
      var i := k / 2;
      assert GraphLink(a, w, i);
      assert c[2 * i] == T(w[i].0) && c[2 * i + 1] == M(w[i].1);
      if k == 2 * i {
        assert Succ(k, |c|) == 2 * i + 1;
      } else {
        assert k == 2 * i + 1 && Succ(k, |c|) == 2 * Succ(i, |w|);
        assert c[2 * Succ(i, |w|)] == T(w[Succ(i, |w|)].0);
      }
    }
  }

  lemma Alternates(g: LockGraph, c: seq<Vid>, k: nat)
    requires WellShaped(g) && IsCycle(g.arcs, c) && c[0].T? && k < |c|
    ensures c[k].T? <==> k % 2 == 0
  {
    if k > 0 {
      Alternates(g, c, k - 1);
      assert Edge(g.arcs, c[k - 1], c[Succ(k - 1, |c|)]);
    }
  }

  /** Positions 2i and 2i + 1 of c hold a thread and a mutex with an arc between them, and the
      mutex has an arc to the next thread of c. */
  ghost predicate PairAt(a: Arcs, c: seq<Vid>, i: nat)
    requires |c| % 2 == 0 && i < |c| / 2
  {
    && c[2 * i].T? && c[2 * i + 1].M?
    && Edge(a, c[2 * i], c[2 * i + 1])
    && Edge(a, c[2 * i + 1], c[2 * Succ(i, |c| / 2)])
  }

  lemma EvenCycle(g: LockGraph, c: seq<Vid>)
    requires WellShaped(g) && IsCycle(g.arcs, c) && c[0].T?
    ensures |c| % 2 == 0 && |c| >= 2
    ensures forall i {:trigger PairAt(g.arcs, c, i)} :: 0 <= i < |c| / 2 ==> PairAt(g.arcs, c, i)
  {
    Alternates(g, c, |c| - 1);
    assert Edge(g.arcs, c[|c| - 1], c[Succ(|c| - 1, |c|)]);
    forall i | 0 <= i < |c| / 2
      ensures PairAt(g.arcs, c, i)
    {
      Alternates(g, c, 2 * i);
      Alternates(g, c, 2 * i + 1);
      assert Edge(g.arcs, c[2 * i], c[Succ(2 * i, |c|)]);
      assert Edge(g.arcs, c[2 * i + 1], c[Succ(2 * i + 1, |c|)]);
    }
  }

  /** Conversely every cycle of the graph is made of such thread and mutex pairs. */
  lemma CycleHasPairs(g: LockGraph, c: seq<Vid>) returns (w: seq<(nat, nat)>)
    requires WellShaped(g) && IsCycle(g.arcs, c) && c[0].T?
    ensures GraphCycle(g.arcs, w) && CycleOf(w) == c
    ensures forall i :: 0 <= i < |w| ==> T(w[i].0) in c && M(w[i].1) in c
  {
    EvenCycle(g, c);
    hide WellShaped, IsCycle, CycleOf;
    w := [];
    while |w| < |c| / 2
      invariant |w| <= |c| / 2
      invariant forall i :: 0 <= i < |w| ==>
                  PairAt(g.arcs, c, i) && T(w[i].0) == c[2 * i] && M(w[i].1) == c[2 * i + 1]
    {
      assert PairAt(g.arcs, c, |w|);
      w := w + [(c[2 * |w|].tid, c[2 * |w| + 1].mid)];
    }
    PairsSpell(w, c);
    forall i | 0 <= i < |w|
      ensures GraphLink(g.arcs, w, i)
    {
      assert T(w[Succ(i, |w|)].0) == c[2 * Succ(i, |w|)];
    }
  }

  lemma PairsSpell(w: seq<(nat, nat)>, c: seq<Vid>)
    requires |c| == 2 * |w| && forall i :: 0 <= i < |w| ==> T(w[i].0) == c[2 * i] && M(w[i].1) == c[2 * i + 1]
    ensures CycleOf(w) == c
  {
    hide CycleOf;
    forall k | 0 <= k < |c|
      ensures CycleOf(w)[k] == c[k]
    {
      var i := k / 2;
      assert k == 2 * i || k == 2 * i + 1;
      var pair := w[i];
    }
  }

  /** A cycle may be read from its second vertex. */
  lemma Rotate(a: Arcs, c: seq<Vid>)
    requires IsCycle(a, c)
    ensures IsCycle(a, c[1..] + [c[0]])
  {
    var d := c[1..] + [c[0]];
    forall i | 0 <= i < |d|
      ensures Edge(a, d[i], d[Succ(i, |d|)])
    {
      if i < |c| - 1 {
        assert d[i] == c[Succ(i, |c|)];
        assert d[Succ(i, |d|)] == c[Succ(Succ(i, |c|), |c|)];
      } else {
        assert d[i] == c[0] && d[Succ(i, |d|)] == c[Succ(0, |c|)];
      }
    }
  }

  ghost predicate Quiet(s: State, t: nat) {
    t in s.threads ==> s.threads[t].queue == []
  }

  lemma QuietView(s: State, t: nat)
    requires AllSynced(s) && Quiet(s, t)
    ensures Drained(s, t) == ViewOf(s.graph.arcs, t)
  {
  }

  /** Among quiet threads, a mutex that one asks for and another has while it asks itself is owned by
      the latter. */
  lemma InnerOwner(s: State, t0: nat, m: nat, t1: nat, m1: nat)
    requires Inv(s) && Quiet(s, t0) && Quiet(s, t1)
    requires Edge(s.graph.arcs, T(t0), M(m)) && Edge(s.graph.arcs, M(m), T(t1)) && Edge(s.graph.arcs, T(t1), M(m1))
    ensures m in s.owner && s.owner[m] == t1
  {
    QuietView(s, t0);
    QuietView(s, t1);
    TailsIsArcs(s.graph.arcs, T(t0), M(m));
    TailsIsArcs(s.graph.arcs, M(m), T(t1));
    TailsIsArcs(s.graph.arcs, T(t1), M(m1));
    hide Inv;
    LinkIsReal(s, t0, m, t1, m1);
  }

  /** Where the threads of w have nothing queued, the pairs of w form a cycle in the checker's
      graph exactly when these threads really wait for each other in a circle, although a native
      operation and the push of its event are separate steps. Nothing is asked of other threads. */
  lemma QuietCycleIsDeadlock(s: State, w: seq<(nat, nat)>)
    requires Inv(s) && forall i :: 0 <= i < |w| ==> Quiet(s, w[i].0)
    ensures GraphCycle(s.graph.arcs, w) <==> CircularWait(s, w)
  {
    forall i | 0 <= i < |w|
      ensures GraphLink(s.graph.arcs, w, i) <==> DrainedLink(s, w, i)
    {
      var t, m, t' := w[i].0, w[i].1, w[Succ(i, |w|)].0;
      assert Quiet(s, t) && Quiet(s, t');
      QuietView(s, t);
      QuietView(s, t');
      TailsIsArcs(s.graph.arcs, T(t), M(m));
      TailsIsArcs(s.graph.arcs, M(m), T(t'));
    }
    DrainedCycleIsDeadlock(s, w);
  }

  /** In a reachable state with all queues empty the graph has a cycle if and only if some threads
      are in a circular wait. */
  lemma CycleIffDeadlock(s: State)
    requires Reachable(s) && forall t :: t in s.threads ==> Quiet(s, t)
    ensures (exists c :: IsCycle(s.graph.arcs, c)) <==> (exists w :: CircularWait(s, w))
  {
    ReachableInv(s);
    if c: seq<Vid> :| IsCycle(s.graph.arcs, c) {
      Rotate(s.graph.arcs, c);
      var d := if c[0].T? then c else c[1..] + [c[0]];
      assert Edge(s.graph.arcs, c[0], c[Succ(0, |c|)]);
      var w := CycleHasPairs(s.graph, d);
      QuietCycleIsDeadlock(s, w);
    }
    if w: seq<(nat, nat)> :| CircularWait(s, w) {
      QuietCycleIsDeadlock(s, w);
      CycleOfIsCycle(s.graph.arcs, w);
    }
  }

  /** A deadlock whose threads' queues have been consumed stays in the graph at every later step. */
  lemma CaughtCycleStays(s: State, w: seq<(nat, nat)>, step: Step)
    requires Inv(s) && CircularWait(s, w) && Do(s, step).Next?
    requires forall i :: 0 <= i < |w| ==> Quiet(s, w[i].0)
    ensures var s' := Do(s, step).s;
            CircularWait(s', w) && GraphCycle(s'.graph.arcs, w) && forall i :: 0 <= i < |w| ==> Quiet(s', w[i].0)
  {
    CircularWaitStays(s, w, step);
    StepInv(s, step);
    forall i | 0 <= i < |w|
      ensures Quiet(Do(s, step).s, w[i].0)
    {
      assert WaitsForNext(s, w, i) && Quiet(s, w[i].0);
    }
    QuietCycleIsDeadlock(Do(s, step).s, w);
  }

  // ---- deadlocks while everybody goes on ----

  /** Events have moved from the thread's queue to its history, in order, and nothing else of it. */
  ghost predicate Worked(th: Thread, th': Thread) {
    && th'.phase == th.phase && th'.held == th.held
    && th'.consumed + th'.queue == th.consumed + th.queue && |th'.consumed| >= |th.consumed|
  }

  /** Since s the checker has consumed at least the events that t had queued there. */
  ghost predicate CaughtUp(s: State, s': State, t: nat) {
    && t in s.threads && t in s'.threads
    && |s'.threads[t].consumed| >= |s.threads[t].consumed| + |s.threads[t].queue|
  }

  ghost predicate WorkedIn(s: State, s': State, t: nat) {
    t in s.threads && t in s'.threads && Worked(s.threads[t], s'.threads[t])
  }

  /** The circle of s is one still, and its threads have only been worked for. */
  ghost predicate StillWaiting(s: State, s': State, w: seq<(nat, nat)>) {
    CircularWait(s', w) && forall i {:trigger w[i]} :: 0 <= i < |w| ==> WorkedIn(s, s', w[i].0)
  }

  /** Whatever step anyone makes, of a deadlocked thread it can only consume. */
  lemma WaiterWorks(s: State, w: seq<(nat, nat)>, step: Step, i: nat)
    requires OwnerOk(s) && CircularWait(s, w) && Do(s, step).Next? && i < |w|
    ensures WorkedIn(s, Do(s, step).s, w[i].0)
  {
    hide Handle, QueuesInUse;
    assert WaitsForNext(s, w, i);
    var th := s.threads[w[i].0];
    if step == Consume(w[i].0) {
      assert th.consumed + [th.queue[0]] + th.queue[1..] == th.consumed + th.queue;
    }
  }

  lemma WaitingGoesOn(s0: State, s: State, w: seq<(nat, nat)>, step: Step)
    requires OwnerOk(s) && StillWaiting(s0, s, w) && Do(s, step).Next?
    ensures StillWaiting(s0, Do(s, step).s, w)
  {
    CircularWaitStays(s, w, step);
    hide Do, OwnerOk, CircularWait;
    forall i | 0 <= i < |w|
      ensures WorkedIn(s0, Do(s, step).s, w[i].0)
    {
      WaiterWorks(s, w, step, i);
      assert WorkedIn(s0, s, w[i].0);
    }
  }

  lemma {:induction false} RunKeepsWaiting(s0: State, s: State, steps: seq<Step>, s': State, w: seq<(nat, nat)>)
    requires Inv(s) && StillWaiting(s0, s, w) && RunTo(s, steps, s')
    ensures StillWaiting(s0, s', w)
    decreases |steps|
  {
    if steps != [] {
      StepInv(s, steps[0]);
      WaitingGoesOn(s0, s, w, steps[0]);
      hide Inv;
      RunKeepsWaiting(s0, Do(s, steps[0]).s, steps[1..], s', w);
    }
  }

  /** A deadlocked thread pushes nothing more, so that catching up with it once is enough. */
  lemma CaughtUpIsQuiet(s: State, s': State, w: seq<(nat, nat)>)
    requires StillWaiting(s, s', w) && forall i :: 0 <= i < |w| ==> CaughtUp(s, s', w[i].0)
    ensures forall i :: 0 <= i < |w| ==> Quiet(s', w[i].0)
  {
    forall i | 0 <= i < |w|
      ensures Quiet(s', w[i].0)
    {
      assert WorkedIn(s, s', w[i].0) && CaughtUp(s, s', w[i].0);
      var th, th' := s.threads[w[i].0], s'.threads[w[i].0];
      assert |th'.consumed + th'.queue| == |th.consumed + th.queue|;
    }
  }

  /** No deadlock escapes a pass, whatever the other threads do meanwhile: if threads wait for each
      other in a circle, then after any run in which the checker has consumed at least what they had
      queued, they still do, their circle is in the graph, and nothing more of theirs is to come. */
  lemma PassCatchesDeadlock(s: State, steps: seq<Step>, s': State, w: seq<(nat, nat)>)
    requires Reachable(s) && RunTo(s, steps, s') && CircularWait(s, w)
    requires forall i :: 0 <= i < |w| ==> CaughtUp(s, s', w[i].0)
    ensures CircularWait(s', w) && GraphCycle(s'.graph.arcs, w) && forall i :: 0 <= i < |w| ==> Quiet(s', w[i].0)
  {
    ReachableInv(s);
    hide Inv;
    WaitingNow(s, w);
    RunKeepsWaiting(s, s, steps, s', w);
    CaughtUpIsQuiet(s, s', w);
    RunInv(s, steps, s');
    QuietCycleIsDeadlock(s', w);
  }

  lemma WaitingNow(s: State, w: seq<(nat, nat)>)
    requires CircularWait(s, w)
    ensures StillWaiting(s, s, w)
  {
    forall i | 0 <= i < |w|
      ensures WorkedIn(s, s, w[i].0)
    {
      assert WaitsForNext(s, w, i);
    }
  }

  /** Confluence: the graph, with its request map and its vertices, is a function of what has been
      consumed from each thread, whatever the interleaving and whatever else the threads did. */
  lemma GraphFollowsConsumed(s1: State, s2: State)
    requires Inv(s1) && Inv(s2) && s1.threads.Keys == s2.threads.Keys
    requires forall t :: t in s1.threads ==> s1.threads[t].consumed == s2.threads[t].consumed
    ensures s1.graph == s2.graph
  {
    forall t
      ensures ViewOf(s1.graph.arcs, t) == ViewOf(s2.graph.arcs, t)
    {
      if t in s1.threads {
        assert Synced(s1, t) && Synced(s2, t);
      }
    }
    hide AllSynced, OwnerOk;
    forall e
      ensures e in s1.graph.arcs <==> e in s2.graph.arcs
    {
      SameArc(s1.graph, s2.graph, e.0, e.1);
    }
    assert s1.graph.arcs == s2.graph.arcs;
    assert s1.graph.requests == s2.graph.requests;
    forall v
      ensures v in s1.graph.vertices <==> v in s2.graph.vertices
    {
      NamedByConsumed(s1, s2, v);
    }
  }

  lemma SameArc(g1: LockGraph, g2: LockGraph, u: Vid, v: Vid)
    requires WellShaped(g1) && WellShaped(g2)
    requires forall t :: ViewOf(g1.arcs, t) == ViewOf(g2.arcs, t)
    ensures Edge(g1.arcs, u, v) <==> Edge(g2.arcs, u, v)
  {
    if u.T? {
      assert ViewOf(g1.arcs, u.tid) == ViewOf(g2.arcs, u.tid);
      TailsIsArcs(g1.arcs, u, v);
      TailsIsArcs(g2.arcs, u, v);
    } else if v.T? {
      assert ViewOf(g1.arcs, v.tid) == ViewOf(g2.arcs, v.tid);
      TailsIsArcs(g1.arcs, u, v);
      TailsIsArcs(g2.arcs, u, v);
    }
  }

  // ---- emptiness of the queues cannot be dropped ----

  lemma Extend(s: State, step: Step)
    requires Reachable(s) && Do(s, step).Next?
    ensures Reachable(Do(s, step).s)
  {
    var s0, steps :| Init(s0) && RunTo(s0, steps, s);
    RunExtend(s0, steps, s, step);
  }

  lemma {:induction false} RunExtend(s0: State, steps: seq<Step>, s: State, step: Step)
    requires RunTo(s0, steps, s) && Do(s, step).Next?
    ensures RunTo(s0, steps + [step], Do(s, step).s)
    decreases |steps|
  {
    if steps == [] {
      assert RunTo(Do(s, step).s, [], Do(s, step).s);
    } else {
      RunExtend(Do(s0, steps[0]).s, steps[1..], s, step);
      assert (steps + [step])[1..] == steps[1..] + [step];
    }
  }

  ghost predicate Small(g: LockGraph, n: nat) {
    |g.vertices| <= n && |g.arcs| <= n
  }

  ghost predicate FewThreads(s: State) {
    s.threads.Keys <= {1, 2, 3, 4}
  }

  lemma QueueForEach(s: State)
    requires FewThreads(s)
    ensures |QueuesInUse(s)| < NUMBER_OF_EVENTQUEUE
  {
    var few := {1, 2, 3, 4};
    assert QueuesInUse(s) <= few;
    assert few == QueuesInUse(s) + (few - QueuesInUse(s));
  }

  lemma SmallHasRoom(g: LockGraph, t: nat, m: nat)
    requires Small(g, 100)
    ensures !PoolsExhausted(g, t, m)
    ensures |g.arcs| < NUMBER_OF_ARC && |Mutexes(g.vertices)| < NUMBER_OF_VERTEX_MUTEX
  {
    var vs := g.vertices;
    assert vs == Threads(vs) + Mutexes(vs) && Threads(vs) !! Mutexes(vs);
  }

  lemma WaitPushed(s: State, t: nat, m: nat)
    requires FewThreads(s) && t in s.threads && s.threads[t].phase == Idle && s.threads[t].queue == []
    ensures var th := s.threads[t];
            Do(s, PushWait(t, m)) ==
            Next(s.(threads := s.threads[t := Thread(Waiting(m), th.held, [Wait(m)], th.consumed)]))
  {
    QueueForEach(s);
    assert s.threads[t].queue + [Wait(m)] == [Wait(m)];
    hide QueuesInUse;
  }

  /** An idle thread with an empty queue pushes WAIT and the checker takes it. */
  lemma Request(s: State, t: nat, m: nat, n: nat) returns (s': State)
    requires Reachable(s) && Small(s.graph, n) && FewThreads(s) && n + 2 <= 100
    requires t in s.threads && s.threads[t].phase == Idle && s.threads[t].queue == []
    ensures Reachable(s') && Small(s'.graph, n + 2)
    ensures var th := s.threads[t];
            s'.threads == s.threads[t := Thread(Waiting(m), th.held, [], th.consumed + [Wait(m)])]
    ensures s'.owner == s.owner && s'.graph.arcs == s.graph.arcs + {(T(t), M(m))}
    ensures RunTo(s, [PushWait(t, m), Consume(t)], s') && Handle(s.graph, t, Wait(m)) == Some(s'.graph)
  {
    hide Threads, Mutexes, ArcsOrMutexesExhausted, Reachable, QueuesInUse, FewThreads;
    WaitPushed(s, t, m);
    Extend(s, PushWait(t, m));
    var s1 := Do(s, PushWait(t, m)).s;
    SmallHasRoom(s1.graph, t, m);
    AbortExactly(s1, Consume(t));
    hide PoolsExhausted, HasRoom;
    Extend(s1, Consume(t));
    s' := Do(s1, Consume(t)).s;
    assert [PushWait(t, m), Consume(t)][1..] == [Consume(t)] && RunTo(s1, [Consume(t)], s');
    assert s'.threads[t] == Thread(Waiting(m), s.threads[t].held, [], s.threads[t].consumed + [Wait(m)]);
    assert s'.graph.vertices == s.graph.vertices + {T(t), M(m)};
  }

  lemma TakeAndReport(s: State, t: nat, m: nat) returns (s': State)
    requires Reachable(s) && t in s.threads && s.threads[t].phase == Waiting(m) && s.threads[t].queue == []
    requires m !in s.owner && (T(t), M(m)) in s.graph.arcs
    ensures Reachable(s') && s'.owner == s.owner[m := t] && s'.graph.vertices == s.graph.vertices
    ensures Handle(s.graph, t, Hold(m)) == Some(s'.graph)
    ensures s'.graph.arcs == s.graph.arcs - {(T(t), M(m))} + {(M(m), T(t))}
    ensures var th := s.threads[t];
            s'.threads == s.threads[t := Thread(Idle, th.held + {m}, [], th.consumed + [Hold(m)])]
  {
    hide Reachable, QueuesInUse;
    Extend(s, NativeLock(t));
    var s1 := Do(s, NativeLock(t)).s;
    Extend(s1, PushHold(t));
    var s2 := Do(s1, PushHold(t)).s;
    AbortExactly(s2, Consume(t));
    Extend(s2, Consume(t));
    s' := Do(s2, Consume(t)).s;
    assert s2.threads[t].queue == [Hold(m)];
    assert s'.threads[t] == Thread(Idle, s.threads[t].held + {m}, [], s.threads[t].consumed + [Hold(m)]);
  }

  /** What the checker makes of the two events of a lock call. */
  function HandleBoth(g: LockGraph, t: nat, m: nat): Option<LockGraph> {
    var h := Handle(g, t, Wait(m));
    if h.None? then None else Handle(h.value, t, Hold(m))
  }

  /** It then obtains the free mutex, pushes HOLD, and the checker takes that too. */
  lemma LockAndReport(s: State, t: nat, m: nat, n: nat) returns (s': State)
    requires Reachable(s) && Small(s.graph, n) && FewThreads(s) && n + 2 <= 100 && m !in s.owner
    requires t in s.threads && s.threads[t].phase == Idle && s.threads[t].queue == []
    requires (T(t), M(m)) !in s.graph.arcs
    ensures Reachable(s') && Small(s'.graph, n + 2)
    ensures var th := s.threads[t];
            s'.threads == s.threads[t := Thread(Idle, th.held + {m}, [], th.consumed + [Wait(m), Hold(m)])]
    ensures s'.owner == s.owner[m := t] && s'.graph.arcs == s.graph.arcs + {(M(m), T(t))}
    ensures HandleBoth(s.graph, t, m) == Some(s'.graph)
  {
    hide Reachable;
    var s1 := Request(s, t, m, n);
    s' := TakeAndReport(s1, t, m);
    var d := s.threads[t].consumed;
    assert d + [Wait(m)] + [Hold(m)] == d + [Wait(m), Hold(m)];
  }

  ghost predicate IdleIn(s: State, t: nat) {
    t in s.threads && s.threads[t].phase == Idle && s.threads[t].queue == []
  }

  lemma LockOneMore(s: State, t: nat, m: nat, n: nat) returns (s': State)
    requires Reachable(s) && Small(s.graph, n) && FewThreads(s) && n + 2 <= 100 && m !in s.owner && IdleIn(s, t)
    requires (T(t), M(m)) !in s.graph.arcs
    ensures Reachable(s') && Small(s'.graph, n + 2) && s'.threads.Keys == s.threads.Keys
    ensures forall u :: IdleIn(s, u) ==> IdleIn(s', u)
    ensures HandleBoth(s.graph, t, m) == Some(s'.graph)
    ensures s'.owner == s.owner[m := t] && s'.graph.arcs == s.graph.arcs + {(M(m), T(t))}
  {
    hide Reachable, Do, Small;
    s' := LockAndReport(s, t, m, n);
  }

  lemma EmptyIsSmall()
    ensures Small(EMPTY, 0)
  {
  }

  /** A thread that waits for a free mutex takes it and frees it again, all unseen. */
  lemma TakeAndFree(s: State, t: nat, m: nat) returns (s': State)
    requires Reachable(s) && t in s.threads && s.threads[t].phase == Waiting(m) && s.threads[t].queue == []
    requires m !in s.owner && m !in s.threads[t].held
    ensures Reachable(s') && s'.graph == s.graph && s'.owner == s.owner
    ensures s'.threads == s.threads[t := s.threads[t].(phase := Released(m), queue := [Hold(m)])]
  {
    hide Reachable;
    Extend(s, NativeLock(t));
    var s1 := Do(s, NativeLock(t)).s;
    Extend(s1, PushHold(t));
    var s2 := Do(s1, PushHold(t)).s;
    Extend(s2, NativeUnlock(t, m));
    s' := Do(s2, NativeUnlock(t, m)).s;
    assert s.threads[t].held + {m} - {m} == s.threads[t].held;
    assert s'.threads[t] == s.threads[t].(phase := Released(m), queue := [Hold(m)]);
  }

  lemma FreedButUnseen() returns (s: State)
    ensures Reachable(s) && Small(s.graph, 4) && s.threads.Keys == {1, 2}
    ensures s.threads[1].phase == Released(2) && s.threads[2] == Thread(Idle, {}, [], [])
    ensures s.owner == map[1 := 1] && s.graph.arcs == {(M(1), T(1)), (T(1), M(2))}
  {
    hide Reachable, Do, Handle, HandleBoth, RunTo;
    var idle := Thread(Idle, {}, [], []);
    var s0 := State(map[1 := idle, 2 := idle], map[], EMPTY);
    Starts(s0);
    var s1 := LockAndReport(s0, 1, 1, 0);
    var s2 := Request(s1, 1, 2, 2);
    s := TakeAndFree(s2, 1, 2);
  }

  /** The queues matter: there is a reachable state whose graph has a cycle while no threads are
      in a circular wait. Thread 1 has taken mutexes 1 and 2 and freed mutex 2 again, but the
      checker has only seen it ask for mutex 2; meanwhile thread 2 got mutex 2 and asks for 1. */
  lemma FalseAlarm() returns (s: State, c: seq<Vid>)
    ensures Reachable(s) && IsCycle(s.graph.arcs, c)
    ensures !exists w :: CircularWait(s, w)
  {
    hide Reachable, Do, Handle, HandleBoth, RunTo;
    var s1 := FreedButUnseen();
    var s2 := LockAndReport(s1, 2, 2, 4);
    s := Request(s2, 2, 1, 6);
    assert GraphLink(s.graph.arcs, [(1, 2), (2, 1)], 0);
    assert GraphLink(s.graph.arcs, [(1, 2), (2, 1)], 1);
    CycleOfIsCycle(s.graph.arcs, [(1, 2), (2, 1)]);
    c := CycleOf([(1, 2), (2, 1)]);
    hide Small, CycleOf, IsCycle;
    forall w
      ensures !CircularWait(s, w)
    {
      NoCircle(s, w);
    }
  }

  lemma NoCircle(s: State, w: seq<(nat, nat)>)
    requires s.threads.Keys == {1, 2} && !s.threads[1].phase.Waiting? && s.threads[2].phase == Waiting(1)
    requires 1 in s.owner && s.owner[1] == 1
    ensures !CircularWait(s, w)
  {
    if w != [] && WaitsForNext(s, w, 0) {
      assert !WaitsForNext(s, w, Succ(0, |w|));
    }
  }

  lemma Starts(s: State)
    requires Init(s)
    ensures Reachable(s)
  {
    assert RunTo(s, [], s);
  }
}

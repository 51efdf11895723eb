/** Detection over whole runs: which stamps survive the clean-up, which cycles a detection finds,
    and what a reported block means for the threads (strongConnectedComponent, clearTarjanStatus). */
module Detection {
  import opened Graph
  import opened LockGraphs
  import opened Protocol
  import opened Deadlock
  import opened SccSpec
  import opened Walks

  /** The heads that clearTarjanStatus resets besides the requesting threads themselves. */
  function RequestedTails(g: LockGraph): set<Vid> {
    set e | e in g.arcs && e.0 in g.requests :: e.1
  }

  /** One detection: the search skips what is stamped already, and its clean-up resets only the
      requesting threads and the vertices their arcs lead to. */
  ghost predicate Detect(g: LockGraph, stamped: set<Vid>, bs: seq<seq<Vid>>, stamped': set<Vid>) {
    && SccOutput(Ctx(g.arcs, g.vertices - stamped, g.requests), bs)
    && stamped' == stamped + Elems(Flat(bs)) - g.requests - RequestedTails(g)
  }

  /** One detection whose search tries the requesting threads in this order. */
  ghost predicate DetectIn(g: LockGraph, stamped: set<Vid>, order: seq<Vid>, bs: seq<seq<Vid>>, stamped': set<Vid>) {
    && Detect(g, stamped, bs, stamped')
    && (forall r :: r in order <==> r in g.requests)
    && FirstFrom(Ctx(g.arcs, g.vertices - stamped, g.requests), order, bs)
  }

  lemma IsDetection(g: LockGraph, stamped: set<Vid>, order: seq<Vid>, bs: seq<seq<Vid>>, stamped': set<Vid>)
    requires DetectIn(g, stamped, order, bs, stamped')
    ensures Detect(g, stamped, bs, stamped')
  {
  }

  ghost predicate OnlyThreads(s: set<Vid>) {
    forall v :: v in s ==> v.T?
  }

  lemma RequestReaches(g: LockGraph, t: Vid, v: Vid)
    requires WellShaped(g) && Edge(g.arcs, t, v) && t.T?
    ensures t in g.requests && v in RequestedTails(g)
  {
    assert (t, v).1 == v;
  }

  /** After the clean-up every mutex and every requesting thread is unstamped; what stays stamped
      is a thread without an outgoing arc. */
  lemma StaleAreIdleThreads(g: LockGraph, stamped: set<Vid>, bs: seq<seq<Vid>>, stamped': set<Vid>)
    requires WellShaped(g) && OnlyThreads(stamped) && Detect(g, stamped, bs, stamped')
    ensures forall v :: v in stamped' ==> v.T? && v !in g.requests && forall w :: !Edge(g.arcs, v, w)
  {
    var c := Ctx(g.arcs, g.vertices - stamped, g.requests);
    forall v | v in stamped'
      ensures v.T? && v !in g.requests && forall w :: !Edge(g.arcs, v, w)
    {
      if v.M? {
        assert v in Flat(bs);
        var r :| r in c.roots && Reach(c.a, c.on, r, v);
        var x := ReachLastArc(c.a, c.on, r, v);
        RequestReaches(g, x, v);
        assert false;
      }
    }
  }

  /** Exactly these stay stamped: threads without an outgoing arc that carried a stamp before, or that the search
      has reached from a requesting thread. */
  lemma StaleExactly(g: LockGraph, stamped: set<Vid>, bs: seq<seq<Vid>>, stamped': set<Vid>, v: Vid)
    requires WellShaped(g) && OnlyThreads(stamped) && Detect(g, stamped, bs, stamped')
    ensures var on := g.vertices - stamped;
            v in stamped' <==>
              && v.T? && (forall w :: !Edge(g.arcs, v, w))
              && (v in stamped || (v in on && exists r :: r in g.requests && Reach(g.arcs, on, r, v)))
  {
    StaleAreIdleThreads(g, stamped, bs, stamped');
    var c := Ctx(g.arcs, g.vertices - stamped, g.requests);
    hide Reach;
    assert v in Flat(bs) <==> v in c.on && Rooted(c, v);
    if v.T? && forall w :: !Edge(g.arcs, v, w) {
      assert v !in g.requests;
      forall e | e in g.arcs && e.0 in g.requests
        ensures e.1 != v
      {
        assert Edge(g.arcs, e.0, e.1);
      }
      assert v !in RequestedTails(g);
    }
  }

  /** A cycle lies wholly inside one emitted block, of two vertices or more, if and only if none of
      its vertices was stamped when the search began. */
  lemma CycleFoundIff(g: LockGraph, stamped: set<Vid>, bs: seq<seq<Vid>>, stamped': set<Vid>, c: seq<Vid>)
    requires WellShaped(g) && Detect(g, stamped, bs, stamped') && IsCycle(g.arcs, c)
    ensures (exists i :: 0 <= i < |bs| && |bs[i]| >= 2 && forall v :: v in c ==> v in bs[i])
            <==> (forall v :: v in c ==> v !in stamped)
  {
    if forall v :: v in c ==> v !in stamped {
      var i := CycleFound(g, stamped, bs, stamped', c);
    }
    if i :| 0 <= i < |bs| && |bs[i]| >= 2 && forall v :: v in c ==> v in bs[i] {
      forall v | v in c
        ensures v !in stamped
      {
        BlockInFlat(bs, i, v);
      }
    }
  }

  lemma CycleRooted(g: LockGraph, on: set<Vid>, c: seq<Vid>)
    requires WellShaped(g) && IsCycle(g.arcs, c) && forall v :: v in c ==> v in on
    ensures Rooted(Ctx(g.arcs, on, g.requests), c[0])
  {
    assert Edge(g.arcs, c[0], c[Succ(0, |c|)]);
    var n := Succ(0, |c|);
    assert Edge(g.arcs, c[n], c[Succ(n, |c|)]);
    var k := if c[0].T? then 0 else n;
    hide IsCycle;
    RequestReaches(g, c[k], c[Succ(k, |c|)]);
    CycleReach(g.arcs, on, c, k, 0);
  }

  lemma CycleOn(g: LockGraph, c: seq<Vid>)
    requires WellShaped(g) && IsCycle(g.arcs, c)
    ensures forall v :: v in c ==> v in g.vertices
    ensures Succ(0, |c|) < |c| && c[0] != c[Succ(0, |c|)]
  {
    forall v | v in c
      ensures v in g.vertices
    {
      var j :| 0 <= j < |c| && c[j] == v;
      assert Edge(g.arcs, c[j], c[Succ(j, |c|)]);
    }
    assert Edge(g.arcs, c[0], c[Succ(0, |c|)]);
  }

  lemma CycleFound(g: LockGraph, stamped: set<Vid>, bs: seq<seq<Vid>>, stamped': set<Vid>, c: seq<Vid>)
    returns (i: nat)
    requires WellShaped(g) && Detect(g, stamped, bs, stamped') && IsCycle(g.arcs, c)
    requires forall v :: v in c ==> v !in stamped
    ensures i < |bs| && |bs[i]| >= 2 && forall v :: v in c ==> v in bs[i]
  {
    hide WellShaped, SccOutput, Reach, Rooted;
    var on := g.vertices - stamped;
    CycleOn(g, c);
    CycleRooted(g, on, c);
    hide IsCycle;
    i := CycleInBlock(Ctx(g.arcs, on, g.requests), bs, c);
    assert c[0] in bs[i] && c[Succ(0, |c|)] in bs[i];
  }

  lemma CycleInBlock(x: Ctx, bs: seq<seq<Vid>>, c: seq<Vid>) returns (i: nat)
    requires SccOutput(x, bs) && IsCycle(x.a, c) && Rooted(x, c[0])
    requires forall v :: v in c ==> v in x.on
    ensures i < |bs| && forall v :: v in c ==> v in bs[i]
  {
    hide NoDup, Closed;
    i := InSomeBlock(bs, c[0]);
    var b := Elems(bs[i]);
    assert c[0] in b && IsScc(x.a, x.on, b);
    hide IsScc, Rooted, BlocksOk, SccOutput;
    CycleInOneScc(x.a, x.on, c, b);
    assert forall v :: v in b ==> v in bs[i];
  }

  /** A block of two vertices or more contains a cycle. */
  lemma BigBlockHasCycle(g: LockGraph, stamped: set<Vid>, bs: seq<seq<Vid>>, stamped': set<Vid>, i: nat)
    returns (c: seq<Vid>)
    requires Detect(g, stamped, bs, stamped') && i < |bs| && |bs[i]| >= 2
    ensures IsCycle(g.arcs, c) && forall v :: v in c ==> v in bs[i]
  {
    var on := g.vertices - stamped;
    BlockNoDup(bs, i);
    assert bs[i][0] in Elems(bs[i]) && bs[i][1] in Elems(bs[i]);
    c := SccHasCycle(g.arcs, on, Elems(bs[i]), bs[i][0], bs[i][1]);
    assert forall v :: v in c ==> v in Elems(bs[i]);
  }

  lemma BlockNoDup(bs: seq<seq<Vid>>, i: nat)
    requires NoDup(Flat(bs)) && i < |bs|
    ensures NoDup(bs[i])
  {
    var n := |bs| - 1;
    NoDupSplit(Flat(bs[..n]), bs[n]);
    if i < n {
      assert bs[..n][i] == bs[i];
      BlockNoDup(bs[..n], i);
    }
  }

  /** Starting from the requesting threads alone loses nothing: with no stale stamp a block of two
      vertices or more exists exactly when the graph has a cycle anywhere. */
  lemma RequestsSuffice(g: LockGraph, bs: seq<seq<Vid>>, stamped': set<Vid>)
    requires WellShaped(g) && Detect(g, {}, bs, stamped')
    ensures (exists i :: 0 <= i < |bs| && |bs[i]| >= 2) <==> (exists c :: IsCycle(g.arcs, c))
  {
    if i :| 0 <= i < |bs| && |bs[i]| >= 2 {
      var c := BigBlockHasCycle(g, {}, bs, stamped', i);
    }
    if c: seq<Vid> :| IsCycle(g.arcs, c) {
      var i := CycleFound(g, {}, bs, stamped', c);
    }
  }

  // ---- runs with detections ----

  /** Protocol state and the set of vertices whose dfn is not zero. */
  datatype Sys = Sys(p: State, stamped: set<Vid>)

  ghost predicate DetectsTo(s: Sys, bs: seq<seq<Vid>>, s': Sys) {
    s'.p == s.p && Detect(s.p.graph, s.stamped, bs, s'.stamped)
  }

  ghost predicate SysNext(s: Sys, s': Sys) {
    || (exists step :: Do(s.p, step) == Next(s'.p) && s'.stamped == s.stamped)
    || (exists bs :: DetectsTo(s, bs, s'))
  }

  ghost predicate IsRun(tr: seq<Sys>) {
    && tr != [] && Init(tr[0].p) && tr[0].stamped == {}
    && forall i {:trigger NextAt(tr, i)} :: 0 <= i < |tr| - 1 ==> NextAt(tr, i)
  }

  ghost predicate NextAt(tr: seq<Sys>, i: nat)
    requires i + 1 < |tr|
  {
    SysNext(tr[i], tr[i + 1])
  }

  ghost predicate SysInv(s: Sys) {
    Protocol.Inv(s.p) && OnlyThreads(s.stamped)
  }

  lemma SysStepInv(s: Sys, s': Sys)
    requires SysInv(s) && SysNext(s, s')
    ensures SysInv(s')
  {
    if step :| Do(s.p, step) == Next(s'.p) && s'.stamped == s.stamped {
      StepInv(s.p, step);
    } else {
      var bs :| DetectsTo(s, bs, s');
      StaleAreIdleThreads(s.p.graph, s.stamped, bs, s'.stamped);
    }
  }

  /** Over every run with any number of detections: the protocol invariant holds and only thread
      vertices are ever stamped between detections. */
  lemma {:induction false} RunSysInv(tr: seq<Sys>, i: nat)
    requires IsRun(tr) && i < |tr|
    ensures SysInv(tr[i])
  {
    hide Reach, SccOutput, Do;
    if i == 0 {
      InitInv(tr[0].p);
    } else {
      RunSysInv(tr, i - 1);
      assert NextAt(tr, i - 1);
      SysStepInv(tr[i - 1], tr[i]);
    }
  }

  /** The threads of w are deadlocked, the checker has consumed all their events, and no vertex of
      their cycle carries a stamp. */
  ghost predicate Caught(s: Sys, w: seq<(nat, nat)>) {
    && CircularWait(s.p, w)
    && (forall i :: 0 <= i < |w| ==> Quiet(s.p, w[i].0))
    && (forall v :: v in CycleOf(w) ==> v !in s.stamped)
  }

  /** Every vertex of a cycle is a requesting thread or a mutex that one asks for. */
  lemma CycleEndsRequested(g: LockGraph, c: seq<Vid>, v: Vid)
    requires WellShaped(g) && IsCycle(g.arcs, c) && v in c
    ensures v in g.requests || v in RequestedTails(g)
  {
    var k :| 0 <= k < |c| && c[k] == v;
    var p := if k == 0 then |c| - 1 else k - 1;
    assert Succ(p, |c|) == k && Edge(g.arcs, c[p], c[k]);
    assert Edge(g.arcs, c[k], c[Succ(k, |c|)]);
    if v.T? {
      RequestReaches(g, v, c[Succ(k, |c|)]);
    } else {
      RequestReaches(g, c[p], v);
    }
  }

  /** The first detection after the events are consumed leaves the whole cycle unstamped. */
  lemma DetectionClearsCycle(s: Sys, s': Sys, bs: seq<seq<Vid>>, w: seq<(nat, nat)>)
    requires SysInv(s) && DetectsTo(s, bs, s') && CircularWait(s.p, w)
    requires forall i :: 0 <= i < |w| ==> Quiet(s.p, w[i].0)
    ensures Caught(s', w)
  {
    QuietCycleIsDeadlock(s.p, w);
    CycleOfIsCycle(s.p.graph.arcs, w);
    forall v | v in CycleOf(w)
      ensures v !in s'.stamped
    {
      CycleEndsRequested(s.p.graph, CycleOf(w), v);
    }
  }

  lemma CaughtStays(s: Sys, s': Sys, w: seq<(nat, nat)>)
    requires SysInv(s) && SysNext(s, s') && Caught(s, w)
    ensures Caught(s', w)
  {
    if step :| Do(s.p, step) == Next(s'.p) && s'.stamped == s.stamped {
      CaughtCycleStays(s.p, w, step);
    } else {
      var bs :| DetectsTo(s, bs, s');
      DetectionClearsCycle(s, s', bs, w);
    }
  }

  lemma {:induction false} CaughtForEver(tr: seq<Sys>, i: nat, j: nat, w: seq<(nat, nat)>)
    requires IsRun(tr) && i <= j < |tr| && Caught(tr[i], w)
    ensures Caught(tr[j], w)
    decreases j - i
  {
    hide SysNext, Caught, Init;
    if i < j {
      RunSysInv(tr, i);
      assert NextAt(tr, i);
      CaughtStays(tr[i], tr[i + 1], w);
      CaughtForEver(tr, i + 1, j, w);
    }
  }

  /** Real or not, a cycle that is in the graph at two detections in a row lies wholly inside one
      block, of two vertices or more, of the second: the first cleans up after itself there. */
  lemma CycleAtTwoDetections(s1: Sys, bs1: seq<seq<Vid>>, s1': Sys, s2: Sys, bs2: seq<seq<Vid>>, s2': Sys, c: seq<Vid>)
    returns (b: nat)
    requires SysInv(s1) && SysInv(s2) && DetectsTo(s1, bs1, s1') && DetectsTo(s2, bs2, s2')
    requires s2.stamped == s1'.stamped  // no detection in between
    requires IsCycle(s1.p.graph.arcs, c) && IsCycle(s2.p.graph.arcs, c)
    ensures b < |bs2| && |bs2[b]| >= 2 && forall v :: v in c ==> v in bs2[b]
  {
    forall v | v in c
      ensures v !in s2.stamped
    {
      CycleEndsRequested(s1.p.graph, c, v);
    }
    hide IsCycle;
    b := CycleFound(s2.p.graph, s2.stamped, bs2, s2'.stamped, c);
  }

  /** Once a detection has run after the checker consumed the events of deadlocked threads, every later
      detection of the run, whatever happens in between, emits one block of two vertices or more that
      contains their whole cycle. */
  lemma DeadlockIsFound(tr: seq<Sys>, i: nat, j: nat, w: seq<(nat, nat)>, bs1: seq<seq<Vid>>, bs2: seq<seq<Vid>>)
    returns (b: nat)
    requires IsRun(tr) && i < j && j + 1 < |tr|
    requires CircularWait(tr[i].p, w) && forall k :: 0 <= k < |w| ==> Quiet(tr[i].p, w[k].0)
    requires DetectsTo(tr[i], bs1, tr[i + 1]) && DetectsTo(tr[j], bs2, tr[j + 1])
    ensures b < |bs2| && |bs2[b]| >= 2 && forall v :: v in CycleOf(w) ==> v in bs2[b]
  {
    hide *;
    RunSysInv(tr, i);
    RunSysInv(tr, j);
    DetectionClearsCycle(tr[i], tr[i + 1], bs1, w);
    CaughtForEver(tr, i + 1, j, w);
    b := CaughtIsFound(tr[j], tr[j + 1], bs2, w);
  }

  lemma CaughtIsFound(s: Sys, s': Sys, bs: seq<seq<Vid>>, w: seq<(nat, nat)>) returns (b: nat)
    requires SysInv(s) && DetectsTo(s, bs, s') && Caught(s, w)
    ensures b < |bs| && |bs[b]| >= 2 && forall v :: v in CycleOf(w) ==> v in bs[b]
  {
    hide CircularWait, GraphCycle, IsCycle, Detect, CycleOf;
    QuietCycleIsDeadlock(s.p, w);
    CycleOfIsCycle(s.p.graph.arcs, w);
    b := CycleFound(s.p.graph, s.stamped, bs, s'.stamped, CycleOf(w));
  }

  lemma NextStillWaiting(s0: State, s: Sys, s': Sys, w: seq<(nat, nat)>)
    requires SysInv(s) && SysNext(s, s') && StillWaiting(s0, s.p, w)
    ensures StillWaiting(s0, s'.p, w)
  {
    hide StillWaiting, Detect;
    if step :| Do(s.p, step) == Next(s'.p) && s'.stamped == s.stamped {
      WaitingGoesOn(s0, s.p, w, step);
    }
  }

  lemma {:induction false} RunStillWaiting(tr: seq<Sys>, i: nat, j: nat, w: seq<(nat, nat)>)
    requires IsRun(tr) && i <= j < |tr| && CircularWait(tr[i].p, w)
    ensures StillWaiting(tr[i].p, tr[j].p, w)
    decreases j - i
  {
    hide StillWaiting, CircularWait, Init, SysNext, SysInv;
    if i == j {
      WaitingNow(tr[i].p, w);
    } else {
      RunStillWaiting(tr, i, j - 1, w);
      RunSysInv(tr, j - 1);
      assert NextAt(tr, j - 1);
      NextStillWaiting(tr[i].p, tr[j - 1], tr[j], w);
    }
  }

  /** Every real deadlock is found: it is wholly inside one block of the second detection after a pass
      over the queues, whatever pushes, passes and other detections come in between. */
  lemma DeadlockFoundAfterPass(tr: seq<Sys>, i: nat, j: nat, k: nat, w: seq<(nat, nat)>,
                               bs1: seq<seq<Vid>>, bs2: seq<seq<Vid>>) returns (b: nat)
    requires IsRun(tr) && i <= j < k && k + 1 < |tr|
    requires CircularWait(tr[i].p, w) && forall l :: 0 <= l < |w| ==> CaughtUp(tr[i].p, tr[j].p, w[l].0)
    requires DetectsTo(tr[j], bs1, tr[j + 1]) && DetectsTo(tr[k], bs2, tr[k + 1])
    ensures b < |bs2| && |bs2[b]| >= 2 && forall v :: v in CycleOf(w) ==> v in bs2[b]
  {
    hide IsRun, DetectsTo, CaughtUp, CircularWait, Quiet;
    RunStillWaiting(tr, i, j, w);
    CaughtUpIsQuiet(tr[i].p, tr[j].p, w);
    b := DeadlockIsFound(tr, j, k, w, bs1, bs2);
  }

  /** A component whose threads have nothing queued has one arc inside at each vertex: no mutex in it
      has two holders there. */
  lemma QuietBlockIsSimple(s: State, on: set<Vid>, b: set<Vid>)
    requires Protocol.Inv(s) && IsScc(s.graph.arcs, on, b) && |b| >= 2 && forall t :: T(t) in b ==> Quiet(s, t)
    ensures OneArcInside(s.graph.arcs, b)
  {
    var a := s.graph.arcs;
    hide IsScc, OwnerOk, AllSynced, VerticesOk, QueuesFit, WithinPools;
    forall u, v, w | u in b && v in b && w in b && Edge(a, u, v) && Edge(a, u, w)
      ensures v == w
    {
      if u.M? {
        var x := HasArcFromInside(a, on, b, u);
        var y := HasArcInside(a, on, b, v);
        var z := HasArcInside(a, on, b, w);
        hide Protocol.Inv;
        InnerOwner(s, x.tid, u.mid, v.tid, y.mid);
        InnerOwner(s, x.tid, u.mid, w.tid, z.mid);
      }
    }
  }

  /** Reported is what is real: where the threads of a component have nothing queued, any walk of as
      many steps as it has vertices, from one of its threads, is one circle of waiting threads, and it
      leaves no vertex out. */
  lemma WalkIsDeadlock(s: State, on: set<Vid>, b: set<Vid>, p: seq<Vid>) returns (w: seq<(nat, nat)>)
    requires Protocol.Inv(s) && IsScc(s.graph.arcs, on, b) && |b| >= 2 && forall t :: T(t) in b ==> Quiet(s, t)
    requires WalksIn(s.graph.arcs, b, p) && |p| == |b| + 1 && p[0].T?
    ensures CircularWait(s, w) && CycleOf(w) == p[..|b|] && p[|b|] == p[0]
    ensures NoDup(CycleOf(w)) && Elems(CycleOf(w)) == b
  {
    hide Reach, IsScc, OwnerOk, AllSynced, VerticesOk, QueuesFit, WithinPools;
    QuietBlockIsSimple(s, on, b);
    WalkIsTheCycle(s.graph.arcs, on, b, p);
    ClosedWalkIsCycle(s.graph.arcs, b, p);
    var c := p[..|b|];
    w := CycleHasPairs(s.graph, c);
    assert forall v :: v in c ==> v in Elems(c);
    hide Protocol.Inv, IsCycle, Elems, NoDup, CycleOf;
    QuietCycleIsDeadlock(s, w);
  }

  /** Every block of two vertices or more whose threads have nothing queued is a deadlock: its vertices
      are those of one circle of threads that really wait for each other, and nothing else. */
  lemma ReportIsDeadlock(s: Sys, s': Sys, bs: seq<seq<Vid>>, i: nat) returns (w: seq<(nat, nat)>)
    requires SysInv(s) && DetectsTo(s, bs, s') && i < |bs| && |bs[i]| >= 2
    requires forall t :: T(t) in bs[i] ==> Quiet(s.p, t)
    ensures CircularWait(s.p, w) && NoDup(CycleOf(w)) && Elems(CycleOf(w)) == Elems(bs[i])
    ensures |bs[i]| == 2 * |w| && OneArcInside(s.p.graph.arcs, Elems(bs[i]))
  {
    var b := Elems(bs[i]);
    var on := s.p.graph.vertices - s.stamped;
    assert IsScc(s.p.graph.arcs, on, b);
    BlockNoDup(bs, i);
    NoDupSize(bs[i]);
    hide Detect, IsScc, OnlyThreads, NoDup;
    var t := HasThread(s.p.graph, on, b);
    var p := WalkExists(s.p.graph.arcs, on, b, t, |b|);
    hide WellShaped;
    QuietBlockIsSimple(s.p, on, b);
    w := WalkIsDeadlock(s.p, on, b, p);
  }
}

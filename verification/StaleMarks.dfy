/** A stale mark makes one detection miss a deadlock, which the next one then finds: for every search, and
    as a run of the checker's code. */
module StaleMarks {
  import opened Utils
  import opened Graph
  import opened LockGraphs
  import opened Protocol
  import opened Deadlock
  import opened SccSpec
  import opened Detection
  import opened Tarjan
  import opened Vertices
  import opened EventLoop
  import opened Display
  import opened Feeding

  ghost predicate HolderArcs(a: Arcs) {
    a == {(M(1), T(1)), (M(2), T(2)), (T(2), M(1))}
  }

  ghost predicate ClosedArcs(a: Arcs) {
    a == {(M(1), T(1)), (M(2), T(2)), (T(2), M(1)), (T(1), M(2))}
  }

  lemma RequestedHere(g: LockGraph, u: Vid, v: Vid)
    requires u in g.requests && Edge(g.arcs, u, v)
    ensures v in RequestedTails(g)
  {
    assert (u, v).0 == u && (u, v).1 == v;
  }

  /** Only thread 2 asks for anything: the search reaches thread 1 as the owner of mutex 1, and the
      clean-up leaves that mark and no other, whatever the search does. */
  lemma HolderKeepsStamp(g: LockGraph, bs: seq<seq<Vid>>, stamped: set<Vid>)
    requires WellShaped(g) && HolderArcs(g.arcs) && Detect(g, {}, bs, stamped)
    ensures stamped == {T(1)}
  {
    assert Edge(g.arcs, M(1), T(1)) && Edge(g.arcs, T(2), M(1));
    assert g.requests == {T(2)} && g.vertices - {} >= {T(1), T(2), M(1)};
    RequestedHere(g, T(2), M(1));
    assert RequestedTails(g) == {M(1)};
    var c := Ctx(g.arcs, g.vertices - {}, g.requests);
    hide WellShaped, RequestedTails;
    forall v
      ensures v in Flat(bs) <==> v in {T(1), T(2), M(1)}
    {
      FirstReach(c, v);
    }
  }

  lemma FirstReach(c: Ctx, v: Vid)
    requires HolderArcs(c.a) && c.roots == {T(2)} && c.on >= {T(1), T(2), M(1)}
    ensures v in {T(1), T(2), M(1)} <==> v in c.on && Rooted(c, v)
  {
    assert Edge(c.a, T(2), M(1)) && Edge(c.a, M(1), T(1));
    if Rooted(c, v) {
      ReachStaysInClosed(c.a, c.on, {T(1), T(2), M(1)}, T(2), v);
    }
    hide Reach;
    ReachRefl(c.a, c.on, T(2));
    ReachEdge(c.a, c.on, T(2), M(1));
    ReachEdge(c.a, c.on, M(1), T(1));
    ReachTrans(c.a, c.on, T(2), M(1), T(1));
  }

  /** Thread 1 has closed the circle but is stamped: no block of two vertices, whatever the search does, and
      no mark is left. */
  lemma CircleIsMissed(g: LockGraph, bs: seq<seq<Vid>>, stamped: set<Vid>)
    requires WellShaped(g) && ClosedArcs(g.arcs) && Detect(g, {T(1)}, bs, stamped)
    ensures (forall i :: 0 <= i < |bs| ==> |bs[i]| <= 1) && stamped == {}
  {
    assert Edge(g.arcs, T(1), M(2)) && Edge(g.arcs, T(2), M(1));
    assert g.requests == {T(1), T(2)} && g.vertices - {T(1)} >= {T(2), M(1)};
    RequestedHere(g, T(2), M(1));
    RequestedHere(g, T(1), M(2));
    var c := Ctx(g.arcs, g.vertices - {T(1)}, g.requests);
    hide WellShaped, RequestedTails;
    forall v | v in Flat(bs)
      ensures v in {T(2), M(1)}
    {
      SecondReach(c, v);
    }
    forall i | 0 <= i < |bs|
      ensures |bs[i]| <= 1
    {
      if |bs[i]| > 1 {
        var d := BigBlockHasCycle(g, {T(1)}, bs, stamped, i);
        assert forall v :: v in d ==> v in bs[i];
        InBlocks(bs, i);
        NoCycleOfTwo(g.arcs, d);
      }
    }
  }

  lemma InBlocks(bs: seq<seq<Vid>>, i: nat)
    requires i < |bs|
    ensures forall v :: v in bs[i] ==> v in Flat(bs)
  {
    forall v | v in bs[i]
      ensures v in Flat(bs)
    {
      BlockInFlat(bs, i, v);
    }
  }

  lemma SecondReach(c: Ctx, v: Vid)
    requires ClosedArcs(c.a) && c.roots == {T(1), T(2)} && T(1) !in c.on
    ensures v in c.on && Rooted(c, v) ==> v in {T(2), M(1)}
  {
    if r :| r in c.roots && Reach(c.a, c.on, r, v) {
      ReachEnds(c.a, c.on, r, v);
      ReachStaysInClosed(c.a, c.on, {T(2), M(1)}, T(2), v);
    }
  }

  lemma NoCycleOfTwo(a: Arcs, d: seq<Vid>)
    requires ClosedArcs(a) && IsCycle(a, d)
    ensures exists v :: v in d && v !in {T(2), M(1)}
  {
    var n := Succ(0, |d|);
    assert Edge(a, d[0], d[n]) && Edge(a, d[n], d[Succ(n, |d|)]);
    assert d[0] in d && d[n] in d && d[Succ(n, |d|)] in d;
  }

  // ---- the run ----

  ghost predicate HolderState(s: State) {
    && Reachable(s) && Small(s.graph, 6) && s.threads.Keys == {1, 2} && s.owner == map[1 := 1, 2 := 2]
    && IdleIn(s, 1) && s.threads[2].phase == Waiting(1) && s.threads[2].queue == []
    && HolderArcs(s.graph.arcs)
  }

  lemma BeginTwo() returns (s: State)
    ensures Reachable(s) && Small(s.graph, 0) && s.graph == EMPTY && s.owner == map[] && s.threads.Keys == {1, 2}
    ensures IdleIn(s, 1) && IdleIn(s, 2)
  {
    var idle := Thread(Idle, {}, [], []);
    s := State(map[1 := idle, 2 := idle], map[], EMPTY);
    hide Reachable;
    Starts(s);
    EmptyIsSmall();
  }

  /** Two threads lock a mutex each, and thread 2 asks for that of thread 1. */
  method LockTwo() returns (c: Checker, ghost s: State)
    ensures c.Valid() && c.g == s.graph && c.stamped == {} && HolderState(s)
    ensures fresh(c) && fresh(c.threadVertexMemPool) && fresh(c.mutexVertexMemPool) && fresh(c.arcMemPool)
    ensures fresh(c.objs)
  {
    hide Checker.Valid, Reachable, Small;
    s := BeginTwo();
    c := new Checker();
    s := FeedLock(c, 1, 1, 0, s);
    s := FeedLock(c, 2, 2, 2, s);
    s := FeedRequest(c, 2, 1, 4, s);
  }

  ghost predicate CircleState(s: State) {
    && Reachable(s) && Settled(s) && CircularWait(s, [(1, 2), (2, 1)])
    && WellShaped(s.graph) && ClosedArcs(s.graph.arcs)
  }

  lemma CircleCloses(s0: State, s: State)
    requires HolderState(s0) && Reachable(s) && s.threads.Keys == s0.threads.Keys && s.owner == s0.owner
    requires s.threads[1].phase == Waiting(2) && s.threads[1].queue == [] && s.threads[2] == s0.threads[2]
    requires s.graph.arcs == s0.graph.arcs + {(T(1), M(2))}
    ensures CircleState(s)
  {
    hide Reachable, WellShaped;
    var w := [(1, 2), (2, 1)];
    ShapeOf(s);
    assert WaitsForNext(s, w, 0) && WaitsForNext(s, w, 1);
  }

  lemma HolderFacts(s: State)
    requires HolderState(s)
    ensures Reachable(s) && Small(s.graph, 6) && FewThreads(s) && IdleIn(s, 1) && 2 in s.threads
    ensures WellShaped(s.graph) && HolderArcs(s.graph.arcs)
  {
    ShapeOf(s);
  }

  lemma CircleFacts(s: State)
    requires CircleState(s)
    ensures Reachable(s) && Settled(s) && CircularWait(s, [(1, 2), (2, 1)])
    ensures WellShaped(s.graph) && ClosedArcs(s.graph.arcs)
  {
  }

  /** Without marks, and from a thread of the circle, the deadlock is found and displayed. */
  lemma CircleIsDisplayed(s: State, order: seq<Vid>, bs: seq<seq<Vid>>, stamped: set<Vid>)
    requires Reachable(s) && Settled(s) && WellShaped(s.graph) && ClosedArcs(s.graph.arcs)
    requires DetectIn(s.graph, {}, order, bs, stamped) && order != [] && order[0] == T(1)
    ensures exists b :: b in bs && b in Shown(bs) && {T(1), M(2), T(2), M(1)} <= Elems(b)
  {
    hide *;
    var c := [T(1), M(2), T(2), M(1)];
    ReachableInv(s);
    CircleIsCycle(s.graph);
    IsDetection(s.graph, {}, order, bs, stamped);
    var i := CycleFound(s.graph, {}, bs, stamped, c);
    FromOne(s.graph.arcs, s.graph.vertices - {}, order);
    NoStamps(s);
    SettledDisplay(Sys(s, {}), order, bs, Sys(s, stamped));
    BlockShown(bs, i, c);
  }

  lemma CircleIsCycle(g: LockGraph)
    requires WellShaped(g) && ClosedArcs(g.arcs)
    ensures IsCycle(g.arcs, [T(1), M(2), T(2), M(1)]) && g.vertices - {} >= {T(1), M(2), T(2), M(1)}
  {
    var c := [T(1), M(2), T(2), M(1)];
    assert Edge(g.arcs, c[0], c[1]) && Edge(g.arcs, c[1], c[2]) && Edge(g.arcs, c[2], c[3]) && Edge(g.arcs, c[3], c[0]);
  }

  lemma FromOne(a: Arcs, on: set<Vid>, order: seq<Vid>)
    requires IsCycle(a, [T(1), M(2), T(2), M(1)]) && on >= {T(1), M(2), T(2), M(1)}
    requires order != [] && order[0] == T(1)
    ensures FirstOn(order, on) == Some(T(1)) && LeadsToCycle(a, on, T(1))
  {
    hide IsCycle, Reach;
    ReachRefl(a, on, T(1));
    assert CycleIn(a, on, [T(1), M(2), T(2), M(1)]);
  }

  lemma NoStamps(s: State)
    requires Protocol.Inv(s)
    ensures SysInv(Sys(s, {}))
  {
  }

  lemma BlockShown(bs: seq<seq<Vid>>, i: nat, c: seq<Vid>)
    requires AllShown(bs) && i < |bs| && |bs[i]| >= 2 && forall v :: v in c ==> v in bs[i]
    requires c == [T(1), M(2), T(2), M(1)]
    ensures bs[i] in bs && bs[i] in Shown(bs) && {T(1), M(2), T(2), M(1)} <= Elems(bs[i])
  {
    hide Shown;
    assert c[0] in c && c[1] in c && c[2] in c && c[3] in c;
  }

  lemma ShapeOf(s: State)
    requires Reachable(s)
    ensures WellShaped(s.graph)
  {
    ReachableInv(s);
  }

  /** The vertex objects of the requesting threads: only thread 2 at first, both later. */
  method RequestsOf(c: Checker, both: bool) returns (order: seq<Vertex>)
    requires c.Valid() && WellShaped(c.g) && if both then ClosedArcs(c.g.arcs) else HolderArcs(c.g.arcs)
    ensures forall v :: v in order <==> v in c.requestThreadMap
    ensures both ==> order != [] && Ids(order) != [] && Ids(order)[0] == T(1)
  {
    assert c.MapsOk();
    RequestsAre(c.g, both);
    hide Checker.Valid, WellShaped, HolderArcs, ClosedArcs;
    order := if both then [c.vertexThreadMap[1], c.vertexThreadMap[2]] else [c.vertexThreadMap[2]];
  }

  lemma RequestsAre(g: LockGraph, both: bool)
    requires WellShaped(g) && if both then ClosedArcs(g.arcs) else HolderArcs(g.arcs)
    ensures g.requests == if both then {T(1), T(2)} else {T(2)}
    ensures T(1) in g.vertices && T(2) in g.vertices
  {
    assert Edge(g.arcs, M(1), T(1)) && Edge(g.arcs, T(2), M(1)) && (both ==> Edge(g.arcs, T(1), M(2)));
  }

  lemma NothingBig(bs: seq<seq<Vid>>)
    requires forall i :: 0 <= i < |bs| ==> |bs[i]| <= 1
    ensures Shown(bs) == []
  {
  }

  lemma BlockGiven(shown: seq<seq<Vertex>>, bs: seq<seq<Vid>>)
    requires BlockIds(shown) == Shown(bs)
    requires exists b :: b in bs && b in Shown(bs) && {T(1), M(2), T(2), M(1)} <= Elems(b)
    ensures exists b :: b in BlockIds(shown) && {T(1), M(2), T(2), M(1)} <= Elems(b)
  {
  }

  /** Three detections. The first one finds threads 1 and 2 innocent but leaves a mark on thread 1, which
      then closes the circle. The second one, though the deadlock is real and nothing is queued, emits
      single vertices only and displays nothing; the third one finds the circle and displays it. */
  method MissedOnce() returns (c: Checker, second: seq<seq<Vertex>>, third: seq<seq<Vertex>>,
                               ghost s: State, ghost missed: seq<seq<Vid>>, ghost found: seq<seq<Vid>>)
    ensures Reachable(s) && Settled(s) && CircularWait(s, [(1, 2), (2, 1)]) && c.Valid() && c.g == s.graph
    ensures Detect(s.graph, {T(1)}, missed, {}) && forall i :: 0 <= i < |missed| ==> |missed[i]| <= 1
    ensures second == []
    ensures Detect(s.graph, {}, found, c.stamped) && BlockIds(third) == Shown(found)
    ensures exists b :: b in BlockIds(third) && {T(1), M(2), T(2), M(1)} <= Elems(b)
  {
    hide *;
    ghost var s0;
    c, s0 := LockTwo();
    HolderFacts(s0);
    var order := RequestsOf(c, false);
    ghost var first;
    first, second := c.StrongConnectedComponent(order);
    IsDetection(c.g, {}, Ids(order), first, c.stamped);
    HolderKeepsStamp(c.g, first, c.stamped);
    s := FeedRequest(c, 1, 2, 6, s0);
    CircleCloses(s0, s);
    CircleFacts(s);
    order := RequestsOf(c, true);
    missed, second := c.StrongConnectedComponent(order);
    IsDetection(c.g, {T(1)}, Ids(order), missed, c.stamped);
    CircleIsMissed(c.g, missed, c.stamped);
    NothingBig(missed);
    NoneShown(second);
    found, third := c.StrongConnectedComponent(order);
    IsDetection(c.g, {}, Ids(order), found, c.stamped);
    CircleIsDisplayed(s, Ids(order), found, c.stamped);
    BlockGiven(third, found);
  }
}

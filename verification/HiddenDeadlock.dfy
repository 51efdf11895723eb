/** A deadlock that is found and not displayed: for every search that begins with the wrong thread, and
    as a run of the checker's code. */
module HiddenDeadlock {
  import opened Utils
  import opened Graph
  import opened LockGraphs
  import opened Protocol
  import opened Deadlock
  import opened SccSpec
  import opened Walks
  import opened Detection
  import opened Tarjan
  import opened Display
  import opened Vertices
  import opened EventLoop
  import opened Feeding

  ghost predicate ExampleArcs(a: Arcs) {
    a == {(M(1), T(1)), (M(2), T(2)), (M(3), T(4)), (T(1), M(2)), (T(2), M(1)), (T(3), M(3))}
  }

  lemma ExampleGraph(g: LockGraph)
    requires WellShaped(g) && ExampleArcs(g.arcs)
    ensures g.requests == {T(1), T(2), T(3)} && g.vertices >= {T(1), T(2), T(3), T(4), M(1), M(2), M(3)}
  {
    assert Edge(g.arcs, T(1), M(2)) && Edge(g.arcs, T(2), M(1)) && Edge(g.arcs, T(3), M(3)) && Edge(g.arcs, M(3), T(4));
    forall u
      ensures u in g.requests <==> u in {T(1), T(2), T(3)}
    {
    }
  }

  /** From thread 3 the way leads to thread 4, which waits for nothing. */
  lemma NoBigSink(a: Arcs, on: set<Vid>, b: set<Vid>, v: Vid)
    requires ExampleArcs(a) && {T(3), M(3), T(4)} <= on && Reach(a, on, T(3), v)
    ensures !(BigSink(a, on, b) && v in b)
  {
    ReachStaysInClosed(a, on, {T(3), M(3), T(4)}, T(3), v);
    assert Edge(a, T(3), M(3)) && Edge(a, M(3), T(4));
    hide Reach;
    if BigSink(a, on, b) && v in b {
      assert T(4) in b;
      var w := HasArcInside(a, on, b, T(4));
    }
  }

  /** Whatever the search does: if it begins with thread 3, who merely waits, then the deadlock of threads
      1 and 2 is in one of its blocks and nothing is displayed. */
  lemma FoundNotShown(g: LockGraph, order: seq<Vid>, bs: seq<seq<Vid>>, stamped: set<Vid>)
    requires WellShaped(g) && ExampleArcs(g.arcs)
    requires DetectIn(g, {}, order, bs, stamped) && order != [] && order[0] == T(3)
    ensures Shown(bs) == []
    ensures exists i :: 0 <= i < |bs| && |bs[i]| >= 2 && forall v :: v in {T(1), M(2), T(2), M(1)} ==> v in bs[i]
  {
    hide *;
    ExampleGraph(g);
    ExampleCycle(g.arcs);
    NoBigSinkAhead(g.arcs, g.vertices - {});
    FirstIsFirst(order, g.vertices - {});
    DisplayFails(g, {}, order, bs, stamped, T(3));
    FoundAnyway(g, order, bs, stamped);
  }

  lemma FirstIsFirst(order: seq<Vid>, on: set<Vid>)
    requires order != [] && order[0] in on
    ensures FirstOn(order, on) == Some(order[0])
  {
  }

  lemma FoundAnyway(g: LockGraph, order: seq<Vid>, bs: seq<seq<Vid>>, stamped: set<Vid>)
    requires WellShaped(g) && IsCycle(g.arcs, [T(1), M(2), T(2), M(1)]) && DetectIn(g, {}, order, bs, stamped)
    ensures exists i :: 0 <= i < |bs| && |bs[i]| >= 2 && forall v :: v in {T(1), M(2), T(2), M(1)} ==> v in bs[i]
  {
    assert Detect(g, {}, bs, stamped);
    hide *;
    var c := [T(1), M(2), T(2), M(1)];
    var i := CycleFound(g, {}, bs, stamped, c);
    assert c[0] in c && c[1] in c && c[2] in c && c[3] in c;
  }

  lemma NoBigSinkAhead(a: Arcs, on: set<Vid>)
    requires ExampleArcs(a) && {T(3), M(3), T(4)} <= on
    ensures forall b, v :: BigSink(a, on, b) && v in b ==> !Reach(a, on, T(3), v)
  {
    forall b, v | BigSink(a, on, b) && v in b
      ensures !Reach(a, on, T(3), v)
    {
      if Reach(a, on, T(3), v) {
        NoBigSink(a, on, b, v);
      }
    }
  }

  lemma ExampleCycle(a: Arcs)
    requires ExampleArcs(a)
    ensures IsCycle(a, [T(1), M(2), T(2), M(1)])
  {
    var c := [T(1), M(2), T(2), M(1)];
    assert Edge(a, c[0], c[1]) && Edge(a, c[1], c[2]) && Edge(a, c[2], c[3]) && Edge(a, c[3], c[0]);
  }

  // ---- the run ----

  ghost predicate Locked(s: State) {
    && Reachable(s) && Small(s.graph, 6) && s.threads.Keys == {1, 2, 3, 4} && s.owner == map[1 := 1, 2 := 2, 3 := 4]
    && IdleIn(s, 1) && IdleIn(s, 2) && IdleIn(s, 3) && IdleIn(s, 4)
    && s.graph.arcs == {(M(1), T(1)), (M(2), T(2)), (M(3), T(4))}
  }

  lemma Begin() returns (s: State)
    ensures Reachable(s) && Small(s.graph, 0) && s.graph == EMPTY && s.owner == map[] && s.threads.Keys == {1, 2, 3, 4}
    ensures IdleIn(s, 1) && IdleIn(s, 2) && IdleIn(s, 3) && IdleIn(s, 4)
  {
    var idle := Thread(Idle, {}, [], []);
    s := State(map[1 := idle, 2 := idle, 3 := idle, 4 := idle], map[], EMPTY);
    hide Reachable;
    Starts(s);
    EmptyIsSmall();
  }

  /** Threads 1, 2 and 4 lock a mutex each. */
  method LockThree() returns (c: Checker, ghost s: State)
    ensures c.Valid() && c.g == s.graph && c.stamped == {} && Locked(s)
    ensures fresh(c) && fresh(c.threadVertexMemPool) && fresh(c.mutexVertexMemPool) && fresh(c.arcMemPool)
    ensures fresh(c.objs)
  {
    hide Checker.Valid, Reachable, Small, IdleIn;
    s := Begin();
    c := new Checker();
    s := FeedLock(c, 1, 1, 0, s);
    s := FeedLock(c, 2, 2, 2, s);
    s := FeedLock(c, 4, 3, 4, s);
  }

  ghost predicate Deadlocked(s: State) {
    && Reachable(s) && Settled(s) && CircularWait(s, [(1, 2), (2, 1)])
    && ExampleArcs(s.graph.arcs)
  }

  /** What three requests make of that. */
  lemma RequestsClose(s0: State, s: State)
    requires Locked(s0) && Reachable(s) && s.threads.Keys == s0.threads.Keys && s.owner == s0.owner
    requires s.threads[1].phase == Waiting(2) && s.threads[2].phase == Waiting(1) && s.threads[3].phase == Waiting(3)
    requires s.threads[1].queue == s.threads[2].queue == s.threads[3].queue == [] && s.threads[4] == s0.threads[4]
    requires s.graph.arcs == s0.graph.arcs + {(T(1), M(2))} + {(T(2), M(1))} + {(T(3), M(3))}
    ensures Deadlocked(s)
  {
    var w := [(1, 2), (2, 1)];
    hide Reachable;
    assert WaitsForNext(s, w, 0) && WaitsForNext(s, w, 1);
  }

  /** Then threads 1 and 2 ask for each other's mutex, and thread 3 for that of thread 4. */
  method Close(c: Checker, ghost s0: State) returns (ghost s: State)
    requires c.Valid() && c.g == s0.graph && Locked(s0)
    modifies c, c.threadVertexMemPool, c.mutexVertexMemPool, c.arcMemPool, c.objs
    ensures c.Valid() && c.g == s.graph && c.stamped == old(c.stamped) && fresh(c.objs - old(c.objs)) && Deadlocked(s)
  {
    hide Checker.Valid, Reachable, Small, CircularWait, Settled, ExampleArcs;
    s := FeedRequest(c, 1, 2, 6, s0);
    s := FeedRequest(c, 2, 1, 8, s);
    s := FeedRequest(c, 3, 3, 10, s);
    RequestsClose(s0, s);
  }

  lemma RequestsListed(c: Checker)
    requires c.MapsOk() && WellShaped(c.g) && ExampleArcs(c.g.arcs)
    ensures 1 in c.vertexThreadMap && 2 in c.vertexThreadMap && 3 in c.vertexThreadMap
    ensures var tm := c.vertexThreadMap;
            && c.requestThreadMap.Keys == {tm[1], tm[2], tm[3]}
            && tm[3].id == T(3)
  {
    ExampleGraph(c.g);
    hide ExampleArcs, WellShaped;
    assert T(1) in c.g.vertices && T(2) in c.g.vertices && T(3) in c.g.vertices;
  }

  /** The run: the checker takes nine events, all there are, and then looks for deadlocks, with thread 3
      first in the order of its request map. Threads 1 and 2 are deadlocked, their block is found, and
      nothing is displayed. */
  method FoundAndHidden() returns (c: Checker, shown: seq<seq<Vertex>>, ghost s: State, ghost blocks: seq<seq<Vid>>)
    ensures Reachable(s) && Settled(s) && CircularWait(s, [(1, 2), (2, 1)])
    ensures c.Valid() && c.g == s.graph && Detect(s.graph, {}, blocks, c.stamped)
    ensures exists i :: 0 <= i < |blocks| && |blocks[i]| >= 2 && forall v :: v in {T(1), M(2), T(2), M(1)} ==> v in blocks[i]
    ensures shown == []
  {
    hide *;
    c, s := LockThree();
    s := Close(c, s);
    DeadlockedGraph(s);
    var order := OrderFromThree(c);
    blocks, shown := c.StrongConnectedComponent(order);
    IsDetection(c.g, {}, Ids(order), blocks, c.stamped);
    FoundNotShown(c.g, Ids(order), blocks, c.stamped);
    NoneShown(shown);
  }

  lemma DeadlockedGraph(s: State)
    requires Deadlocked(s)
    ensures Reachable(s) && Settled(s) && CircularWait(s, [(1, 2), (2, 1)])
    ensures WellShaped(s.graph) && ExampleArcs(s.graph.arcs)
  {
    ReachableInv(s);
  }

  /** An order in which the iterator may yield the three requesting threads. */
  method OrderFromThree(c: Checker) returns (order: seq<Vertex>)
    requires c.Valid() && WellShaped(c.g) && ExampleArcs(c.g.arcs)
    ensures forall v :: v in order <==> v in c.requestThreadMap
    ensures order != [] && Ids(order) != [] && Ids(order)[0] == T(3)
  {
    assert c.MapsOk();
    RequestsListed(c);
    hide Checker.Valid, WellShaped, ExampleArcs;
    order := [c.vertexThreadMap[3], c.vertexThreadMap[1], c.vertexThreadMap[2]];
    assert forall v :: v in order <==> v in c.requestThreadMap.Keys;
  }
}

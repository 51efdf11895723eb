/** The checker's code beside a run of the protocol in which it takes every event at once. */
module Feeding {
  import opened Utils
  import opened Graph
  import opened LockGraphs
  import opened Protocol
  import opened Deadlock
  import opened EventLoop

  /** The checker takes one event. */
  method Feed(c: Checker, t: nat, ev: Event, ghost g: LockGraph)
    requires c.Valid() && Handle(c.g, t, ev) == Some(g)
    modifies c, c.threadVertexMemPool, c.mutexVertexMemPool, c.arcMemPool, c.objs
    ensures c.Valid() && c.g == g && c.stamped == old(c.stamped) && fresh(c.objs - old(c.objs))
  {
    hide *;
    var ok := c.EventHandler(t, ev);
  }

  method FeedBoth(c: Checker, t: nat, m: nat, ghost g: LockGraph)
    requires c.Valid() && HandleBoth(c.g, t, m) == Some(g)
    modifies c, c.threadVertexMemPool, c.mutexVertexMemPool, c.arcMemPool, c.objs
    ensures c.Valid() && c.g == g && c.stamped == old(c.stamped) && fresh(c.objs - old(c.objs))
  {
    ghost var g1 := Handle(c.g, t, Wait(m)).value;
    assert Handle(g1, t, Hold(m)) == Some(g);
    hide *;
    Feed(c, t, Wait(m), g1);
    Feed(c, t, Hold(m), g);
  }

  /** Thread t locks the free mutex m, and the checker takes both events. */
  method FeedLock(c: Checker, t: nat, m: nat, ghost n: nat, ghost s: State) returns (ghost s': State)
    requires c.Valid() && c.g == s.graph
    requires Reachable(s) && Small(s.graph, n) && FewThreads(s) && n + 2 <= 100 && m !in s.owner && IdleIn(s, t)
    requires (T(t), M(m)) !in s.graph.arcs
    modifies c, c.threadVertexMemPool, c.mutexVertexMemPool, c.arcMemPool, c.objs
    ensures c.Valid() && c.g == s'.graph && c.stamped == old(c.stamped) && fresh(c.objs - old(c.objs))
    ensures Reachable(s') && Small(s'.graph, n + 2) && s'.threads.Keys == s.threads.Keys
    ensures forall u :: IdleIn(s, u) ==> IdleIn(s', u)
    ensures s'.owner == s.owner[m := t] && s'.graph.arcs == s.graph.arcs + {(M(m), T(t))}
  {
    hide *;
    s' := LockOneMore(s, t, m, n);
    FeedBoth(c, t, m, s'.graph);
  }

  /** Thread t asks for the mutex m, and the checker takes the event. */
  method FeedRequest(c: Checker, t: nat, m: nat, ghost n: nat, ghost s: State) returns (ghost s': State)
    requires c.Valid() && c.g == s.graph
    requires Reachable(s) && Small(s.graph, n) && FewThreads(s) && n + 2 <= 100 && IdleIn(s, t)
    modifies c, c.threadVertexMemPool, c.mutexVertexMemPool, c.arcMemPool, c.objs
    ensures c.Valid() && c.g == s'.graph && c.stamped == old(c.stamped) && fresh(c.objs - old(c.objs))
    ensures Reachable(s') && Small(s'.graph, n + 2) && s'.threads.Keys == s.threads.Keys
    ensures s'.threads[t].phase == Waiting(m) && s'.threads[t].queue == []
    ensures forall u :: u in s.threads && u != t ==> s'.threads[u] == s.threads[u]
    ensures s'.owner == s.owner && s'.graph.arcs == s.graph.arcs + {(T(t), M(m))}
  {
    assert t in s.threads && s.threads[t].phase == Idle && s.threads[t].queue == [];
    hide *;
    s' := Request(s, t, m, n);
    Feed(c, t, Wait(m), s'.graph);
  }
}

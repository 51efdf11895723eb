/** The checker thread's state and operations (eventLoop.c): the three event handlers, the
    detection with its clean-up, and the choice of blocks to display. */
module EventLoop {
  import opened Graph
  import opened LockGraphs
  import opened Vertices
  import opened SccSpec
  import opened SccLoop
  import opened Tarjan
  import opened Detection

  /** The arc list xs of the vertex u holds each tail of u's arcs once, and the counters are u's
      degrees. */
  ghost predicate Spells(a: Arcs, objs: set<Vertex>, u: Vid, xs: seq<Vertex>, indegree: int, outdegree: int) {
    && (forall k :: 0 <= k < |xs| ==> xs[k] in objs)
    && NoDup(Ids(xs)) && Elems(Ids(xs)) == Tails(a, u)
    && outdegree == |Tails(a, u)|
    && indegree == |Heads(a, u)|
  }

  /** The two vertex maps together are the map at, which lists every vertex object once. */
  ghost predicate MapsMatch(objs: set<Vertex>, at: map<Vid, Vertex>, tm: map<nat, Vertex>, mm: map<nat, Vertex>) {
    && (forall v :: v in objs ==> v.id in at && at[v.id] == v)
    && (forall i :: i in at ==> at[i] in objs && at[i].id == i)
    && (forall t :: t in tm <==> T(t) in at)
    && (forall m :: m in mm <==> M(m) in at)
    && (forall t :: t in tm ==> tm[t] == at[T(t)])
    && (forall m :: m in mm ==> mm[m] == at[M(m)])
  }

  ghost predicate RequestsMatch(objs: set<Vertex>, at: map<Vid, Vertex>, rm: map<Vertex, int>, rs: set<Vid>) {
    && (forall v :: v in rm ==> v in objs && v.id in rs)
    && (forall i :: i in rs ==> i in at && at[i] in rm)
  }

  lemma MapsAfterCreate(objs: set<Vertex>, at: map<Vid, Vertex>, tm: map<nat, Vertex>, mm: map<nat, Vertex>,
                        rm: map<Vertex, int>, rs: set<Vid>, v: Vertex)
    requires MapsMatch(objs, at, tm, mm) && RequestsMatch(objs, at, rm, rs) && v.id !in at
    ensures MapsMatch(objs + {v}, at[v.id := v], if v.id.T? then tm[v.id.tid := v] else tm,
                      if v.id.M? then mm[v.id.mid := v] else mm)
    ensures RequestsMatch(objs + {v}, at[v.id := v], rm, rs)
  {
  }

  lemma FreshHasNoArcs(id: Vid, at: map<Vid, Vertex>, a: Arcs)
    requires id !in at && forall u, v :: Edge(a, u, v) ==> u in at && v in at
    ensures Tails(a, id) == {} && Heads(a, id) == {}
  {
    forall w
      ensures w !in Tails(a, id) && w !in Heads(a, id)
    {
      TailsIsArcs(a, id, w);
      TailsIsArcs(a, w, id);
    }
  }

  class Checker {
    var vertexThreadMap: map<nat, Vertex>
    var vertexMutexMap: map<nat, Vertex>
    var requestThreadMap: map<Vertex, int>
    const threadVertexMemPool: BlockPool
    const mutexVertexMemPool: BlockPool
    const arcMemPool: BlockPool

    ghost var g: LockGraph            // the graph the objects spell out
    ghost var stamped: set<Vid>       // the vertices whose dfn is not zero
    ghost var objs: set<Vertex>       // every vertex object
    ghost var at: map<Vid, Vertex>    // and where it is

    ghost predicate PoolsOk()
      reads this`g, threadVertexMemPool, mutexVertexMemPool, arcMemPool
    {
      && threadVertexMemPool != mutexVertexMemPool
      && threadVertexMemPool != arcMemPool && mutexVertexMemPool != arcMemPool
      && threadVertexMemPool.capacity == NUMBER_OF_VERTEX_THREAD
      && mutexVertexMemPool.capacity == NUMBER_OF_VERTEX_MUTEX
      && arcMemPool.capacity == NUMBER_OF_ARC
      && threadVertexMemPool.live == |Threads(g.vertices)|
      && mutexVertexMemPool.live == |Mutexes(g.vertices)|
      && arcMemPool.live == |g.arcs|
      && threadVertexMemPool.live <= threadVertexMemPool.capacity
      && mutexVertexMemPool.live <= mutexVertexMemPool.capacity
      && arcMemPool.live <= arcMemPool.capacity
    }

    ghost predicate MapsOk()
      reads this`g, this`objs, this`at, this`vertexThreadMap, this`vertexMutexMap, this`requestThreadMap
    {
      && MapsMatch(objs, at, vertexThreadMap, vertexMutexMap)
      && at.Keys == g.vertices
      && RequestsMatch(objs, at, requestThreadMap, g.requests)
    }

    ghost predicate VertexOk(v: Vertex)
      reads this`g, this`objs, v`arcList, v`indegree, v`outdegree
    {
      Spells(g.arcs, objs, v.id, v.arcList, v.indegree, v.outdegree)
    }

    ghost predicate GraphOk()
      reads this`g, this`objs, this`at, objs`arcList, objs`indegree, objs`outdegree
    {
      && (forall v {:trigger VertexOk(v)} :: v in objs ==> VertexOk(v))
      && (forall u, v {:trigger Edge(g.arcs, u, v)} :: Edge(g.arcs, u, v) ==> u in at && v in at)
    }

    ghost predicate MarksOk()
      reads this`g, this`objs, this`stamped, objs`dfn, objs`inStack
    {
      && (forall v :: v in objs ==> (v.dfn != 0 <==> v.id in stamped) && !v.inStack)
      && stamped <= g.vertices
    }

    ghost predicate Valid()
      reads this, objs, threadVertexMemPool, mutexVertexMemPool, arcMemPool
    {
      PoolsOk() && MapsOk() && GraphOk() && MarksOk()
    }

    /** memPoolAllInit and mapAllInit, for the parts the graph needs. */
    constructor ()
      ensures Valid() && g == EMPTY && stamped == {} && fresh(objs)
      ensures fresh(threadVertexMemPool) && fresh(mutexVertexMemPool) && fresh(arcMemPool)
    {
      vertexThreadMap, vertexMutexMap, requestThreadMap := map[], map[], map[];
      threadVertexMemPool := new BlockPool(NUMBER_OF_VERTEX_THREAD);
      mutexVertexMemPool := new BlockPool(NUMBER_OF_VERTEX_MUTEX);
      arcMemPool := new BlockPool(NUMBER_OF_ARC);
      g, stamped, objs, at := EMPTY, {}, {}, map[];
    }

    /** vertexCreate and the put into its map; null where the pool is exhausted. */
    method Create(id: Vid) returns (v: Vertex?)
      requires Valid() && id !in at
      modifies this, threadVertexMemPool, mutexVertexMemPool
      ensures v == null <==> !HasRoom(old(g).vertices, id)
      ensures v != null ==> Valid() && v in objs && v.id == id && fresh(v)
      ensures v != null ==> objs == old(objs) + {v} && stamped == old(stamped)
      ensures v != null ==> g == old(g).(vertices := old(g).vertices + {id})
    {
      hide MapsMatch, RequestsMatch, Spells, VertexOk, GraphOk, MarksOk;
      var pool := if id.T? then threadVertexMemPool else mutexVertexMemPool;
      assert pool.live < pool.capacity <==> HasRoom(g.vertices, id);
      assert id.T? <==> pool != mutexVertexMemPool;
      assert threadVertexMemPool.live <= threadVertexMemPool.capacity;
      assert mutexVertexMemPool.live <= mutexVertexMemPool.capacity;
      assert pool != arcMemPool && mutexVertexMemPool != arcMemPool && threadVertexMemPool != mutexVertexMemPool;
      hide PoolsOk, MapsOk, GraphOk, MarksOk, HasRoom;
      if pool.live >= pool.capacity {
        return null;
      }
      v := new Vertex(id);
      pool.live := pool.live + 1;
      vertexThreadMap, vertexMutexMap, objs, at, g :=
        if id.T? then vertexThreadMap[id.tid := v] else vertexThreadMap,
        if id.M? then vertexMutexMap[id.mid := v] else vertexMutexMap,
        objs + {v}, at[id := v], g.(vertices := g.vertices + {id});
      CreateKeepsPools(v);
      CreateKeepsGraph(v);
      CreateKeepsMarks(v);
    }

    twostate predicate Created(new v: Vertex)
      reads this, v, objs
    {
      && v !in old(objs) && v.id !in old(at)
      && objs == old(objs) + {v} && at == old(at)[v.id := v]
      && g == old(g).(vertices := old(g).vertices + {v.id})
      && v.dfn == 0 && !v.inStack && v.arcList == [] && v.indegree == 0 && v.outdegree == 0
      && (forall w :: w in old(objs) ==> unchanged(w))
    }

    twostate lemma CreateKeepsPools(new v: Vertex)
      requires old(PoolsOk()) && old(MapsOk()) && Created(v)
      requires threadVertexMemPool.live <= threadVertexMemPool.capacity
      requires mutexVertexMemPool.live <= mutexVertexMemPool.capacity
      requires threadVertexMemPool.live == old(threadVertexMemPool.live) + (if v.id.T? then 1 else 0)
      requires mutexVertexMemPool.live == old(mutexVertexMemPool.live) + (if v.id.M? then 1 else 0)
      requires unchanged(arcMemPool) && requestThreadMap == old(requestThreadMap)
      requires vertexThreadMap == if v.id.T? then old(vertexThreadMap)[v.id.tid := v] else old(vertexThreadMap)
      requires vertexMutexMap == if v.id.M? then old(vertexMutexMap)[v.id.mid := v] else old(vertexMutexMap)
      ensures PoolsOk() && MapsOk()
    {
      PoolGrows(old(g).vertices, v.id);
      MapsAfterCreate(old(objs), old(at), old(vertexThreadMap), old(vertexMutexMap), requestThreadMap, g.requests, v);
      hide MapsMatch, RequestsMatch, Threads, Mutexes;
    }

    twostate lemma CreateKeepsGraph(new v: Vertex)
      requires old(GraphOk()) && Created(v)
      ensures GraphOk()
    {
      FreshHasNoArcs(v.id, old(at), g.arcs);
      forall w | w in objs
        ensures VertexOk(w)
      {
        if w != v {
          assert old(VertexOk(w));
        }
      }
    }

    twostate lemma CreateKeepsMarks(new v: Vertex)
      requires old(MarksOk()) && old(MapsOk()) && Created(v) && stamped == old(stamped)
      ensures MarksOk()
    {
    }

    /** The thread's vertex, created on first sight. */
    method GetThread(tid: nat) returns (tv: Vertex?)
      requires Valid()
      modifies this, threadVertexMemPool, mutexVertexMemPool
      ensures tv == null <==> !HasRoom(old(g).vertices, T(tid))
      ensures tv != null ==> Valid() && tv in objs && tv.id == T(tid)
      ensures tv != null ==> old(objs) <= objs && fresh(objs - old(objs)) && stamped == old(stamped)
      ensures tv != null ==> g == old(g).(vertices := old(g).vertices + {T(tid)})
    {
      if tid in vertexThreadMap {
        assert g.vertices + {T(tid)} == g.vertices;
        tv := vertexThreadMap[tid];
      } else {
        tv := Create(T(tid));
      }
    }

    method GetMutex(mid: nat) returns (mv: Vertex?)
      requires Valid()
      modifies this, threadVertexMemPool, mutexVertexMemPool
      ensures mv == null <==> !HasRoom(old(g).vertices, M(mid))
      ensures mv != null ==> Valid() && mv in objs && mv.id == M(mid)
      ensures mv != null ==> old(objs) <= objs && fresh(objs - old(objs)) && stamped == old(stamped)
      ensures mv != null ==> g == old(g).(vertices := old(g).vertices + {M(mid)})
    {
      if mid in vertexMutexMap {
        assert g.vertices + {M(mid)} == g.vertices;
        mv := vertexMutexMap[mid];
      } else {
        mv := Create(M(mid));
      }
    }

    /** addEdge; ok is false where it aborts. */
    method Link(u: Vertex, v: Vertex) returns (ok: bool)
      requires Valid() && u in objs && v in objs
      modifies this`g, arcMemPool, u, v
      ensures ok <==> AddArc(old(g).arcs, u.id, v.id).Some?
      ensures ok ==> Valid() && g == old(g).(arcs := AddArc(old(g).arcs, u.id, v.id).value)
    {
      hide NoDup, Elems, Ids, MapsMatch, RequestsMatch, Spells;
      assert VertexOk(u);
      ArcListHas(u, v);
      ok := u.AddEdge(v, arcMemPool);
      if !ok {
        return;
      }
      hide GraphOk, MarksOk, VertexOk;
      g := g.(arcs := g.arcs + {(u.id, v.id)});
      LinkKeepsGraph(u, v);
    }

    /** deleteEdge; ok is false where it aborts. */
    method Unlink(u: Vertex, v: Vertex) returns (ok: bool)
      requires Valid() && u in objs && v in objs
      modifies this`g, arcMemPool, u, v
      ensures ok <==> DeleteArc(old(g).arcs, u.id, v.id).Some?
      ensures ok ==> Valid() && g == old(g).(arcs := DeleteArc(old(g).arcs, u.id, v.id).value)
    {
      hide NoDup, Elems, Ids, MapsMatch, RequestsMatch, Spells;
      assert VertexOk(u);
      ArcListHas(u, v);
      assert Edge(g.arcs, u.id, v.id) ==> |g.arcs| > 0;
      ok := u.DeleteEdge(v, arcMemPool);
      if !ok {
        return;
      }
      hide GraphOk, MarksOk, VertexOk;
      g := g.(arcs := g.arcs - {(u.id, v.id)});
      UnlinkKeepsGraph(u, v);
    }

    lemma ArcListHas(u: Vertex, v: Vertex)
      requires MapsOk() && VertexOk(u) && u in objs && v in objs
      ensures v in u.arcList <==> Edge(g.arcs, u.id, v.id)
    {
      TailsIsArcs(g.arcs, u.id, v.id);
      assert v.id in Ids(u.arcList) <==> v.id in Elems(Ids(u.arcList));
      if v.id in Ids(u.arcList) {
        var k :| 0 <= k < |u.arcList| && Ids(u.arcList)[k] == v.id;
        assert at[u.arcList[k].id] == u.arcList[k] && at[v.id] == v;
      }
    }

    twostate lemma LinkKeepsGraph(new u: Vertex, new v: Vertex)
      requires old(MapsOk()) && old(GraphOk()) && u in old(objs) && v in old(objs)
      requires objs == old(objs) && at == old(at) && g.arcs == old(g).arcs + {(u.id, v.id)}
      requires (u.id, v.id) !in old(g).arcs
      requires forall w :: w in objs ==> w.arcList == if w == u then [v] + old(w.arcList) else old(w.arcList)
      requires forall w :: w in objs ==> w.outdegree == old(w.outdegree) + (if w == u then 1 else 0)
      requires forall w :: w in objs ==> w.indegree == old(w.indegree) + (if w == v then 1 else 0)
      ensures GraphOk()
    {
      hide Spells, RequestsMatch;
      forall w | w in objs
        ensures VertexOk(w)
      {
        assert old(VertexOk(w));
        assert old(at)[w.id] == w && old(at)[u.id] == u && old(at)[v.id] == v;
        SpellsAfterAdd(old(g).arcs, objs, u.id, v, w.id, old(w.arcList), old(w.indegree), old(w.outdegree));
      }
      assert forall x, y :: Edge(g.arcs, x, y) ==> Edge(old(g).arcs, x, y) || (x == u.id && y == v.id);
    }

    twostate lemma UnlinkKeepsGraph(new u: Vertex, new v: Vertex)
      requires old(MapsOk()) && old(GraphOk()) && u in old(objs) && v in old(objs)
      requires objs == old(objs) && at == old(at) && g.arcs == old(g).arcs - {(u.id, v.id)}
      requires (u.id, v.id) in old(g).arcs
      requires Cut(old(u.arcList), v, u.arcList)
      requires forall w :: w in objs && w != u ==> w.arcList == old(w.arcList)
      requires forall w :: w in objs ==> w.outdegree == old(w.outdegree) - (if w == u then 1 else 0)
      requires forall w :: w in objs ==> w.indegree == old(w.indegree) - (if w == v then 1 else 0)
      ensures GraphOk()
    {
      hide Spells, RequestsMatch, Cut;
      forall w | w in objs
        ensures VertexOk(w)
      {
        assert old(VertexOk(w));
        assert old(at)[w.id] == w && old(at)[u.id] == u && old(at)[v.id] == v;
        SpellsAfterDelete(old(g).arcs, objs, u.id, v, w.id, old(w.arcList), w.arcList, old(w.indegree), old(w.outdegree));
      }
      assert forall x, y :: Edge(g.arcs, x, y) ==> Edge(old(g).arcs, x, y);
    }

    /** hashMapPut(requestThreadMap, tv, 1): true for the return value 1. */
    method PutRequest(tv: Vertex) returns (isNew: bool)
      requires Valid() && tv in objs
      modifies this`g, this`requestThreadMap
      ensures Valid() && isNew == (tv.id !in old(g).requests)
      ensures g == old(g).(requests := old(g).requests + {tv.id})
    {
      hide MapsMatch, RequestsMatch, VertexOk, GraphOk, MarksOk;
      RequestsAfterPut(objs, at, vertexThreadMap, vertexMutexMap, requestThreadMap, g.requests, tv);
      isNew := tv !in requestThreadMap;
      requestThreadMap, g := requestThreadMap[tv := 1], g.(requests := g.requests + {tv.id});
      SameGraph();
    }

    /** hashMapRemove(requestThreadMap, tv): true for the return value 0. */
    method RemoveRequest(tv: Vertex) returns (found: bool)
      requires Valid() && tv in objs
      modifies this`g, this`requestThreadMap
      ensures Valid() && found == (tv.id in old(g).requests)
      ensures g == old(g).(requests := old(g).requests - {tv.id})
    {
      hide MapsMatch, RequestsMatch, VertexOk, GraphOk, MarksOk;
      RequestsAfterRemove(objs, at, vertexThreadMap, vertexMutexMap, requestThreadMap, g.requests, tv);
      found := tv in requestThreadMap;
      requestThreadMap, g := requestThreadMap - {tv}, g.(requests := g.requests - {tv.id});
      SameGraph();
    }

    twostate lemma SameGraph()
      requires old(GraphOk()) && g.arcs == old(g).arcs && objs == old(objs) && at == old(at)
      requires old(MarksOk()) && stamped == old(stamped) && g.vertices == old(g).vertices
      requires forall w :: w in objs ==> unchanged(w)
      ensures GraphOk() && MarksOk()
    {
      hide Spells;
      forall w | w in objs
        ensures VertexOk(w)
      {
        assert old(VertexOk(w));
      }
    }

    // ---- the handlers; ok is false where the source aborts ----

    method WaitLockHandler(tid: nat, mid: nat) returns (ok: bool)
      requires Valid()
      modifies this, threadVertexMemPool, mutexVertexMemPool, arcMemPool, objs
      ensures ok <==> Handle(old(g), tid, Wait(mid)).Some?
      ensures ok ==> Valid() && g == Handle(old(g), tid, Wait(mid)).value
      ensures ok ==> stamped == old(stamped) && fresh(objs - old(objs))
    {
      hide PoolsOk, MapsOk, GraphOk, MarksOk, HasRoom, AddArc;
      RoomForMutex(g.vertices, tid, mid);
      var tv := GetThread(tid);
      if tv == null {
        return false;
      }
      var mv := GetMutex(mid);
      if mv == null {
        return false;
      }
      ok := Link(tv, mv);
      if ok {
        ok := PutRequest(tv);
      }
      assert ok ==> g.vertices == old(g).vertices + {T(tid), M(mid)};
    }

    method HoldLockHandler(tid: nat, mid: nat) returns (ok: bool)
      requires Valid()
      modifies this, threadVertexMemPool, mutexVertexMemPool, arcMemPool, objs
      ensures ok <==> Handle(old(g), tid, Hold(mid)).Some?
      ensures ok ==> Valid() && g == Handle(old(g), tid, Hold(mid)).value
      ensures ok ==> stamped == old(stamped) && objs == old(objs)
    {
      hide PoolsOk, MapsOk, GraphOk, MarksOk, AddArc, DeleteArc;
      MapDomains();
      if tid !in vertexThreadMap || mid !in vertexMutexMap {
        return false;
      }
      var tv, mv := vertexThreadMap[tid], vertexMutexMap[mid];
      ok := Unlink(tv, mv);
      if ok {
        ok := Link(mv, tv);
      }
      if ok {
        ok := RemoveRequest(tv);
      }
    }

    method ReleaseLockHandler(tid: nat, mid: nat) returns (ok: bool)
      requires Valid()
      modifies this, threadVertexMemPool, mutexVertexMemPool, arcMemPool, objs
      ensures ok <==> Handle(old(g), tid, Release(mid)).Some?
      ensures ok ==> Valid() && g == Handle(old(g), tid, Release(mid)).value
      ensures ok ==> stamped == old(stamped) && objs == old(objs)
    {
      hide PoolsOk, MapsOk, GraphOk, MarksOk, AddArc, DeleteArc;
      MapDomains();
      if tid !in vertexThreadMap || mid !in vertexMutexMap {
        return false;
      }
      ok := Unlink(vertexMutexMap[mid], vertexThreadMap[tid]);
    }

    lemma MapDomains()
      requires MapsOk()
      ensures forall t :: t in vertexThreadMap <==> T(t) in g.vertices
      ensures forall m :: m in vertexMutexMap <==> M(m) in g.vertices
      ensures forall t :: t in vertexThreadMap ==> vertexThreadMap[t] in objs && vertexThreadMap[t].id == T(t)
      ensures forall m :: m in vertexMutexMap ==> vertexMutexMap[m] in objs && vertexMutexMap[m].id == M(m)
    {
    }

    /** eventHandler: dispatch on the event type. */
    method EventHandler(tid: nat, ev: Event) returns (ok: bool)
      requires Valid()
      modifies this, threadVertexMemPool, mutexVertexMemPool, arcMemPool, objs
      ensures ok <==> Handle(old(g), tid, ev).Some?
      ensures ok ==> Valid() && g == Handle(old(g), tid, ev).value
      ensures ok ==> stamped == old(stamped) && fresh(objs - old(objs))
    {
      match ev
      case Wait(m) => ok := WaitLockHandler(tid, m);
      case Hold(m) => ok := HoldLockHandler(tid, m);
      case Release(m) => ok := ReleaseLockHandler(tid, m);
    }

    // ---- detection ----

    method ClearTarjanStatus(order: seq<Vertex>)
      requires MapsOk() && GraphOk() && forall u :: u in order ==> u in objs
      modifies objs`dfn, objs`low, objs`inStack
      ensures forall v :: v in objs ==> v.dfn == if Touched(g.arcs, order, v) then 0 else old(v.dfn)
      ensures forall v :: v in objs ==> v.low == if Touched(g.arcs, order, v) then 0 else old(v.low)
      ensures forall v :: v in objs ==> v.inStack == (old(v.inStack) && !Touched(g.arcs, order, v))
    {
      hide VertexOk, Touched, MapsOk;
      NoneTouched(g.arcs);
      var k := 0;
      assert order[..k] == [];
      while k < |order|
        invariant 0 <= k <= |order|
        invariant forall v :: v in objs ==> v.dfn == if Touched(g.arcs, order[..k], v) then 0 else old(v.dfn)
        invariant forall v :: v in objs ==> v.low == if Touched(g.arcs, order[..k], v) then 0 else old(v.low)
        invariant forall v :: v in objs ==> v.inStack == (old(v.inStack) && !Touched(g.arcs, order[..k], v))
      {
        var u := order[k];
        assert VertexOk(u);
        ClearWithTails(u);
        forall v | v in objs
          ensures Touched(g.arcs, order[..k + 1], v) <==> Touched(g.arcs, order[..k], v) || v == u || v in u.arcList
        {
          OneMoreTouched(g.arcs, order, k, v);
          ArcListHas(u, v);
        }
        k := k + 1;
      }
      assert order[..k] == order;
    }

    method ClearWithTails(u: Vertex)
      requires u in objs && VertexOk(u)
      modifies objs`dfn, objs`low, objs`inStack
      ensures forall v :: v in objs ==> v.dfn == if v == u || v in u.arcList then 0 else old(v.dfn)
      ensures forall v :: v in objs ==> v.low == if v == u || v in u.arcList then 0 else old(v.low)
      ensures forall v :: v in objs ==> v.inStack == (old(v.inStack) && !(v == u || v in u.arcList))
    {
      hide NoDup, Tails, Heads, Ids;
      u.dfn, u.low, u.inStack := 0, 0, false;
      var head := 0;
      while head < |u.arcList|
        invariant 0 <= head <= |u.arcList|
        invariant forall v :: v in objs ==> v.dfn == if v == u || v in u.arcList[..head] then 0 else old(v.dfn)
        invariant forall v :: v in objs ==> v.low == if v == u || v in u.arcList[..head] then 0 else old(v.low)
        invariant forall v :: v in objs ==>
                    v.inStack == (old(v.inStack) && !(v == u || v in u.arcList[..head]))
      {
        var w := u.arcList[head];
        w.dfn, w.low, w.inStack := 0, 0, false;
        assert u.arcList[..head + 1] == u.arcList[..head] + [w];
        head := head + 1;
      }
      assert u.arcList[..head] == u.arcList;
    }

    lemma AllInGraph()
      requires MapsOk()
      ensures forall v :: v in objs ==> v.id in g.vertices
    {
    }

    lemma NoRequests()
      requires MapsOk() && MarksOk() && requestThreadMap == map[]
      ensures DetectIn(g, stamped, [], [], stamped)
    {
      assert g.requests == {} && RequestedTails(g) == {};
      var none: seq<seq<Vid>> := [];
      assert none[..0] == none;
    }

    /** The order lists the roots of the search. */
    lemma OrderIsRoots(order: seq<Vertex>)
      requires MapsOk() && forall v :: v in order <==> v in requestThreadMap
      ensures forall u :: u in order ==> u in objs && u.id in g.requests
      ensures forall r :: r in g.requests <==> r in Ids(order)
    {
      forall r | r in g.requests
        ensures r in Ids(order)
      {
        assert at[r] in order;
        var k :| 0 <= k < |order| && order[k] == at[r];
        assert Ids(order)[k] == r;
      }
      forall r | r in Ids(order)
        ensures r in g.requests
      {
        var k :| 0 <= k < |order| && order[k].id == r;
        assert order[k] in order;
      }
    }

    lemma TouchedAreCleared(order: seq<Vertex>, v: Vertex)
      requires MapsOk() && v in objs && forall u :: u in order <==> u in requestThreadMap
      ensures Touched(g.arcs, order, v) <==> v.id in g.requests || v.id in RequestedTails(g)
    {
      if u :| u in order && Edge(g.arcs, u.id, v.id) {
        assert (u.id, v.id).1 == v.id;
      }
      if v.id in RequestedTails(g) {
        var e :| e in g.arcs && e.0 in g.requests && e.1 == v.id;
        assert at[e.0] in order && Edge(g.arcs, e.0, v.id);
      }
    }

    lemma ScanStarts(scan: SccSearch)
      requires Valid()
      requires scan.objs == objs && scan.at == at && scan.c == Ctx(g.arcs, g.vertices - stamped, g.requests)
      requires scan.s == Scan(map i | i in at :: at[i].dfn, [], [], 0)
      requires scan.stack != scan.ssc && scan.stack.Length == scan.ssc.Length == scan.sscCount.Length == NUMBER_OF_VERTEX
      requires scan.top == -1 && scan.sscStep == 0 && scan.countStep == 0 && scan.time == 0
      requires forall k :: 0 <= k < NUMBER_OF_VERTEX ==> scan.sscCount[k] == 0
      ensures scan.Valid() && SccSpec.Inv(scan.c, scan.s, {})
    {
      hide NoDup, Heads, RequestsMatch, Flat;
      assert Flat([]) == [] by { EmptyFlat(); }
      assert scan.GraphOk() by {
        forall v | v in objs
          ensures scan.ArcsOk(v)
        {
          assert VertexOk(v);
          ArcsOfVertex(v, scan.c);
        }
      }
      ScanFits();
      StartInv(scan.c, scan.s);
    }

    lemma EmptyFlat()
      ensures Flat([]) == []
    {
    }

    lemma ArcsOfVertex(v: Vertex, c: Ctx)
      requires VertexOk(v) && c.a == g.arcs
      ensures forall k :: 0 <= k < |v.arcList| ==> v.arcList[k] in objs && Edge(c.a, v.id, v.arcList[k].id)
      ensures AllArcs(c, v.id, Ids(v.arcList))
    {
      var p := Ids(v.arcList);
      forall w
        ensures w in p <==> Edge(c.a, v.id, w)
      {
        assert w in p <==> w in Elems(p);
        TailsIsArcs(c.a, v.id, w);
      }
      assert forall k :: 0 <= k < |p| ==> p[k] in p;
    }

    lemma ScanFits()
      requires PoolsOk()
      ensures |g.vertices - stamped| <= NUMBER_OF_VERTEX
    {
      VertexBound(g);
      assert g.vertices == (g.vertices - stamped) + (g.vertices * stamped);
    }

    /** The search with its fresh static arrays, and the display it leads to: only the first count
        decides whether anything is displayed. */
    method SearchAndDisplay(order: seq<Vertex>) returns (ghost blocks: seq<seq<Vid>>, shown: seq<seq<Vertex>>)
      requires Valid() && forall v :: v in order <==> v in requestThreadMap
      modifies objs`dfn, objs`low, objs`inStack
      ensures var c := Ctx(g.arcs, g.vertices - stamped, g.requests);
              SccOutput(c, blocks) && FirstFrom(c, Ids(order), blocks)
      ensures forall v :: v in objs ==> (v.dfn != 0 <==> v.id !in g.vertices - stamped || v.id in Flat(blocks))
      ensures forall v :: v in objs ==> !v.inStack
      ensures PoolsOk() && MapsOk() && GraphOk()
      ensures BlockIds(shown) == Shown(blocks) && Displays(blocks, shown)
    {
      hide PoolsOk, MapsOk, GraphOk, MarksOk, SccSpec.Inv;
      hide NoDup, Elems, Ids, Reach, IsScc, Big, BlockIds, SccOutput, FirstFrom, Flat, Displays;
      ghost var c := Ctx(g.arcs, g.vertices - stamped, g.requests);
      ghost var s := Scan(map i | i in at :: at[i].dfn, [], [], 0);
      OrderIsRoots(order);
      var scan := new SccSearch(NUMBER_OF_VERTEX, objs, at, c, s);
      ScanStarts(scan);
      scan.SearchAll(order);
      blocks, shown := scan.s.blocks, [];
      NothingShown();
      BlocksNotEmpty(c, blocks);
      assert scan.sscCount[0] == if blocks == [] then 0 else |blocks[0]|;
      if scan.sscCount[0] > 1 {
        shown := scan.DisplayInfo();
      }
      ShownIsAll(blocks, shown);
    }

    /** A detection. order is the order in which the iterator yields the requesting threads; blocks
        is what the search emits, shown what displayInfo reports of it. */
    method StrongConnectedComponent(order: seq<Vertex>) returns (ghost blocks: seq<seq<Vid>>, shown: seq<seq<Vertex>>)
      requires Valid() && forall v :: v in order <==> v in requestThreadMap
      modifies this`stamped, objs`dfn, objs`low, objs`inStack
      ensures Valid()
      ensures DetectIn(g, old(stamped), Ids(order), blocks, stamped)
      ensures BlockIds(shown) == Shown(blocks) && Displays(blocks, shown)
    {
      hide NoDup, Elems, Heads, Ids, MapsMatch, RequestsMatch, VertexOk, Reach, Touched;
      hide Big, BlockIds, SccOutput, FirstFrom, Flat, Displays;
      assert stamped <= g.vertices;
      if requestThreadMap == map[] {
        blocks, shown := [], [];
        NothingShown();
        ShownIsAll([], []);
        NoRequests();
        NothingListed(order);
        return;
      }
      OrderIsRoots(order);
      hide PoolsOk, MapsOk, GraphOk, MarksOk;
      blocks, shown := SearchAndDisplay(order);
      CleanUp(order, blocks);
    }

    /** The clean-up at the end of a detection that emitted blocks. */
    method CleanUp(order: seq<Vertex>, ghost blocks: seq<seq<Vid>>)
      requires PoolsOk() && MapsOk() && GraphOk() && stamped <= g.vertices
      requires forall v :: v in order <==> v in requestThreadMap
      requires SccOutput(Ctx(g.arcs, g.vertices - stamped, g.requests), blocks)
      requires forall v :: v in objs ==> (v.dfn != 0 <==> v.id !in g.vertices - stamped || v.id in Flat(blocks))
      requires forall v :: v in objs ==> !v.inStack
      modifies this`stamped, objs`dfn, objs`low, objs`inStack
      ensures Valid()
      ensures stamped == old(stamped) + Elems(Flat(blocks)) - g.requests - RequestedTails(g)
    {
      hide NoDup, MapsMatch, RequestsMatch, VertexOk, Touched, SccOutput, Flat, RequestedTails;
      AllInGraph();
      OrderIsRoots(order);
      hide PoolsOk, MapsOk, GraphOk;
      BlocksInGraph(Ctx(g.arcs, g.vertices - stamped, g.requests), blocks);
      ClearTarjanStatus(order);
      forall v | v in objs
        ensures Touched(g.arcs, order, v) <==> v.id in g.requests || v.id in RequestedTails(g)
      {
        TouchedAreCleared(order, v);
      }
      stamped := stamped + Elems(Flat(blocks)) - g.requests - RequestedTails(g);
    }
  }

  lemma BlocksInGraph(c: Ctx, bs: seq<seq<Vid>>)
    requires SccOutput(c, bs)
    ensures Elems(Flat(bs)) <= c.on
    ensures forall v :: v in Flat(bs) <==> v in Elems(Flat(bs))
  {
  }

  lemma NothingListed(order: seq<Vertex>)
    ensures (forall v :: v !in order) ==> order == []
    ensures order == [] ==> Ids(order) == []
  {
    assert order != [] ==> order[0] in order;
  }

  lemma NothingShown()
    ensures BlockIds([]) == []
  {
  }

  lemma BlocksNotEmpty(c: Ctx, bs: seq<seq<Vid>>)
    requires SccOutput(c, bs)
    ensures forall i :: 0 <= i < |bs| ==> |bs[i]| > 0
  {
    forall i | 0 <= i < |bs|
      ensures |bs[i]| > 0
    {
      var v :| v in Elems(bs[i]);
      assert v in bs[i];
    }
  }

  /** v is one of us, or an arc leads to it from one of us. */
  ghost predicate Touched(a: Arcs, us: seq<Vertex>, v: Vertex) {
    v in us || exists u :: u in us && Edge(a, u.id, v.id)
  }

  lemma NoneTouched(a: Arcs)
    ensures forall v :: !Touched(a, [], v)
  {
  }

  lemma OneMoreTouched(a: Arcs, us: seq<Vertex>, k: nat, v: Vertex)
    requires k < |us|
    ensures Touched(a, us[..k + 1], v) <==> Touched(a, us[..k], v) || v == us[k] || Edge(a, us[k].id, v.id)
  {
    assert us[..k + 1] == us[..k] + [us[k]];
  }

  lemma RoomForMutex(vs: set<Vid>, t: nat, m: nat)
    ensures HasRoom(vs + {T(t)}, M(m)) <==> HasRoom(vs, M(m))
  {
    assert Mutexes(vs + {T(t)}) == Mutexes(vs);
  }

  lemma RequestsAfterPut(objs: set<Vertex>, at: map<Vid, Vertex>, tm: map<nat, Vertex>, mm: map<nat, Vertex>,
                         rm: map<Vertex, int>, rs: set<Vid>, v: Vertex)
    requires MapsMatch(objs, at, tm, mm) && RequestsMatch(objs, at, rm, rs) && v in objs
    ensures RequestsMatch(objs, at, rm[v := 1], rs + {v.id})
    ensures v in rm <==> v.id in rs
  {
  }

  lemma RequestsAfterRemove(objs: set<Vertex>, at: map<Vid, Vertex>, tm: map<nat, Vertex>, mm: map<nat, Vertex>,
                            rm: map<Vertex, int>, rs: set<Vid>, v: Vertex)
    requires MapsMatch(objs, at, tm, mm) && RequestsMatch(objs, at, rm, rs) && v in objs
    ensures RequestsMatch(objs, at, rm - {v}, rs - {v.id})
    ensures v in rm <==> v.id in rs
  {
    assert forall i :: i in rs ==> at[i].id == i;
  }

  /** ys is xs without its first occurrence of v. */
  ghost predicate Cut(xs: seq<Vertex>, v: Vertex, ys: seq<Vertex>) {
    exists k :: 0 <= k < |xs| && xs[k] == v && v !in xs[..k] && ys == xs[..k] + xs[k + 1..]
  }

  lemma SpellsAfterDelete(a: Arcs, objs: set<Vertex>, u: Vid, v: Vertex, w: Vid, xs: seq<Vertex>, ys: seq<Vertex>,
                          ind: int, outd: int)
    requires Spells(a, objs, w, xs, ind, outd) && Edge(a, u, v.id)
    requires if w == u then Cut(xs, v, ys) else ys == xs
    ensures Spells(a - {(u, v.id)}, objs, w, ys, ind - (if w == v.id then 1 else 0), outd - (if w == u then 1 else 0))
  {
    hide Tails, Heads, Edge, NoDup, Elems, Ids, Cut;
    DeleteChanges(a, u, v.id, w);
    TailsIsArcs(a, u, v.id);
    if w == u {
      CutIds(objs, v, xs, ys);
    }
  }

  lemma CutIds(objs: set<Vertex>, v: Vertex, xs: seq<Vertex>, ys: seq<Vertex>)
    requires NoDup(Ids(xs)) && Cut(xs, v, ys)
    ensures NoDup(Ids(ys)) && Elems(Ids(ys)) == Elems(Ids(xs)) - {v.id}
    ensures (forall k :: 0 <= k < |xs| ==> xs[k] in objs) ==> forall k :: 0 <= k < |ys| ==> ys[k] in objs
  {
    var k :| 0 <= k < |xs| && xs[k] == v && v !in xs[..k] && ys == xs[..k] + xs[k + 1..];
    hide NoDup, Elems;
    assert Ids(ys) == Ids(xs)[..k] + Ids(xs)[k + 1..];
    WithoutOne(Ids(xs), k);
  }

  lemma WithoutOne(p: seq<Vid>, k: nat)
    requires NoDup(p) && k < |p|
    ensures var q := p[..k] + p[k + 1..]; NoDup(q) && Elems(q) == Elems(p) - {p[k]}
  {
    var q := p[..k] + p[k + 1..];
    assert forall i :: 0 <= i < |q| ==> q[i] == p[if i < k then i else i + 1];
    forall i | 0 <= i < |p| && i != k
      ensures p[i] in Elems(q)
    {
      assert q[if i < k then i else i - 1] == p[i];
    }
  }

  lemma SpellsAfterAdd(a: Arcs, objs: set<Vertex>, u: Vid, v: Vertex, w: Vid, xs: seq<Vertex>, ind: int, outd: int)
    requires Spells(a, objs, w, xs, ind, outd) && !Edge(a, u, v.id) && v in objs
    ensures Spells(a + {(u, v.id)}, objs, w, if w == u then [v] + xs else xs,
                   ind + (if w == v.id then 1 else 0), outd + (if w == u then 1 else 0))
  {
    hide Tails, Heads, Edge, NoDup, Elems, Ids;
    AddChanges(a, u, v.id, w);
    TailsIsArcs(a, u, v.id);
    if w == u {
      ConsIds(v, xs);
    }
  }

  lemma ConsIds(v: Vertex, xs: seq<Vertex>)
    requires NoDup(Ids(xs)) && v.id !in Elems(Ids(xs))
    ensures NoDup(Ids([v] + xs)) && Elems(Ids([v] + xs)) == Elems(Ids(xs)) + {v.id}
  {
    assert Ids([v] + xs) == [v.id] + Ids(xs);
    forall k | 0 <= k < |xs|
      ensures Ids(xs)[k] != v.id
    {
      assert Ids(xs)[k] in Elems(Ids(xs));
    }
  }

  lemma PoolGrows(vs: set<Vid>, v: Vid)
    requires v !in vs
    ensures |Threads(vs + {v})| == |Threads(vs)| + (if v.T? then 1 else 0)
    ensures |Mutexes(vs + {v})| == |Mutexes(vs)| + (if v.M? then 1 else 0)
  {
    assert Threads(vs + {v}) == Threads(vs) + (if v.T? then {v} else {});
    assert Mutexes(vs + {v}) == Mutexes(vs) + (if v.M? then {v} else {});
  }
}

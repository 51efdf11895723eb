/** The checker's view of who waits for and who holds which mutex, as a value, and what
    handling one event does to it (the three handlers of eventLoop.c). */
module LockGraphs {
  import opened Utils
  import opened Graph

  /** One entry of a thread's event queue; the thread is the owner of the queue. */
  datatype Event = Wait(m: nat) | Hold(m: nat) | Release(m: nat)

  /** vertices: both vertex maps; arcs: all arc lists; requests: the keys of requestThreadMap. */
  datatype LockGraph = LockGraph(vertices: set<Vid>, arcs: Arcs, requests: set<Vid>)

  const NUMBER_OF_THREAD: nat := 512
  const NUMBER_OF_VERTEX_THREAD: nat := NUMBER_OF_THREAD
  const NUMBER_OF_VERTEX_MUTEX: nat := NUMBER_OF_THREAD
  const NUMBER_OF_VERTEX: nat := NUMBER_OF_VERTEX_THREAD + NUMBER_OF_VERTEX_MUTEX
  const NUMBER_OF_ARC: nat := NUMBER_OF_THREAD * 2

  const EMPTY := LockGraph({}, {}, {})

  function Threads(vs: set<Vid>): set<Vid> {
    set v | v in vs && v.T?
  }

  function Mutexes(vs: set<Vid>): set<Vid> {
    set v | v in vs && v.M?
  }

  /** The vertex is known already, or its pool has a block left for it. */
  predicate HasRoom(vs: set<Vid>, v: Vid) {
    || v in vs
    || (v.T? && |Threads(vs)| < NUMBER_OF_VERTEX_THREAD)
    || (v.M? && |Mutexes(vs)| < NUMBER_OF_VERTEX_MUTEX)
  }

  function AddArc(a: Arcs, u: Vid, v: Vid): Option<Arcs> {
    if (u, v) in a || |a| >= NUMBER_OF_ARC then None else Some(a + {(u, v)})
  }

  function DeleteArc(a: Arcs, u: Vid, v: Vid): Option<Arcs> {
    if (u, v) in a then Some(a - {(u, v)}) else None
  }

  /** The graph after thread t's event, or None where the handler aborts. */
  function Handle(g: LockGraph, t: nat, ev: Event): Option<LockGraph> {
    var tv, mv := T(t), M(ev.m);
    match ev
    case Wait(_) =>
      if !HasRoom(g.vertices, tv) || !HasRoom(g.vertices, mv) then None
      else
        var a := AddArc(g.arcs, tv, mv);
        if a.None? || tv in g.requests then None
        else Some(LockGraph(g.vertices + {tv, mv}, a.value, g.requests + {tv}))
    case Hold(_) =>
      if tv !in g.vertices || mv !in g.vertices then None
      else
        var a := DeleteArc(g.arcs, tv, mv);
        if a.None? then None
        else
          var b := AddArc(a.value, mv, tv);
          if b.None? || tv !in g.requests then None
          else Some(LockGraph(g.vertices, b.value, g.requests - {tv}))
    case Release(_) =>
      if tv !in g.vertices || mv !in g.vertices then None
      else
        var a := DeleteArc(g.arcs, mv, tv);
        if a.None? then None else Some(g.(arcs := a.value))
  }

  // ---- what one thread contributes ----

  /** The mutexes thread t has an arc to, and the mutexes with an arc to t. */
  datatype View = View(waits: set<Vid>, held: set<Vid>)

  function ViewOf(a: Arcs, t: nat): View {
    View(Tails(a, T(t)), Heads(a, T(t)))
  }

  /** What an event does to its own thread's view. */
  function Apply(w: View, ev: Event): Option<View> {
    match ev
    case Wait(m) => if w.waits == {} then Some(View({M(m)}, w.held)) else None
    case Hold(m) => if w.waits == {M(m)} && M(m) !in w.held then Some(View({}, w.held + {M(m)})) else None
    case Release(m) => if M(m) in w.held then Some(View(w.waits, w.held - {M(m)})) else None
  }

  function Replay(w: View, q: seq<Event>): Option<View>
    decreases |q|
  {
    if q == [] then Some(w)
    else
      var w' := Apply(w, q[0]);
      if w'.None? then None else Replay(w'.value, q[1..])
  }

  lemma ReplayAppend(w: View, q: seq<Event>, ev: Event)
    ensures Replay(w, q + [ev]) == match Replay(w, q) case None => None case Some(x) => Apply(x, ev)
    decreases |q|
  {
    if q == [] {
      assert Replay(w, [ev]) == match Apply(w, ev) case None => None case Some(x) => Replay(x, []);
    } else {
      assert (q + [ev])[1..] == q[1..] + [ev];
      if Apply(w, q[0]).Some? {
        ReplayAppend(Apply(w, q[0]).value, q[1..], ev);
      }
    }
  }

  // ---- the shape of the graph ----

  /** Threads point to mutexes and mutexes to threads, between known vertices; a thread has at
      most one outgoing arc; requests are exactly the threads that have one. */
  ghost predicate WellShaped(g: LockGraph) {
    && (forall u, v {:trigger Edge(g.arcs, u, v)} :: Edge(g.arcs, u, v) ==>
          u in g.vertices && v in g.vertices && (u.T? <==> v.M?))
    && (forall u, v, w :: Edge(g.arcs, u, v) && Edge(g.arcs, u, w) && u.T? ==> v == w)
    && (forall u :: u in g.requests <==> u.T? && exists v :: Edge(g.arcs, u, v))
  }

  ghost predicate WithinPools(g: LockGraph) {
    && |g.arcs| <= NUMBER_OF_ARC
    && |Threads(g.vertices)| <= NUMBER_OF_VERTEX_THREAD
    && |Mutexes(g.vertices)| <= NUMBER_OF_VERTEX_MUTEX
  }

  /** The arena NUMBER_OF_VERTEX bounds all vertices together. */
  lemma VertexBound(g: LockGraph)
    requires WithinPools(g)
    ensures |g.vertices| <= NUMBER_OF_VERTEX
  {
    assert g.vertices == Threads(g.vertices) + Mutexes(g.vertices);
  }

  lemma PoolsGrow(vs: set<Vid>, t: nat, m: nat)
    ensures |Threads(vs + {T(t), M(m)})| == |Threads(vs)| + (if T(t) in vs then 0 else 1)
    ensures |Mutexes(vs + {T(t), M(m)})| == |Mutexes(vs)| + (if M(m) in vs then 0 else 1)
  {
    assert Threads(vs + {T(t), M(m)}) == Threads(vs) + {T(t)};
    assert Mutexes(vs + {T(t), M(m)}) == Mutexes(vs) + {M(m)};
    if T(t) in vs {
      assert Threads(vs) + {T(t)} == Threads(vs);
    }
    if M(m) in vs {
      assert Mutexes(vs) + {M(m)} == Mutexes(vs);
    }
  }

  /** No block is left for the arc, or for the vertex of a mutex not seen before. */
  ghost predicate ArcsOrMutexesExhausted(g: LockGraph, m: nat) {
    || |g.arcs| == NUMBER_OF_ARC
    || (M(m) !in g.vertices && |Mutexes(g.vertices)| == NUMBER_OF_VERTEX_MUTEX)
  }

  ghost predicate PoolsExhausted(g: LockGraph, t: nat, m: nat) {
    || ArcsOrMutexesExhausted(g, m)
    || (T(t) !in g.vertices && |Threads(g.vertices)| == NUMBER_OF_VERTEX_THREAD)
  }

  lemma WaitKeepsShape(g: LockGraph, t: nat, m: nat)
    requires WellShaped(g) && forall w :: !Edge(g.arcs, T(t), w)
    ensures WellShaped(LockGraph(g.vertices + {T(t), M(m)}, g.arcs + {(T(t), M(m))}, g.requests + {T(t)}))
  {
    var arcs := g.arcs + {(T(t), M(m))};
    assert Edge(arcs, T(t), M(m));
    assert forall u, v :: Edge(arcs, u, v) <==> Edge(g.arcs, u, v) || (u == T(t) && v == M(m));
  }

  lemma HandleWait(g: LockGraph, t: nat, m: nat)
    requires WellShaped(g) && WithinPools(g) && Tails(g.arcs, T(t)) == {}
    ensures Handle(g, t, Wait(m)).None? <==> PoolsExhausted(g, t, m)
    ensures Handle(g, t, Wait(m)).Some? ==>
              var g' := Handle(g, t, Wait(m)).value;
              g'.arcs == g.arcs + {(T(t), M(m))} && WellShaped(g') && WithinPools(g')
  {
    forall w
      ensures !Edge(g.arcs, T(t), w)
    {
      TailsIsArcs(g.arcs, T(t), w);
    }
    assert !Edge(g.arcs, T(t), M(m)) && T(t) !in g.requests;
    PoolsGrow(g.vertices, t, m);
    WaitKeepsShape(g, t, m);
    hide WellShaped, Threads, Mutexes, Tails;
  }

  lemma HandleHold(g: LockGraph, t: nat, m: nat)
    requires WellShaped(g) && WithinPools(g) && Tails(g.arcs, T(t)) == {M(m)} && M(m) !in Heads(g.arcs, T(t))
    ensures Handle(g, t, Hold(m)).Some?
    ensures var g' := Handle(g, t, Hold(m)).value;
            g'.arcs == g.arcs - {(T(t), M(m))} + {(M(m), T(t))} && WellShaped(g') && WithinPools(g')
  {
    TailsIsArcs(g.arcs, T(t), M(m));
    TailsIsArcs(g.arcs, M(m), T(t));
    assert (M(m), T(t)) !in g.arcs;
    assert T(t) in g.requests;
    var g' := Handle(g, t, Hold(m)).value;
    assert forall u, v :: Edge(g'.arcs, u, v) <==>
      (Edge(g.arcs, u, v) && !(u == T(t) && v == M(m))) || (u == M(m) && v == T(t));
    forall w
      ensures !Edge(g'.arcs, T(t), w)
    {
      TailsIsArcs(g.arcs, T(t), w);
    }
  }

  lemma HandleRelease(g: LockGraph, t: nat, m: nat)
    requires WellShaped(g) && WithinPools(g) && M(m) in Heads(g.arcs, T(t))
    ensures Handle(g, t, Release(m)).Some?
    ensures var g' := Handle(g, t, Release(m)).value;
            g'.arcs == g.arcs - {(M(m), T(t))} && WellShaped(g') && WithinPools(g')
  {
    TailsIsArcs(g.arcs, M(m), T(t));
    var g' := Handle(g, t, Release(m)).value;
    assert forall u, v :: Edge(g'.arcs, u, v) <==> Edge(g.arcs, u, v) && !(u == M(m) && v == T(t));
  }

  lemma ViewsAfterWait(a: Arcs, t: nat, m: nat)
    requires Tails(a, T(t)) == {}
    ensures var b := a + {(T(t), M(m))};
            ViewOf(b, t) == View({M(m)}, Heads(a, T(t))) && forall x :: x != t ==> ViewOf(b, x) == ViewOf(a, x)
  {
    var b := a + {(T(t), M(m))};
    AddChanges(a, T(t), M(m), T(t));
    forall x | x != t
      ensures ViewOf(b, x) == ViewOf(a, x)
    {
      AddChanges(a, T(t), M(m), T(x));
    }
  }

  lemma ViewsAfterHold(a: Arcs, t: nat, m: nat)
    requires Tails(a, T(t)) == {M(m)}
    ensures var b := a - {(T(t), M(m))} + {(M(m), T(t))};
            ViewOf(b, t) == View({}, Heads(a, T(t)) + {M(m)}) && forall x :: x != t ==> ViewOf(b, x) == ViewOf(a, x)
  {
    var d := a - {(T(t), M(m))};
    var b := d + {(M(m), T(t))};
    forall x
      ensures x != t ==> ViewOf(b, x) == ViewOf(a, x)
      ensures x == t ==> ViewOf(b, x) == View(Tails(a, T(x)) - {M(m)}, Heads(a, T(x)) + {M(m)})
    {
      DeleteChanges(a, T(t), M(m), T(x));
      AddChanges(d, M(m), T(t), T(x));
    }
    assert ViewOf(b, t).waits == {};
  }

  lemma ViewsAfterRelease(a: Arcs, t: nat, m: nat)
    ensures var b := a - {(M(m), T(t))};
            ViewOf(b, t) == View(Tails(a, T(t)), Heads(a, T(t)) - {M(m)}) && forall x :: x != t ==> ViewOf(b, x) == ViewOf(a, x)
  {
    var b := a - {(M(m), T(t))};
    DeleteChanges(a, M(m), T(t), T(t));
    forall x | x != t
      ensures ViewOf(b, x) == ViewOf(a, x)
    {
      DeleteChanges(a, M(m), T(t), T(x));
    }
  }

  /** An event that fits its thread's view makes the handler abort exactly when it is a WAIT that
      finds a pool exhausted. Otherwise the shape is kept, the thread's view changes as the event
      says, and no other thread's view changes. */
  lemma HandleOk(g: LockGraph, t: nat, ev: Event)
    requires WellShaped(g) && WithinPools(g)
    requires Apply(ViewOf(g.arcs, t), ev).Some?
    ensures Handle(g, t, ev).None? <==> ev.Wait? && PoolsExhausted(g, t, ev.m)
    ensures Handle(g, t, ev).Some? ==>
              var g' := Handle(g, t, ev).value;
              && WellShaped(g') && WithinPools(g')
              && ViewOf(g'.arcs, t) == Apply(ViewOf(g.arcs, t), ev).value
              && (forall x :: x != t ==> ViewOf(g'.arcs, x) == ViewOf(g.arcs, x))
  {
    hide Tails, Heads, WellShaped, WithinPools;
    match ev
    case Wait(m) =>
      HandleWait(g, t, m);
      ViewsAfterWait(g.arcs, t, m);
    case Hold(m) =>
      HandleHold(g, t, m);
      ViewsAfterHold(g.arcs, t, m);
    case Release(m) =>
      HandleRelease(g, t, m);
      ViewsAfterRelease(g.arcs, t, m);
  }
}

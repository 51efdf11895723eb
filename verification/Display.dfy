/** What strongConnectedComponent displays of what it finds, and what decides it: the graph, the
    stamps and the order in which the requesting threads are tried. */
module Display {
  import opened Utils
  import opened Graph
  import opened LockGraphs
  import opened Protocol
  import opened Deadlock
  import opened Vertices
  import opened SccSpec
  import opened Tarjan
  import opened Detection
  import opened Walks

  ghost predicate AllShown(bs: seq<seq<Vid>>) {
    forall b :: b in bs && |b| > 1 ==> b in Shown(bs)
  }

  lemma {:induction false} BigHas(bs: seq<seq<Vid>>, b: seq<Vid>)
    ensures b in Big(bs) <==> b in bs && |b| > 1
  {
    if bs != [] {
      BigHas(bs[..|bs| - 1], b);
      assert bs == bs[..|bs| - 1] + [bs[|bs| - 1]];
    }
  }

  lemma FirstDecides(bs: seq<seq<Vid>>)
    ensures AllShown(bs) <==> (bs == [] || |bs[0]| > 1 || forall i :: 0 <= i < |bs| ==> |bs[i]| <= 1)
  {
    forall b
      ensures b in Big(bs) <==> b in bs && |b| > 1
    {
      BigHas(bs, b);
    }
    assert forall i :: 0 <= i < |bs| ==> bs[i] in bs;
  }

  // ---- the first block ----

  /** A vertex of on without an arc that stays in on. */
  ghost predicate DeadEnd(a: Arcs, on: set<Vid>, v: Vid) {
    v in on && forall w {:trigger Edge(a, v, w)} :: Edge(a, v, w) ==> w !in on
  }

  /** A component of two vertices or more, without a way out. */
  ghost predicate BigSink(a: Arcs, on: set<Vid>, b: set<Vid>) {
    IsScc(a, on, b) && Closed(a, on, b) && |b| >= 2
  }

  ghost predicate CycleIn(a: Arcs, on: set<Vid>, c: seq<Vid>) {
    IsCycle(a, c) && forall v :: v in c ==> v in on
  }

  ghost predicate HasCycle(a: Arcs, on: set<Vid>) {
    exists c :: CycleIn(a, on, c)
  }

  ghost predicate LeadsToCycle(a: Arcs, on: set<Vid>, r: Vid) {
    exists c :: CycleIn(a, on, c) && Reach(a, on, r, c[0])
  }

  /** The first block is a component without a way out, and the first unstamped root reaches it. */
  lemma FirstBlock(c: Ctx, order: seq<Vid>, bs: seq<seq<Vid>>)
    requires SccOutput(c, bs) && FirstFrom(c, order, bs) && FirstOn(order, c.on).Some?
    ensures bs != [] && bs[0] != [] && NoDup(bs[0])
    ensures IsScc(c.a, c.on, Elems(bs[0])) && Closed(c.a, c.on, Elems(bs[0]))
    ensures Reach(c.a, c.on, FirstOn(order, c.on).value, bs[0][0])
    ensures forall v :: v in bs[0] ==> Reach(c.a, c.on, FirstOn(order, c.on).value, v)
  {
    hide Reach, Closed, Rooted;
    assert Closed(c.a, c.on, Elems(Flat(bs[..1])));
    assert Flat(bs[..1]) == bs[0] by {
      assert bs[..1][..0] == [] && Flat([]) == [];
    }
    BlockNoDup(bs, 0);
    var v :| v in Elems(bs[0]);
  }

  /** A one-vertex block without a way out is a dead end. */
  lemma SmallSinkIsDeadEnd(g: LockGraph, on: set<Vid>, b: seq<Vid>)
    requires WellShaped(g) && |b| == 1 && IsScc(g.arcs, on, Elems(b)) && Closed(g.arcs, on, Elems(b))
    ensures DeadEnd(g.arcs, on, b[0])
  {
    hide Reach;
    assert b[0] in Elems(b);
    forall w | Edge(g.arcs, b[0], w)
      ensures w !in on
    {
      assert w in on ==> w in Elems(b);
    }
  }

  /** A larger one has a cycle in it. */
  lemma BigSinkHasCycle(a: Arcs, on: set<Vid>, b: seq<Vid>, r: Vid)
    requires |b| > 1 && NoDup(b) && IsScc(a, on, Elems(b)) && forall v :: v in b ==> Reach(a, on, r, v)
    ensures LeadsToCycle(a, on, r)
  {
    assert b[0] in Elems(b) && b[1] in Elems(b);
    var c := SccHasCycle(a, on, Elems(b), b[0], b[1]);
    hide Reach;
    assert CycleIn(a, on, c);
  }

  /** There is a block of two vertices or more exactly if there is an unstamped cycle. */
  lemma BigBlockIffCycle(g: LockGraph, stamped: set<Vid>, bs: seq<seq<Vid>>, stamped': set<Vid>)
    requires WellShaped(g) && Detect(g, stamped, bs, stamped')
    ensures (exists i :: 0 <= i < |bs| && |bs[i]| > 1) <==> HasCycle(g.arcs, g.vertices - stamped)
  {
    hide WellShaped, Flat, NoDup;
    if i :| 0 <= i < |bs| && |bs[i]| > 1 {
      var c := BigBlockHasCycle(g, stamped, bs, stamped', i);
      assert IsScc(g.arcs, g.vertices - stamped, Elems(bs[i]));
      assert CycleIn(g.arcs, g.vertices - stamped, c);
    }
    if c: seq<Vid> :| CycleIn(g.arcs, g.vertices - stamped, c) {
      var i := CycleFound(g, stamped, bs, stamped', c);
    }
  }

  // ---- when it is enough to look at the first root ----

  /** Enough for everything to be displayed: the first unstamped root reaches no dead end. */
  lemma DisplaySuffices(g: LockGraph, stamped: set<Vid>, order: seq<Vid>, bs: seq<seq<Vid>>, stamped': set<Vid>, r: Vid)
    requires WellShaped(g) && DetectIn(g, stamped, order, bs, stamped')
    requires FirstOn(order, g.vertices - stamped) == Some(r)
    requires forall v {:trigger DeadEnd(g.arcs, g.vertices - stamped, v)} ::
               DeadEnd(g.arcs, g.vertices - stamped, v) ==> !Reach(g.arcs, g.vertices - stamped, r, v)
    ensures AllShown(bs)
  {
    var c := Ctx(g.arcs, g.vertices - stamped, g.requests);
    FirstBlock(c, order, bs);
    hide *;
    FirstDecides(bs);
    if |bs[0]| == 1 {
      SmallSinkIsDeadEnd(g, c.on, bs[0]);
    }
  }

  /** Enough for nothing to be displayed: the first unstamped root reaches no large component without a
      way out. */
  lemma DisplayFails(g: LockGraph, stamped: set<Vid>, order: seq<Vid>, bs: seq<seq<Vid>>, stamped': set<Vid>, r: Vid)
    requires WellShaped(g) && DetectIn(g, stamped, order, bs, stamped')
    requires FirstOn(order, g.vertices - stamped) == Some(r)
    requires forall b, v :: BigSink(g.arcs, g.vertices - stamped, b) && v in b ==>
               !Reach(g.arcs, g.vertices - stamped, r, v)
    ensures Shown(bs) == []
    ensures HasCycle(g.arcs, g.vertices - stamped) ==> !AllShown(bs)
  {
    var c := Ctx(g.arcs, g.vertices - stamped, g.requests);
    FirstBlock(c, order, bs);
    BigBlockIffCycle(g, stamped, bs, stamped');
    FirstDecides(bs);
    hide Reach, DetectIn, WellShaped, AllShown, HasCycle, Big, BigSink;
    SinkOfTwo(c.a, c.on, bs[0]);
  }

  lemma SinkOfTwo(a: Arcs, on: set<Vid>, b: seq<Vid>)
    requires b != [] && NoDup(b) && IsScc(a, on, Elems(b)) && Closed(a, on, Elems(b))
    ensures b[0] in Elems(b) && (|b| > 1 ==> BigSink(a, on, Elems(b)))
  {
    NoDupSize(b);
  }

  /** No mutex that r reaches has two arcs that stay in on. */
  ghost predicate OneWayFrom(a: Arcs, on: set<Vid>, r: Vid) {
    forall m, v, w {:trigger Edge(a, M(m), v), Edge(a, M(m), w)} ::
      Reach(a, on, r, M(m)) && Edge(a, M(m), v) && Edge(a, M(m), w) && v in on && w in on ==> v == w
  }

  ghost predicate OneWay(a: Arcs, on: set<Vid>, r: Vid) {
    forall u, v, w {:trigger Edge(a, u, v), Edge(a, u, w)} ::
      Reach(a, on, r, u) && Edge(a, u, v) && Edge(a, u, w) && v in on && w in on ==> v == w
  }

  lemma ThreadsAreOneWay(g: LockGraph, on: set<Vid>, r: Vid)
    requires WellShaped(g) && OneWayFrom(g.arcs, on, r)
    ensures OneWay(g.arcs, on, r)
  {
    hide Reach;
    forall u, v, w | Reach(g.arcs, on, r, u) && Edge(g.arcs, u, v) && Edge(g.arcs, u, w) && v in on && w in on
      ensures v == w
    {
      if u.M? {
        assert u == M(u.mid);
      }
    }
  }

  /** Without a choice on the way, one of two vertices reached is behind the other. */
  lemma {:induction false} Comparable(a: Arcs, on: set<Vid>, p: seq<Vid>, q: seq<Vid>)
    requires IsPath(a, on, p) && IsPath(a, on, q) && p[0] == q[0] && OneWay(a, on, p[0])
    ensures Reach(a, on, p[|p| - 1], q[|q| - 1]) || Reach(a, on, q[|q| - 1], p[|p| - 1])
    decreases |p|
  {
    if |p| > 1 && |q| > 1 {
      assert Edge(a, p[0], p[0 + 1]) && Edge(a, q[0], q[0 + 1]);
      ReachRefl(a, on, p[0]);
      assert p[1] == q[1];
      NextIsOneWay(a, on, p[0], p[1]);
      hide OneWay, Reach;
      Comparable(a, on, p[1..], q[1..]);
    }
  }

  lemma NextIsOneWay(a: Arcs, on: set<Vid>, u: Vid, v: Vid)
    requires OneWay(a, on, u) && u in on && v in on && Edge(a, u, v)
    ensures OneWay(a, on, v)
  {
    hide Reach;
    ReachEdge(a, on, u, v);
    forall x | Reach(a, on, v, x)
      ensures Reach(a, on, u, x)
    {
      ReachTrans(a, on, u, v, x);
    }
  }

  /** Then a cycle once reached is never left. */
  lemma CycleIsClosed(a: Arcs, on: set<Vid>, r: Vid, c: seq<Vid>)
    requires OneWay(a, on, r) && CycleIn(a, on, c) && Reach(a, on, r, c[0])
    ensures Closed(a, on, Elems(c))
  {
    hide Reach;
    forall u, v | u in Elems(c) && Edge(a, u, v) && v in on
      ensures v in Elems(c)
    {
      var k :| 0 <= k < |c| && c[k] == u;
      CycleReach(a, on, c, 0, k);
      ReachTrans(a, on, r, c[0], u);
      assert Edge(a, u, c[Succ(k, |c|)]) && c[Succ(k, |c|)] in c;
    }
  }

  /** So that no dead end is reached besides. */
  lemma NoDeadEndBesides(a: Arcs, on: set<Vid>, r: Vid, c: seq<Vid>, v: Vid)
    requires OneWay(a, on, r) && CycleIn(a, on, c) && Reach(a, on, r, c[0]) && Reach(a, on, r, v)
    ensures !DeadEnd(a, on, v)
  {
    var p :| IsPath(a, on, p) && p[0] == r && p[|p| - 1] == c[0];
    var q :| IsPath(a, on, q) && q[0] == r && q[|q| - 1] == v;
    Comparable(a, on, p, q);
    CycleIsClosed(a, on, r, c);
    ReachRefl(a, on, c[0]);
    hide Reach, OneWay, IsPath;
    if Reach(a, on, c[0], v) {
      assert c[0] in Elems(c);
      ReachStaysInClosed(a, on, Elems(c), c[0], v);
      var k :| 0 <= k < |c| && c[k] == v;
      assert Edge(a, v, c[Succ(k, |c|)]) && c[Succ(k, |c|)] in c;
    } else {
      var x := ReachFirstArc(a, on, v, c[0]);
    }
  }

  /** What is found is displayed, all of it, if there is no unstamped cycle at all, or the first unstamped
      root in the order leads to one. The converse holds always; where no mutex on the way from that
      root has two arcs, so does this direction. */
  lemma DisplayCompleteIff(g: LockGraph, stamped: set<Vid>, order: seq<Vid>, bs: seq<seq<Vid>>, stamped': set<Vid>)
    requires WellShaped(g) && DetectIn(g, stamped, order, bs, stamped')
    ensures var a, on := g.arcs, g.vertices - stamped;
            var first := FirstOn(order, on);
            var good := !HasCycle(a, on) || (first.Some? && LeadsToCycle(a, on, first.value));
            && (AllShown(bs) ==> good)
            && ((first.Some? ==> OneWayFrom(a, on, first.value)) ==> (AllShown(bs) <==> good))
  {
    var c := Ctx(g.arcs, g.vertices - stamped, g.requests);
    var first := FirstOn(order, c.on);
    BigBlockIffCycle(g, stamped, bs, stamped');
    FirstDecides(bs);
    if first.Some? {
      FirstBlock(c, order, bs);
      hide *;
      if |bs[0]| > 1 {
        BigSinkHasCycle(c.a, c.on, bs[0], first.value);
      } else if OneWayFrom(c.a, c.on, first.value) && LeadsToCycle(c.a, c.on, first.value) {
        ThreadsAreOneWay(g, c.on, first.value);
        SmallSinkIsDeadEnd(g, c.on, bs[0]);
        NoneLeads(c.a, c.on, first.value, bs[0][0]);
      }
    }
  }

  lemma NoneLeads(a: Arcs, on: set<Vid>, r: Vid, v: Vid)
    requires OneWay(a, on, r) && DeadEnd(a, on, v) && Reach(a, on, r, v)
    ensures !LeadsToCycle(a, on, r)
  {
    forall c | CycleIn(a, on, c)
      ensures !Reach(a, on, r, c[0])
    {
      if Reach(a, on, r, c[0]) {
        NoDeadEndBesides(a, on, r, c, v);
      }
    }
  }

  // ---- in terms of the threads ----

  /** Nothing is queued, and nobody has freed a mutex without having said so. */
  ghost predicate Settled(s: State) {
    forall t :: t in s.threads ==> s.threads[t].queue == [] && !s.threads[t].phase.Released?
  }

  /** Then an arc from a mutex leads to its real owner, so that there is one at most. */
  lemma OwnerOfArc(s: State, m: nat, t: nat)
    requires Protocol.Inv(s) && Settled(s) && Edge(s.graph.arcs, M(m), T(t))
    ensures m in s.owner && s.owner[m] == t
  {
    QuietView(s, t);
    DrainedIsPushed(s, t);
    TailsIsArcs(s.graph.arcs, M(m), T(t));
    hide AllSynced, VerticesOk, QueuesFit, WellShaped, WithinPools, Drained;
    assert t in s.threads && Owns(s.threads[t], m);
  }

  lemma SettledIsOneWay(s: State, on: set<Vid>, r: Vid)
    requires Protocol.Inv(s) && Settled(s)
    ensures OneWayFrom(s.graph.arcs, on, r)
  {
    forall m, v, w | Edge(s.graph.arcs, M(m), v) && Edge(s.graph.arcs, M(m), w)
      ensures v == w
    {
      assert v.T? && w.T?;
      OwnerOfArc(s, m, v.tid);
      OwnerOfArc(s, m, w.tid);
    }
  }

  /** In a settled state a detection displays every block of two vertices or more if and only if there is
      no unstamped cycle, or the first unstamped root waits, through others, for a thread on one. */
  lemma SettledDisplay(s: Sys, order: seq<Vid>, bs: seq<seq<Vid>>, s': Sys)
    requires SysInv(s) && Settled(s.p) && DetectIn(s.p.graph, s.stamped, order, bs, s'.stamped)
    ensures var a, on := s.p.graph.arcs, s.p.graph.vertices - s.stamped;
            var first := FirstOn(order, on);
            AllShown(bs) <==> !HasCycle(a, on) || (first.Some? && LeadsToCycle(a, on, first.value))
  {
    var on := s.p.graph.vertices - s.stamped;
    assert WellShaped(s.p.graph);
    hide *;
    var first := FirstOn(order, on);
    if first.Some? {
      SettledIsOneWay(s.p, on, first.value);
    }
    DisplayCompleteIff(s.p.graph, s.stamped, order, bs, s'.stamped);
  }

  lemma ShownIsBlock(bs: seq<seq<Vid>>, shown: seq<seq<Vertex>>, k: nat) returns (i: nat)
    requires Displays(bs, shown) && k < |shown|
    ensures i < |bs| && |bs[i]| >= 2 && Ids(shown[k]) == bs[i]
  {
    var picks: seq<nat> :| Places(bs, |bs|, picks) && ShownAt(bs, picks, shown);
    i := picks[k];
  }

  /** Nothing but deadlocks is displayed: a list of vertices that is reported, and whose threads have nothing
      queued, is exactly one circle of threads that really wait for each other. */
  lemma DisplayedIsDeadlock(s: Sys, s': Sys, bs: seq<seq<Vid>>, shown: seq<seq<Vertex>>, k: nat)
    returns (w: seq<(nat, nat)>)
    requires SysInv(s) && DetectsTo(s, bs, s') && Displays(bs, shown) && k < |shown|
    requires forall t :: T(t) in Ids(shown[k]) ==> Quiet(s.p, t)
    ensures CircularWait(s.p, w) && NoDup(CycleOf(w)) && Elems(CycleOf(w)) == Elems(Ids(shown[k]))
  {
    hide *;
    var i := ShownIsBlock(bs, shown, k);
    w := ReportIsDeadlock(s, s', bs, i);
  }
}

/** The walk of reportDeadLock along a component (report.c), without its text. */
module Report {
  import opened Graph
  import opened LockGraphs
  import opened Vertices
  import opened SccSpec
  import opened Tarjan
  import opened Walks
  import opened EventLoop

  /** w is the tail of v's first arc that ends inside ssc. */
  ghost predicate FirstInside(v: Vertex, ssc: seq<Vertex>, w: Vertex)
    reads v`arcList
  {
    exists k :: 0 <= k < |v.arcList| && v.arcList[k] == w && w in ssc && forall j :: 0 <= j < k ==> v.arcList[j] !in ssc
  }

  /** There is one such vertex only: whatever stands before it on the list is outside, whatever stands behind
      does not matter. */
  lemma FirstInsideIs(v: Vertex, ssc: seq<Vertex>, before: seq<Vertex>, x: Vertex, behind: seq<Vertex>, w: Vertex)
    requires v.arcList == before + [x] + behind && x in ssc && forall u :: u in before ==> u !in ssc
    ensures FirstInside(v, ssc, w) <==> w == x
  {
    var n := |before|;
    assert v.arcList[n] == x && forall j :: 0 <= j < n ==> v.arcList[j] == before[j];
    if k :| 0 <= k < |v.arcList| && v.arcList[k] == w && w in ssc && forall j :: 0 <= j < k ==> v.arcList[j] !in ssc {
      assert k == n;
    }
  }

  ghost predicate NoneInside(v: Vertex, ssc: seq<Vertex>)
    reads v`arcList
  {
    forall w :: w in v.arcList ==> w !in ssc
  }

  /** Entry k of ssc is the last thread in it. */
  predicate LastThread(ssc: seq<Vertex>, k: nat) {
    k < |ssc| && ssc[k].id.T? && forall j :: k < j < |ssc| ==> !ssc[j].id.T?
  }

  /** The vertices in the order in which they are reported: the last thread of ssc first, then from
      each vertex the tail of its first arc inside ssc, |ssc| times or until there is none. */
  method ReportDeadLock(ssc: seq<Vertex>) returns (walk: seq<Vertex>)
    requires |ssc| >= 2 && exists v :: v in ssc && v.id.T?
    ensures 1 <= |walk| <= |ssc| + 1
    ensures exists k :: 0 <= k < |ssc| && walk[0] == ssc[k] && ssc[k].id.T? && forall j :: k < j < |ssc| ==> !ssc[j].id.T?
    ensures forall k :: 0 <= k < |walk| - 1 ==> FirstInside(walk[k], ssc, walk[k + 1])
    ensures |walk| == |ssc| + 1 || NoneInside(walk[|walk| - 1], ssc)
  {
    var start: Vertex? := null;
    ghost var last := 0;
    var i := 0;
    while i < |ssc|
      invariant 0 <= i <= |ssc|
      invariant start == null ==> forall j :: 0 <= j < i ==> !ssc[j].id.T?
      invariant start != null ==> last < i && ssc[last] == start && LastThread(ssc[..i], last)
    {
      if ssc[i].id.T? {
        start, last := ssc[i], i;
      }
      i := i + 1;
    }
    assert ssc[..i] == ssc && LastThread(ssc, last);
    var v: Vertex := start;
    var head, num := 0, |ssc|;
    walk := [v];
    while num > 0
      invariant 0 <= num && 1 <= |walk| && walk[|walk| - 1] == v && walk[0] == ssc[last]
      invariant forall k :: 0 <= k < |walk| - 1 ==> FirstInside(walk[k], ssc, walk[k + 1])
      invariant (|walk| + num == |ssc| + 1 && head == 0)
             || (|walk| + num <= |ssc| && head == |v.arcList| && NoneInside(v, ssc))
    {
      num := num - 1;
      ghost var from, before := v, walk;
      while head < |v.arcList|
        invariant 0 <= head <= |v.arcList| && v == from && walk == before
        invariant forall j :: 0 <= j < head ==> v.arcList[j] !in ssc
      {
        if v.arcList[head] in ssc {
          assert FirstInside(v, ssc, v.arcList[head]);
          v := v.arcList[head];
          walk := walk + [v];
          head := 0;
          break;
        }
        head := head + 1;
      }
    }
  }

  // ---- what the walk means on a true component ----

  /** Reporting a block of a finished search: the walk takes exactly |block| real arcs inside the
      block, and where each member has one arc inside, it is the cycle. */
  lemma ReportFollowsBlock(g: LockGraph, on: set<Vid>, block: seq<Vid>, p: seq<Vid>)
    requires WellShaped(g) && IsScc(g.arcs, on, Elems(block)) && NoDup(block) && |block| >= 2
    requires 1 <= |p| <= |block| + 1 && WalksIn(g.arcs, Elems(block), p)
    requires |p| == |block| + 1 || forall w :: w in block ==> !Edge(g.arcs, p[|p| - 1], w)
    ensures |p| == |block| + 1
    ensures OneArcInside(g.arcs, Elems(block)) ==>
              NoDup(p[..|block|]) && Elems(p[..|block|]) == Elems(block) && p[|block|] == p[0]
  {
    var b := Elems(block);
    NoDupSize(block);
    var w := HasArcInside(g.arcs, on, b, p[|p| - 1]);
    assert w in block;
    if OneArcInside(g.arcs, b) {
      WalkIsTheCycle(g.arcs, on, b, p);
    }
  }

  /** Vertex objects have an arc between them exactly if one is on the other's arc list. */
  lemma ArcsOfObjects(c: Checker, v: Vertex, w: Vertex)
    requires c.MapsOk() && c.GraphOk() && v in c.objs && w in c.objs
    ensures w in v.arcList <==> Edge(c.g.arcs, v.id, w.id)
  {
    assert c.VertexOk(v);
    c.ArcListHas(v, w);
  }

  lemma MembersById(ssc: seq<Vertex>, id: Vid) returns (v: Vertex)
    requires id in Elems(Ids(ssc))
    ensures v in ssc && v.id == id
  {
    var k :| 0 <= k < |ssc| && Ids(ssc)[k] == id;
    v := ssc[k];
  }

  /** The pointers followed are arcs of the graph that stay in the component. */
  lemma WalkOfIds(c: Checker, ssc: seq<Vertex>, walk: seq<Vertex>)
    requires c.MapsOk() && c.GraphOk() && (forall v :: v in ssc ==> v in c.objs) && walk != [] && walk[0] in ssc
    requires forall k :: 0 <= k < |walk| - 1 ==> FirstInside(walk[k], ssc, walk[k + 1])
    ensures forall k :: 0 <= k < |walk| ==> walk[k] in ssc
    ensures WalksIn(c.g.arcs, Elems(Ids(ssc)), Ids(walk))
  {
    hide Checker.MapsOk, Checker.GraphOk;
    forall k | 0 <= k < |walk|
      ensures walk[k] in ssc
    {
      if k > 0 {
        assert FirstInside(walk[k - 1], ssc, walk[k - 1 + 1]);
      }
    }
    forall k | 0 <= k < |walk|
      ensures Ids(walk)[k] in Elems(Ids(ssc))
    {
      var j :| 0 <= j < |ssc| && ssc[j] == walk[k];
      assert Ids(ssc)[j] == walk[k].id;
    }
    forall k | 0 <= k < |walk| - 1
      ensures Edge(c.g.arcs, Ids(walk)[k], Ids(walk)[k + 1])
    {
      assert FirstInside(walk[k], ssc, walk[k + 1]);
      ArcsOfObjects(c, walk[k], walk[k + 1]);
    }
  }

  /** displayInfo's call for one block: the walk is |ssc| real arcs from a thread of the component
      and through it; where each member has one arc inside, it is the whole cycle once. */
  method ReportBlock(c: Checker, ssc: seq<Vertex>, ghost on: set<Vid>) returns (walk: seq<Vertex>)
    requires c.Valid() && WellShaped(c.g) && forall v :: v in ssc ==> v in c.objs
    requires IsScc(c.g.arcs, on, Elems(Ids(ssc))) && NoDup(Ids(ssc)) && |ssc| >= 2
    ensures |walk| == |ssc| + 1 && walk[0].id.T? && WalksIn(c.g.arcs, Elems(Ids(ssc)), Ids(walk))
    ensures OneArcInside(c.g.arcs, Elems(Ids(ssc))) ==>
              && NoDup(Ids(walk)[..|ssc|]) && Elems(Ids(walk)[..|ssc|]) == Elems(Ids(ssc))
              && walk[|ssc|].id == walk[0].id
  {
    assert c.MapsOk() && c.GraphOk();
    hide *;
    NoDupSize(Ids(ssc));
    ghost var t := HasThread(c.g, on, Elems(Ids(ssc)));
    ghost var v := MembersById(ssc, t);
    walk := ReportDeadLock(ssc);
    WalkOfIds(c, ssc, walk);
    ghost var last := walk[|walk| - 1];
    forall w | w in Ids(ssc) && NoneInside(last, ssc)
      ensures !Edge(c.g.arcs, last.id, w)
    {
      NoArcTo(c, ssc, last, w);
    }
    ReportFollowsBlock(c.g, on, Ids(ssc), Ids(walk));
  }

  lemma NoArcTo(c: Checker, ssc: seq<Vertex>, v: Vertex, w: Vid)
    requires c.MapsOk() && c.GraphOk() && v in c.objs && forall u :: u in ssc ==> u in c.objs
    requires w in Ids(ssc) && NoneInside(v, ssc)
    ensures !Edge(c.g.arcs, v.id, w)
  {
    hide Checker.MapsOk, Checker.GraphOk;
    assert w in Elems(Ids(ssc));
    var x := MembersById(ssc, w);
    ArcsOfObjects(c, v, x);
  }
}

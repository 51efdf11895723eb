/** The books of the arc pool: its live blocks are the arcs, counted at either end. */
module Degrees {
  import opened Graph
  import opened Vertices
  import opened SccSpec
  import opened Tarjan
  import opened EventLoop

  function OutArcs(a: Arcs, u: Vid): Arcs {
    set e | e in a && e.0 == u
  }

  function InArcs(a: Arcs, u: Vid): Arcs {
    set e | e in a && e.1 == u
  }

  lemma NoArcsAtAll(u: Vid)
    ensures OutArcs({}, u) == {} && InArcs({}, u) == {} && Tails({}, u) == {} && Heads({}, u) == {}
  {
  }

  lemma OneArcMore(b: Arcs, e: (Vid, Vid), u: Vid)
    requires e !in b
    ensures |OutArcs(b + {e}, u)| == |OutArcs(b, u)| + if e.0 == u then 1 else 0
    ensures |InArcs(b + {e}, u)| == |InArcs(b, u)| + if e.1 == u then 1 else 0
  {
    assert OutArcs(b + {e}, u) == if e.0 == u then OutArcs(b, u) + {e} else OutArcs(b, u);
    assert InArcs(b + {e}, u) == if e.1 == u then InArcs(b, u) + {e} else InArcs(b, u);
  }

  /** As many tails as arcs, as many heads as arcs. */
  lemma {:induction false} EndsCount(a: Arcs, u: Vid)
    ensures |Tails(a, u)| == |OutArcs(a, u)| && |Heads(a, u)| == |InArcs(a, u)|
    decreases |a|
  {
    hide *;
    if a == {} {
      NoArcsAtAll(u);
    } else {
      var e :| e in a;
      var b := a - {e};
      assert a == b + {e} && e == (e.0, e.1);
      EndsCount(b, u);
      AddChanges(b, e.0, e.1, u);
      NewEnds(b, e, u);
      OneArcMore(b, e, u);
    }
  }

  lemma NewEnds(b: Arcs, e: (Vid, Vid), u: Vid)
    requires e !in b
    ensures e.0 == u ==> e.1 !in Tails(b, u)
    ensures e.1 == u ==> e.0 !in Heads(b, u)
  {
  }

  function OutSum(a: Arcs, vs: seq<Vid>): nat {
    if vs == [] then 0 else OutSum(a, vs[1..]) + |OutArcs(a, vs[0])|
  }

  function InSum(a: Arcs, vs: seq<Vid>): nat {
    if vs == [] then 0 else InSum(a, vs[1..]) + |InArcs(a, vs[0])|
  }

  function OutOfAny(a: Arcs, vs: seq<Vid>): Arcs {
    set e | e in a && e.0 in vs
  }

  function IntoAny(a: Arcs, vs: seq<Vid>): Arcs {
    set e | e in a && e.1 in vs
  }

  lemma AnyOfMore(a: Arcs, v: Vid, rest: seq<Vid>)
    requires v !in rest
    ensures |OutOfAny(a, [v] + rest)| == |OutOfAny(a, rest)| + |OutArcs(a, v)|
    ensures |IntoAny(a, [v] + rest)| == |IntoAny(a, rest)| + |InArcs(a, v)|
  {
    assert OutOfAny(a, [v] + rest) == OutOfAny(a, rest) + OutArcs(a, v);
    assert IntoAny(a, [v] + rest) == IntoAny(a, rest) + InArcs(a, v);
  }

  /** The sums over different vertices count every arc that starts, or ends, at one of them once. */
  lemma {:induction false} SumsCount(a: Arcs, vs: seq<Vid>)
    requires NoDup(vs)
    ensures OutSum(a, vs) == |OutOfAny(a, vs)| && InSum(a, vs) == |IntoAny(a, vs)|
  {
    if vs == [] {
      assert OutOfAny(a, []) == {} && IntoAny(a, []) == {};
    } else {
      hide OutOfAny, IntoAny, OutArcs, InArcs;
      SumsCount(a, vs[1..]);
      assert vs == [vs[0]] + vs[1..] && vs[0] !in vs[1..];
      AnyOfMore(a, vs[0], vs[1..]);
    }
  }

  /** The sums of the counters that the vertex objects keep. */
  ghost function OutdegreeSum(xs: seq<Vertex>): int
    reads xs`outdegree
  {
    if xs == [] then 0 else OutdegreeSum(xs[1..]) + xs[0].outdegree
  }

  ghost function IndegreeSum(xs: seq<Vertex>): int
    reads xs`indegree
  {
    if xs == [] then 0 else IndegreeSum(xs[1..]) + xs[0].indegree
  }

  lemma {:induction false} CountersAreSums(c: Checker, xs: seq<Vertex>)
    requires c.GraphOk() && forall v :: v in xs ==> v in c.objs
    ensures OutdegreeSum(xs) == OutSum(c.g.arcs, Ids(xs)) && IndegreeSum(xs) == InSum(c.g.arcs, Ids(xs))
  {
    if xs != [] {
      CountersAreSums(c, xs[1..]);
      assert c.VertexOk(xs[0]);
      EndsCount(c.g.arcs, xs[0].id);
      assert Ids(xs)[1..] == Ids(xs[1..]) && Ids(xs)[0] == xs[0].id;
    }
  }

  /** Arc conservation: whatever handlers have run, the live blocks of the arc pool are as many as the
      outdegrees add up to, and the indegrees. xs lists all vertex objects. */
  lemma ArcBlocksAreDegrees(c: Checker, xs: seq<Vertex>)
    requires c.Valid() && (forall v :: v in xs <==> v in c.objs) && forall i, j :: 0 <= i < j < |xs| ==> xs[i] != xs[j]
    ensures c.arcMemPool.live == OutdegreeSum(xs) == IndegreeSum(xs)
  {
    CountersAreSums(c, xs);
    IdsDiffer(c, xs);
    SumsCount(c.g.arcs, Ids(xs));
    AllArcsListed(c, xs);
  }

  lemma IdsDiffer(c: Checker, xs: seq<Vertex>)
    requires c.MapsOk() && (forall v :: v in xs ==> v in c.objs) && forall i, j :: 0 <= i < j < |xs| ==> xs[i] != xs[j]
    ensures NoDup(Ids(xs))
  {
    forall i, j | 0 <= i < j < |xs|
      ensures xs[i].id != xs[j].id
    {
      assert c.at[xs[i].id] == xs[i] && c.at[xs[j].id] == xs[j];
    }
  }

  lemma AllArcsListed(c: Checker, xs: seq<Vertex>)
    requires c.MapsOk() && c.GraphOk() && forall v :: v in xs <==> v in c.objs
    ensures OutOfAny(c.g.arcs, Ids(xs)) == c.g.arcs == IntoAny(c.g.arcs, Ids(xs))
  {
    forall e | e in c.g.arcs
      ensures e.0 in Ids(xs) && e.1 in Ids(xs)
    {
      assert Edge(c.g.arcs, e.0, e.1);
      IdListed(c, xs, e.0);
      IdListed(c, xs, e.1);
    }
  }

  lemma IdListed(c: Checker, xs: seq<Vertex>, id: Vid)
    requires c.MapsOk() && (forall v :: v in xs <==> v in c.objs) && id in c.at
    ensures id in Ids(xs)
  {
    var v := c.at[id];
    var k :| 0 <= k < |xs| && xs[k] == v;
    assert Ids(xs)[k] == id;
  }
}

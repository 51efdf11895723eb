/** Walks inside a strongly connected component, and when such a walk is the component's one cycle. */
module Walks {
  import opened Graph
  import opened LockGraphs
  import opened SccSpec

  /** Walks between members of a component never leave it. */
  lemma SccReachInside(a: Arcs, on: set<Vid>, b: set<Vid>, u: Vid, v: Vid)
    requires IsScc(a, on, b) && u in b && v in b
    ensures Reach(a, b, u, v)
  {
    var p :| IsPath(a, on, p) && p[0] == u && p[|p| - 1] == v;
    forall k | 0 <= k < |p|
      ensures p[k] in b
    {
      assert IsPath(a, on, p[..k + 1]) && IsPath(a, on, p[k..]);
      assert Reach(a, on, u, p[k]) && Reach(a, on, p[k], v);
      ReachTrans(a, on, p[k], v, u);
    }
    assert IsPath(a, b, p);
  }

  /** In a component of two vertices or more every vertex has an arc that stays inside. */
  lemma HasArcInside(a: Arcs, on: set<Vid>, b: set<Vid>, u: Vid) returns (w: Vid)
    requires IsScc(a, on, b) && u in b && |b| >= 2
    ensures w in b && Edge(a, u, w)
  {
    assert |b - {u}| == |b| - 1;
    var v :| v in b - {u};
    SccReachInside(a, on, b, u, v);
    w := ReachFirstArc(a, b, u, v);
  }

  /** The walk p follows arcs inside b. */
  ghost predicate WalksIn(a: Arcs, b: set<Vid>, p: seq<Vid>) {
    && (forall k :: 0 <= k < |p| ==> p[k] in b)
    && (forall k :: 0 <= k < |p| - 1 ==> Edge(a, p[k], p[k + 1]))
  }

  ghost predicate OneArcInside(a: Arcs, b: set<Vid>) {
    forall u, v, w :: u in b && v in b && w in b && Edge(a, u, v) && Edge(a, u, w) ==> v == w
  }

  /** A part of the walk that returns to its start has seen the whole component. */
  lemma LoopCoversAll(a: Arcs, on: set<Vid>, b: set<Vid>, p: seq<Vid>, i: nat, j: nat)
    requires IsScc(a, on, b) && OneArcInside(a, b) && WalksIn(a, b, p)
    requires i < j < |p| && p[i] == p[j]
    ensures Elems(p[i..j]) == b
  {
    hide IsScc, Reach;
    var s := Elems(p[i..j]);
    assert forall k :: i <= k < j ==> p[k] == p[i..j][k - i];
    forall u, v | u in s && Edge(a, u, v) && v in b
      ensures v in s
    {
      var k :| i <= k < j && p[k] == u;
      assert Edge(a, p[k], p[k + 1]);
      assert v == p[k + 1];
    }
    forall v | v in b
      ensures v in s
    {
      SccReachInside(a, on, b, p[i], v);
      assert p[i] in s;
      ReachStaysInClosed(a, b, s, p[i], v);
    }
  }

  lemma ElemsSize(p: seq<Vid>)
    ensures |Elems(p)| <= |p|
  {
    if p != [] {
      var q := p[..|p| - 1];
      ElemsSize(q);
      assert Elems(p) == Elems(q) + {p[|p| - 1]};
    }
  }

  /** When every member has one arc inside, a walk of |b| steps visits every vertex of the component
      exactly once and ends where it started. */
  lemma WalkIsTheCycle(a: Arcs, on: set<Vid>, b: set<Vid>, p: seq<Vid>)
    requires IsScc(a, on, b) && OneArcInside(a, b) && WalksIn(a, b, p) && |p| == |b| + 1
    ensures NoDup(p[..|b|]) && Elems(p[..|b|]) == b && p[|b|] == p[0]
  {
    var n := |b|;
    forall i, j | 0 <= i < j <= n && p[i] == p[j]
      ensures i == 0 && j == n
    {
      LoopCoversAll(a, on, b, p, i, j);
      ElemsSize(p[i..j]);
    }
    if NoDup(p) {
      NoDupFits(p, b);
    }
    assert p[..n] == p[0..n];
    LoopCoversAll(a, on, b, p, 0, n);
  }

  lemma NoDupSize(p: seq<Vid>)
    requires NoDup(p)
    ensures |Elems(p)| == |p|
  {
    if p != [] {
      var q := p[..|p| - 1];
      NoDupSize(q);
      assert Elems(p) == Elems(q) + {p[|p| - 1]};
    }
  }

  /** A walk of any length from any vertex of a component. */
  lemma {:induction false} WalkExists(a: Arcs, on: set<Vid>, b: set<Vid>, u: Vid, n: nat) returns (p: seq<Vid>)
    requires IsScc(a, on, b) && |b| >= 2 && u in b
    ensures |p| == n + 1 && p[0] == u && WalksIn(a, b, p)
  {
    if n == 0 {
      p := [u];
    } else {
      var q := WalkExists(a, on, b, u, n - 1);
      var v := HasArcInside(a, on, b, q[n - 1]);
      p := q + [v];
    }
  }

  /** In a component of two vertices or more every vertex has an arc from inside, too. */
  lemma HasArcFromInside(a: Arcs, on: set<Vid>, b: set<Vid>, v: Vid) returns (u: Vid)
    requires IsScc(a, on, b) && v in b && |b| >= 2
    ensures u in b && Edge(a, u, v)
  {
    assert |b - {v}| == |b| - 1;
    var x :| x in b - {v};
    SccReachInside(a, on, b, x, v);
    u := ReachLastArc(a, b, x, v);
  }

  /** A walk that comes back to its start is a cycle. */
  lemma ClosedWalkIsCycle(a: Arcs, b: set<Vid>, p: seq<Vid>)
    requires WalksIn(a, b, p) && |p| >= 2 && p[|p| - 1] == p[0]
    ensures IsCycle(a, p[..|p| - 1])
  {
    var c := p[..|p| - 1];
    forall i | 0 <= i < |c|
      ensures Edge(a, c[i], c[Succ(i, |c|)])
    {
      assert Edge(a, p[i], p[i + 1]);
    }
  }

  /** A lock-graph component of two vertices or more contains a thread. */
  lemma HasThread(g: LockGraph, on: set<Vid>, b: set<Vid>) returns (t: Vid)
    requires WellShaped(g) && IsScc(g.arcs, on, b) && |b| >= 2
    ensures t in b && t.T?
  {
    var u :| u in b;
    var w := HasArcInside(g.arcs, on, b, u);
    t := if u.T? then u else w;
  }
}

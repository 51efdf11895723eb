/** The lock graph as a value: thread and mutex vertices, arcs as ordered pairs,
    reachability inside a set of vertices, strongly connected components, cycles. */
module Graph {

  datatype Vid = T(tid: nat) | M(mid: nat)

  type Arcs = set<(Vid, Vid)>

  ghost predicate Edge(a: Arcs, u: Vid, v: Vid) {
    (u, v) in a
  }

  /** Where the arcs of u lead to, and where the arcs to v come from. */
  function Tails(a: Arcs, u: Vid): set<Vid> {
    set e | e in a && e.0 == u :: e.1
  }

  function Heads(a: Arcs, v: Vid): set<Vid> {
    set e | e in a && e.1 == v :: e.0
  }

  lemma TailsIsArcs(a: Arcs, u: Vid, v: Vid)
    ensures v in Tails(a, u) <==> Edge(a, u, v)
    ensures u in Heads(a, v) <==> Edge(a, u, v)
  {
    if Edge(a, u, v) {
      assert (u, v).1 == v && (u, v).0 == u;
    }
  }

  lemma AddChanges(a: Arcs, u: Vid, v: Vid, x: Vid)
    ensures Tails(a + {(u, v)}, x) == if x == u then Tails(a, x) + {v} else Tails(a, x)
    ensures Heads(a + {(u, v)}, x) == if x == v then Heads(a, x) + {u} else Heads(a, x)
  {
    var b := a + {(u, v)};
    forall y
      ensures y in Tails(b, x) <==> y in Tails(a, x) || (x == u && y == v)
      ensures y in Heads(b, x) <==> y in Heads(a, x) || (x == v && y == u)
    {
      TailsIsArcs(a, x, y);
      TailsIsArcs(b, x, y);
      TailsIsArcs(a, y, x);
      TailsIsArcs(b, y, x);
    }
  }

  lemma DeleteChanges(a: Arcs, u: Vid, v: Vid, x: Vid)
    ensures Tails(a - {(u, v)}, x) == if x == u then Tails(a, x) - {v} else Tails(a, x)
    ensures Heads(a - {(u, v)}, x) == if x == v then Heads(a, x) - {u} else Heads(a, x)
  {
    var b := a - {(u, v)};
    forall y
      ensures y in Tails(b, x) <==> y in Tails(a, x) && !(x == u && y == v)
      ensures y in Heads(b, x) <==> y in Heads(a, x) && !(x == v && y == u)
    {
      TailsIsArcs(a, x, y);
      TailsIsArcs(b, x, y);
      TailsIsArcs(a, y, x);
      TailsIsArcs(b, y, x);
    }
  }

  /** p walks along arcs of a and never leaves on. */
  ghost predicate IsPath(a: Arcs, on: set<Vid>, p: seq<Vid>) {
    && p != []
    && (forall i :: 0 <= i < |p| ==> p[i] in on)
    && (forall i :: 0 <= i < |p| - 1 ==> Edge(a, p[i], p[i + 1]))
  }

  ghost predicate Reach(a: Arcs, on: set<Vid>, u: Vid, v: Vid) {
    exists p :: IsPath(a, on, p) && p[0] == u && p[|p| - 1] == v
  }

  /** No arc inside on leaves s. */
  ghost predicate Closed(a: Arcs, on: set<Vid>, s: set<Vid>) {
    forall u, v {:trigger Edge(a, u, v)} :: u in s && Edge(a, u, v) && v in on ==> v in s
  }

  /** A strongly connected component of the graph cut down to on. */
  ghost predicate IsScc(a: Arcs, on: set<Vid>, b: set<Vid>) {
    && b != {}
    && b <= on
    && (forall u, v :: u in b && v in b ==> Reach(a, on, u, v))
    && (forall u, v :: u in b && Reach(a, on, u, v) && Reach(a, on, v, u) ==> v in b)
  }

  lemma ReachRefl(a: Arcs, on: set<Vid>, u: Vid)
    requires u in on
    ensures Reach(a, on, u, u)
  {
    assert IsPath(a, on, [u]);
  }

  lemma ReachEdge(a: Arcs, on: set<Vid>, u: Vid, v: Vid)
    requires u in on && v in on && Edge(a, u, v)
    ensures Reach(a, on, u, v)
  {
    assert IsPath(a, on, [u, v]);
  }

  lemma ReachTrans(a: Arcs, on: set<Vid>, u: Vid, v: Vid, w: Vid)
    requires Reach(a, on, u, v) && Reach(a, on, v, w)
    ensures Reach(a, on, u, w)
  {
    var p :| IsPath(a, on, p) && p[0] == u && p[|p| - 1] == v;
    var q :| IsPath(a, on, q) && q[0] == v && q[|q| - 1] == w;
    var r := p + q[1..];
    forall i | 0 <= i < |r| - 1
      ensures Edge(a, r[i], r[i + 1])
    {
      if i >= |p| - 1 {
        assert r[i] == q[i - |p| + 1] && r[i + 1] == q[i - |p| + 2];
      }
    }
    assert IsPath(a, on, r);
  }

  lemma ReachEnds(a: Arcs, on: set<Vid>, u: Vid, v: Vid)
    requires Reach(a, on, u, v)
    ensures u in on && v in on
  {
  }

  /** Whatever a closed set reaches lies in the closed set. */
  lemma ReachStaysInClosed(a: Arcs, on: set<Vid>, s: set<Vid>, u: Vid, v: Vid)
    requires Closed(a, on, s) && u in s && Reach(a, on, u, v)
    ensures v in s
  {
    var p :| IsPath(a, on, p) && p[0] == u && p[|p| - 1] == v;
    for i := 0 to |p| - 1
      invariant p[i] in s
    {
      assert Edge(a, p[i], p[i + 1]);
    }
  }

  /** The last arc of a non-trivial walk. */
  lemma ReachLastArc(a: Arcs, on: set<Vid>, u: Vid, v: Vid) returns (x: Vid)
    requires Reach(a, on, u, v) && u != v
    ensures x in on && Edge(a, x, v) && Reach(a, on, u, x)
  {
    var p :| IsPath(a, on, p) && p[0] == u && p[|p| - 1] == v;
    x := p[|p| - 2];
    assert IsPath(a, on, p[..|p| - 1]);
    assert Edge(a, p[|p| - 2], p[|p| - 2 + 1]);
  }

  /** The first arc of a non-trivial walk. */
  lemma ReachFirstArc(a: Arcs, on: set<Vid>, u: Vid, v: Vid) returns (x: Vid)
    requires Reach(a, on, u, v) && u != v
    ensures x in on && Edge(a, u, x) && Reach(a, on, x, v)
  {
    var p :| IsPath(a, on, p) && p[0] == u && p[|p| - 1] == v;
    x := p[1];
    assert Edge(a, p[0], p[0 + 1]);
    assert IsPath(a, on, p[1..]);
  }

  /** Components that share a vertex are equal. */
  lemma SccUnique(a: Arcs, on: set<Vid>, b: set<Vid>, c: set<Vid>, v: Vid)
    requires IsScc(a, on, b) && IsScc(a, on, c) && v in b && v in c
    ensures b == c
  {
  }

  // ---- cycles ----

  function Succ(k: nat, n: nat): nat {
    if k + 1 < n then k + 1 else 0
  }

  /** A closed walk: every vertex has an arc to the next, the last one to the first. */
  ghost predicate IsCycle(a: Arcs, c: seq<Vid>) {
    && c != []
    && forall i {:trigger Succ(i, |c|)} :: 0 <= i < |c| ==> Edge(a, c[i], c[Succ(i, |c|)])
  }

  /** On a cycle everything reaches everything. */
  lemma CycleReach(a: Arcs, on: set<Vid>, c: seq<Vid>, i: nat, j: nat)
    requires IsCycle(a, c) && i < |c| && j < |c|
    requires forall v :: v in c ==> v in on
    ensures Reach(a, on, c[i], c[j])
  {
    assert forall k :: 0 <= k < |c| - 1 ==> Edge(a, c[k], c[Succ(k, |c|)]);
    assert Edge(a, c[|c| - 1], c[Succ(|c| - 1, |c|)]);
    var p := c[i..] + [c[0]];
    forall k | 0 <= k < |p| - 1
      ensures Edge(a, p[k], p[k + 1])
    {
      assert p[k] == c[i + k] && p[k + 1] == c[Succ(i + k, |c|)];
    }
    assert IsPath(a, on, p);
    var q := c[..j + 1];
    forall k | 0 <= k < |q| - 1
      ensures Edge(a, q[k], q[k + 1])
    {
      assert q[k + 1] == c[Succ(k, |c|)];
    }
    assert IsPath(a, on, q);
    ReachTrans(a, on, c[i], c[0], c[j]);
  }

  /** A cycle inside on lies wholly inside the component of any of its vertices. */
  lemma CycleInOneScc(a: Arcs, on: set<Vid>, c: seq<Vid>, b: set<Vid>)
    requires IsCycle(a, c) && IsScc(a, on, b) && c[0] in b
    requires forall v :: v in c ==> v in on
    ensures forall v :: v in c ==> v in b
  {
    forall v | v in c
      ensures v in b
    {
      var i :| 0 <= i < |c| && c[i] == v;
      CycleReach(a, on, c, 0, i);
      CycleReach(a, on, c, i, 0);
    }
  }

  /** Two different vertices of one component lie on a common cycle. */
  lemma SccHasCycle(a: Arcs, on: set<Vid>, b: set<Vid>, u: Vid, v: Vid) returns (c: seq<Vid>)
    requires IsScc(a, on, b) && u in b && v in b && u != v
    ensures IsCycle(a, c) && c[0] == u && v in c && forall x :: x in c ==> x in b
  {
    var p :| IsPath(a, on, p) && p[0] == u && p[|p| - 1] == v;
    var q :| IsPath(a, on, q) && q[0] == v && q[|q| - 1] == u;
    c := p[..|p| - 1] + q[..|q| - 1];
    var n := |p| - 1;
    forall i | 0 <= i < |c|
      ensures Edge(a, c[i], c[Succ(i, |c|)])
    {
      if i < n {
        assert Edge(a, p[i], p[i + 1]);
        assert c[Succ(i, |c|)] == p[i + 1];
      } else {
        assert Edge(a, q[i - n], q[i - n + 1]);
        assert c[Succ(i, |c|)] == q[i - n + 1];
      }
    }
    assert c[n] == v;
    forall x | x in c
      ensures x in b
    {
      var i :| 0 <= i < |c| && c[i] == x;
      assert forall w :: w in c ==> w in on;
      CycleReach(a, on, c, 0, i);
      CycleReach(a, on, c, i, 0);
    }
  }
}

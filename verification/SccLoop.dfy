/** The value-level side of one activation of the recursive search: what its loop over the arcs
    keeps, and what a finished activation promises its caller. */
module SccLoop {
  import opened Utils
  import opened Graph
  import opened SccSpec

  /** Stamps once set never change; the stack and the output only grow. */
  ghost predicate Kept(s0: Scan, s: Scan) {
    && s.dfn.Keys == s0.dfn.Keys
    && (forall v :: v in s0.dfn && s0.dfn[v] != 0 ==> s.dfn[v] == s0.dfn[v])
    && s0.stack <= s.stack && s0.blocks <= s.blocks
    && s0.time <= s.time
  }

  /** What has been stamped since s0 is reached from u. */
  ghost predicate NewReached(c: Ctx, s0: Scan, s: Scan, u: Vid) {
    forall x {:trigger Reach(c.a, c.on, u, x)} ::
      x in c.on && x in s0.dfn && s0.dfn[x] == 0 && x in s.dfn && s.dfn[x] != 0 ==> Reach(c.a, c.on, u, x)
  }

  /** What an activation for v that started in s0 and ended in s promises about v.low. */
  ghost predicate Finished(c: Ctx, s0: Scan, s: Scan, v: Vid, low: int)
    requires c.on <= s.dfn.Keys && v in c.on
  {
    && Kept(s0, s) && NewReached(c, s0, s, v)
    && s0.time < s.dfn[v]
    && low <= s.dfn[v]
    && (|s.stack| == |s0.stack| ==> low == s.dfn[v])
    && (|s.stack| > |s0.stack| ==> LowWitness(c, s, v, low) && LowCovers(c, s, s.stack[|s0.stack|..], s0.stack, low))
  }

  /** The arcs to ws have been looked at: their tails carry stamps, and low accounts for those
      that lie below u. */
  ghost predicate ArcsSeen(c: Ctx, s: Scan, below: seq<Vid>, ws: seq<Vid>, low: int)
    requires c.on <= s.dfn.Keys
  {
    && (forall w :: w in ws && w in c.on ==> s.dfn[w] != 0)
    && (forall w :: w in ws && w in below && w in c.on ==> low <= s.dfn[w])
  }

  /** The loop invariant of the activation for u that started in s0. */
  ghost predicate LoopInv(c: Ctx, s0: Scan, s: Scan, u: Vid, low: int, ws: seq<Vid>) {
    && Shape(c, s)
    && u in c.on
    && Kept(s0, s) && NewReached(c, s0, s, u)
    && |s0.stack| < |s.stack| && s.stack[|s0.stack|] == u
    && s.dfn[u] == s0.time + 1
    && low <= s.dfn[u]
    && LowWitness(c, s, u, low)
    && LowCovers(c, s, s.stack[|s0.stack| + 1..], s0.stack, low)
    && ArcsSeen(c, s, s0.stack, ws, low)
  }

  lemma LoopStarts(c: Ctx, s0: Scan, u: Vid)
    requires Shape(c, s0) && u in c.on && s0.dfn[u] == 0
    ensures LoopInv(c, s0, Pushed(s0, u), u, s0.time + 1, [])
  {
    PushShape(c, s0, u);
    ReachRefl(c.a, c.on, u);
    assert u in Pushed(s0, u).stack;
  }

  lemma LowWitnessKept(c: Ctx, s1: Scan, s2: Scan, u: Vid, low: int)
    requires Shape(c, s1) && c.on <= s2.dfn.Keys && Kept(s1, s2) && LowWitness(c, s1, u, low)
    ensures LowWitness(c, s2, u, low)
  {
    var y :| y in s1.stack && y in c.on && s1.dfn[y] == low && Reach(c.a, c.on, u, y);
    assert y in s2.stack;
  }

  lemma LowCoversKept(c: Ctx, s1: Scan, s2: Scan, xs: seq<Vid>, below: seq<Vid>, low: int, low': int)
    requires Shape(c, s1) && c.on <= s2.dfn.Keys && Kept(s1, s2) && LowCovers(c, s1, xs, below, low)
    requires below <= s1.stack && low' <= low
    ensures LowCovers(c, s2, xs, below, low')
  {
    assert forall y :: y in below ==> y in s1.stack;
  }

  /** Looking at an arc whose tail is already stamped. */
  lemma StampedArc(c: Ctx, s0: Scan, s: Scan, u: Vid, low: int, ws: seq<Vid>, v: Vid)
    requires LoopInv(c, s0, s, u, low, ws) && Edge(c.a, u, v)
    requires v in s.dfn && s.dfn[v] != 0 && (v in c.on || v !in s.stack)
    ensures LoopInv(c, s0, s, u, if v in s.stack then Min(low, s.dfn[v]) else low, ws + [v])
  {
    if v in s.stack {
      ReachEdge(c.a, c.on, u, v);
      LowCoversKept(c, s, s, s.stack[|s0.stack| + 1..], s0.stack, low, Min(low, s.dfn[v]));
    } else {
      forall w | w in s0.stack
        ensures w in s.stack
      {
      }
    }
  }

  /** Looking at an arc to a fresh vertex, after the activation for it has finished. */
  lemma TreeArc(c: Ctx, s0: Scan, s1: Scan, s2: Scan, u: Vid, low: int, ws: seq<Vid>, v: Vid, vlow: int)
    requires LoopInv(c, s0, s1, u, low, ws) && Edge(c.a, u, v)
    requires v in c.on && s1.dfn[v] == 0
    requires Shape(c, s2) && Finished(c, s1, s2, v, vlow)
    ensures LoopInv(c, s0, s2, u, Min(low, vlow), ws + [v])
  {
    hide Reach, NewReached, Shape, LowWitness, LowCovers, ArcsSeen;
    ShapeKeys(c, s1);
    ShapeKeys(c, s2);
    TreeArcReached(c, s0, s1, s2, u, v);
    var n := |s0.stack|;
    var low' := Min(low, vlow);
    LowWitnessKept(c, s1, s2, u, low);
    if vlow < low {
      TreeArcWitness(c, s1, s2, u, v, vlow);
    }
    LowCoversKept(c, s1, s2, s1.stack[n + 1..], s0.stack, low, low');
    TreeArcCovers(c, s1, s2, s0.stack, n + 1, low', vlow);
    TreeArcSeen(c, s0, s1, s2, low, ws, v, low');
  }

  lemma ShapeKeys(c: Ctx, s: Scan)
    requires Shape(c, s)
    ensures c.on <= s.dfn.Keys && forall v :: v in c.on ==> 0 <= s.dfn[v] <= s.time
    ensures forall v :: v in s.stack ==> v in c.on && s.dfn[v] != 0
  {
  }

  lemma TreeArcReached(c: Ctx, s0: Scan, s1: Scan, s2: Scan, u: Vid, v: Vid)
    requires Kept(s0, s1) && Kept(s1, s2) && u in c.on && v in c.on && Edge(c.a, u, v)
    requires NewReached(c, s0, s1, u) && NewReached(c, s1, s2, v)
    ensures NewReached(c, s0, s2, u)
  {
    hide Reach;
    ReachEdge(c.a, c.on, u, v);
    forall x | x in c.on && x in s0.dfn && s0.dfn[x] == 0 && x in s2.dfn && s2.dfn[x] != 0
      ensures Reach(c.a, c.on, u, x)
    {
      if s1.dfn[x] == 0 {
        assert Reach(c.a, c.on, v, x);
        ReachTrans(c.a, c.on, u, v, x);
      }
    }
  }

  lemma TreeArcSeen(c: Ctx, s0: Scan, s1: Scan, s2: Scan, low: int, ws: seq<Vid>, v: Vid, low': int)
    requires Shape(c, s1) && c.on <= s2.dfn.Keys && v in c.on && s1.dfn[v] == 0 && s2.dfn[v] != 0
    requires Kept(s0, s1) && Kept(s1, s2) && ArcsSeen(c, s1, s0.stack, ws, low) && low' <= low
    ensures ArcsSeen(c, s2, s0.stack, ws + [v], low')
  {
    forall w | w in s0.stack
      ensures w in s1.stack && w != v
    {
    }
  }

  lemma TreeArcWitness(c: Ctx, s1: Scan, s2: Scan, u: Vid, v: Vid, vlow: int)
    requires Shape(c, s1) && Shape(c, s2) && u in c.on && v in c.on && Edge(c.a, u, v)
    requires Finished(c, s1, s2, v, vlow) && s1.dfn[u] != 0 && vlow < s1.dfn[u]
    ensures LowWitness(c, s2, u, vlow)
  {
    var y :| y in s2.stack && y in c.on && s2.dfn[y] == vlow && Reach(c.a, c.on, v, y);
    ReachEdge(c.a, c.on, u, v);
    ReachTrans(c.a, c.on, u, v, y);
  }

  lemma TreeArcCovers(c: Ctx, s1: Scan, s2: Scan, below: seq<Vid>, n: nat, low: int, vlow: int)
    requires c.on <= s2.dfn.Keys && s1.stack <= s2.stack && below <= s1.stack && n <= |s1.stack|
    requires LowCovers(c, s2, s1.stack[n..], below, low) && low <= vlow
    requires |s2.stack| > |s1.stack| ==> LowCovers(c, s2, s2.stack[|s1.stack|..], s1.stack, vlow)
    ensures LowCovers(c, s2, s2.stack[n..], below, low)
  {
    forall x, y | x in s2.stack[n..] && y in below && y in c.on && Edge(c.a, x, y)
      ensures low <= s2.dfn[y]
    {
      var i :| n <= i < |s2.stack| && s2.stack[i] == x;
      assert y in s1.stack;
      if i < |s1.stack| {
        assert s1.stack[n..][i - n] == x;
      } else {
        assert s2.stack[|s1.stack|..][i - |s1.stack|] == x;
      }
    }
  }

  lemma LoopFacts(c: Ctx, s0: Scan, s: Scan, u: Vid, low: int, ws: seq<Vid>)
    requires LoopInv(c, s0, s, u, low, ws) && Shape(c, s0)
    ensures s.dfn[u] != 0 && s0.time < s.time
    ensures forall x :: x in s.stack ==> x in c.on
    ensures forall x :: x in s0.dfn && s0.dfn[x] != 0 ==> x in s.dfn && s.dfn[x] != 0
  {
  }

  lemma InvShape(c: Ctx, s: Scan, gray: set<Vid>)
    requires Inv(c, s, gray)
    ensures Shape(c, s)
  {
  }

  /** A fresh successor of u may be visited with u added to the gray vertices. */
  lemma RecursionOk(c: Ctx, s0: Scan, s: Scan, gray: set<Vid>, u: Vid, low: int, ws: seq<Vid>, v: Vid)
    requires LoopInv(c, s0, s, u, low, ws) && Inv(c, s, gray + {u})
    requires GrayOnStack(s0, gray) && v in c.on && Edge(c.a, u, v)
    ensures Rooted(c, v) && forall x :: x in gray + {u} ==> Reach(c.a, c.on, x, v)
    ensures s0.time < s.time
  {
    hide NoDup, Flat, BlocksOk, LowCovers, LowWitness;
    assert u in s.stack;
    var r :| r in c.roots && Reach(c.a, c.on, r, u);
    ReachEdge(c.a, c.on, u, v);
    ReachTrans(c.a, c.on, r, u, v);
    forall x | x in gray
      ensures Reach(c.a, c.on, x, v)
    {
      var j :| 0 <= j < |s0.stack| && s0.stack[j] == x;
      assert s.stack[j] == x && s.stack[|s0.stack|] == u;
      ReachTrans(c.a, c.on, x, u, v);
    }
  }

  // ---- after the loop ----

  ghost predicate AllArcs(c: Ctx, u: Vid, ws: seq<Vid>) {
    forall w :: Edge(c.a, u, w) && w in c.on ==> w in ws
  }

  lemma LowCoversAll(c: Ctx, s0: Scan, s: Scan, u: Vid, low: int, ws: seq<Vid>)
    requires LoopInv(c, s0, s, u, low, ws) && AllArcs(c, u, ws)
    ensures LowCovers(c, s, s.stack[|s0.stack|..], s0.stack, low)
  {
    hide Reach, NoDup, Flat;
    assert s.stack[|s0.stack|..] == [u] + s.stack[|s0.stack| + 1..];
  }

  lemma TopIsNotGray(s0: Scan, top: seq<Vid>, gray: set<Vid>)
    requires NoDup(s0.stack + top) && GrayOnStack(s0, gray)
    ensures forall x :: x in top ==> x !in gray
  {
    NoDupSplit(s0.stack, top);
    forall x | x in top
      ensures x !in gray
    {
      assert x in Elems(top);
    }
  }

  /** The root of a component is ready to be popped. */
  lemma RootReady(c: Ctx, s0: Scan, s: Scan, gray: set<Vid>, u: Vid, ws: seq<Vid>)
    requires LoopInv(c, s0, s, u, s0.time + 1, ws) && AllArcs(c, u, ws)
    requires NoBlackToWhite(c, s, gray + {u})
    requires GrayOnStack(s0, gray) && Shape(c, s0)
    ensures ReadyToPop(c, s, gray, u, s0.stack, s.stack[|s0.stack|..])
  {
    hide Reach, NewReached, Flat, LowWitness, NoDup;
    var below, top := s0.stack, s.stack[|s0.stack|..];
    assert s.stack == below + top;
    LowCoversAll(c, s0, s, u, s0.time + 1, ws);
    TopIsNotGray(s0, top, gray);
    forall x, w | x in top && Edge(c.a, x, w) && w in c.on
      ensures s.dfn[w] != 0
    {
      assert x in s.stack;
    }
    forall x, y | x in top && y in below
      ensures !Edge(c.a, x, y)
    {
      assert y in s0.stack;
    }
  }

  function Rev(p: seq<Vid>): (r: seq<Vid>)
    ensures |r| == |p| && forall k :: 0 <= k < |p| ==> r[k] == p[|p| - 1 - k]
  {
    seq(|p|, k requires 0 <= k < |p| => p[|p| - 1 - k])
  }

  lemma RevOk(p: seq<Vid>)
    requires NoDup(p)
    ensures NoDup(Rev(p)) && Elems(Rev(p)) == Elems(p)
  {
    forall v | v in p
      ensures v in Rev(p)
    {
      var i :| 0 <= i < |p| && p[i] == v;
      assert Rev(p)[|p| - 1 - i] == v;
    }
  }

  lemma PrefixShrinks(st: seq<Vid>, n: nat)
    requires NoDup(st) && 0 < n <= |st|
    ensures forall v :: v in st[..n - 1] <==> v in st[..n] && v != st[n - 1]
  {
    forall v | v in st[..n] && v != st[n - 1]
      ensures v in st[..n - 1]
    {
      var i :| 0 <= i < n && st[i] == v;
      assert st[..n - 1][i] == v;
    }
  }

  lemma StackIndex(st: seq<Vid>, i: nat, j: nat)
    requires NoDup(st) && i < |st| && j < |st|
    ensures st[i] == st[j] <==> i == j
  {
  }

  lemma VisitStarts(c: Ctx, s: Scan, gray: set<Vid>, u: Vid)
    requires Inv(c, s, gray) && u in c.on && u in s.dfn && s.dfn[u] == 0 && Rooted(c, u)
    requires forall x :: x in gray ==> Reach(c.a, c.on, x, u)
    ensures 0 <= s.time && |s.stack| < |c.on| && s.time < |c.on|
    ensures Shape(c, s) && GrayOnStack(s, gray)
    ensures Inv(c, Pushed(s, u), gray + {u})
    ensures LoopInv(c, s, Pushed(s, u), u, s.time + 1, [])
  {
    ClockBounded(c, s);
    LoopStarts(c, s, u);
    PushKeepsInv(c, s, gray, u);
  }

  /** When u keeps its own stamp as low value, the part of the stack from u up can be emitted. */
  lemma PopReady(c: Ctx, s0: Scan, s: Scan, gray: set<Vid>, u: Vid, low: int, ws: seq<Vid>)
    requires LoopInv(c, s0, s, u, low, ws) && Inv(c, s, gray + {u}) && low == s.dfn[u]
    ensures low == s0.time + 1 && NoDup(s.stack) && s0.stack < s.stack && s.stack[|s0.stack|] == u
    ensures |Flat(s.blocks)| + |s.stack| - |s0.stack| <= |c.on| && |s.blocks| < |c.on|
  {
    ClockBounded(c, s);
    BlocksFit(c.a, c.on, s.blocks);
  }

  lemma PopKeepsStamps(c: Ctx, s0: Scan, s: Scan, u: Vid, ws: seq<Vid>, block: seq<Vid>)
    requires LoopInv(c, s0, s, u, s0.time + 1, ws)
    ensures Finished(c, s0, Emitted(s, s0.stack, block), u, s0.time + 1)
  {
    hide Reach, NoDup, Flat, LowWitness, LowCovers, ArcsSeen;
  }

  lemma PopDone(c: Ctx, s0: Scan, s: Scan, gray: set<Vid>, u: Vid, ws: seq<Vid>)
    requires LoopInv(c, s0, s, u, s0.time + 1, ws) && Inv(c, s, gray + {u}) && AllArcs(c, u, ws)
    requires Shape(c, s0) && GrayOnStack(s0, gray) && |s0.stack| <= |s.stack|
    ensures var s' := Emitted(s, s0.stack, Rev(s.stack[|s0.stack|..]));
            Inv(c, s', gray) && Finished(c, s0, s', u, s0.time + 1)
  {
    var below, top := s0.stack, s.stack[|s0.stack|..];
    PopKeepsStamps(c, s0, s, u, ws, Rev(top));
    RootReady(c, s0, s, gray, u, ws);
    hide Reach, NoDup, LoopInv, LowWitness, LowCovers, ArcsSeen, BlocksOk, GrayReachesUp, AllReachGray, AllRooted, Flat;
    NoDupSplit(below, top);
    RevOk(top);
    EmitKeepsInv(c, s, gray, u, below, top, Rev(top));
  }

  /** Otherwise u turns black and stays on the stack. */
  lemma StayDone(c: Ctx, s0: Scan, s: Scan, gray: set<Vid>, u: Vid, low: int, ws: seq<Vid>)
    requires LoopInv(c, s0, s, u, low, ws) && Inv(c, s, gray + {u}) && AllArcs(c, u, ws)
    requires low != s.dfn[u]
    ensures Inv(c, s, gray) && Finished(c, s0, s, u, low)
  {
    BlackenKeepsInv(c, s, gray, u, low);
    LowCoversAll(c, s0, s, u, low, ws);
  }

  lemma RootOk(c: Ctx, u: Vid)
    requires u in c.on && u in c.roots
    ensures Rooted(c, u)
  {
    ReachRefl(c.a, c.on, u);
  }

  lemma NothingStamped(c: Ctx, s: Scan)
    requires Inv(c, s, {}) && s.blocks == []
    ensures forall v :: v in c.on ==> s.dfn[v] == 0
  {
    StackIsEmpty(c, s);
    assert Flat(s.blocks) == [];
  }

  /** After the first root that is visited: its vertices, and so the first block, were reached from it. */
  lemma RootVisited(c: Ctx, order: seq<Vid>, u: Vid, s0: Scan, s: Scan, low: int)
    requires Inv(c, s0, {}) && FirstFrom(c, order, s0.blocks) && u in c.on && s0.dfn[u] == 0
    requires Inv(c, s, {}) && Finished(c, s0, s, u, low)
    ensures FirstFrom(c, order + [u], s.blocks)
  {
    FirstOnAppend(order, u, c.on);
    if FirstOn(order, c.on).None? {
      NothingStamped(c, s0);
      StackIsEmpty(c, s);
      hide Reach, GrayReachesUp, AllReachGray, AllRooted, NoBlackToWhite;
      assert u in Flat(s.blocks) && s.blocks != [];
      forall v | v in s.blocks[0]
        ensures Reach(c.a, c.on, u, v)
      {
        BlockInFlat(s.blocks, 0, v);
        assert v in Done(s);
      }
    } else {
      assert s.blocks[0] == s0.blocks[0];
    }
  }

  /** A root that is stamped when its turn comes is not the first. */
  lemma RootSkipped(c: Ctx, order: seq<Vid>, u: Vid, s: Scan)
    requires Inv(c, s, {}) && FirstFrom(c, order, s.blocks) && u in s.dfn && s.dfn[u] != 0
    ensures FirstFrom(c, order + [u], s.blocks)
  {
    FirstOnAppend(order, u, c.on);
    if FirstOn(order, c.on).None? {
      NothingStamped(c, s);
    }
  }
}

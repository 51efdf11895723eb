/** What the component search keeps true between its steps, and what its output means.
    The search works on the vertices that carry no stamp when it starts (on); a vertex
    stamped earlier is skipped exactly as the source skips it. */
module SccSpec {
  import opened Utils
  import opened Graph

  /** The fixed input of one search: the arcs, the vertices unstamped at its start, and the
      requesting threads it starts from. */
  datatype Ctx = Ctx(a: Arcs, on: set<Vid>, roots: set<Vid>)

  /** The search state: stamps, the stack bottom first, the emitted blocks, the clock. */
  datatype Scan = Scan(dfn: map<Vid, int>, stack: seq<Vid>, blocks: seq<seq<Vid>>, time: int)

  ghost function Elems(s: seq<Vid>): set<Vid> {
    set v | v in s
  }

  function Flat(bs: seq<seq<Vid>>): seq<Vid> {
    if bs == [] then [] else Flat(bs[..|bs| - 1]) + bs[|bs| - 1]
  }

  ghost predicate NoDup(s: seq<Vid>) {
    forall i, j :: 0 <= i < j < |s| ==> s[i] != s[j]
  }

  ghost function Done(s: Scan): set<Vid> {
    Elems(Flat(s.blocks))
  }

  // ---- the output ----

  /** Every block is a component, no vertex occurs twice, and arcs never lead from a block to
      a later one (reverse topological order). */
  ghost predicate BlocksOk(a: Arcs, on: set<Vid>, bs: seq<seq<Vid>>) {
    && NoDup(Flat(bs))
    && (forall i :: 0 <= i < |bs| ==> IsScc(a, on, Elems(bs[i])))
    && (forall n :: 0 <= n <= |bs| ==> Closed(a, on, Elems(Flat(bs[..n]))))
  }

  ghost predicate Rooted(c: Ctx, v: Vid) {
    exists r :: r in c.roots && Reach(c.a, c.on, r, v)
  }

  /** The meaning of a finished search: the blocks are the components of the part of the
      unstamped graph that the requesting threads reach. */
  ghost predicate SccOutput(c: Ctx, bs: seq<seq<Vid>>) {
    && BlocksOk(c.a, c.on, bs)
    && (forall v {:trigger v in Flat(bs)} {:trigger Rooted(c, v)} :: v in Flat(bs) <==> v in c.on && Rooted(c, v))
  }

  /** The first of the roots, in the order in which they are tried, that is unstamped. */
  function FirstOn(order: seq<Vid>, on: set<Vid>): Option<Vid> {
    if order == [] then None else if order[0] in on then Some(order[0]) else FirstOn(order[1..], on)
  }

  /** That root decides the first block: it is a component the root reaches. */
  ghost predicate FirstFrom(c: Ctx, order: seq<Vid>, bs: seq<seq<Vid>>) {
    match FirstOn(order, c.on)
    case None => bs == []
    case Some(r) => bs != [] && forall v :: v in bs[0] ==> Reach(c.a, c.on, r, v)
  }

  lemma {:induction false} FirstOnAppend(order: seq<Vid>, v: Vid, on: set<Vid>)
    ensures FirstOn(order + [v], on) ==
            if FirstOn(order, on).Some? then FirstOn(order, on) else if v in on then Some(v) else None
  {
    if order == [] {
      assert [] + [v] == [v];
    } else {
      FirstOnAppend(order[1..], v, on);
      assert (order + [v])[1..] == order[1..] + [v];
    }
  }

  // ---- the invariant ----

  ghost predicate Shape(c: Ctx, s: Scan) {
    && c.on <= s.dfn.Keys
    && NoDup(s.stack)
    && (forall v :: v in s.stack ==> v in c.on && v !in Done(s))
    && Done(s) <= c.on
    && (forall v :: v in c.on ==> (s.dfn[v] != 0 <==> v in s.stack || v in Done(s)))
    && (forall v :: v in c.on ==> 0 <= s.dfn[v] <= s.time)
    && (forall i, j :: 0 <= i < j < |s.stack| ==> s.dfn[s.stack[i]] < s.dfn[s.stack[j]])
    && s.time == |s.stack| + |Flat(s.blocks)|
  }

  /** A finished (not gray) vertex has only stamped successors. */
  ghost predicate NoBlackToWhite(c: Ctx, s: Scan, gray: set<Vid>)
    requires c.on <= s.dfn.Keys
  {
    forall v, w {:trigger Edge(c.a, v, w)} :: v in s.stack && v !in gray && Edge(c.a, v, w) && w in c.on ==> s.dfn[w] != 0
  }

  /** A gray vertex reaches everything above it on the stack. */
  ghost predicate GrayReachesUp(c: Ctx, s: Scan, gray: set<Vid>)
    requires c.on <= s.dfn.Keys
  {
    forall x, y :: x in gray && y in s.stack && x in c.on && y in c.on && s.dfn[x] <= s.dfn[y] ==> Reach(c.a, c.on, x, y)
  }

  ghost predicate ReachesGrayBelow(c: Ctx, s: Scan, gray: set<Vid>, y: Vid)
    requires c.on <= s.dfn.Keys && y in c.on
  {
    exists x :: x in gray && x in c.on && s.dfn[x] <= s.dfn[y] && Reach(c.a, c.on, y, x)
  }

  ghost predicate AllReachGray(c: Ctx, s: Scan, gray: set<Vid>)
    requires c.on <= s.dfn.Keys
  {
    forall y {:trigger ReachesGrayBelow(c, s, gray, y)} :: y in s.stack && y in c.on ==> ReachesGrayBelow(c, s, gray, y)
  }

  ghost predicate AllRooted(c: Ctx, s: Scan) {
    forall v :: v in s.stack || v in Done(s) ==> Rooted(c, v)
  }

  ghost predicate GrayOnStack(s: Scan, gray: set<Vid>) {
    forall x :: x in gray ==> x in s.stack
  }

  ghost predicate Inv(c: Ctx, s: Scan, gray: set<Vid>) {
    && Shape(c, s)
    && BlocksOk(c.a, c.on, s.blocks)
    && GrayOnStack(s, gray)
    && NoBlackToWhite(c, s, gray)
    && GrayReachesUp(c, s, gray)
    && AllReachGray(c, s, gray)
    && AllRooted(c, s)
  }

  /** What may be stored in u.low while u is on the stack. */
  ghost predicate LowWitness(c: Ctx, s: Scan, u: Vid, low: int)
    requires c.on <= s.dfn.Keys
  {
    exists y :: y in s.stack && y in c.on && s.dfn[y] == low && Reach(c.a, c.on, u, y)
  }

  /** low is no larger than any stamp below the cut that an arc leaving xs hits. */
  ghost predicate LowCovers(c: Ctx, s: Scan, xs: seq<Vid>, below: seq<Vid>, low: int)
    requires c.on <= s.dfn.Keys
  {
    forall x, y {:trigger Edge(c.a, x, y)} :: x in xs && y in below && y in c.on && Edge(c.a, x, y) ==> low <= s.dfn[y]
  }

  // ---- helpers about sequences ----

  lemma FlatAppend(bs: seq<seq<Vid>>, b: seq<Vid>)
    ensures Flat(bs + [b]) == Flat(bs) + b
  {
    assert (bs + [b])[..|bs|] == bs;
  }

  lemma NoDupFits(p: seq<Vid>, on: set<Vid>)
    requires NoDup(p) && forall v :: v in p ==> v in on
    ensures |p| <= |on|
  {
    if p != [] {
      var v := p[|p| - 1];
      forall w | w in p[..|p| - 1]
        ensures w in on - {v}
      {
        var i :| 0 <= i < |p| - 1 && p[i] == w;
      }
      NoDupFits(p[..|p| - 1], on - {v});
    }
  }

  /** The clock counts stamped vertices, so it never passes the number of vertices. */
  lemma ClockBounded(c: Ctx, s: Scan)
    requires Shape(c, s) && NoDup(Flat(s.blocks))
    ensures s.time <= |c.on|
    ensures (exists u :: u in c.on && s.dfn[u] == 0) ==> s.time < |c.on|
  {
    var p := s.stack + Flat(s.blocks);
    assert NoDup(p) by {
      forall i, j | 0 <= i < |s.stack| && 0 <= j < |Flat(s.blocks)|
        ensures s.stack[i] != Flat(s.blocks)[j]
      {
        assert s.stack[i] in s.stack && Flat(s.blocks)[j] in Done(s);
      }
    }
    forall v | v in p
      ensures v in c.on && s.dfn[v] != 0
    {
      assert v in s.stack || v in Done(s);
    }
    NoDupFits(p, c.on);
    if u :| u in c.on && s.dfn[u] == 0 {
      NoDupFits(p, c.on - {u});
    }
  }

  lemma BlocksFit(a: Arcs, on: set<Vid>, bs: seq<seq<Vid>>)
    requires forall i :: 0 <= i < |bs| ==> IsScc(a, on, Elems(bs[i]))
    ensures |bs| <= |Flat(bs)|
  {
    if bs != [] {
      BlocksFit(a, on, bs[..|bs| - 1]);
      var b := bs[|bs| - 1];
      var v :| v in Elems(b);
      assert v in b;
    }
  }

  // ---- the three transitions ----

  ghost function Pushed(s: Scan, u: Vid): Scan {
    s.(dfn := s.dfn[u := s.time + 1], stack := s.stack + [u], time := s.time + 1)
  }

  lemma PushShape(c: Ctx, s: Scan, u: Vid)
    requires Shape(c, s) && u in c.on && s.dfn[u] == 0
    ensures Shape(c, Pushed(s, u))
  {
    var s' := Pushed(s, u);
    forall i, j | 0 <= i < j < |s'.stack|
      ensures s'.stack[i] != s'.stack[j] && s'.dfn[s'.stack[i]] < s'.dfn[s'.stack[j]]
    {
      assert s.stack[i] in s.stack;
      if j < |s.stack| {
        assert s.stack[j] in s.stack;
      }
    }
  }

  lemma PushReach(c: Ctx, s: Scan, gray: set<Vid>, u: Vid)
    requires Shape(c, s) && u in c.on && s.dfn[u] == 0
    requires GrayOnStack(s, gray) && GrayReachesUp(c, s, gray)
    requires forall x :: x in gray ==> Reach(c.a, c.on, x, u)
    ensures GrayReachesUp(c, Pushed(s, u), gray + {u})
  {
    ReachRefl(c.a, c.on, u);
  }

  lemma PushReachGray(c: Ctx, s: Scan, gray: set<Vid>, u: Vid)
    requires Shape(c, s) && u in c.on && s.dfn[u] == 0
    requires GrayOnStack(s, gray) && AllReachGray(c, s, gray)
    ensures AllReachGray(c, Pushed(s, u), gray + {u})
  {
    var s' := Pushed(s, u);
    forall y | y in s'.stack && y in c.on
      ensures ReachesGrayBelow(c, s', gray + {u}, y)
    {
      if y == u {
        ReachRefl(c.a, c.on, u);
      } else {
        assert ReachesGrayBelow(c, s, gray, y);
        var x :| x in gray && x in c.on && s.dfn[x] <= s.dfn[y] && Reach(c.a, c.on, y, x);
        assert s'.dfn[x] <= s'.dfn[y];
      }
    }
  }

  /** Stamping and pushing a fresh vertex. */
  lemma PushKeepsInv(c: Ctx, s: Scan, gray: set<Vid>, u: Vid)
    requires Inv(c, s, gray)
    requires u in c.on && s.dfn[u] == 0 && Rooted(c, u)
    requires forall x :: x in gray ==> Reach(c.a, c.on, x, u)
    ensures Inv(c, Pushed(s, u), gray + {u})
  {
    PushShape(c, s, u);
    PushReach(c, s, gray, u);
    PushReachGray(c, s, gray, u);
  }

  /** Leaving u with a low value below its own stamp: u becomes black and stays on the stack. */
  lemma BlackenReachGray(c: Ctx, s: Scan, gray: set<Vid>, u: Vid, low: int)
    requires c.on <= s.dfn.Keys && u in c.on
    requires AllReachGray(c, s, gray + {u})
    requires LowWitness(c, s, u, low) && low < s.dfn[u]
    ensures AllReachGray(c, s, gray)
  {
    var y0 :| y0 in s.stack && y0 in c.on && s.dfn[y0] == low && Reach(c.a, c.on, u, y0);
    assert ReachesGrayBelow(c, s, gray + {u}, y0);
    var x0 :| x0 in gray + {u} && x0 in c.on && s.dfn[x0] <= s.dfn[y0] && Reach(c.a, c.on, y0, x0);
    ReachTrans(c.a, c.on, u, y0, x0);
    forall y | y in s.stack && y in c.on
      ensures ReachesGrayBelow(c, s, gray, y)
    {
      assert ReachesGrayBelow(c, s, gray + {u}, y);
      var x :| x in gray + {u} && x in c.on && s.dfn[x] <= s.dfn[y] && Reach(c.a, c.on, y, x);
      if x == u {
        ReachTrans(c.a, c.on, y, u, x0);
      }
    }
  }

  lemma BlackenKeepsInv(c: Ctx, s: Scan, gray: set<Vid>, u: Vid, low: int)
    requires u in c.on && Inv(c, s, gray + {u})
    requires LowWitness(c, s, u, low) && low < s.dfn[u]
    requires forall w :: Edge(c.a, u, w) && w in c.on ==> s.dfn[w] != 0
    ensures Inv(c, s, gray)
  {
    BlackenReachGray(c, s, gray, u, low);
  }

  // ---- emitting a block ----

  /** The stack splits at u, everything from u up is finished, and no arc from there hits a
      vertex below u. */
  ghost predicate ReadyToPop(c: Ctx, s: Scan, gray: set<Vid>, u: Vid, below: seq<Vid>, top: seq<Vid>) {
    && c.on <= s.dfn.Keys
    && s.stack == below + top && top != [] && top[0] == u
    && (forall x :: x in gray ==> x in below)
    && (forall x, w {:trigger Edge(c.a, x, w)} ::
          x in top && Edge(c.a, x, w) && w in c.on ==> w in s.stack || w in Done(s))
    && (forall x, y :: x in top && y in below ==> !Edge(c.a, x, y))
  }

  lemma TopMeetsRoot(c: Ctx, s: Scan, gray: set<Vid>, u: Vid, below: seq<Vid>, top: seq<Vid>, y: Vid)
    requires ReadyToPop(c, s, gray, u, below, top) && Shape(c, s)
    requires GrayReachesUp(c, s, gray + {u}) && AllReachGray(c, s, gray + {u})
    requires y in top
    ensures Reach(c.a, c.on, u, y) && Reach(c.a, c.on, y, u)
  {
    var n := |below|;
    var i :| 0 <= i < |top| && top[i] == y;
    assert s.stack[n] == u && s.stack[n + i] == y;
    assert u in s.stack && y in s.stack;
    assert ReachesGrayBelow(c, s, gray + {u}, y);
    var x :| x in gray + {u} && x in c.on && s.dfn[x] <= s.dfn[y] && Reach(c.a, c.on, y, x);
    if x != u {
      var j :| 0 <= j < n && below[j] == x;
      assert s.stack[j] == x;
      ReachTrans(c.a, c.on, y, x, u);
    }
  }

  /** Finished vertices together with the part from u up have no way out. */
  lemma TopIsClosed(c: Ctx, s: Scan, gray: set<Vid>, u: Vid, below: seq<Vid>, top: seq<Vid>)
    requires ReadyToPop(c, s, gray, u, below, top)
    requires Closed(c.a, c.on, Done(s))
    ensures Closed(c.a, c.on, Done(s) + Elems(top))
  {
  }

  /** The part of the stack from u upwards is a component when u.low equals u's stamp. */
  lemma TopIsScc(c: Ctx, s: Scan, gray: set<Vid>, u: Vid, below: seq<Vid>, top: seq<Vid>)
    requires ReadyToPop(c, s, gray, u, below, top) && Shape(c, s)
    requires GrayReachesUp(c, s, gray + {u}) && AllReachGray(c, s, gray + {u})
    requires Closed(c.a, c.on, Done(s))
    ensures IsScc(c.a, c.on, Elems(top))
  {
    var b := Elems(top);
    assert u in b;
    forall x | x in b
      ensures x in c.on && x !in Done(s)
    {
      var i :| 0 <= i < |top| && top[i] == x;
      assert s.stack[|below| + i] == x;
    }
    forall x, y | x in b && y in b
      ensures Reach(c.a, c.on, x, y)
    {
      TopMeetsRoot(c, s, gray, u, below, top, x);
      TopMeetsRoot(c, s, gray, u, below, top, y);
      ReachTrans(c.a, c.on, x, u, y);
    }
    TopIsClosed(c, s, gray, u, below, top);
    forall x, z | x in b && Reach(c.a, c.on, x, z) && Reach(c.a, c.on, z, x)
      ensures z in b
    {
      ReachStaysInClosed(c.a, c.on, Done(s) + b, x, z);
      if z in Done(s) {
        ReachStaysInClosed(c.a, c.on, Done(s), z, x);
      }
    }
  }

  ghost function Emitted(s: Scan, below: seq<Vid>, block: seq<Vid>): Scan {
    s.(stack := below, blocks := s.blocks + [block])
  }

  lemma EmitDone(s: Scan, below: seq<Vid>, block: seq<Vid>)
    ensures Done(Emitted(s, below, block)) == Done(s) + Elems(block)
  {
    FlatAppend(s.blocks, block);
  }

  lemma NoDupSplit(below: seq<Vid>, top: seq<Vid>)
    requires NoDup(below + top)
    ensures NoDup(below) && NoDup(top) && Elems(below) !! Elems(top)
  {
    var st := below + top;
    forall i, j | 0 <= i < |below| && 0 <= j < |top|
      ensures below[i] != top[j]
    {
      assert st[i] != st[|below| + j];
    }
    forall i, j | 0 <= i < j < |below|
      ensures below[i] != below[j]
    {
      assert st[i] != st[j];
    }
    forall i, j | 0 <= i < j < |top|
      ensures top[i] != top[j]
    {
      assert st[|below| + i] != st[|below| + j];
    }
  }

  lemma EmitShape(c: Ctx, s: Scan, below: seq<Vid>, top: seq<Vid>, block: seq<Vid>)
    requires Shape(c, s) && s.stack == below + top && Elems(block) == Elems(top) && |block| == |top|
    ensures Shape(c, Emitted(s, below, block))
  {
    var s' := Emitted(s, below, block);
    EmitDone(s, below, block);
    FlatAppend(s.blocks, block);
    NoDupSplit(below, top);
    forall v
      ensures v in s.stack <==> v in below || v in Elems(top)
    {
    }
    forall v | v in below
      ensures v !in Elems(top)
    {
      assert v in Elems(below);
    }
    forall i, j | 0 <= i < j < |below|
      ensures s'.dfn[below[i]] < s'.dfn[below[j]]
    {
      assert s.stack[i] == below[i] && s.stack[j] == below[j];
    }
  }

  lemma EmitBlocks(c: Ctx, s: Scan, below: seq<Vid>, block: seq<Vid>)
    requires BlocksOk(c.a, c.on, s.blocks) && IsScc(c.a, c.on, Elems(block))
    requires NoDup(block) && Done(s) !! Elems(block)
    requires Closed(c.a, c.on, Done(s) + Elems(block))
    ensures BlocksOk(c.a, c.on, Emitted(s, below, block).blocks)
  {
    var bs' := s.blocks + [block];
    FlatAppend(s.blocks, block);
    EmitDone(s, below, block);
    var f := Flat(s.blocks);
    assert NoDup(f + block) by {
      forall i, j | 0 <= i < |f| && 0 <= j < |block|
        ensures f[i] != block[j]
      {
        assert f[i] in Done(s) && block[j] in Elems(block);
      }
    }
    forall n | 0 <= n <= |bs'|
      ensures Closed(c.a, c.on, Elems(Flat(bs'[..n])))
    {
      assert bs'[..n] == if n <= |s.blocks| then s.blocks[..n] else bs';
    }
  }

  lemma EmitReachGray(c: Ctx, s: Scan, gray: set<Vid>, u: Vid, below: seq<Vid>, top: seq<Vid>, s': Scan)
    requires ReadyToPop(c, s, gray, u, below, top) && Shape(c, s)
    requires AllReachGray(c, s, gray + {u})
    requires s'.dfn == s.dfn && s'.stack == below
    ensures AllReachGray(c, s', gray)
  {
    forall y | y in below && y in c.on
      ensures ReachesGrayBelow(c, s', gray, y)
    {
      assert y in s.stack;
      assert ReachesGrayBelow(c, s, gray + {u}, y);
      var x :| x in gray + {u} && x in c.on && s.dfn[x] <= s.dfn[y] && Reach(c.a, c.on, y, x);
      var j :| 0 <= j < |below| && below[j] == y;
      assert s.stack[j] == y && s.stack[|below|] == u;
    }
  }

  /** Popping that component and emitting it as a block. */
  lemma EmitKeepsInv(c: Ctx, s: Scan, gray: set<Vid>, u: Vid, below: seq<Vid>, top: seq<Vid>, block: seq<Vid>)
    requires Inv(c, s, gray + {u}) && ReadyToPop(c, s, gray, u, below, top)
    requires NoDup(block) && Elems(block) == Elems(top) && |block| == |top|
    ensures Inv(c, Emitted(s, below, block), gray)
  {
    var s' := Emitted(s, below, block);
    assert Closed(c.a, c.on, Done(s)) by {
      assert s.blocks[..|s.blocks|] == s.blocks;
    }
    TopIsScc(c, s, gray, u, below, top);
    TopIsClosed(c, s, gray, u, below, top);
    EmitShape(c, s, below, top, block);
    assert Done(s) !! Elems(block) by {
      forall v | v in Elems(block)
        ensures v !in Done(s)
      {
        assert v in Elems(top);
        assert v in s.stack;
      }
    }
    EmitBlocks(c, s, below, block);
    EmitReachGray(c, s, gray, u, below, top, s');
    EmitRest(c, s, gray, u, below, top, block);
  }

  lemma EmitRest(c: Ctx, s: Scan, gray: set<Vid>, u: Vid, below: seq<Vid>, top: seq<Vid>, block: seq<Vid>)
    requires ReadyToPop(c, s, gray, u, below, top) && Elems(block) == Elems(top)
    requires GrayReachesUp(c, s, gray + {u}) && AllRooted(c, s)
    requires NoBlackToWhite(c, s, gray + {u})
    requires NoDup(s.stack)
    ensures GrayReachesUp(c, Emitted(s, below, block), gray) && AllRooted(c, Emitted(s, below, block))
    ensures NoBlackToWhite(c, Emitted(s, below, block), gray)
  {
    EmitDone(s, below, block);
    forall v | v in block
      ensures v in s.stack
    {
      assert v in Elems(block);
      assert v in Elems(top);
    }
    assert forall v :: v in below ==> v in s.stack;
    NoDupSplit(below, top);
    assert u in Elems(top);
    forall v | v in below
      ensures v != u
    {
      assert v in Elems(below);
    }
  }

  // ---- start and end of a search ----

  lemma StartInv(c: Ctx, s: Scan)
    requires c.on <= s.dfn.Keys && s.stack == [] && s.blocks == [] && s.time == 0
    requires forall v :: v in c.on ==> s.dfn[v] == 0
    ensures Inv(c, s, {})
  {
    assert Flat([]) == [];
    forall n | 0 <= n <= |s.blocks|
      ensures Closed(c.a, c.on, Elems(Flat(s.blocks[..n])))
    {
      assert s.blocks[..n] == [];
    }
  }

  /** Between two roots nothing is left on the stack. */
  lemma StackIsEmpty(c: Ctx, s: Scan)
    requires Inv(c, s, {})
    ensures s.stack == []
  {
    assert s.stack != [] ==> s.stack[0] in s.stack;
    forall y | y in s.stack
      ensures ReachesGrayBelow(c, s, {}, y)
    {
    }
  }

  /** When every unstamped root has been visited, the blocks are the answer. */
  lemma SearchComplete(c: Ctx, s: Scan)
    requires Inv(c, s, {})
    requires forall r :: r in c.roots && r in c.on ==> s.dfn[r] != 0
    ensures SccOutput(c, s.blocks)
    ensures forall v :: v in c.on ==> (s.dfn[v] != 0 <==> v in Flat(s.blocks))
  {
    StackIsEmpty(c, s);
    var d := Done(s);
    assert s.blocks[..|s.blocks|] == s.blocks;
    forall v | v in c.on && Rooted(c, v)
      ensures v in Flat(s.blocks)
    {
      var r :| r in c.roots && Reach(c.a, c.on, r, v);
      ReachStaysInClosed(c.a, c.on, d, r, v);
      assert v in d;
    }
    forall v | v in Flat(s.blocks)
      ensures v in c.on && Rooted(c, v)
    {
      assert v in d;
    }
  }

  // ---- reading the output ----

  lemma {:induction false} InSomeBlock(bs: seq<seq<Vid>>, v: Vid) returns (i: nat)
    requires v in Flat(bs)
    ensures i < |bs| && v in bs[i]
  {
    i := |bs| - 1;
    if v !in bs[i] {
      i := InSomeBlock(bs[..i], v);
    }
  }

  lemma {:induction false} BlockInFlat(bs: seq<seq<Vid>>, i: nat, v: Vid)
    requires i < |bs| && v in bs[i]
    ensures v in Flat(bs)
  {
    if i < |bs| - 1 {
      assert bs[..|bs| - 1][i] == bs[i];
      BlockInFlat(bs[..|bs| - 1], i, v);
    }
  }

  /** No vertex is in two blocks. */
  lemma {:induction false} BlocksDisjoint(bs: seq<seq<Vid>>, i: nat, j: nat, v: Vid)
    requires NoDup(Flat(bs)) && i < j < |bs| && v in bs[i]
    ensures v !in bs[j]
  {
    var n := |bs| - 1;
    NoDupSplit(Flat(bs[..n]), bs[n]);
    hide NoDup;
    assert bs[..n][i] == bs[i];
    if j == n {
      BlockInFlat(bs[..n], i, v);
      assert v in Elems(Flat(bs[..n]));
      assert v !in Elems(bs[n]);
    } else {
      assert bs[..n][j] == bs[j];
      BlocksDisjoint(bs[..n], i, j, v);
    }
  }

  /** Every component that the roots reach is one of the blocks, at exactly one position. */
  lemma EachComponentOnce(c: Ctx, bs: seq<seq<Vid>>, b: set<Vid>, v: Vid) returns (i: nat)
    requires SccOutput(c, bs) && IsScc(c.a, c.on, b) && v in b && Rooted(c, v)
    ensures i < |bs| && Elems(bs[i]) == b
    ensures forall j :: 0 <= j < |bs| && Elems(bs[j]) == b ==> j == i
  {
    i := InSomeBlock(bs, v);
    assert v in Elems(bs[i]);
    SccUnique(c.a, c.on, b, Elems(bs[i]), v);
    forall j | 0 <= j < |bs| && Elems(bs[j]) == b
      ensures j == i
    {
      assert v in Elems(bs[j]);
      if j < i {
        BlocksDisjoint(bs, j, i, v);
      } else if i < j {
        BlocksDisjoint(bs, i, j, v);
      }
    }
  }

  /** Reverse topological order: an arc between emitted vertices never leads to a later block. */
  lemma ArcsLeadBack(c: Ctx, bs: seq<seq<Vid>>, i: nat, u: Vid, v: Vid) returns (j: nat)
    requires SccOutput(c, bs) && i < |bs| && u in bs[i] && Edge(c.a, u, v) && v in c.on
    ensures j <= i && v in bs[j]
  {
    var p := bs[..i + 1];
    assert p[i] == bs[i];
    BlockInFlat(p, i, u);
    assert u in Elems(Flat(p));
    assert v in Elems(Flat(p));
    j := InSomeBlock(p, v);
  }
}

/** The recursive search of eventLoop.c over vertex objects, with its stack array and its two
    output arrays. */
module Tarjan {
  import opened Utils
  import opened Graph
  import opened Vertices
  import opened SccSpec
  import opened SccLoop

  class SccSearch {
    const stack: array<Vertex?>
    const ssc: array<Vertex?>
    const sscCount: array<int>
    var top: int
    var sscStep: int
    var countStep: int
    var time: int

    ghost const objs: set<Vertex>     // every vertex of the graph
    ghost const at: map<Vid, Vertex>  // and where it is
    ghost const c: Ctx
    ghost var s: Scan

    /** The static arrays, cleared, and the clock at 0. */
    constructor (capacity: nat, ghost objs: set<Vertex>, ghost at: map<Vid, Vertex>, ghost c: Ctx, ghost s: Scan)
      requires s.stack == [] && s.blocks == [] && s.time == 0
      ensures this.objs == objs && this.at == at && this.c == c && this.s == s
      ensures fresh(stack) && fresh(ssc) && fresh(sscCount) && stack != ssc
      ensures stack.Length == ssc.Length == sscCount.Length == capacity
      ensures top == -1 && sscStep == 0 && countStep == 0 && time == 0
      ensures forall k :: 0 <= k < capacity ==> sscCount[k] == 0
    {
      stack := new Vertex?[capacity](_ => null);
      ssc := new Vertex?[capacity](_ => null);
      sscCount := new int[capacity](_ => 0);
      top, sscStep, countStep, time := -1, 0, 0, 0;
      this.objs, this.at, this.c, this.s := objs, at, c, s;
    }

    /** The arc list of v spells out the arcs of c that leave v. */
    ghost predicate ArcsOk(v: Vertex)
      reads v`arcList
    {
      && (forall k :: 0 <= k < |v.arcList| ==> v.arcList[k] in objs && Edge(c.a, v.id, v.arcList[k].id))
      && AllArcs(c, v.id, Ids(v.arcList))
    }

    ghost predicate GraphOk()
      reads objs`arcList
    {
      forall v {:trigger ArcsOk(v)} :: v in objs ==> ArcsOk(v)
    }

    /** No two vertex objects share an id. */
    ghost predicate IdsOk() {
      forall v :: v in objs ==> v.id in at && at[v.id] == v
    }

    /** The stamps of the objects are those of s. */
    ghost predicate MarksOk()
      reads this`s, this`time, objs`dfn, objs`inStack
    {
      && (forall v :: v in objs ==> v.id in s.dfn && v.dfn == s.dfn[v.id])
      && (forall v :: v in objs ==> (v.inStack <==> v.id in s.stack))
      && (forall v :: v in objs && v.id !in c.on ==> v.dfn != 0)
      && time == s.time
    }

    ghost predicate StackOk()
      reads this`s, this`top, stack
    {
      && top == |s.stack| - 1
      && |s.stack| <= stack.Length
      && (forall k :: 0 <= k < |s.stack| ==> stack[k] in objs && stack[k].id == s.stack[k])
    }

    ghost predicate OutputOk()
      reads this`s, this`sscStep, this`countStep, ssc, sscCount
    {
      && sscStep == |Flat(s.blocks)| <= ssc.Length
      && countStep == |s.blocks| <= sscCount.Length
      && (forall k :: 0 <= k < sscStep ==> ssc[k] in objs && ssc[k].id == Flat(s.blocks)[k])
      && (forall k :: 0 <= k < countStep ==> sscCount[k] == |s.blocks[k]|)
      && (forall k :: countStep <= k < sscCount.Length ==> sscCount[k] == 0)
    }

    ghost predicate Valid()
      reads this, stack, ssc, sscCount, objs`arcList, objs`dfn, objs`inStack
    {
      && stack != ssc
      && |c.on| <= stack.Length == ssc.Length == sscCount.Length
      && IdsOk() && GraphOk() && MarksOk() && StackOk() && OutputOk()
    }

    /** Stamps u and pushes it. */
    method Enter(u: Vertex)
      requires Valid() && |s.stack| < stack.Length && 0 <= s.time
      requires u in objs
      modifies this`top, this`time, this`s, stack, u`dfn, u`low, u`inStack
      ensures Valid() && s == Pushed(old(s), u.id)
      ensures u.low == s.time
    {
      hide Flat, GraphOk;
      time := time + 1;
      u.dfn, u.low := time, time;
      top := top + 1;
      stack[top] := u;
      u.inStack := true;
      s := Pushed(s, u.id);
    }

    /** The state of the do-while loop after count pops from p. */
    ghost predicate Popping(p: Scan, count: nat)
      reads this`top, this`sscStep, this`time, stack, ssc, objs`dfn, objs`inStack
    {
      var f := |Flat(p.blocks)|;
      && count <= |p.stack| <= stack.Length && NoDup(p.stack) && stack != ssc
      && top == |p.stack| - 1 - count && sscStep == f + count <= ssc.Length && time == p.time
      && (forall k :: 0 <= k < |p.stack| ==> stack[k] in objs && stack[k].id == p.stack[k])
      && (forall j :: 0 <= j < f ==> ssc[j] in objs && ssc[j].id == Flat(p.blocks)[j])
      && (forall j :: f <= j < f + count ==> ssc[j] in objs && ssc[j].id == p.stack[|p.stack| - 1 - (j - f)])
      && (forall v :: v in objs ==> v.id in p.dfn && v.dfn == p.dfn[v.id])
      && MarkedOn(p.stack[..|p.stack| - count])
      && (forall v :: v in objs && v.id !in c.on ==> v.dfn != 0)
    }

    ghost predicate MarkedOn(st: seq<Vid>)
      reads objs`inStack
    {
      forall v :: v in objs ==> (v.inStack <==> v.id in st)
    }

    method PopOne(ghost p: Scan, ghost count: nat) returns (w: Vertex)
      requires IdsOk() && Popping(p, count) && count < |p.stack| && sscStep < ssc.Length
      modifies this`top, this`sscStep, ssc, objs`inStack
      ensures Popping(p, count + 1) && sscStep == old(sscStep) + 1
      ensures w in objs && w.id == p.stack[|p.stack| - 1 - count]
    {
      PrefixShrinks(p.stack, |p.stack| - count);
      hide NoDup, Flat;
      w := stack[top];
      top := top - 1;
      w.inStack := false;
      assert MarkedOn(p.stack[..|p.stack| - count - 1]);
      hide MarkedOn, IdsOk;
      ssc[sscStep] := w;
      sscStep := sscStep + 1;
    }

    lemma PopStarts()
      requires Valid() && NoDup(s.stack)
      ensures Popping(s, 0)
    {
      hide NoDup, Flat;
      assert s.stack[..|s.stack|] == s.stack;
    }

    lemma PopFinished(p: Scan, below: seq<Vid>)
      requires below < p.stack && Popping(p, |p.stack| - |below|)
      requires s == Emitted(p, below, Rev(p.stack[|below|..]))
      ensures MarksOk() && StackOk()
      ensures sscStep == |Flat(s.blocks)| <= ssc.Length
      ensures forall k :: 0 <= k < sscStep ==> ssc[k] in objs && ssc[k].id == Flat(s.blocks)[k]
    {
      FlatAppend(p.blocks, Rev(p.stack[|below|..]));
      assert p.stack[..|below|] == below;
    }

    /** Pops the stack down to u, writes the popped vertices to ssc and their number to sscCount. */
    method PopBlock(u: Vertex, ghost below: seq<Vid>)
      requires Valid() && NoDup(s.stack)
      requires below < s.stack && u in objs && s.stack[|below|] == u.id
      requires |Flat(s.blocks)| + |s.stack| - |below| <= ssc.Length && |s.blocks| < sscCount.Length
      modifies this`top, this`sscStep, this`countStep, this`s, ssc, sscCount, objs`inStack
      ensures Valid() && s == Emitted(old(s), below, Rev(old(s).stack[|below|..]))
    {
      hide NoDup, Flat, GraphOk, Popping, MarksOk, StackOk;
      ghost var p, n := s, |s.stack| - |below|;
      PopStarts();
      var count := 0;
      var w: Vertex? := null;
      while w != u
        invariant 0 <= count <= n
        invariant w == u <==> count == n
        invariant Popping(p, count) && s == p && countStep == |s.blocks| && sscStep == |Flat(p.blocks)| + count
        invariant forall k :: 0 <= k < sscCount.Length ==> sscCount[k] == old(sscCount[k])
        decreases n - count
      {
        StackIndex(p.stack, |p.stack| - 1 - count, |below|);
        w := PopOne(p, count);
        count := count + 1;
      }
      sscCount[countStep] := count;
      countStep := countStep + 1;
      s := Emitted(s, below, Rev(p.stack[|below|..]));
      PopFinished(p, below);
    }

    /** tarjan: visits everything that u reaches and that is still unstamped. */
    method Visit(u: Vertex, ghost gray: set<Vid>)
      requires Valid() && Inv(c, s, gray)
      requires u in objs && u.id in c.on && s.dfn[u.id] == 0 && Rooted(c, u.id)
      requires forall x :: x in gray ==> Reach(c.a, c.on, x, u.id)
      modifies this, stack, ssc, sscCount, objs`dfn, objs`low, objs`inStack
      ensures Valid() && Inv(c, s, gray)
      ensures Finished(c, old(s), s, u.id, u.low)
      ensures forall v :: v in objs && old(v.dfn) != 0 ==> v.low == old(v.low)
      decreases |c.on| - s.time, 1
    {
      hide Inv, LoopInv, Finished, Reach, Rooted, Shape, GrayOnStack, StackOk, OutputOk;
      ghost var s0 := s;
      VisitStarts(c, s, gray, u.id);
      Enter(u);
      var head := 0;
      while head < |u.arcList|
        invariant 0 <= head <= |u.arcList|
        invariant Valid() && Inv(c, s, gray + {u.id})
        invariant LoopInv(c, s0, s, u.id, u.low, Ids(u.arcList[..head]))
        invariant forall v :: v in objs && old(v.dfn) != 0 ==> v.low == old(v.low)
      {
        LoopFacts(c, s0, s, u.id, u.low, Ids(u.arcList[..head]));
        FollowArc(u, head, s0, gray);
        head := head + 1;
      }
      assert ArcsOk(u);
      assert u.arcList[..head] == u.arcList;
      ghost var ws := Ids(u.arcList);
      if u.dfn == u.low {
        PopReady(c, s0, s, gray, u.id, u.low, ws);
        PopDone(c, s0, s, gray, u.id, ws);
        PopBlock(u, s0.stack);
      } else {
        StayDone(c, s0, s, gray, u.id, u.low, ws);
      }
    }

    /** One turn of the loop over u's arcs. */
    method FollowArc(u: Vertex, head: nat, ghost s0: Scan, ghost gray: set<Vid>)
      requires Valid() && Inv(c, s, gray + {u.id})
      requires u in objs && head < |u.arcList|
      requires Shape(c, s0) && GrayOnStack(s0, gray)
      requires LoopInv(c, s0, s, u.id, u.low, Ids(u.arcList[..head]))
      modifies this, stack, ssc, sscCount, objs`dfn, objs`low, objs`inStack
      ensures Valid() && Inv(c, s, gray + {u.id})
      ensures LoopInv(c, s0, s, u.id, u.low, Ids(u.arcList[..head + 1]))
      ensures forall v :: v in objs && v != u && old(v.dfn) != 0 ==> v.low == old(v.low)
      decreases |c.on| - s.time, 2
    {
      hide Inv, LoopInv, Finished, Reach, Rooted, Shape, GrayOnStack, StackOk, OutputOk;
      LoopFacts(c, s0, s, u.id, u.low, Ids(u.arcList[..head]));
      assert ArcsOk(u);
      var v := u.arcList[head];
      ghost var ws := Ids(u.arcList[..head]);
      assert Ids(u.arcList[..head + 1]) == ws + [v.id];
      ghost var s1, low := s, u.low;
      if v.dfn == 0 {
        RecursionOk(c, s0, s, gray, u.id, low, ws, v.id);
        Visit(v, gray + {u.id});
        InvShape(c, s, gray + {u.id});
        TreeArc(c, s0, s1, s, u.id, low, ws, v.id, v.low);
        u.low := Min(u.low, v.low);
      } else {
        StampedArc(c, s0, s, u.id, u.low, ws, v.id);
        if v.inStack {
          u.low := Min(u.low, v.dfn);
        }
      }
    }

    /** One turn of the root loop. */
    method TryRoot(u: Vertex, ghost before: seq<Vid>)
      requires Valid() && Inv(c, s, {}) && FirstFrom(c, before, s.blocks)
      requires u in objs && u.id in c.roots
      modifies this, stack, ssc, sscCount, objs`dfn, objs`low, objs`inStack
      ensures Valid() && Inv(c, s, {}) && FirstFrom(c, before + [u.id], s.blocks)
      ensures u.id in s.dfn && s.dfn[u.id] != 0
      ensures forall x :: x in old(s).dfn && old(s).dfn[x] != 0 ==> x in s.dfn && s.dfn[x] != 0
    {
      hide Inv, FirstFrom, Reach, OutputOk, StackOk, Rooted;
      if u.dfn == 0 {
        ghost var s0 := s;
        RootOk(c, u.id);
        InvShape(c, s, {});
        Visit(u, {});
        RootVisited(c, before, u.id, s0, s, u.low);
        InvShape(c, s, {});
      } else {
        RootSkipped(c, before, u.id, s);
      }
    }

    /** The root loop of strongConnectedComponent over the requesting threads, in the order in which
        the hash map iterator yields them. */
    method SearchAll(order: seq<Vertex>)
      requires Valid() && Inv(c, s, {}) && s.blocks == []
      requires forall u :: u in order ==> u in objs && u.id in c.roots
      requires forall r :: r in c.roots ==> r in Ids(order)
      modifies this, stack, ssc, sscCount, objs`dfn, objs`low, objs`inStack
      ensures Valid() && s.stack == []
      ensures SccOutput(c, s.blocks) && FirstFrom(c, Ids(order), s.blocks)
      ensures forall v :: v in objs ==> (v.dfn != 0 <==> v.id !in c.on || v.id in Flat(s.blocks))
    {
      hide *;
      NoRootsYet(c, s);
      var k := 0;
      assert order[..k] == [];
      while k < |order|
        invariant 0 <= k <= |order|
        invariant Valid() && Inv(c, s, {}) && FirstFrom(c, Ids(order[..k]), s.blocks)
        invariant forall j :: 0 <= j < k ==> order[j].id in s.dfn && s.dfn[order[j].id] != 0
      {
        TryRoot(order[k], Ids(order[..k]));
        IdsAppend(order, k);
        k := k + 1;
      }
      assert order[..k] == order;
      forall r | r in c.roots && r in c.on
        ensures s.dfn[r] != 0
      {
        var j :| 0 <= j < |order| && Ids(order)[j] == r;
      }
      StackIsEmpty(c, s);
      SearchComplete(c, s);
      StampsMatch();
    }

    lemma StampsMatch()
      requires Valid()
      ensures forall v :: v in objs ==> v.id in s.dfn && v.dfn == s.dfn[v.id] && (v.id !in c.on ==> v.dfn != 0)
    {
    }

    /** displayInfo: walks the two output arrays and hands every block of two vertices or more to
        the report, in order; it stops at the first zero count. */
    method DisplayInfo() returns (shown: seq<seq<Vertex>>)
      requires Valid() && forall i :: 0 <= i < |s.blocks| ==> |s.blocks[i]| > 0
      ensures BlockIds(shown) == Big(s.blocks)
    {
      hide Big, BlockIds, GraphOk, MarksOk, IdsOk, StackOk;
      shown := [];
      var base, i := 0, 0;
      ShownNone();
      while i < sscCount.Length && sscCount[i] != 0
        invariant 0 <= i <= |s.blocks|
        invariant base == |Flat(s.blocks[..i])|
        invariant BlockIds(shown) == Big(s.blocks[..i])
      {
        var n := sscCount[i];
        SliceIsBlock(s.blocks, i);
        ghost var f := Flat(s.blocks);
        assert forall k :: base <= k < base + n ==> ssc[k] in objs && ssc[k].id == f[k];
        if n > 1 {
          var block: seq<Vertex> := ssc[base..base + n];
          shown := shown + [block];
          assert Ids(block) == s.blocks[i];
          ShownOneMore(shown, block, s.blocks, i);
        } else {
          ShownSame(s.blocks, i);
        }
        base := base + n;
        i := i + 1;
      }
      assert s.blocks[..i] == s.blocks;
    }
  }

  function Ids(xs: seq<Vertex>): (r: seq<Vid>)
    ensures |r| == |xs| && forall k :: 0 <= k < |xs| ==> r[k] == xs[k].id
  {
    seq(|xs|, k requires 0 <= k < |xs| => xs[k].id)
  }

  lemma NoRootsYet(c: Ctx, s: Scan)
    requires s.blocks == []
    ensures FirstFrom(c, Ids([]), s.blocks)
  {
  }

  lemma IdsAppend(xs: seq<Vertex>, k: nat)
    requires k < |xs|
    ensures Ids(xs[..k + 1]) == Ids(xs[..k]) + [xs[k].id]
  {
  }

  /** The blocks of two vertices or more, in order. */
  function Big(bs: seq<seq<Vid>>): seq<seq<Vid>> {
    if bs == [] then []
    else Big(bs[..|bs| - 1]) + (if |bs[|bs| - 1]| > 1 then [bs[|bs| - 1]] else [])
  }

  /** What a detection displays: the first count alone decides whether displayInfo is called. */
  function Shown(bs: seq<seq<Vid>>): seq<seq<Vid>> {
    if bs != [] && |bs[0]| > 1 then Big(bs) else []
  }

  function BlockIds(xs: seq<seq<Vertex>>): seq<seq<Vid>> {
    if xs == [] then [] else BlockIds(xs[..|xs| - 1]) + [Ids(xs[|xs| - 1])]
  }

  /** Places of blocks of two vertices or more among the first n, in order and once each. */
  ghost predicate Places(bs: seq<seq<Vid>>, n: nat, picks: seq<nat>) {
    && n <= |bs|
    && (forall j, k :: 0 <= j < k < |picks| ==> picks[j] < picks[k])
    && (forall k :: 0 <= k < |picks| ==> picks[k] < n && |bs[picks[k]]| >= 2)
  }

  ghost predicate AllPlaces(bs: seq<seq<Vid>>, n: nat, picks: seq<nat>) {
    n <= |bs| && forall i :: 0 <= i < n && |bs[i]| >= 2 ==> i in picks
  }

  ghost predicate ShownAt(bs: seq<seq<Vid>>, picks: seq<nat>, shown: seq<seq<Vertex>>) {
    |shown| == |picks| && forall k :: 0 <= k < |picks| ==> picks[k] < |bs| && Ids(shown[k]) == bs[picks[k]]
  }

  /** A detection displays all blocks of two vertices or more, in order and once each, and nothing else, if the
      first block is one of them; otherwise it displays nothing. */
  ghost predicate Displays(bs: seq<seq<Vid>>, shown: seq<seq<Vertex>>) {
    exists picks: seq<nat> :: Places(bs, |bs|, picks) && ShownAt(bs, picks, shown)
                              && if bs != [] && |bs[0]| >= 2 then AllPlaces(bs, |bs|, picks) else picks == []
  }

  lemma OnePlaceMore(bs: seq<seq<Vid>>, n: nat, picks: seq<nat>)
    requires n < |bs| && Places(bs, n, picks) && AllPlaces(bs, n, picks)
    ensures var more := if |bs[n]| > 1 then picks + [n] else picks;
            Places(bs, n + 1, more) && AllPlaces(bs, n + 1, more)
  {
    var more := if |bs[n]| > 1 then picks + [n] else picks;
    assert forall k :: 0 <= k < |picks| ==> more[k] == picks[k];
    assert |bs[n]| > 1 ==> more[|picks|] == n;
  }

  ghost predicate ListAt(bs: seq<seq<Vid>>, picks: seq<nat>, xs: seq<seq<Vid>>) {
    |xs| == |picks| && forall k :: 0 <= k < |picks| ==> picks[k] < |bs| && xs[k] == bs[picks[k]]
  }

  lemma OneListedMore(bs: seq<seq<Vid>>, picks: seq<nat>, xs: seq<seq<Vid>>, n: nat)
    requires n < |bs|
    ensures ListAt(bs, picks, xs) ==> ListAt(bs, picks + [n], xs + [bs[n]])
  {
  }

  lemma NoPlaces(bs: seq<seq<Vid>>)
    ensures Big(bs[..0]) == [] && Places(bs, 0, []) && AllPlaces(bs, 0, []) && ListAt(bs, [], [])
  {
  }

  lemma BigStep(bs: seq<seq<Vid>>, n: nat)
    requires n < |bs|
    ensures Big(bs[..n + 1]) == if |bs[n]| > 1 then Big(bs[..n]) + [bs[n]] else Big(bs[..n])
  {
    assert bs[..n + 1][..n] == bs[..n];
  }

  lemma {:induction false} BigAt(bs: seq<seq<Vid>>, n: nat) returns (picks: seq<nat>)
    requires n <= |bs|
    ensures Places(bs, n, picks) && AllPlaces(bs, n, picks) && ListAt(bs, picks, Big(bs[..n]))
  {
    hide *;
    if n == 0 {
      NoPlaces(bs);
      picks := [];
    } else {
      picks := BigAt(bs, n - 1);
      OnePlaceMore(bs, n - 1, picks);
      OneListedMore(bs, picks, Big(bs[..n - 1]), n - 1);
      BigStep(bs, n - 1);
      if |bs[n - 1]| > 1 {
        picks := picks + [n - 1];
      }
    }
  }

  lemma {:induction false} BlockIdsAt(xs: seq<seq<Vertex>>)
    ensures |BlockIds(xs)| == |xs| && forall k :: 0 <= k < |xs| ==> BlockIds(xs)[k] == Ids(xs[k])
  {
    if xs != [] {
      BlockIdsAt(xs[..|xs| - 1]);
    }
  }

  lemma ShownIsAll(bs: seq<seq<Vid>>, shown: seq<seq<Vertex>>)
    requires BlockIds(shown) == Shown(bs)
    ensures Displays(bs, shown)
  {
    BlockIdsAt(shown);
    if bs != [] && |bs[0]| > 1 {
      assert bs[..|bs|] == bs;
      var picks := BigAt(bs, |bs|);
      assert ShownAt(bs, picks, shown);
    } else {
      assert Places(bs, |bs|, []) && ShownAt(bs, [], shown);
    }
  }

  lemma NoneShown(shown: seq<seq<Vertex>>)
    ensures BlockIds(shown) == [] ==> shown == []
  {
  }

  lemma ShownNone()
    ensures BlockIds([]) == Big([])
  {
  }

  lemma ShownOneMore(xs: seq<seq<Vertex>>, b: seq<Vertex>, bs: seq<seq<Vid>>, i: nat)
    requires i < |bs| && xs != [] && xs[|xs| - 1] == b && Ids(b) == bs[i] && |b| > 1
    requires BlockIds(xs[..|xs| - 1]) == Big(bs[..i])
    ensures BlockIds(xs) == Big(bs[..i + 1])
  {
    BigStep(bs, i);
    hide Big;
  }

  lemma ShownSame(bs: seq<seq<Vid>>, i: nat)
    requires i < |bs| && |bs[i]| <= 1
    ensures Big(bs[..i + 1]) == Big(bs[..i])
  {
    BigStep(bs, i);
  }

  /** Block i sits in the flat output behind the blocks before it. */
  lemma {:induction false} SliceIsBlock(bs: seq<seq<Vid>>, i: nat)
    requires i < |bs|
    ensures |Flat(bs[..i + 1])| == |Flat(bs[..i])| + |bs[i]| <= |Flat(bs)|
    ensures Flat(bs)[|Flat(bs[..i])|..|Flat(bs[..i])| + |bs[i]|] == bs[i]
  {
    assert bs[..i + 1] == bs[..i] + [bs[i]];
    FlatAppend(bs[..i], bs[i]);
    if i == |bs| - 1 {
      assert bs[..i + 1] == bs;
    } else {
      var p := bs[..|bs| - 1];
      assert p[..i] == bs[..i] && p[..i + 1] == bs[..i + 1];
      SliceIsBlock(p, i);
    }
  }
}

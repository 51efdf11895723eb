/** Graph vertices with their intrusive arc lists (vertex.c). A vertex object stands for the
    struct together with its kind and its thread or mutex number. */
module Vertices {
  import opened Graph

  /** The live blocks of a fixed-size pool; the pool itself is proved in MemPool. */
  class BlockPool {
    const capacity: nat
    var live: nat

    constructor (capacity: nat)
      ensures this.capacity == capacity && live == 0
    {
      this.capacity := capacity;
      live := 0;
    }
  }

  class Vertex {
    const id: Vid
    var dfn: int
    var low: int
    var inStack: bool
    var indegree: int
    var outdegree: int
    var arcList: seq<Vertex>

    /** vertexCreate: memset to zero, then the kind is set. */
    constructor (id: Vid)
      ensures this.id == id && dfn == 0 && low == 0 && !inStack
      ensures indegree == 0 && outdegree == 0 && arcList == []
    {
      this.id := id;
      dfn, low, inStack := 0, 0, false;
      indegree, outdegree, arcList := 0, 0, [];
    }

    /** Head insertion of an arc to v. ok is false where the source aborts: the arc is already
        there, or the pool has no block left. */
    method AddEdge(v: Vertex, pool: BlockPool) returns (ok: bool)
      modifies this`arcList, this`outdegree, v`indegree, pool`live
      ensures ok <==> v !in old(arcList) && old(pool.live) < pool.capacity
      ensures ok ==> arcList == [v] + old(arcList) && pool.live == old(pool.live) + 1
      ensures ok ==> outdegree == old(outdegree) + 1 && v.indegree == old(v.indegree) + 1
      ensures !ok ==> unchanged(this) && unchanged(v) && unchanged(pool)
    {
      var head := 0;
      while head < |arcList|
        invariant 0 <= head <= |arcList|
        invariant v !in arcList[..head]
      {
        if arcList[head] == v {
          return false;
        }
        head := head + 1;
      }
      if pool.live >= pool.capacity {
        return false;
      }
      pool.live := pool.live + 1;
      arcList := [v] + arcList;
      outdegree := outdegree + 1;
      v.indegree := v.indegree + 1;
      ok := true;
    }

    /** Unlinks the first arc to v and returns its block. ok is false where the source aborts:
        there is no such arc. Every arc on a list owns a live block of the pool. */
    method DeleteEdge(v: Vertex, pool: BlockPool) returns (ok: bool)
      requires v in arcList ==> pool.live > 0
      modifies this`arcList, this`outdegree, v`indegree, pool`live
      ensures ok <==> v in old(arcList)
      ensures ok ==> exists k :: 0 <= k < |old(arcList)| && old(arcList)[k] == v
                              && v !in old(arcList)[..k]
                              && arcList == old(arcList)[..k] + old(arcList)[k + 1..]
      ensures ok ==> pool.live == old(pool.live) - 1
      ensures ok ==> outdegree == old(outdegree) - 1 && v.indegree == old(v.indegree) - 1
      ensures !ok ==> unchanged(this) && unchanged(v) && unchanged(pool)
    {
      var head := 0;
      while head < |arcList|
        invariant 0 <= head <= |arcList|
        invariant v !in arcList[..head]
      {
        if arcList[head] == v {
          break;
        }
        head := head + 1;
      }
      if head == |arcList| {
        return false;
      }
      arcList := arcList[..head] + arcList[head + 1..];
      pool.live := pool.live - 1;
      outdegree := outdegree - 1;
      v.indegree := v.indegree - 1;
      ok := true;
    }
  }
}

/** The iterator of hashMap.c, whose user may delete the entry that was just returned. */
module HashMapIterators {
  import opened HashMaps

  /** All entries of the buckets from number i on, in the order in which the iterator meets them. */
  ghost function Rest<K, V>(cs: seq<seq<Entry<K, V>>>, i: nat): seq<Entry<K, V>>
    decreases |cs| - i
  {
    if i >= |cs| then [] else cs[i] + Rest(cs, i + 1)
  }

  ghost predicate IsSuffix<T>(p: seq<T>, es: seq<T>) {
    |p| <= |es| && p == es[|es| - |p|..]
  }

  lemma {:induction false} InRest<K, V>(cs: seq<seq<Entry<K, V>>>, i: nat, k: nat, e: Entry<K, V>)
    requires i <= k < |cs| && e in cs[k]
    ensures e in Rest(cs, i)
    decreases k - i
  {
    if i < k {
      InRest(cs, i + 1, k, e);
    }
  }

  lemma {:induction false} SameRest<K, V>(cs: seq<seq<Entry<K, V>>>, cs': seq<seq<Entry<K, V>>>, i: nat)
    requires |cs| == |cs'| && forall k :: i <= k < |cs| ==> cs[k] == cs'[k]
    ensures Rest(cs, i) == Rest(cs', i)
    decreases |cs| - i
  {
    if i < |cs| {
      SameRest(cs, cs', i + 1);
    }
  }

  /** es holds one entry for each key. */
  ghost predicate AllKeys<K, V>(es: seq<Entry<K, V>>, m: map<K, V>) {
    DistinctKeys(es) && (forall e :: e in es ==> e.key in m) && (forall k :: k in m ==> HasKey(es, k))
  }

  /** The entries ahead have different keys, all of buckets not yet passed. */
  lemma {:induction false} RestDistinct<K, V>(h: HashMap<K, V>, i: nat)
    requires h.Valid()
    ensures DistinctKeys(Rest(h.chains, i))
    ensures forall e :: e in Rest(h.chains, i) ==> h.Index(e.key) >= i && e.key in h.m
    decreases h.capacity - i
  {
    if i < h.capacity {
      assert h.BucketOk(i, h.chains[i], h.table[..][i], h.LinksNow());
      RestDistinct(h, i + 1);
      forall j | 0 <= j < |h.chains[i]|
        ensures h.Index(h.chains[i][j].key) == i && h.chains[i][j].key in h.m
      {
        h.EntryAt(i, j);
      }
    }
  }

  /** A full traversal meets one entry for each key of the map. */
  lemma TraversalIsComplete<K, V>(h: HashMap<K, V>)
    requires h.Valid()
    ensures AllKeys(Rest(h.chains, 0), h.m)
  {
    RestDistinct(h, 0);
    forall k | k in h.m
      ensures HasKey(Rest(h.chains, 0), k)
    {
      var es := h.chains[h.Index(k)];
      assert HasKey(es, k);
      var j :| 0 <= j < |es| && es[j].key == k;
      InRest(h.chains, 0, h.Index(k), es[j]);
    }
  }

  /** No entry further ahead has the key of the n-th. */
  lemma NoKeyAhead<K, V>(es: seq<Entry<K, V>>, m: map<K, V>, n: nat)
    requires AllKeys(es, m) && n < |es|
    ensures forall f :: f in es[n + 1..] ==> f.key != es[n].key
  {
  }

  /** A listing of the keys of all entries is a listing of the keys of the map. */
  lemma KeysListed<K, V>(es: seq<Entry<K, V>>, m: map<K, V>, seen: seq<K>)
    requires AllKeys(es, m) && |seen| == |es| && forall i :: 0 <= i < |es| ==> seen[i] == es[i].key
    ensures forall i, j :: 0 <= i < j < |seen| ==> seen[i] != seen[j]
    ensures forall k :: k in seen <==> k in m
  {
    forall k | k in m
      ensures k in seen
    {
      assert HasKey(es, k);
      var j :| 0 <= j < |es| && es[j].key == k;
      assert seen[j] == k;
    }
    forall k | k in seen
      ensures k in m
    {
      var j :| 0 <= j < |seen| && seen[j] == k;
      assert es[j] in es;
    }
  }

  class Iterator<K(==), V> {
    const owner: HashMap<K, V>
    var index: int
    var entry: Entry?<K, V>
    var nextEntry: Entry?<K, V>

    /** What is left of the bucket the iterator is in. */
    ghost var pending: seq<Entry<K, V>>

    /** A user may be about to get the entries Todo of the buckets cs. */
    ghost predicate Ok(cs: seq<seq<Entry<K, V>>>)
      reads this
    {
      && index >= -1
      && (if entry == null then pending == [] else
            0 <= index < |cs| && nextEntry == At(pending, 0) && IsSuffix(pending, cs[index]))
    }

    ghost function Todo(cs: seq<seq<Entry<K, V>>>): seq<Entry<K, V>>
      reads this
    {
      if index >= -1 then pending + Rest(cs, index + 1) else []
    }

    /** Deleting an entry that was already returned changes nothing ahead of the iterator. */
    lemma AfterCut(cs: seq<seq<Entry<K, V>>>, i: nat, j: nat)
      requires Ok(cs) && entry != null && i < |cs| && j < |cs[i]| && cs[i][j] !in Todo(cs)
      ensures var cs' := cs[i := Cut(cs[i], j)]; Ok(cs') && Todo(cs') == Todo(cs)
    {
      if i > index {
        InRest(cs, index + 1, i, cs[i][j]);
      }
      SameRest(cs, cs[i := Cut(cs[i], j)], index + 1);
    }

    /** hashMapGetIterator. */
    constructor (owner: HashMap<K, V>)
      ensures this.owner == owner && Ok(owner.chains) && Todo(owner.chains) == Rest(owner.chains, 0)
    {
      this.owner, index, entry, nextEntry, pending := owner, -1, null, null, [];
    }

    /** hashMapNext. */
    method Next() returns (r: Entry?<K, V>)
      requires owner.Valid() && Ok(owner.chains)
      modifies this
      ensures Ok(owner.chains) && r == entry == At(old(Todo(owner.chains)), 0)
      ensures Todo(owner.chains) == if r == null then [] else old(Todo(owner.chains))[1..]
      ensures r != null ==> r in owner.entries && r.key in owner.m && r.value == owner.m[r.key]
    {
      hide HashMap.Valid, Rest;
      ghost var cs := owner.chains;
      ghost var todo := Todo(cs);
      while true
        invariant Ok(cs) && Todo(cs) == todo
        decreases owner.capacity - index, entry != null
      {
        var last := Advance();
        if last {
          break;
        }
        if entry != null {
          SaveNext();
          return entry;
        }
      }
      return null;
    }

    /** The first half of a turn of hashMapNext's loop: to the next bucket, or along this one. */
    method Advance() returns (last: bool)
      requires owner.Valid() && Ok(owner.chains)
      modifies this`index, this`entry, this`pending
      ensures index >= old(index) && (last <==> index >= owner.capacity) && Todo(owner.chains) == old(Todo(owner.chains))
      ensures last ==> entry == null && Todo(owner.chains) == [] == pending
      ensures !last ==> 0 <= index < |owner.chains| && IsSuffix(pending, owner.chains[index]) && entry == At(pending, 0)
      ensures index == old(index) ==> old(entry) != null && !last
    {
      assert owner.table.Length == owner.capacity == |owner.chains|;
      hide HashMap.Valid;
      last := false;
      if entry == null {
        index := index + 1;
        if index >= owner.capacity {
          return true;
        }
        owner.EntryAt(index, 0);
        entry := owner.table[index];
        pending := owner.chains[index];
      } else {
        entry := nextEntry;
      }
    }

    /** The end of hashMapNext: the entry is saved before it is handed out. */
    method SaveNext()
      requires owner.Valid() && 0 <= index < |owner.chains| && IsSuffix(pending, owner.chains[index])
      requires entry != null && entry == At(pending, 0)
      modifies this`nextEntry, this`pending
      ensures Ok(owner.chains) && pending == old(pending)[1..]
      ensures entry in owner.entries && entry.key in owner.m && entry.value == owner.m[entry.key]
    {
      assert |owner.chains| == owner.capacity;
      hide HashMap.Valid;
      owner.EntryAt(index, |owner.chains[index]| - |pending|);
      nextEntry := entry.next;
      pending := pending[1..];
    }
  }

  /** Iterating while deleting: each entry that drop selects is removed as soon as it was returned.
      Every key turns up exactly once, and exactly the selected ones are gone in the end. */
  method Sweep<K(==), V>(h: HashMap<K, V>, drop: K -> bool) returns (seen: seq<K>)
    requires h.Valid()
    modifies h, h.table, h.entries`next
    ensures h.Valid() && h.m == map k | k in old(h.m) && !drop(k) :: old(h.m)[k]
    ensures forall i, j :: 0 <= i < j < |seen| ==> seen[i] != seen[j]
    ensures forall k :: k in seen <==> k in old(h.m)
  {
    hide HashMap.Valid, Rest, Iterator.Todo, Iterator.Ok, AllKeys, DistinctKeys, HasKey;
    TraversalIsComplete(h);
    ghost var all, gone := Rest(h.chains, 0), {};
    var it := new Iterator(h);
    seen := [];
    var e := it.Next();
    while e != null
      invariant h.Valid() && it.owner == h && it.Ok(h.chains) && it.entry == e && h.entries <= old(h.entries)
      invariant e != null ==> e.key in h.m
      invariant |seen| <= |all| && e == At(all, |seen|)
      invariant it.Todo(h.chains) == if e == null then [] else all[|seen| + 1..]
      invariant forall i :: 0 <= i < |seen| ==> seen[i] == all[i].key
      invariant h.m == old(h.m) - gone && forall k :: k in gone <==> k in seen && drop(k)
      decreases |all| - |seen|
    {
      NoKeyAhead(all, old(h.m), |seen|);
      seen := seen + [e.key];
      gone := if drop(e.key) then gone + {e.key} else gone;
      e := DropAndNext(h, it, e, drop(e.key));
    }
    KeysListed(all, old(h.m), seen);
  }

  /** Deletes the entry just returned, or keeps it, and asks for the next one. */
  method DropAndNext<K(==), V>(h: HashMap<K, V>, it: Iterator<K, V>, e: Entry<K, V>, drop: bool)
    returns (f: Entry?<K, V>)
    requires h.Valid() && it.owner == h && it.Ok(h.chains) && it.entry == e && e.key in h.m
    requires forall f :: f in it.Todo(h.chains) ==> f.key != e.key
    modifies h, h.table, h.entries`next, it
    ensures h.Valid() && h.m == old(h.m) - (if drop then {e.key} else {}) && h.entries <= old(h.entries)
    ensures it.Ok(h.chains) && it.entry == f == At(old(it.Todo(h.chains)), 0)
    ensures it.Todo(h.chains) == if f == null then [] else old(it.Todo(h.chains))[1..]
    ensures f != null ==> f.key in h.m
  {
    if drop {
      Drop(h, it, e);
    }
    hide *;
    f := it.Next();
  }

  /** Deletes the entry that the iterator has just returned. */
  method Drop<K(==), V>(h: HashMap<K, V>, it: Iterator<K, V>, e: Entry<K, V>)
    requires h.Valid() && it.owner == h && it.Ok(h.chains) && it.entry == e && e.key in h.m
    requires forall f :: f in it.Todo(h.chains) ==> f.key != e.key
    modifies h, h.table, h.entries`next
    ensures h.Valid() && h.m == old(h.m) - {e.key} && h.entries <= old(h.entries)
    ensures it.Ok(h.chains) && it.Todo(h.chains) == old(it.Todo(h.chains))
  {
    assert h.Index(e.key) < |h.chains|;
    hide HashMap.Valid, Rest;
    ghost var cs, j := h.chains, 0;
    var r;
    r, j := h.Remove(e.key);
    it.AfterCut(cs, h.Index(e.key), j);
  }
}

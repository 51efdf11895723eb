/** The chained hash map of hashMap.c. Keys are compared by equality, the hash function is arbitrary,
    and masking with capacity - 1 is the remainder by capacity, a power of two. */
module HashMaps {
  import opened Utils
  import opened Bits

  const TABLE_DEFAULT_MIN_CAPACITY: nat := 16
  const LONG_MAX: nat := 0x7FFF_FFFF_FFFF_FFFF

  const INT_MAX: nat := 0x7FFF_FFFF

  /** The largest power of two that the int field capacity can hold. */
  const MAX_CAPACITY: nat := 0x4000_0000

  class Entry<K, V> {
    const key: K
    var value: V
    var next: Entry?<K, V>

    constructor (key: K, value: V, next: Entry?<K, V>)
      ensures this.key == key && this.value == value && this.next == next
    {
      this.key, this.value, this.next := key, value, next;
    }
  }

  /** What the next fields of the entries hold. */
  type Links<!K, !V> = map<Entry<K, V>, Entry?<K, V>>

  lemma NextPowerFits(i: nat)
    requires IsPowerOf2(i) && i > MAX_CAPACITY
    ensures i > INT_MAX
  {
    var k: nat :| i == Pow2(k);
    Pow2Values();
    assert Pow2(31) == 2 * Pow2(30);
    if k < 31 {
      Pow2Grows(k, 31);
    } else if k > 31 {
      Pow2Grows(31, k);
    }
  }

  /** _mapNextPower: the smallest power of two from 16 on that is not below size. It fits into the int field
      capacity exactly for a size of at most 2^30. */
  method MapNextPower(size: nat) returns (i: nat)
    ensures size >= LONG_MAX ==> i == LONG_MAX
    ensures size < LONG_MAX ==> IsPowerOf2(i) && i >= size && i >= TABLE_DEFAULT_MIN_CAPACITY
    ensures size < LONG_MAX ==> i == TABLE_DEFAULT_MIN_CAPACITY || i < 2 * size
    ensures i <= INT_MAX <==> size <= MAX_CAPACITY
  {
    i := TABLE_DEFAULT_MIN_CAPACITY;
    assert IsPowerOf2(16) by {
      assert Pow2(4) == 16;
    }
    if size >= LONG_MAX {
      return LONG_MAX;
    }
    while i < size
      invariant IsPowerOf2(i) && i >= TABLE_DEFAULT_MIN_CAPACITY
      invariant i == TABLE_DEFAULT_MIN_CAPACITY || i < 2 * size
      decreases size - i
    {
      Doubled(i);
      i := i * 2;
    }
    if size > MAX_CAPACITY {
      NextPowerFits(i);
    }
  }

  ghost predicate DistinctKeys<K, V>(es: seq<Entry<K, V>>) {
    forall i, j :: 0 <= i < j < |es| ==> es[i].key != es[j].key
  }

  ghost predicate HasKey<K, V>(es: seq<Entry<K, V>>, key: K) {
    exists j :: 0 <= j < |es| && es[j].key == key
  }

  /** The j-th entry of a chain, or NULL at its end. */
  ghost function At<K, V>(es: seq<Entry<K, V>>, j: nat): Entry?<K, V> {
    if j < |es| then es[j] else null
  }

  ghost predicate LinkedAt<K, V>(es: seq<Entry<K, V>>, links: Links<K, V>, j: nat)
    requires j < |es|
  {
    es[j] in links && links[es[j]] == At(es, j + 1)
  }

  /** The list that starts at head is es. */
  ghost predicate Linked<K, V>(es: seq<Entry<K, V>>, head: Entry?<K, V>, links: Links<K, V>) {
    && head == At(es, 0)
    && forall j {:trigger LinkedAt(es, links, j)} :: 0 <= j < |es| ==> LinkedAt(es, links, j)
  }

  function Cut<T>(es: seq<T>, j: nat): seq<T>
    requires j < |es|
  {
    es[..j] + es[j + 1..]
  }

  lemma CutKeeps<T>(es: seq<T>, j: nat, f: T)
    requires j < |es| && f != es[j]
    ensures f in es ==> f in Cut(es, j)
  {
  }

  lemma CutKeepsKey<K, V>(es: seq<Entry<K, V>>, j: nat, key: K)
    requires j < |es| && key != es[j].key
    ensures HasKey(es, key) ==> HasKey(Cut(es, j), key)
  {
    if HasKey(es, key) {
      var k :| 0 <= k < |es| && es[k].key == key;
      assert Cut(es, j)[if k < j then k else k - 1] == es[k];
    }
  }

  /** The links after the j-th entry of es has been taken out of its chain and freed. */
  ghost function Unlinked<K, V>(es: seq<Entry<K, V>>, links: Links<K, V>, j: nat): Links<K, V>
    requires j < |es| && es[j] in links && (j > 0 ==> es[j - 1] in links)
  {
    (if j == 0 then links else links[es[j - 1] := links[es[j]]]) - {es[j]}
  }

  /** Taking one entry out leaves a chain without it. */
  lemma CutLinked<K, V>(es: seq<Entry<K, V>>, head: Entry?<K, V>, links: Links<K, V>, j: nat)
    requires Linked(es, head, links) && DistinctKeys(es) && j < |es|
    ensures LinkedAt(es, links, j) && (j > 0 ==> LinkedAt(es, links, j - 1))
    ensures Linked(Cut(es, j), if j == 0 then links[es[j]] else head, Unlinked(es, links, j))
    ensures DistinctKeys(Cut(es, j))
  {
    assert LinkedAt(es, links, j);
    assert j > 0 ==> LinkedAt(es, links, j - 1);
    var rest := Cut(es, j);
    forall k | 0 <= k < |rest|
      ensures LinkedAt(rest, Unlinked(es, links, j), k)
    {
      var l := if k < j then k else k + 1;
      assert rest[k] == es[l] && LinkedAt(es, links, l);
    }
    assert forall k :: 0 <= k < |rest| ==> rest[k] == es[if k < j then k else k + 1];
  }

  /** Links of other entries do not matter to a chain. */
  lemma StillLinked<K, V>(es: seq<Entry<K, V>>, head: Entry?<K, V>, links: Links<K, V>, links': Links<K, V>)
    requires Linked(es, head, links)
    requires forall e :: e in es && e in links ==> e in links' && links'[e] == links[e]
    ensures Linked(es, head, links')
  {
    forall j | 0 <= j < |es|
      ensures LinkedAt(es, links', j)
    {
      assert LinkedAt(es, links, j) && es[j] in es;
    }
  }

  class HashMap<K(==), V> {
    const table: array<Entry?<K, V>>
    const capacity: nat
    const hash: K -> nat
    var size: nat

    ghost var chains: seq<seq<Entry<K, V>>>
    ghost var entries: set<Entry<K, V>>
    ghost var m: map<K, V>

    function Index(key: K): nat
      requires capacity > 0
    {
      Slot(hash(key), capacity)
    }

    ghost function LinksNow(): Links<K, V>
      reads this`entries, entries`next
    {
      map e | e in entries :: e.next
    }

    lemma LinksAre(links: Links<K, V>)
      requires links.Keys == entries && forall e :: e in entries ==> links[e] == e.next
      ensures LinksNow() == links
    {
    }

    /** Bucket i lists the entries es, none twice and none of another bucket. */
    ghost predicate BucketOk(i: nat, es: seq<Entry<K, V>>, head: Entry?<K, V>, links: Links<K, V>) {
      && capacity > 0 && DistinctKeys(es) && Linked(es, head, links)
      && forall j :: 0 <= j < |es| ==> Index(es[j].key) == i
    }

    ghost predicate ChainsOk(cs: seq<seq<Entry<K, V>>>, heads: seq<Entry?<K, V>>, links: Links<K, V>) {
      && capacity > 0 && |cs| == |heads| == capacity
      && forall i {:trigger BucketOk(i, cs[i], heads[i], links)} ::
           0 <= i < capacity ==> BucketOk(i, cs[i], heads[i], links)
    }

    /** There is one entry for each key of mm, in the key's bucket. */
    ghost predicate KeysOk(cs: seq<seq<Entry<K, V>>>, es: set<Entry<K, V>>, mm: map<K, V>, n: nat) {
      && capacity > 0 && |cs| == capacity
      && (forall e :: e in es ==> e.key in mm && e in cs[Index(e.key)])
      && (forall k {:trigger HasKey(cs[Index(k)], k)} :: k in mm ==> HasKey(cs[Index(k)], k))
      && n == |mm|
    }

    ghost predicate ValuesOk()
      reads this`entries, this`m, entries`value
    {
      forall e :: e in entries ==> e.key in m && m[e.key] == e.value
    }

    ghost predicate Valid()
      reads this, table, entries
    {
      && IsPowerOf2(capacity) && ChainsOk(chains, table[..], LinksNow())
      && KeysOk(chains, entries, m, size) && ValuesOk()
    }

    /** hashMapCreate. */
    constructor (hash: K -> nat, size: nat)
      requires size <= MAX_CAPACITY
      ensures Valid() && m == map[] && fresh(table) && this.hash == hash && entries == {}
      ensures IsPowerOf2(capacity) && capacity >= size && capacity >= TABLE_DEFAULT_MIN_CAPACITY
      ensures capacity == TABLE_DEFAULT_MIN_CAPACITY || capacity < 2 * size
    {
      var c := MapNextPower(size);
      this.hash, this.size, capacity := hash, 0, c;
      table := new Entry?<K, V>[c](_ => null);
      chains, entries, m := seq(c, _ => []), {}, map[];
    }

    /** A key is in the map exactly when its bucket has an entry for it. */
    lemma InMapInBucket(key: K)
      requires Valid()
      ensures capacity > 0 && |chains| == capacity
      ensures key in m <==> HasKey(chains[hash(key) % capacity], key)
      ensures Linked(chains[Index(key)], table[Index(key)], LinksNow())
      ensures forall j :: 0 <= j < |chains[Index(key)]| ==> chains[Index(key)][j] in entries
    {
      var i := Index(key);
      assert BucketOk(i, chains[i], table[..][i], LinksNow());
      forall j | 0 <= j < |chains[i]|
        ensures chains[i][j] in entries
      {
        assert LinkedAt(chains[i], LinksNow(), j);
      }
    }

    /** What the j-th entry of bucket i holds. */
    lemma EntryAt(i: nat, j: nat)
      requires Valid() && i < capacity
      ensures table[i] == At(chains[i], 0)
      ensures j < |chains[i]| ==>
                var e := chains[i][j];
                e in entries && e.next == At(chains[i], j + 1) && e.key in m && e.value == m[e.key]
    {
      assert BucketOk(i, chains[i], table[..][i], LinksNow());
      assert j < |chains[i]| ==> LinkedAt(chains[i], LinksNow(), j);
    }

    /** No two entries have the same key. */
    lemma UniqueEntry(e: Entry<K, V>, f: Entry<K, V>)
      requires ChainsOk(chains, table[..], LinksNow()) && KeysOk(chains, entries, m, size)
      requires e in entries && f in entries && e.key == f.key
      ensures e == f
    {
      var i := Index(e.key);
      var es := chains[i];
      assert BucketOk(i, es, table[..][i], LinksNow());
      var j :| 0 <= j < |es| && es[j] == e;
      var k :| 0 <= k < |es| && es[k] == f;
    }

    /** The walk along one bucket that _mapKeyIndex, hashMapFind and hashMapRemove share; only the
        last one uses pre, the entry before. */
    method Walk(key: K) returns (pre: Entry?<K, V>, entry: Entry?<K, V>, ghost j: nat)
      requires Valid()
      ensures j <= |chains[Index(key)]| && entry == At(chains[Index(key)], j)
      ensures pre == if j == 0 then null else chains[Index(key)][j - 1]
      ensures entry != null ==> entry in entries && entry.key == key && entry.value == m[key]
      ensures entry == null <==> key !in m
    {
      InMapInBucket(key);
      hide KeysOk, ChainsOk, IsPowerOf2;
      var idx := Index(key);
      ghost var es := chains[idx];
      j := 0;
      pre, entry := null, table[idx];
      while entry != null && key != entry.key
        invariant j <= |es| && entry == At(es, j) && pre == if j == 0 then null else es[j - 1]
        invariant forall k :: 0 <= k < j ==> es[k].key != key
        decreases |es| - j
      {
        assert LinkedAt(es, LinksNow(), j);
        pre := entry;
        entry := entry.next;
        j := j + 1;
      }
      assert entry != null ==> es[j] in entries;
    }

    /** hashMapFind. */
    method Find(key: K) returns (entry: Entry?<K, V>)
      requires Valid()
      ensures entry == null <==> key !in m
      ensures entry != null ==> entry in entries && entry.key == key && entry.value == m[key]
    {
      if size == 0 {
        return null;
      }
      var pre;
      ghost var j;
      pre, entry, j := Walk(key);
    }

    /** hashMapGet; None for NULL. */
    method Get(key: K) returns (value: Option<V>)
      requires Valid()
      ensures value == if key in m then Some(m[key]) else None
    {
      var entry := Find(key);
      value := if entry == null then None else Some(entry.value);
    }

    lemma KeysAfterAdd(e: Entry<K, V>, value: V)
      requires KeysOk(chains, entries, m, size) && e.key !in m
      ensures var i := Index(e.key);
              KeysOk(chains[i := [e] + chains[i]], entries + {e}, m[e.key := value], size + 1)
    {
      var i := Index(e.key);
      var cs := chains[i := [e] + chains[i]];
      forall k | k in m[e.key := value]
        ensures HasKey(cs[Index(k)], k)
      {
        if k == e.key {
          assert cs[i][0].key == k;
        } else {
          var es := chains[Index(k)];
          assert HasKey(es, k);
          var j :| 0 <= j < |es| && es[j].key == k;
          assert Index(k) == i ==> cs[i][j + 1] == es[j];
        }
      }
    }

    lemma ChainsAfterAdd(cs: seq<seq<Entry<K, V>>>, heads: seq<Entry?<K, V>>, links: Links<K, V>, e: Entry<K, V>)
      requires ChainsOk(cs, heads, links) && e !in links && !HasKey(cs[Index(e.key)], e.key)
      ensures var i := Index(e.key);
              ChainsOk(cs[i := [e] + cs[i]], heads[i := e], links[e := heads[i]])
    {
      var i := Index(e.key);
      var es := [e] + cs[i];
      var cs', heads', links' := cs[i := es], heads[i := e], links[e := heads[i]];
      forall k {:trigger BucketOk(k, cs[k], heads[k], links')} | 0 <= k < capacity
        ensures BucketOk(k, cs[k], heads[k], links')
      {
        assert BucketOk(k, cs[k], heads[k], links);
        StillLinked(cs[k], heads[k], links, links');
      }
      assert BucketOk(i, cs[i], heads[i], links');
      forall j | 0 <= j < |es|
        ensures LinkedAt(es, links', j)
      {
        assert j > 0 ==> LinkedAt(cs[i], links', j - 1);
      }
      assert BucketOk(i, es, e, links');
      hide BucketOk;
      forall k | 0 <= k < capacity
        ensures BucketOk(k, cs'[k], heads'[k], links')
      {
        assert k != i ==> BucketOk(k, cs[k], heads[k], links');
      }
    }

    /** The update branch of hashMapPut. */
    method SetValue(he: Entry<K, V>, value: V)
      requires Valid() && he in entries
      modifies this`m, he`value
      ensures Valid() && m == old(m)[he.key := value]
    {
      forall e | e in entries && e.key == he.key
        ensures e == he
      {
        UniqueEntry(e, he);
      }
      hide HasKey, ChainsOk, IsPowerOf2;
      assert m[he.key := value].Keys == m.Keys;
      he.value := value;
      m := m[he.key := value];
      assert LinksNow() == old(LinksNow());
    }

    /** hashMapAddRaw for a key that is not there, with the value set: head insertion. */
    method AddRaw(key: K, value: V) returns (entry: Entry<K, V>)
      requires Valid() && key !in m
      modifies this`size, this`chains, this`entries, this`m, table
      ensures Valid() && m == old(m)[key := value] && entries == old(entries) + {entry} && fresh(entry)
      ensures chains == old(chains)[Index(key) := [entry] + old(chains)[Index(key)]]
    {
      InMapInBucket(key);
      var idx := Index(key);
      entry := new Entry(key, value, table[idx]);
      KeysAfterAdd(entry, value);
      ChainsAfterAdd(chains, table[..], LinksNow(), entry);
      ghost var links := LinksNow()[entry := entry.next];
      hide IsPowerOf2, HasKey, KeysOk, ChainsOk, Index, Linked, LinksNow;
      table[idx] := entry;
      size, chains, entries, m := size + 1, chains[idx := [entry] + chains[idx]], entries + {entry}, m[key := value];
      LinksAre(links);
      assert table[..] == old(table[..])[idx := entry];
    }

    /** hashMapPut: 1 for a key added from scratch, 0 for a value update. */
    method Put(key: K, value: V) returns (r: int)
      requires Valid()
      modifies this`size, this`chains, this`entries, this`m, table, entries`value
      ensures Valid() && m == old(m)[key := value] && r == if key in old(m) then 0 else 1
      ensures old(entries) <= entries && fresh(entries - old(entries))
    {
      hide *;
      ghost var j;
      var pre, existing;
      pre, existing, j := Walk(key);
      if existing == null {
        var entry := AddRaw(key, value);
        return 1;
      }
      SetValue(existing, value);
      return 0;
    }

    lemma KeysAfterRemove(i: nat, j: nat)
      requires ChainsOk(chains, table[..], LinksNow()) && KeysOk(chains, entries, m, size)
      requires i < capacity && j < |chains[i]|
      ensures var e := chains[i][j];
              && e in entries && e.key in m
              && KeysOk(chains[i := Cut(chains[i], j)], entries - {e}, m - {e.key}, size - 1)
    {
      var e := chains[i][j];
      var cs := chains[i := Cut(chains[i], j)];
      assert BucketOk(i, chains[i], table[..][i], LinksNow()) && LinkedAt(chains[i], LinksNow(), j);
      forall f | f in entries - {e}
        ensures f.key != e.key && f in cs[Index(f.key)]
      {
        if f.key == e.key {
          UniqueEntry(e, f);
        }
        CutKeeps(chains[i], j, f);
      }
      hide BucketOk;
      forall k | k in m - {e.key}
        ensures HasKey(cs[Index(k)], k)
      {
        assert HasKey(chains[Index(k)], k);
        CutKeepsKey(chains[i], j, k);
      }
    }

    lemma ChainsAfterRemove(cs: seq<seq<Entry<K, V>>>, heads: seq<Entry?<K, V>>, links: Links<K, V>, i: nat, j: nat)
      requires ChainsOk(cs, heads, links) && i < capacity && j < |cs[i]|
      ensures LinkedAt(cs[i], links, j) && (j > 0 ==> LinkedAt(cs[i], links, j - 1) && cs[i][j - 1] != cs[i][j])
      ensures var head := if j == 0 then links[cs[i][j]] else heads[i];
              ChainsOk(cs[i := Cut(cs[i], j)], heads[i := head], Unlinked(cs[i], links, j))
    {
      assert BucketOk(i, cs[i], heads[i], links);
      CutLinked(cs[i], heads[i], links, j);
      var links' := Unlinked(cs[i], links, j);
      var rest := Cut(cs[i], j);
      assert forall k :: 0 <= k < |rest| ==> rest[k] == cs[i][if k < j then k else k + 1];
      var heads' := heads[i := if j == 0 then links[cs[i][j]] else heads[i]];
      forall k | 0 <= k < capacity
        ensures BucketOk(k, cs[i := rest][k], heads'[k], links')
      {
        assert BucketOk(k, cs[k], heads[k], links);
        if k != i {
          StillLinked(cs[k], heads[k], links, links');
        }
      }
    }

    /** What unlinking the j-th entry of bucket i has to leave behind. */
    lemma AfterUnlink(i: nat, j: nat) returns (links: Links<K, V>)
      requires Valid() && i < capacity && j < |chains[i]|
      ensures var cur, pre := chains[i][j], At(chains[i], if j == 0 then |chains[i]| else j - 1);
              && cur in entries && pre != cur && (pre != null ==> pre in entries)
              && links.Keys == entries - {cur}
              && (forall e :: e in links ==> links[e] == if e == pre then cur.next else e.next)
              && (forall e :: e in links ==> e.key in m - {cur.key})
              && var cs := chains[i := Cut(chains[i], j)];
                 && ChainsOk(cs, table[..][i := if j == 0 then cur.next else table[i]], links)
                 && KeysOk(cs, entries - {cur}, m - {cur.key}, size - 1)
    {
      var cur := chains[i][j];
      KeysAfterRemove(i, j);
      ChainsAfterRemove(chains, table[..], LinksNow(), i, j);
      links := Unlinked(chains[i], LinksNow(), j);
      forall e | e in entries && e.key == cur.key
        ensures e == cur
      {
        UniqueEntry(e, cur);
      }
    }

    /** The unlinking branch of hashMapRemove. */
    method Unlink(idx: nat, pre: Entry?<K, V>, cur: Entry<K, V>, ghost j: nat)
      requires Valid() && idx < |chains| && j < |chains[idx]| && cur == chains[idx][j]
      requires pre == if j == 0 then null else chains[idx][j - 1]
      modifies this`size, this`chains, this`entries, this`m, table, entries`next
      ensures Valid() && m == old(m) - {cur.key} && entries == old(entries) - {cur}
      ensures chains == old(chains)[idx := Cut(old(chains)[idx], j)]
    {
      ghost var links := AfterUnlink(idx, j);
      assert table.Length == capacity;
      hide KeysOk, HasKey, ChainsOk, IsPowerOf2, Cut, LinksNow;
      if pre != null {
        pre.next := cur.next;
      } else {
        table[idx] := cur.next;
      }
      size, chains, entries, m := size - 1, chains[idx := Cut(chains[idx], j)], entries - {cur}, m - {cur.key};
      LinksAre(links);
      assert table[..] == old(table[..])[idx := if j == 0 then cur.next else old(table[idx])];
    }

    /** hashMapRemove: 0 on success, -1 if the key is not there. One entry leaves one bucket. */
    method Remove(key: K) returns (r: int, ghost j: nat)
      requires Valid()
      modifies this`size, this`chains, this`entries, this`m, table, entries`next
      ensures Valid() && m == old(m) - {key} && r == if key in old(m) then 0 else -1
      ensures r != 0 ==> chains == old(chains)
      ensures r == 0 ==> && j < |old(chains)[Index(key)]| && old(chains)[Index(key)][j].key == key
                         && chains == old(chains)[Index(key) := Cut(old(chains)[Index(key)], j)]
      ensures entries <= old(entries)
    {
      assert Index(key) < |chains|;
      hide Valid, Cut;
      var pre, cur;
      pre, cur, j := Walk(key);
      if cur == null {
        return -1, j;
      }
      Unlink(Index(key), pre, cur, j);
      return 0, j;
    }
  }
}

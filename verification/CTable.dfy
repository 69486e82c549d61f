/**
 The cache object of util/ctable.c: a hash table to find entries, and a ring in most
 recently used order.  The ring is a sequence that starts after the ring head.
 */
module CTable {
  import opened Spec = CTableSpec

  const CTABLE_MIN_SIZE: nat := 5

  class Entry {
    var key: string
    var value: nat

    constructor (key: string, value: nat)
      ensures this.key == key && this.value == value
    {
      this.key := key;
      this.value := value;
    }
  }

  /** ring_detach */
  function Detach(ring: seq<Entry>, e: Entry): seq<Entry>
  {
    if ring == [] then [] else if ring[0] == e then ring[1..] else [ring[0]] + Detach(ring[1..], e)
  }

  lemma {:induction false} DetachAt(ring: seq<Entry>, i: nat)
    requires i < |ring| && forall j :: 0 <= j < i ==> ring[j] != ring[i]
    ensures Detach(ring, ring[i]) == ring[..i] + ring[i + 1..]
    decreases i
  {
    if i > 0 {
      DetachAt(ring[1..], i - 1);
      assert ring[1..][..i - 1] == ring[1..i] && ring[1..][i..] == ring[i + 1..];
      assert ring[..i] == [ring[0]] + ring[1..i];
    }
  }

  /** The table finds every entry of the ring under the key of its item. */
  ghost predicate Indexed(ring: seq<Entry>, items: seq<Item>, table: map<string, Entry>)
  {
    && |ring| == |items|
    && (forall i, j :: 0 <= i < j < |ring| ==> ring[i] != ring[j])
    && (forall i :: 0 <= i < |ring| ==> items[i].key in table && table[items[i].key] == ring[i])
    && (forall k {:trigger Has(items, k)} :: k in table ==> Has(items, k))
  }

  ghost function ItemOf(e: Entry): Item
    reads e
  {
    Item(e.key, e.value)
  }

  /** The entries of the ring hold the items. */
  ghost predicate InHeap(ring: seq<Entry>, items: seq<Item>)
    reads ring
  {
    |ring| == |items| && forall i {:trigger ItemOf(ring[i])} :: 0 <= i < |ring| ==> ItemOf(ring[i]) == items[i]
  }

  lemma IndexedFront(ring: seq<Entry>, items: seq<Item>, table: map<string, Entry>, i: nat)
    requires Indexed(ring, items, table) && i < |ring|
    ensures Indexed(ToFront(ring, i), ToFront(items, i), table)
  {
    forall k | k in table ensures Has(ToFront(items, i), k) {
      HasToFront(items, i, k);
    }
  }

  /** A new entry in front, for a key that is not cached. */
  lemma IndexedNew(ring: seq<Entry>, items: seq<Item>, table: map<string, Entry>, item: Item, e: Entry)
    requires Indexed(ring, items, table) && !Has(items, item.key) && e !in ring
    ensures Indexed([e] + ring, [item] + items, table[item.key := e])
  {
    var r, s, t := [e] + ring, [item] + items, table[item.key := e];
    forall i | 0 <= i < |r| ensures s[i].key in t && t[s[i].key] == r[i] {
      if i > 0 {
        assert s[i] == items[i - 1] && r[i] == ring[i - 1];
      }
    }
    forall k | k in t ensures Has(s, k) {
      if k == item.key {
        assert s[0].key == k;
      } else {
        assert Has(items, k);
        var j :| 0 <= j < |items| && items[j].key == k;
        assert s[j + 1].key == k;
      }
    }
  }

  lemma IndexedReplace(ring: seq<Entry>, items: seq<Item>, table: map<string, Entry>, i: nat, v: nat)
    requires Indexed(ring, items, table) && i < |ring|
    ensures Indexed(ring, items[i := Item(items[i].key, v)], table)
  {
    var s := items[i := Item(items[i].key, v)];
    forall k | k in table ensures Has(s, k) {
      assert Has(items, k);
      var j :| 0 <= j < |items| && items[j].key == k;
      assert s[j].key == k;
    }
  }

  lemma NotIn(items: seq<Item>, n: nat, key: string)
    requires n <= |items| && !Has(items, key)
    ensures !Has(items[..n], key)
  {
    assert forall i :: 0 <= i < n ==> items[..n][i].key == items[i].key;
  }

  /** The last entry leaves. */
  lemma IndexedLast(ring: seq<Entry>, items: seq<Item>, table: map<string, Entry>)
    requires Indexed(ring, items, table) && ring != []
    ensures var n := |ring| - 1; Indexed(ring[..n], items[..n], table - {items[n].key}) && ring[n] !in ring[..n]
  {
    var n := |ring| - 1;
    forall k | k in table - {items[n].key} ensures Has(items[..n], k) {
      assert Has(items, k);
      var j :| 0 <= j < |items| && items[j].key == k;
      assert items[..n][j].key == k;
    }
  }

  /** An entry that is not in front is detached from the ring and appended to the ring head. */
  function Moved(ring: seq<Entry>, e: Entry): seq<Entry>
    requires ring != []
  {
    if e != ring[0] then [e] + Detach(ring, e) else ring
  }

  lemma FrontRing(ring: seq<Entry>, i: nat)
    requires i < |ring| && forall j, k :: 0 <= j < k < |ring| ==> ring[j] != ring[k]
    ensures Moved(ring, ring[i]) == ToFront(ring, i)
  {
    if i > 0 {
      DetachAt(ring, i);
    }
  }

  /** The table holds as many keys as the ring. */
  lemma TableSize(ring: seq<Entry>, items: seq<Item>, table: map<string, Entry>)
    requires Indexed(ring, items, table)
    ensures |table| == |ring| && Distinct(items)
  {
    var ks := Keys(items);
    forall k | k in table ensures k in ks {
      assert Has(items, k);
      var j :| 0 <= j < |items| && items[j].key == k;
      assert ks[j] == k;
    }
    DistinctSize(ks);
    assert table.Keys == set k | k in ks;
  }

  class CacheTable {
    var table: map<string, Entry>
    var ring: seq<Entry>
    var used: nat
    const limit: nat
    // What the application's create() and delete() did: create() returns the numbers from 0 on.
    var created: nat
    var deleted: seq<nat>
    ghost var cache: Cache

    ghost predicate Valid()
      reads this, ring
    {
      && limit >= CTABLE_MIN_SIZE && used == |ring| && created == cache.created && deleted == cache.deleted
      && Indexed(ring, cache.items, table) && InHeap(ring, cache.items)
    }

    /** ctable_create */
    constructor (limit: nat)
      requires limit >= 1
      ensures Valid() && cache == Cache([], 0, []) && Inv(cache, this.limit)
      ensures this.limit == (if limit < CTABLE_MIN_SIZE then CTABLE_MIN_SIZE else limit)
    {
      this.limit := if limit < CTABLE_MIN_SIZE then CTABLE_MIN_SIZE else limit;
      table := map[];
      ring := [];
      used := 0;
      created := 0;
      deleted := [];
      cache := Cache([], 0, []);
      new;
      assert Values([]) == [] && Upto(0) == [];
    }

    /** Moves a cached entry to the front of the ring, unless it is there already. */
    method Touch(entry: Entry, ghost i: nat)
      requires Valid() && i < |ring| && ring[i] == entry
      modifies this`ring, this`cache
      ensures Valid() && cache == old(cache).(items := ToFront(old(cache.items), i)) && ring == ToFront(old(ring), i)
    {
      FrontRing(ring, i);
      IndexedFront(ring, cache.items, table, i);
      ghost var r, c := ring, cache;
      ring, cache := Moved(ring, entry), c.(items := ToFront(c.items, i));
      forall j | 0 <= j < |ring| ensures ItemOf(ring[j]) == cache.items[j] {
        var k := if j == 0 then i else if j <= i then j - 1 else j;
        assert ring[j] == r[k] && old(ItemOf(r[k])) == c.items[k];
      }
    }

    /** A new entry in front of the ring, for a key that is not cached. */
    method Install(key: string, entry: Entry, ghost items: seq<Item>)
      requires Indexed(ring, items, table) && InHeap(ring, items) && !Has(items, key) && entry !in ring
      modifies this`ring, this`table, this`created, entry
      ensures ring == [entry] + old(ring) && created == old(created) + 1 && entry.value == old(created)
      ensures Indexed(ring, [Item(key, old(created))] + items, table) && InHeap(ring, [Item(key, old(created))] + items)
    {
      ghost var r, s := ring, [Item(key, created)] + items;
      IndexedNew(ring, items, table, Item(key, created), entry);
      entry.value := created;
      created := created + 1;
      entry.key := key;
      table := table[key := entry];
      ring := [entry] + ring;
      forall j | 0 <= j < |ring| ensures ItemOf(ring[j]) == s[j] {
        assert j > 0 ==> ring[j] == r[j - 1] && s[j] == items[j - 1] && old(ItemOf(r[j - 1])) == items[j - 1];
      }
    }

    /** The entry that was used least recently leaves the ring and the table, and its value is deleted. */
    method Evict(ghost items: seq<Item>) returns (entry: Entry)
      requires Indexed(ring, items, table) && InHeap(ring, items) && ring != []
      modifies this`ring, this`table, this`deleted
      ensures var n := |old(ring)| - 1;
              && entry == old(ring)[n] && ring == old(ring)[..n] && entry !in ring
              && deleted == old(deleted) + [items[n].value]
              && Indexed(ring, items[..n], table) && InHeap(ring, items[..n])
    {
      ghost var r, n := ring, |ring| - 1;
      IndexedLast(ring, items, table);
      entry := ring[|ring| - 1];
      assert ItemOf(entry) == ItemOf(ring[n]) == items[n];
      ring := ring[..|ring| - 1];
      deleted := deleted + [entry.value];
      table := table - {entry.key};
      forall j | 0 <= j < n ensures ItemOf(ring[j]) == items[j] {
        assert old(ItemOf(r[j])) == items[j];
      }
    }

    /** An entry for a key that is not cached: the last one again, if the cache is full, or a new one. */
    method AddEntry(key: string, ghost items: seq<Item>, ghost n: nat)
      requires Indexed(ring, items, table) && InHeap(ring, items) && !Has(items, key) && limit > 0 && used == |ring|
      requires n == if used >= limit then |ring| - 1 else |ring|
      modifies this`ring, this`table, this`created, this`deleted, this`used, ring
      ensures Indexed(ring, [Item(key, old(created))] + items[..n], table)
      ensures InHeap(ring, [Item(key, old(created))] + items[..n])
      ensures deleted == old(deleted) + if n < |items| then [items[n].value] else []
      ensures used == n + 1 && created == old(created) + 1 && forall e :: e in ring ==> e in old(ring) || fresh(e)
    {
      NotIn(items, n, key);
      if used >= limit {
        var entry := Evict(items);
        Install(key, entry, items[..n]);
      } else {
        ghost var r := ring;
        assert items[..n] == items;
        var entry := new Entry(key, 0);
        used := used + 1;
        forall j | 0 <= j < |r| ensures ItemOf(r[j]) == items[j] {
          assert old(ItemOf(r[j])) == items[j];
        }
        Install(key, entry, items);
      }
    }

    /** ctable_locate, for a key that is not cached. */
    method Miss(key: string) returns (value: nat)
      requires Valid() && key !in table
      modifies this, ring
      ensures Valid() && cache == Locate(old(cache), limit, key) && cache.items[0] == Item(key, value)
      ensures forall e :: e in ring ==> e in old(ring) || fresh(e)
    {
      ghost var c, n := cache, if used >= limit then |ring| - 1 else |ring|;
      ghost var c' := Locate(c, limit, key);
      value := created;
      AddEntry(key, c.items, n);
      assert c'.items == [Item(key, value)] + c.items[..n];
      label Added:
      cache := c';
      forall j | 0 <= j < |ring| ensures ItemOf(ring[j]) == c'.items[j] {
        assert old@Added(ItemOf(ring[j])) == c'.items[j];
      }
    }

    /** ctable_locate */
    method Find(key: string) returns (value: nat)
      requires Valid()
      modifies this, ring
      ensures Valid() && cache == Locate(old(cache), limit, key) && cache.items[0] == Item(key, value)
      ensures forall e :: e in ring ==> e in old(ring) || fresh(e)
    {
      if key !in table {
        value := Miss(key);
      } else {
        var entry := table[key];
        ghost var i := Index(cache.items, key);
        assert ItemOf(ring[i]) == cache.items[i];
        value := entry.value;
        Touch(entry, i);
      }
    }

    /** ctable_refresh */
    method Renew(key: string) returns (value: nat)
      requires Valid()
      modifies this, ring
      ensures Valid() && cache == Refresh(old(cache), limit, key) && cache.items[0] == Item(key, value)
      ensures forall e :: e in ring ==> e in old(ring) || fresh(e)
    {
      if key !in table {
        value := Find(key);
        return;
      }
      var entry := table[key];
      ghost var i := Index(cache.items, key);
      Replace(entry, i);
      value := entry.value;
      Touch(entry, i);
    }

    /** The value of a cached entry is deleted and made anew. */
    method Replace(entry: Entry, ghost i: nat)
      requires Valid() && i < |ring| && ring[i] == entry
      modifies this`created, this`deleted, this`cache, entry`value
      ensures Valid() && entry.value == old(created)
      ensures cache == Cache(old(cache.items)[i := Item(old(cache.items[i].key), old(created))], old(created) + 1,
                             old(cache.deleted) + [old(cache.items[i].value)])
    {
      ghost var c, s := cache, cache.items[i := Item(cache.items[i].key, created)];
      IndexedReplace(ring, c.items, table, i, created);
      assert ItemOf(ring[i]) == c.items[i];
      deleted := deleted + [entry.value];
      entry.value := created;
      created := created + 1;
      cache := Cache(s, c.created + 1, c.deleted + [c.items[i].value]);
      forall j | 0 <= j < |ring| ensures ItemOf(ring[j]) == s[j] {
        assert old(ItemOf(ring[j])) == c.items[j];
      }
    }

    /** The calls of ctable_free_callback. */
    method DeleteAll(list: seq<Entry>, ghost values: seq<nat>)
      requires |values| == |list| && forall i :: 0 <= i < |list| ==> list[i].value == values[i]
      modifies this`deleted
      ensures deleted == old(deleted) + values
    {
      var i := 0;
      while i < |list|
        invariant 0 <= i <= |list| && deleted == old(deleted) + values[..i]
      {
        deleted := deleted + [list[i].value];
        i := i + 1;
      }
    }

    /** ctable_free: `list` has the entries in the order in which htable_free() visits them.  By then every value that
        was ever made has been deleted, once. */
    method Free(list: seq<Entry>)
      requires Valid() && Inv(cache, limit) && multiset(list) == multiset(ring)
      modifies this`deleted
      ensures multiset(deleted) == multiset(Upto(created))
    {
      ghost var held := map e | e in ring :: e.value;
      ghost var f := (e: Entry) => if e in held then held[e] else 0;
      Visited(list, ring);
      SameImage(list, ring, f);
      HeapValues(ring, cache.items, f);
      AllDeletedOnce(cache, limit, Image(list, f));
      DeleteAll(list, Image(list, f));
    }
  }

  /** The values of entries, one by one. */
  function Image<E>(s: seq<E>, f: E -> nat): (v: seq<nat>)
    ensures |v| == |s| && forall i :: 0 <= i < |s| ==> v[i] == f(s[i])
  {
    if s == [] then [] else [f(s[0])] + Image(s[1..], f)
  }

  lemma HeapValues(ring: seq<Entry>, items: seq<Item>, f: Entry -> nat)
    requires InHeap(ring, items) && forall e :: e in ring ==> f(e) == e.value
    ensures Image(ring, f) == Values(items)
  {
    assert forall j :: 0 <= j < |ring| ==> ItemOf(ring[j]) == items[j];
  }

  lemma Visited<E>(a: seq<E>, b: seq<E>)
    requires multiset(a) == multiset(b)
    ensures forall e :: e in a ==> e in b
  {
    assert forall e :: e in a ==> e in multiset(a);
  }

  lemma ImageConcat<E>(a: seq<E>, b: seq<E>, f: E -> nat)
    ensures Image(a + b, f) == Image(a, f) + Image(b, f)
  {
  }

  lemma OneLess<E>(a: seq<E>, e: E, b: seq<E>)
    ensures multiset(a + b) == multiset(a + [e] + b) - multiset{e}
  {
  }

  /** One entry less: one value less. */
  lemma ImageSplit<E>(a: seq<E>, e: E, b: seq<E>, f: E -> nat)
    ensures multiset(Image(a + [e] + b, f)) == multiset(Image(a + b, f)) + multiset{f(e)}
  {
    ImageConcat(a + [e], b, f);
    ImageConcat(a, [e], f);
    ImageConcat(a, b, f);
    assert Image([e], f) == [f(e)];
  }

  /** The order in which entries are visited does not matter. */
  lemma {:induction false} SameImage<E>(a: seq<E>, b: seq<E>, f: E -> nat)
    requires multiset(a) == multiset(b)
    ensures multiset(Image(a, f)) == multiset(Image(b, f))
    decreases |a|
  {
    if a == [] {
      assert |b| == |multiset(b)|;
    } else {
      var e, b1, b2 := SplitAt(a, b);
      assert a == [] + [e] + a[1..] && [] + a[1..] == a[1..];
      ImageSplit([], e, a[1..], f);
      ImageSplit(b1, e, b2, f);
      OneLess([], e, a[1..]);
      OneLess(b1, e, b2);
      SameImage(a[1..], b1 + b2, f);
    }
  }

  lemma SplitAt<E>(a: seq<E>, b: seq<E>) returns (e: E, b1: seq<E>, b2: seq<E>)
    requires a != [] && multiset(a) == multiset(b)
    ensures e == a[0] && b == b1 + [e] + b2
  {
    e := a[0];
    Visited(a, b);
    assert e in a && e in b;
    var j :| 0 <= j < |b| && b[j] == e;
    b1, b2 := b[..j], b[j + 1..];
  }
}

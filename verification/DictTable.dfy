/**
 The database below util/dict_cache.c: a table of entries that can be looked up, stored,
 deleted, and enumerated from a current entry.  The order of enumeration is the order of
 the list; where a new entry goes is up to the database, so it is a parameter.
 */
module DictTable {
  import opened Wrappers

  /** A key: the one under which a cleanup pass leaves the time when it ended, or any other string. */
  datatype Key = CleanupCompleted | Name(text: string)
  type Value = string

  datatype Pair = Pair(key: Key, value: Value)

  predicate Distinct(e: seq<Pair>)
  {
    forall i, j :: 0 <= i < j < |e| ==> e[i].key != e[j].key
  }

  /** The position of a key, or the length of the table. */
  function Index(e: seq<Pair>, k: Key): (i: nat)
    ensures i <= |e| && (i < |e| ==> e[i].key == k)
    ensures forall j :: 0 <= j < i ==> e[j].key != k
  {
    if e == [] || e[0].key == k then 0 else 1 + Index(e[1..], k)
  }

  predicate Has(e: seq<Pair>, k: Key)
  {
    Index(e, k) < |e|
  }

  /** dict_get */
  function Get(e: seq<Pair>, k: Key): Option<Value>
  {
    if Has(e, k) then Some(e[Index(e, k)].value) else None
  }

  /** dict_put */
  function Put(e: seq<Pair>, k: Key, v: Value, pos: nat): seq<Pair>
  {
    if Has(e, k) then e[Index(e, k) := Pair(k, v)]
    else var p := if pos < |e| then pos else |e|; e[..p] + [Pair(k, v)] + e[p..]
  }

  /** dict_del */
  function Del(e: seq<Pair>, k: Key): seq<Pair>
  {
    if Has(e, k) then e[..Index(e, k)] + e[Index(e, k) + 1..] else e
  }

  /** dict_seq with DICT_SEQ_FUN_FIRST */
  function First(e: seq<Pair>): Option<Pair>
  {
    if e == [] then None else Some(e[0])
  }

  /** dict_seq with DICT_SEQ_FUN_NEXT.  Defined by the database only while the current entry is stored. */
  function After(e: seq<Pair>, k: Key): Option<Pair>
  {
    if Index(e, k) + 1 < |e| then Some(e[Index(e, k) + 1]) else None
  }

  /** The table as a map. */
  function AsMap(e: seq<Pair>): map<Key, Value>
  {
    if e == [] then map[] else AsMap(e[1..])[e[0].key := e[0].value]
  }

  lemma {:induction false} AsMapConcat(a: seq<Pair>, b: seq<Pair>)
    ensures AsMap(a + b) == AsMap(b) + AsMap(a)
  {
    if a == [] {
      assert a + b == b;
    } else {
      AsMapConcat(a[1..], b);
      assert (a + b)[1..] == a[1..] + b;
    }
  }

  lemma {:induction false} AsMapGet(e: seq<Pair>, k: Key)
    ensures k in AsMap(e) <==> Has(e, k)
    ensures Has(e, k) ==> Get(e, k) == Some(AsMap(e)[k])
  {
    if e != [] && e[0].key != k { AsMapGet(e[1..], k); }
  }

  lemma {:induction false} IndexOf(e: seq<Pair>, i: nat)
    requires Distinct(e) && i < |e|
    ensures Index(e, e[i].key) == i
  {
    var j := Index(e, e[i].key);
    if j < i { assert false; }
  }

  predicate Missing(e: seq<Pair>, k: Key)
  {
    forall i :: 0 <= i < |e| ==> e[i].key != k
  }

  lemma AsMapMissing(e: seq<Pair>, k: Key)
    requires Missing(e, k)
    ensures k !in AsMap(e)
  {
    AsMapGet(e, k);
  }

  lemma AsMapAround(a: seq<Pair>, p: Pair, b: seq<Pair>)
    requires Missing(a, p.key) && Missing(b, p.key)
    ensures AsMap(a + [p] + b) == AsMap(a + b)[p.key := p.value]
    ensures AsMap(a + b) == AsMap(a + [p] + b) - {p.key}
  {
    AsMapMissing(a, p.key);
    AsMapMissing(b, p.key);
    AsMapConcat(a, b);
    AsMapConcat(a + [p], b);
    AsMapConcat(a, [p]);
    MapAdd(AsMap(a), AsMap(b), p.key, p.value);
  }

  lemma Split(e: seq<Pair>, i: nat)
    requires Distinct(e) && i < |e|
    ensures e == e[..i] + [e[i]] + e[i + 1..]
    ensures Missing(e[..i], e[i].key) && Missing(e[i + 1..], e[i].key)
  {
  }

  lemma PutDistinct(e: seq<Pair>, k: Key, v: Value, pos: nat)
    requires Distinct(e)
    ensures Distinct(Put(e, k, v, pos))
  {
  }

  lemma PutMap(e: seq<Pair>, k: Key, v: Value, pos: nat)
    requires Distinct(e)
    ensures Distinct(Put(e, k, v, pos)) && AsMap(Put(e, k, v, pos)) == AsMap(e)[k := v]
  {
    var i, r := Index(e, k), Put(e, k, v, pos);
    PutDistinct(e, k, v, pos);
    if i < |e| {
      Split(e, i);
      AsMapAround(e[..i], e[i], e[i + 1..]);
      AsMapAround(e[..i], Pair(k, v), e[i + 1..]);
      assert r == e[..i] + [Pair(k, v)] + e[i + 1..];
    } else {
      var p := if pos < |e| then pos else |e|;
      AsMapAround(e[..p], Pair(k, v), e[p..]);
      assert e[..p] + e[p..] == e;
    }
  }

  lemma PutHas(e: seq<Pair>, k: Key, v: Value, pos: nat, j: Key)
    requires Distinct(e)
    ensures Has(Put(e, k, v, pos), j) <==> j == k || Has(e, j)
  {
    PutMap(e, k, v, pos);
    AsMapGet(e, j);
    AsMapGet(Put(e, k, v, pos), j);
  }

  lemma DelHas(e: seq<Pair>, k: Key, j: Key)
    requires Distinct(e)
    ensures Has(Del(e, k), j) <==> j != k && Has(e, j)
  {
    DelMap(e, k);
    AsMapGet(e, j);
    AsMapGet(Del(e, k), j);
  }

  lemma DelMap(e: seq<Pair>, k: Key)
    requires Distinct(e)
    ensures Distinct(Del(e, k)) && AsMap(Del(e, k)) == AsMap(e) - {k}
  {
    AsMapGet(e, k);
    if Has(e, k) {
      Split(e, Index(e, k));
      AsMapAround(e[..Index(e, k)], e[Index(e, k)], e[Index(e, k) + 1..]);
    }
  }

  /** Deleting or storing one entry moves the others, but keeps their order and their values. */
  lemma DelIndex(e: seq<Pair>, d: Key, k: Key)
    requires Distinct(e) && Has(e, k) && k != d
    ensures Index(Del(e, d), k) == Index(e, k) - (if Index(e, d) < Index(e, k) then 1 else 0)
    ensures Get(Del(e, d), k) == Get(e, k)
  {
    var i := Index(e, k) - (if Index(e, d) < Index(e, k) then 1 else 0);
    DelMap(e, d);
    assert Del(e, d)[i] == e[Index(e, k)];
    IndexOf(Del(e, d), i);
  }

  lemma PutIndex(e: seq<Pair>, j: Key, v: Value, pos: nat, k: Key)
    requires Distinct(e) && Has(e, k) && k != j
    ensures Index(Put(e, j, v, pos), k) == Index(e, k) + (if !Has(e, j) && pos <= Index(e, k) then 1 else 0)
    ensures Get(Put(e, j, v, pos), k) == Get(e, k)
  {
    var i := Index(e, k) + (if !Has(e, j) && pos <= Index(e, k) then 1 else 0);
    PutDistinct(e, j, v, pos);
    assert Put(e, j, v, pos)[i] == e[Index(e, k)];
    IndexOf(Put(e, j, v, pos), i);
  }
}

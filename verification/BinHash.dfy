/**
 The chained hash table of util/binhash.c: an array of doubly linked chains that is rebuilt
 when it gets full.
 */
module BinHash {
  type Key = seq<bv8>

  // ------------------------------------------------------------------- hashing

  /** One round of the loop in binhash_hash, on a 64-bit size_t. */
  function HashStep(h: bv64, c: bv8): bv64
  {
    var h1 := (h << 4) + c as bv64;
    var g := h1 & 0xf000_0000;
    if g != 0 then h1 ^ (g >> 24) ^ g else h1
  }

  function HashFrom(h: bv64, key: Key): bv64
    decreases |key|
  {
    if key == [] then h else HashFrom(HashStep(h, key[0]), key[1..])
  }

  function HashValue(key: Key): nat
  {
    HashFrom(0, key) as nat
  }

  /** binhash_hash */
  function Bucket(key: Key, size: nat): (b: nat)
    ensures size > 0 ==> b < size
  {
    if size > 0 then HashValue(key) % size else 0
  }

  method BinhashHash(key: Key, size: nat) returns (b: nat)
    requires size > 0
    ensures b == Bucket(key, size)
  {
    var h: bv64 := 0;
    var i := 0;
    assert key[0..] == key;
    while i < |key|
      invariant 0 <= i <= |key| && HashFrom(h, key[i..]) == HashFrom(0, key)
    {
      assert key[i..][1..] == key[i + 1..];
      h := HashStep(h, key[i]);
      i := i + 1;
    }
    b := h as nat % size;
  }

  // -------------------------------------------------------------------- chains

  class Info {
    const key: Key
    const value: int
    var next: Info?
    var prev: Info?

    constructor (key: Key, value: int)
      ensures this.key == key && this.value == value
    {
      this.key := key;
      this.value := value;
      next := null;
      prev := null;
    }
  }

  function Head(c: seq<Info>): Info?
  {
    if c == [] then null else c[0]
  }

  function After(c: seq<Info>, i: nat): Info?
  {
    if i + 1 < |c| then c[i + 1] else null
  }

  function Before(c: seq<Info>, i: nat): Info?
  {
    if 0 < i <= |c| then c[i - 1] else null
  }

  /** The link fields of an entry. */
  datatype Links = Links(next: Info?, prev: Info?)
  type Memory = map<Info, Links>

  /** A chain, linked both ways. */
  ghost predicate Linked(m: Memory, c: seq<Info>)
  {
    && (forall i :: 0 <= i < |c| ==> c[i] in m)
    && (forall i {:trigger After(c, i)} :: 0 <= i < |c| ==> m[c[i]] == Links(After(c, i), Before(c, i)))
  }

  ghost predicate AllLinked(m: Memory, chains: seq<seq<Info>>)
  {
    forall b {:trigger Linked(m, chains[b])} :: 0 <= b < |chains| ==> Linked(m, chains[b])
  }

  predicate NoRepeats(c: seq<Info>)
  {
    forall i, j :: 0 <= i < j < |c| ==> c[i] != c[j]
  }

  /** A chain of entries of the table, all of which belong in bucket b. */
  ghost predicate GoodChain(c: seq<Info>, b: nat, size: nat, table: map<Key, Info>)
  {
    && NoRepeats(c)
    && forall i :: 0 <= i < |c| ==> Bucket(c[i].key, size) == b && c[i].key in table && table[c[i].key] == c[i]
  }

  /** An entry is in the chain of its bucket. */
  ghost predicate Stored(chains: seq<seq<Info>>, table: map<Key, Info>, k: Key)
    requires |chains| > 0
  {
    k in table ==> table[k].key == k && table[k] in chains[Bucket(k, |chains|)]
  }

  /** Every chain is good, and every entry is in the chain of its bucket. */
  ghost predicate Placed(chains: seq<seq<Info>>, size: nat, table: map<Key, Info>)
  {
    && |chains| == size > 0
    && (forall b {:trigger GoodChain(chains[b], b, size, table)} ::
          0 <= b < |chains| ==> GoodChain(chains[b], b, size, table))
    && (forall k {:trigger Stored(chains, table, k)} :: Stored(chains, table, k))
  }

  lemma PushChain(c: seq<Info>, b: nat, size: nat, table: map<Key, Info>, e: Info)
    requires GoodChain(c, b, size, table) && e.key !in table && Bucket(e.key, size) == b
    ensures GoodChain([e] + c, b, size, table[e.key := e]) && e !in c
  {
    var d := [e] + c;
    assert forall i :: 0 < i < |d| ==> d[i] == c[i - 1];
  }

  lemma KeepChain(c: seq<Info>, b: nat, size: nat, table: map<Key, Info>, e: Info)
    requires GoodChain(c, b, size, table) && e.key !in table
    ensures GoodChain(c, b, size, table[e.key := e])
  {
  }

  /** Entering a key that is absent, in front of its chain. */
  lemma PlacedLink(chains: seq<seq<Info>>, size: nat, table: map<Key, Info>, e: Info)
    requires Placed(chains, size, table) && e.key !in table
    ensures var b := Bucket(e.key, size);
            Placed(chains[b := [e] + chains[b]], size, table[e.key := e]) && |table[e.key := e]| == |table| + 1
            && e !in chains[b]
  {
    var b := Bucket(e.key, size);
    var t := table[e.key := e];
    assert t.Keys == table.Keys + {e.key};
    var cs := chains[b := [e] + chains[b]];
    forall x | 0 <= x < |cs| ensures GoodChain(cs[x], x, size, t) {
      assert GoodChain(chains[x], x, size, table);
      if x == b { PushChain(chains[x], x, size, table, e); } else { KeepChain(chains[x], x, size, table, e); }
    }
    forall k ensures Stored(cs, t, k) {
      assert Stored(chains, table, k);
      if k == e.key {
        assert cs[b][0] == e;
      }
    }
    assert GoodChain(chains[b], b, size, table);
    PushChain(chains[b], b, size, table, e);
  }

  /** A chain without its i-th entry. */
  function Cut(c: seq<Info>, i: nat): (r: seq<Info>)
    requires i < |c|
    ensures |r| == |c| - 1 && forall j :: 0 <= j < |r| ==> r[j] == c[if j < i then j else j + 1]
  {
    c[..i] + c[i + 1..]
  }

  lemma CutChain(c: seq<Info>, i: nat, b: nat, size: nat, table: map<Key, Info>)
    requires GoodChain(c, b, size, table) && i < |c|
    ensures GoodChain(Cut(c, i), b, size, table - {c[i].key})
  {
    var r := Cut(c, i);
    forall j | 0 <= j < |r| ensures r[j].key != c[i].key {
      var k := if j < i then j else j + 1;
      assert r[j] == c[k] && table[c[k].key] == c[k] && table[c[i].key] == c[i] && c[k] != c[i];
    }
  }

  lemma OtherChain(c: seq<Info>, b: nat, size: nat, table: map<Key, Info>, k: Key)
    requires GoodChain(c, b, size, table) && Bucket(k, size) != b
    ensures GoodChain(c, b, size, table - {k})
  {
  }

  /** Taking the i-th entry out of its chain. */
  lemma PlacedUnlink(chains: seq<seq<Info>>, size: nat, table: map<Key, Info>, b: nat, i: nat)
    requires Placed(chains, size, table) && b < |chains| && i < |chains[b]|
    ensures var k := chains[b][i].key;
            Placed(chains[b := Cut(chains[b], i)], size, table - {k}) && |table - {k}| == |table| - 1
  {
    var c := chains[b];
    var e, c' := c[i], Cut(c, i);
    assert GoodChain(c, b, size, table);
    var t, cs := table - {e.key}, chains[b := c'];
    assert t.Keys == table.Keys - {e.key};
    CutChain(c, i, b, size, table);
    forall x | 0 <= x < |cs| ensures GoodChain(cs[x], x, size, t) {
      if x != b {
        assert GoodChain(chains[x], x, size, table);
        OtherChain(chains[x], x, size, table, e.key);
      }
    }
    forall k ensures Stored(cs, t, k) {
      assert Stored(chains, table, k);
      if k in t && Bucket(k, size) == b {
        var j :| 0 <= j < |c| && c[j] == table[k];
        assert c'[if j < i then j else j - 1] == table[k];
      }
    }
  }

  // --------------------------------------------------------------------- links

  /** An entry of one chain is not in another, and an entry whose key is absent is in none. */
  lemma Apart(chains: seq<seq<Info>>, size: nat, table: map<Key, Info>, x: nat, b: nat, elm: Info)
    requires Placed(chains, size, table) && x < |chains| && b < |chains| && x != b
    ensures forall e :: e in chains[x] ==> e !in chains[b] && (elm.key !in table ==> e != elm)
  {
    assert GoodChain(chains[x], x, size, table) && GoodChain(chains[b], b, size, table);
  }

  /** What binhash_link writes. */
  function Pushed(m: Memory, elm: Info, c: seq<Info>): Memory
    requires c != [] ==> c[0] in m
  {
    var m1 := m[elm := Links(Head(c), null)];
    if c == [] then m1 else m1[c[0] := m[c[0]].(prev := elm)]
  }

  lemma LinkedPush(m: Memory, c: seq<Info>, elm: Info)
    requires Linked(m, c) && NoRepeats(c) && elm !in c
    ensures Linked(Pushed(m, elm, c), [elm] + c)
  {
    var d, m' := [elm] + c, Pushed(m, elm, c);
    forall i | 0 <= i < |d| ensures d[i] in m' && m'[d[i]] == Links(After(d, i), Before(d, i)) {
      if i > 0 {
        assert d[i] == c[i - 1] && m[c[i - 1]] == Links(After(c, i - 1), Before(c, i - 1));
      }
    }
  }

  lemma LinkedSame(m: Memory, m': Memory, c: seq<Info>)
    requires Linked(m, c) && forall e :: e in c ==> e in m' && m'[e] == m[e]
    ensures Linked(m', c)
  {
  }

  lemma AllLinkedPush(m: Memory, chains: seq<seq<Info>>, size: nat, table: map<Key, Info>, elm: Info)
    requires Placed(chains, size, table) && AllLinked(m, chains) && elm.key !in table
    ensures var b := Bucket(elm.key, size);
            Linked(m, chains[b]) && AllLinked(Pushed(m, elm, chains[b]), chains[b := [elm] + chains[b]])
  {
    var b := Bucket(elm.key, size);
    assert Linked(m, chains[b]);
    var m', cs := Pushed(m, elm, chains[b]), chains[b := [elm] + chains[b]];
    PlacedLink(chains, size, table, elm);
    forall x | 0 <= x < |cs| ensures Linked(m', cs[x]) {
      if x == b {
        assert GoodChain(chains[b], b, size, table);
        LinkedPush(m, chains[b], elm);
      } else {
        Apart(chains, size, table, x, b, elm);
        LinkedSame(m, m', chains[x]);
      }
    }
  }

  /** What binhash_delete writes to the neighbours of the i-th entry. */
  function CutOut(m: Memory, c: seq<Info>, i: nat): Memory
    requires i < |c| && forall j :: 0 <= j < |c| ==> c[j] in m
  {
    var m1 := if i + 1 < |c| then m[c[i + 1] := m[c[i + 1]].(prev := Before(c, i))] else m;
    if i > 0 then m1[c[i - 1] := m1[c[i - 1]].(next := After(c, i))] else m1
  }

  lemma LinkedCut(m: Memory, c: seq<Info>, i: nat)
    requires Linked(m, c) && NoRepeats(c) && i < |c|
    ensures Linked(CutOut(m, c, i), Cut(c, i))
  {
    var r, m' := Cut(c, i), CutOut(m, c, i);
    forall j | 0 <= j < |r| ensures r[j] in m' && m'[r[j]] == Links(After(r, j), Before(r, j)) {
      var k := if j < i then j else j + 1;
      assert r[j] == c[k] && m[c[k]] == Links(After(c, k), Before(c, k));
    }
  }

  lemma AllLinkedCut(m: Memory, chains: seq<seq<Info>>, size: nat, table: map<Key, Info>, b: nat, i: nat)
    requires Placed(chains, size, table) && AllLinked(m, chains) && b < |chains| && i < |chains[b]|
    ensures Linked(m, chains[b]) && AllLinked(CutOut(m, chains[b], i), chains[b := Cut(chains[b], i)])
  {
    assert Linked(m, chains[b]);
    var m', cs := CutOut(m, chains[b], i), chains[b := Cut(chains[b], i)];
    forall x | 0 <= x < |cs| ensures Linked(m', cs[x]) {
      if x == b {
        assert GoodChain(chains[b], b, size, table);
        LinkedCut(m, chains[b], i);
      } else {
        Apart(chains, size, table, x, b, chains[b][i]);
        LinkedSame(m, m', chains[x]);
      }
    }
  }

  // --------------------------------------------------------------------- tables

  /** A hash table: its chains, the number of them, the map that it stands for, and the links in memory. */
  datatype State = State(chains: seq<seq<Info>>, size: nat, table: map<Key, Info>, memory: Memory)

  ghost predicate Good(s: State)
  {
    match s
    case State(chains, size, table, memory) => Placed(chains, size, table) && AllLinked(memory, chains)
  }

  /** binhash_link, for a key that is absent. */
  ghost function Push(s: State, elm: Info): State
    requires Good(s)
  {
    var b := Bucket(elm.key, s.size);
    assert Linked(s.memory, s.chains[b]);
    State(s.chains[b := [elm] + s.chains[b]], s.size, s.table[elm.key := elm], Pushed(s.memory, elm, s.chains[b]))
  }

  lemma GoodPush(s: State, elm: Info)
    requires Good(s) && elm.key !in s.table
    ensures Good(Push(s, elm)) && |Push(s, elm).table| == |s.table| + 1
            && Push(s, elm).memory.Keys == s.memory.Keys + {elm}
    ensures var c := s.chains[Bucket(elm.key, s.size)]; elm !in c && (c != [] ==> c[0] in s.memory)
  {
    PlacedLink(s.chains, s.size, s.table, elm);
    AllLinkedPush(s.memory, s.chains, s.size, s.table, elm);
  }

  /** binhash_delete of the i-th entry of a chain. */
  ghost function Remove(s: State, b: nat, i: nat): State
    requires Good(s) && b < |s.chains| && i < |s.chains[b]|
  {
    assert Linked(s.memory, s.chains[b]);
    State(s.chains[b := Cut(s.chains[b], i)], s.size, s.table - {s.chains[b][i].key}, CutOut(s.memory, s.chains[b], i))
  }

  lemma GoodRemove(s: State, b: nat, i: nat)
    requires Good(s) && b < |s.chains| && i < |s.chains[b]|
    ensures Good(Remove(s, b, i)) && |Remove(s, b, i).table| == |s.table| - 1
            && Remove(s, b, i).memory.Keys == s.memory.Keys
  {
    PlacedUnlink(s.chains, s.size, s.table, b, i);
    AllLinkedCut(s.memory, s.chains, s.size, s.table, b, i);
  }

  // ------------------------------------------------------------- all the entries

  /** The chains one after the other: the order in which binhash_grow and binhash_list visit the entries. */
  function Flat(chains: seq<seq<Info>>): seq<Info>
  {
    if chains == [] then [] else Flat(chains[..|chains| - 1]) + chains[|chains| - 1]
  }

  /** How many entries come before chain b in the flat order. */
  function Start(chains: seq<seq<Info>>, b: nat): nat
    requires b <= |chains|
  {
    if b == 0 then 0 else Start(chains, b - 1) + |chains[b - 1]|
  }

  /** The entries of `c` are those of `es` from `start` on. */
  predicate PartOf(es: seq<Info>, c: seq<Info>, start: nat)
  {
    start + |c| <= |es| && forall i :: 0 <= i < |c| ==> c[i] == es[start + i]
  }

  lemma {:induction false} StartOf(front: seq<seq<Info>>, chains: seq<seq<Info>>, b: nat)
    requires front <= chains && b <= |front|
    ensures Start(front, b) == Start(chains, b)
    decreases b
  {
    if b > 0 { StartOf(front, chains, b - 1); }
  }

  lemma {:induction false} StartAll(chains: seq<seq<Info>>)
    ensures Start(chains, |chains|) == |Flat(chains)|
    decreases |chains|
  {
    if chains != [] {
      var n := |chains| - 1;
      StartAll(chains[..n]);
      StartOf(chains[..n], chains, n);
    }
  }

  /** Chain b in the flat order. */
  lemma {:induction false} FlatPart(chains: seq<seq<Info>>, b: nat)
    requires b < |chains|
    ensures PartOf(Flat(chains), chains[b], Start(chains, b))
    decreases |chains|
  {
    var n := |chains| - 1;
    var front := chains[..n];
    StartOf(front, chains, b);
    if b == n {
      StartAll(front);
    } else {
      FlatPart(front, b);
    }
  }

  lemma {:induction false} InFlat(chains: seq<seq<Info>>, e: Info)
    ensures e in Flat(chains) <==> exists b :: 0 <= b < |chains| && e in chains[b]
    decreases |chains|
  {
    if chains != [] {
      var front := chains[..|chains| - 1];
      InFlat(front, e);
      if e in Flat(front) {
        var b :| 0 <= b < |front| && e in front[b];
        assert e in chains[b];
      }
    }
  }

  /** Chains whose entries belong in their bucket have no entry in common. */
  lemma {:induction false} FlatNoRepeats(chains: seq<seq<Info>>, size: nat, table: map<Key, Info>)
    requires forall b :: 0 <= b < |chains| ==> GoodChain(chains[b], b, size, table)
    ensures NoRepeats(Flat(chains))
    decreases |chains|
  {
    if chains != [] {
      var n := |chains| - 1;
      var front := chains[..n];
      FlatNoRepeats(front, size, table);
      forall e | e in Flat(front) ensures e !in chains[n] {
        InFlat(front, e);
        var b :| 0 <= b < |front| && e in front[b];
        assert GoodChain(chains[b], b, size, table) && GoodChain(chains[n], n, size, table);
      }
      assert GoodChain(chains[n], n, size, table);
      NoRepeatsConcat(Flat(front), chains[n]);
    }
  }

  lemma NoRepeatsConcat(a: seq<Info>, b: seq<Info>)
    requires NoRepeats(a) && NoRepeats(b) && forall e :: e in a ==> e !in b
    ensures NoRepeats(a + b)
  {
    var c := a + b;
    forall i, j | 0 <= i < j < |c| ensures c[i] != c[j] {
      if i < |a| && j >= |a| {
        assert c[i] in a && c[j] in b;
      }
    }
  }

  lemma FlatIsTable(s: State, e: Info)
    requires Good(s)
    ensures e in Flat(s.chains) <==> e.key in s.table && s.table[e.key] == e
  {
    InFlat(s.chains, e);
    assert Stored(s.chains, s.table, e.key);
    if e in Flat(s.chains) {
      var b :| 0 <= b < |s.chains| && e in s.chains[b];
      assert GoodChain(s.chains[b], b, s.size, s.table);
    }
  }

  function KeySet(es: seq<Info>): set<Key>
  {
    if es == [] then {} else KeySet(es[..|es| - 1]) + {es[|es| - 1].key}
  }

  lemma {:induction false} InKeySet(es: seq<Info>, k: Key)
    ensures k in KeySet(es) <==> exists i :: 0 <= i < |es| && es[i].key == k
  {
    if es != [] {
      var n := |es| - 1;
      InKeySet(es[..n], k);
      if k in KeySet(es[..n]) {
        var i :| 0 <= i < n && es[..n][i].key == k;
        assert es[i].key == k;
      }
    }
  }

  lemma {:induction false} DistinctKeys(es: seq<Info>)
    requires forall i, j :: 0 <= i < j < |es| ==> es[i].key != es[j].key
    ensures |KeySet(es)| == |es|
  {
    if es != [] {
      DistinctKeys(es[..|es| - 1]);
      InKeySet(es[..|es| - 1], es[|es| - 1].key);
    }
  }

  /** The entries of a table, each once. */
  lemma FlatOnce(s: State)
    requires Good(s)
    ensures NoRepeats(Flat(s.chains)) && |Flat(s.chains)| == |s.table|
    ensures forall e :: e in Flat(s.chains) <==> e.key in s.table && s.table[e.key] == e
  {
    FlatNoRepeats(s.chains, s.size, s.table);
    forall e ensures e in Flat(s.chains) <==> e.key in s.table && s.table[e.key] == e {
      FlatIsTable(s, e);
    }
    var es := Flat(s.chains);
    forall i | 0 <= i < |es| ensures es[i].key in s.table && s.table[es[i].key] == es[i] {
      FlatIsTable(s, es[i]);
    }
    DistinctKeys(es);
    var ks := KeySet(es);
    forall k | k in s.table ensures k in ks {
      assert Stored(s.chains, s.table, k);
      FlatIsTable(s, s.table[k]);
      var i :| 0 <= i < |es| && es[i] == s.table[k];
      InKeySet(es, k);
    }
    forall k | k in ks ensures k in s.table {
      InKeySet(es, k);
    }
    assert ks == s.table.Keys;
  }

  // --------------------------------------------------------------------- growing

  /** size |= 1 */
  function Odd(size: nat): (r: nat)
    ensures r % 2 == 1 && size <= r <= size + 1
  {
    if size % 2 == 0 then size + 1 else size
  }

  ghost function EmptyState(size: nat): State
    requires size > 0
  {
    State(seq(size, _ => []), size, map[], map[])
  }

  lemma EmptyGood(size: nat)
    requires size > 0
    ensures Good(EmptyState(size))
  {
  }

  /** Entries of a table, none of them twice. */
  ghost predicate Lists(es: seq<Info>, s: State)
  {
    && NoRepeats(es)
    && forall q :: 0 <= q < |es| ==> es[q] in s.memory && es[q].key in s.table && s.table[es[q].key] == es[q]
  }

  /** The first p of the entries were moved to table `t`. */
  ghost predicate Moved(es: seq<Info>, s: State, t: State, p: nat)
  {
    && p <= |es| && t.memory.Keys <= s.memory.Keys
    && (forall k :: k in t.table ==> k in s.table && t.table[k] == s.table[k])
    && (forall q :: 0 <= q < |es| ==> (es[q].key in t.table <==> q < p))
  }

  lemma FlatLists(s: State)
    requires Good(s)
    ensures Lists(Flat(s.chains), s)
  {
    var es := Flat(s.chains);
    FlatNoRepeats(s.chains, s.size, s.table);
    forall q | 0 <= q < |es| ensures es[q] in s.memory && es[q].key in s.table && s.table[es[q].key] == es[q] {
      FlatIsTable(s, es[q]);
      InFlat(s.chains, es[q]);
      var b :| 0 <= b < |s.chains| && es[q] in s.chains[b];
      assert Linked(s.memory, s.chains[b]);
    }
  }

  lemma MovedOne(es: seq<Info>, s: State, t: State, p: nat)
    requires Lists(es, s) && Good(t) && Moved(es, s, t, p) && p < |es|
    ensures es[p].key !in t.table && Moved(es, s, Push(t, es[p]), p + 1)
  {
    GoodPush(t, es[p]);
  }

  lemma MovedAll(s: State, t: State)
    requires Good(s) && Moved(Flat(s.chains), s, t, |Flat(s.chains)|)
    ensures t.table == s.table
  {
    forall k | k in s.table ensures k in t.table {
      assert Stored(s.chains, s.table, k);
      FlatIsTable(s, s.table[k]);
      var q :| 0 <= q < |Flat(s.chains)| && Flat(s.chains)[q] == s.table[k];
    }
    assert t.table.Keys == s.table.Keys;
  }
}

/**
 The operations of util/binhash.c on the heap.  The table is a finite map for callers that
 enter only absent keys and delete only present ones.
 */
module BinHashTable {
  import opened Wrappers
  import opened BinHash

  ghost function LinksOf(e: Info): Links
    reads e
  {
    Links(e.next, e.prev)
  }

  /** The heap is as the memory says. */
  ghost predicate InHeap(m: Memory)
    reads m.Keys
  {
    forall e {:trigger LinksOf(e)} :: e in m ==> LinksOf(e) == m[e]
  }

  ghost predicate Heads(data: array<Info?>, chains: seq<seq<Info>>)
    reads data
  {
    data.Length == |chains| && forall b :: 0 <= b < |chains| ==> data[b] == Head(chains[b])
  }

  /** The writes of binhash_link. */
  method WriteLink(data: array<Info?>, b: nat, elm: Info, ghost m: Memory, ghost c: seq<Info>)
    requires b < data.Length && data[b] == Head(c) && (c != [] ==> c[0] in m && c[0] != elm) && InHeap(m)
    modifies data, elm`next, elm`prev, m.Keys`prev
    ensures InHeap(Pushed(m, elm, c))
    ensures forall x :: 0 <= x < data.Length ==> data[x] == if x == b then elm else old(data[x])
  {
    var head := data[b];
    assert head != null ==> LinksOf(head) == m[head];
    elm.prev := null;
    elm.next := head;
    if elm.next != null {
      head.prev := elm;
    }
    data[b] := elm;
    ghost var m' := Pushed(m, elm, c);
    forall e | e in m' ensures LinksOf(e) == m'[e] {
      assert e in m ==> old(LinksOf(e)) == m[e];
    }
  }

  /** The heap holds a table. */
  ghost predicate Built(data: array<Info?>, s: State)
    reads data, s.memory.Keys
  {
    match s
    case State(chains, _, _, memory) => Good(s) && Heads(data, chains) && InHeap(memory)
  }

  /** binhash_link, which also counts the entry. */
  method Link(data: array<Info?>, elm: Info, b: nat, used: nat, ghost s: State) returns (used': nat)
    requires Built(data, s) && elm.key !in s.table && b == Bucket(elm.key, s.size) && used == |s.table|
    modifies data, elm`next, elm`prev, s.memory.Keys`prev
    ensures Built(data, Push(s, elm)) && used' == |Push(s, elm).table|
  {
    GoodPush(s, elm);
    WriteLink(data, b, elm, s.memory, s.chains[b]);
    used' := used + 1;
  }

  /** The writes of binhash_delete. */
  method WriteCut(data: array<Info?>, b: nat, ht: Info, ghost m: Memory, ghost c: seq<Info>, ghost i: nat)
    requires b < data.Length && data[b] == Head(c) && Linked(m, c) && NoRepeats(c) && i < |c| && c[i] == ht && InHeap(m)
    modifies data, m.Keys
    ensures InHeap(CutOut(m, c, i))
    ensures forall x :: 0 <= x < data.Length ==> data[x] == if x == b then Head(Cut(c, i)) else old(data[x])
  {
    assert LinksOf(ht) == m[ht] == Links(After(c, i), Before(c, i));
    if ht.next != null {
      assert LinksOf(c[i + 1]) == m[c[i + 1]];
      ht.next.prev := ht.prev;
    }
    if ht.prev != null {
      ht.prev.next := ht.next;
    } else {
      data[b] := ht.next;
    }
    ghost var m' := CutOut(m, c, i);
    forall e | e in m' ensures LinksOf(e) == m'[e] {
      assert old(LinksOf(e)) == m[e];
    }
  }

  /** The end of binhash_delete, when the entry was found. */
  method Unlink(data: array<Info?>, b: nat, ht: Info, ghost s: State, ghost i: nat) returns (ghost s': State)
    requires Built(data, s) && b < data.Length && i < |s.chains[b]| && s.chains[b][i] == ht
    modifies data, s.memory.Keys
    ensures Built(data, s') && s'.table == s.table - {ht.key} && s'.size == s.size && s'.memory.Keys == s.memory.Keys
    ensures |s'.table| == |s.table| - 1
  {
    s' := Remove(s, b, i);
    GoodRemove(s, b, i);
    assert Linked(s.memory, s.chains[b]) && GoodChain(s.chains[b], b, s.size, s.table);
    WriteCut(data, b, ht, s.memory, s.chains[b], i);
  }

  /** binhash_locate, and the search of binhash_find and binhash_delete.  The first byte of a key is compared only if
      an entry with a key of that length is found, and no entry has a key of length zero. */
  method Search(data: array<Info?>, key: Key, b: nat, ghost s: State) returns (ht: Info?, ghost i: nat)
    requires Built(data, s) && b == Bucket(key, s.size) && [] !in s.table
    ensures ht == if key in s.table then s.table[key] else null
    ensures ht != null ==> i < |s.chains[b]| && s.chains[b][i] == ht && ht.key == key
  {
    ghost var c := s.chains[b];
    assert Linked(s.memory, s.chains[b]) && GoodChain(s.chains[b], b, s.size, s.table);
    ht, i := data[b], 0;
    while ht != null
      invariant i <= |c| && ht == (if i < |c| then c[i] else null)
      invariant forall j :: 0 <= j < i ==> c[j].key != key
      decreases |c| - i
    {
      if |key| == |ht.key| && key[0] == ht.key[0] && key == ht.key {
        return;
      }
      assert LinksOf(ht) == s.memory[ht] && s.memory[c[i]] == Links(After(c, i), Before(c, i));
      ht, i := ht.next, i + 1;
    }
    assert Stored(s.chains, s.table, key);
  }

  /** The inner loop of binhash_list. */
  method ListChain(head: Info?, before: seq<Info>, ghost m: Memory, ghost c: seq<Info>) returns (list: seq<Info>)
    requires Linked(m, c) && InHeap(m) && head == Head(c)
    ensures list == before + c
  {
    list := before;
    var member := head;
    ghost var j := 0;
    while member != null
      invariant j <= |c| && member == (if j < |c| then c[j] else null) && list == before + c[..j]
      decreases |c| - j
    {
      assert LinksOf(member) == m[member] && m[c[j]] == Links(After(c, j), Before(c, j));
      list := list + [member];
      member, j := member.next, j + 1;
    }
    assert c[..j] == c;
  }

  /** binhash_list */
  method List(data: array<Info?>, ghost s: State) returns (list: seq<Info>)
    requires Built(data, s)
    ensures list == Flat(s.chains)
  {
    list := [];
    var i := 0;
    while i < data.Length
      invariant 0 <= i <= data.Length && list == Flat(s.chains[..i])
    {
      assert Linked(s.memory, s.chains[i]);
      list := ListChain(data[i], list, s.memory, s.chains[i]);
      assert s.chains[..i + 1][..i] == s.chains[..i];
      i := i + 1;
    }
    assert s.chains[..i] == s.chains;
  }

  /** The entries from position p on still have their next links. */
  ghost predicate Waiting(es: seq<Info>, p: nat, m: Memory)
    reads es
  {
    forall q :: p <= q < |es| ==> es[q] in m && es[q].next == m[es[q]].next
  }

  lemma AllWaiting(es: seq<Info>, s: State)
    requires Lists(es, s) && InHeap(s.memory)
    ensures Waiting(es, 0, s.memory)
  {
    forall q | 0 <= q < |es| ensures es[q] in s.memory && es[q].next == s.memory[es[q]].next {
      assert LinksOf(es[q]) == s.memory[es[q]];
    }
  }

  /** The first p of the entries of `s` are in the new table `t`, and counted.  (Equality with `true` makes the verifier
      treat the conjunction as one fact.) */
  ghost predicate Rehashing(data: array<Info?>, used: nat, es: seq<Info>, s: State, t: State, p: nat)
    reads data, t.memory.Keys, es
  {
    true == (
      && Built(data, t) && t.size == data.Length > 0 && used == |t.table|
      && Lists(es, s) && Moved(es, s, t, p) && Waiting(es, p, s.memory))
  }

  /** One round of the inner loop in binhash_grow. */
  method MoveOne(
    data: array<Info?>, ht: Info, used: nat, ghost es: seq<Info>, ghost s: State, ghost t: State, ghost p: nat)
      returns (next: Info?, used': nat, ghost t': State)
    requires Rehashing(data, used, es, s, t, p) && p < |es| && es[p] == ht && ht in s.memory
    modifies data, s.memory.Keys
    ensures Rehashing(data, used', es, s, t', p + 1) && next == s.memory[ht].next
  {
    next := ht.next;
    MovedOne(es, s, t, p);
    var b := BinhashHash(ht.key, data.Length);
    t' := Push(t, ht);
    used' := Link(data, ht, b, used, t);
    forall q | p + 1 <= q < |es| ensures es[q] in s.memory && es[q].next == s.memory[es[q]].next {
      assert old(es[q].next) == s.memory[es[q]].next && es[q] != ht;
    }
  }

  /** Entry j of the chain is the entry of the flat order that it should be, and was linked to the next one. */
  ghost predicate LinkAt(es: seq<Info>, m: Memory, c: seq<Info>, start: nat, j: nat)
  {
    && j < |c| && start + j < |es| && es[start + j] == c[j]
    && c[j] in m && m[c[j]].next == After(c, j)
  }

  ghost predicate ChainIn(es: seq<Info>, m: Memory, c: seq<Info>, start: nat)
  {
    forall j {:trigger LinkAt(es, m, c, start, j)} :: 0 <= j < |c| ==> LinkAt(es, m, c, start, j)
  }

  lemma FlatChain(s: State, b: nat)
    requires Good(s) && b < |s.chains|
    ensures ChainIn(Flat(s.chains), s.memory, s.chains[b], Start(s.chains, b))
  {
    FlatPart(s.chains, b);
    assert Linked(s.memory, s.chains[b]);
    var c := s.chains[b];
    forall j | 0 <= j < |c| ensures LinkAt(Flat(s.chains), s.memory, c, Start(s.chains, b), j) {
      assert s.memory[c[j]] == Links(After(c, j), Before(c, j));
    }
  }

  /** The inner loop of binhash_grow: a chain of the old table is moved. */
  method MoveChain(
    data: array<Info?>, head: Info?, used: nat, ghost es: seq<Info>, ghost s: State, ghost t: State, ghost c: seq<Info>,
    ghost start: nat)
      returns (used': nat, ghost t': State)
    requires ChainIn(es, s.memory, c, start) && head == Head(c) && Rehashing(data, used, es, s, t, start)
    modifies data, s.memory.Keys
    ensures Rehashing(data, used', es, s, t', start + |c|)
  {
    var ht := head;
    ghost var j, p := 0, start;
    used', t' := used, t;
    while ht != null
      invariant j <= |c| && p == start + j && ht == (if j < |c| then c[j] else null)
      invariant Rehashing(data, used', es, s, t', p)
      decreases |c| - j
    {
      assert LinkAt(es, s.memory, c, start, j);
      ht, used', t' := MoveOne(data, ht, used', es, s, t', p);
      j, p := j + 1, p + 1;
    }
  }

  /** binhash_size: an empty table. */
  method Size(size: nat) returns (data: array<Info?>, used: nat)
    requires size > 0
    ensures fresh(data) && data.Length == Odd(size) && used == 0 && Built(data, EmptyState(data.Length))
  {
    data := new Info?[Odd(size)](_ => null);
    used := 0;
    EmptyGood(data.Length);
  }

  /** The outer loop of binhash_grow. */
  method MoveAll(data: array<Info?>, data': array<Info?>, used: nat, ghost s: State)
      returns (used': nat, ghost s': State)
    requires Good(s) && Heads(data, s.chains) && data != data' && data'.Length > 0
    requires Rehashing(data', used, Flat(s.chains), s, EmptyState(data'.Length), 0)
    modifies data', s.memory.Keys
    ensures Rehashing(data', used', Flat(s.chains), s, s', |Flat(s.chains)|)
  {
    used', s' := used, EmptyState(data'.Length);
    ghost var p := 0;
    var h := 0;
    while h < data.Length
      invariant 0 <= h <= data.Length && p == Start(s.chains, h)
      invariant Rehashing(data', used', Flat(s.chains), s, s', p)
    {
      FlatChain(s, h);
      used', s' := MoveChain(data', data[h], used', Flat(s.chains), s, s', s.chains[h], p);
      h, p := h + 1, p + |s.chains[h]|;
    }
    StartAll(s.chains);
  }

  /** binhash_grow: the same entries in a table that is twice as large, counted again. */
  method Grow(data: array<Info?>, ghost s: State) returns (data': array<Info?>, used: nat, ghost s': State)
    requires Built(data, s) && data.Length > 0
    modifies s.memory.Keys
    ensures fresh(data') && data'.Length == Odd(2 * data.Length) && Built(data', s')
    ensures s'.table == s.table && s'.size == data'.Length && s'.memory.Keys <= s.memory.Keys && used == |s.table|
  {
    data', used := Size(2 * data.Length);
    forall e | e in s.memory ensures LinksOf(e) == s.memory[e] {
      assert old(LinksOf(e)) == s.memory[e];
    }
    FlatLists(s);
    AllWaiting(Flat(s.chains), s);
    used, s' := MoveAll(data, data', used, s);
    MovedAll(s, s');
  }

  class HashTable {
    var data: array<Info?>
    var used: nat
    ghost var state: State

    /** The finite map that the table stands for; `used` counts its entries, and there are no more of them than
        buckets. */
    ghost predicate Valid()
      reads this, data, state.memory.Keys
    {
      match state
      case State(_, size, table, _) =>
        Built(data, state) && used == |table| <= size && size == data.Length && size >= 13 && [] !in table
    }

    /** binhash_create */
    constructor (size: nat)
      ensures Valid() && state.table == map[] && fresh(data) && fresh(state.memory.Keys)
    {
      var d, n := Size(if size < 13 then 13 else size);
      data, used, state := d, n, EmptyState(d.Length);
    }

    /** binhash_enter, for a key that is absent.  The program does not allocate keys of length zero. */
    method Enter(key: Key, value: int) returns (ht: Info)
      requires Valid() && key !in state.table && key != []
      modifies this, data, state.memory.Keys
      ensures Valid() && fresh(ht) && ht.key == key && ht.value == value && state.table == old(state.table)[key := ht]
      ensures (data == old(data) || fresh(data)) && fresh(state.memory.Keys - old(state.memory.Keys))
    {
      var d, n;
      ghost var s;
      d, n, ht, s := EnterIn(data, key, value, used, state);
      label Entered:
      data, used, state := d, n, s;
      forall e | e in s.memory ensures LinksOf(e) == s.memory[e] {
        assert old@Entered(LinksOf(e)) == s.memory[e];
      }
    }

    /** binhash_locate */
    method Locate(key: Key) returns (ht: Info?)
      requires Valid()
      ensures ht == if key in state.table then state.table[key] else null
    {
      var b := BinhashHash(key, data.Length);
      ghost var i;
      ht, i := Search(data, key, b, state);
    }

    /** binhash_delete; a key that is absent is an error of the caller, and changes nothing. */
    method Delete(key: Key) returns (found: bool)
      requires Valid()
      modifies this, data, state.memory.Keys
      ensures Valid() && found == (key in old(state.table)) && state.table == old(state.table) - {key}
      ensures data == old(data) && state.memory.Keys == old(state.memory.Keys)
    {
      var n;
      ghost var s;
      n, found, s := DeleteIn(data, key, used, state);
      label Deleted:
      used, state := n, s;
      forall e | e in s.memory ensures LinksOf(e) == s.memory[e] {
        assert old@Deleted(LinksOf(e)) == s.memory[e];
      }
    }

    /** binhash_list: every entry once. */
    method ListAll() returns (list: seq<Info>)
      requires Valid()
      ensures |list| == used && NoRepeats(list)
      ensures forall e :: e in list <==> e.key in state.table && state.table[e.key] == e
    {
      list := List(data, state);
      FlatOnce(state);
    }

    /** One request of a caller: the answer is that of a plain map from keys to values. */
    method Perform(op: Operation) returns (answer: Option<int>)
      requires Valid() && Legal(Contents(state.table), op)
      modifies this, data, state.memory.Keys
      ensures Valid() && Contents(state.table) == Plain(old(Contents(state.table)), op)
      ensures answer == Answer(old(Contents(state.table)), op)
      ensures (data == old(data) || fresh(data)) && fresh(state.memory.Keys - old(state.memory.Keys))
    {
      answer := None;
      ghost var t := state.table;
      match op {
        case EnterOp(key, value) =>
          var ht := Enter(key, value);
          ContentsEnter(t, key, ht);
        case FindOp(key) =>
          var ht := Locate(key);
          if ht != null { answer := Some(ht.value); }
        case DeleteOp(key) =>
          var _ := Delete(key);
          ContentsDelete(t, key);
      }
    }

    /** Any run of requests.  `maps` are the states of the plain map. */
    method PerformAll(ops: seq<Operation>, ghost maps: seq<map<Key, int>>) returns (answers: seq<Option<int>>)
      requires Valid() && Run(maps, ops) && maps[0] == Contents(state.table)
      modifies this, data, state.memory.Keys
      ensures Valid() && Contents(state.table) == maps[|ops|]
      ensures |answers| == |ops| && forall i :: 0 <= i < |ops| ==> answers[i] == Answer(maps[i], ops[i])
    {
      answers := [];
      var i := 0;
      while i < |ops|
        invariant 0 <= i == |answers| <= |ops| && Valid() && Contents(state.table) == maps[i]
        invariant forall j :: 0 <= j < i ==> answers[j] == Answer(maps[j], ops[j])
        invariant (data == old(data) || fresh(data)) && fresh(state.memory.Keys - old(state.memory.Keys))
      {
        assert RunAt(maps, ops, i);
        var answer := Perform(ops[i]);
        answers := answers + [answer];
        i := i + 1;
      }
    }
  }

  // ------------------------------------------------------------------------ runs

  datatype Operation =
    | EnterOp(key: Key, value: int)
    | FindOp(key: Key)
    | DeleteOp(key: Key)

  /** The keys and their values. */
  ghost function Contents(table: map<Key, Info>): map<Key, int>
  {
    map k | k in table :: table[k].value
  }

  lemma ContentsEnter(t: map<Key, Info>, k: Key, ht: Info)
    ensures Contents(t[k := ht]) == Contents(t)[k := ht.value]
  {
  }

  lemma ContentsDelete(t: map<Key, Info>, k: Key)
    ensures Contents(t - {k}) == Contents(t) - {k}
  {
  }

  /** A caller enters only absent keys, none of them empty, and deletes only present ones. */
  ghost predicate Legal(m: map<Key, int>, op: Operation)
  {
    match op
    case EnterOp(key, _) => key !in m && key != []
    case FindOp(_) => true
    case DeleteOp(key) => key in m
  }

  ghost function Plain(m: map<Key, int>, op: Operation): map<Key, int>
  {
    match op
    case EnterOp(key, value) => m[key := value]
    case FindOp(_) => m
    case DeleteOp(key) => m - {key}
  }

  ghost function Answer(m: map<Key, int>, op: Operation): Option<int>
  {
    if op.FindOp? && op.key in m then Some(m[op.key]) else None
  }

  ghost predicate RunAt(maps: seq<map<Key, int>>, ops: seq<Operation>, i: nat)
    requires |maps| == |ops| + 1 && i < |ops|
  {
    Legal(maps[i], ops[i]) && maps[i + 1] == Plain(maps[i], ops[i])
  }

  /** The states of a plain map before, between and after requests, all of them legal. */
  ghost predicate Run(maps: seq<map<Key, int>>, ops: seq<Operation>)
  {
    |maps| == |ops| + 1 && forall i :: 0 <= i < |ops| ==> RunAt(maps, ops, i)
  }

  /** binhash_enter on the array: it is resized first if it is full. */
  method EnterIn(data: array<Info?>, key: Key, value: int, used: nat, ghost s: State)
      returns (data': array<Info?>, used': nat, ht: Info, ghost s': State)
    requires Built(data, s) && data.Length > 0 && key !in s.table && s.size == data.Length
             && used == |s.table| <= data.Length
    modifies data, s.memory.Keys
    ensures (data' == data || fresh(data')) && fresh(ht) && ht.key == key && ht.value == value
    ensures Built(data', s') && s'.table == s.table[key := ht] && s'.size == data'.Length
    ensures used' == |s'.table| <= data'.Length && data'.Length >= data.Length
    ensures s'.memory.Keys <= s.memory.Keys + {ht}
  {
    data', used', s' := data, used, s;
    if used >= data.Length {
      data', used', s' := Grow(data, s);
    }
    used', ht, s' := AddEntry(data', key, value, used', s');
  }

  method AddEntry(data: array<Info?>, key: Key, value: int, used: nat, ghost s: State)
      returns (used': nat, ht: Info, ghost s': State)
    requires Built(data, s) && data.Length > 0 && key !in s.table && s.size == data.Length && used == |s.table|
    modifies data, s.memory.Keys
    ensures fresh(ht) && ht.key == key && ht.value == value
    ensures Built(data, s') && s'.table == s.table[key := ht] && s'.size == s.size && used' == |s'.table| == used + 1
    ensures s'.memory.Keys == s.memory.Keys + {ht}
  {
    ht := new Info(key, value);
    forall e | e in s.memory ensures LinksOf(e) == s.memory[e] {
      assert old(LinksOf(e)) == s.memory[e];
    }
    var b := BinhashHash(key, data.Length);
    GoodPush(s, ht);
    s' := Push(s, ht);
    used' := Link(data, ht, b, used, s);
  }

  /** binhash_delete on the array. */
  method DeleteIn(data: array<Info?>, key: Key, used: nat, ghost s: State)
      returns (n: nat, found: bool, ghost s': State)
    requires Built(data, s) && s.size == data.Length > 0 && used == |s.table| && [] !in s.table
    modifies data, s.memory.Keys
    ensures Built(data, s') && s'.table == s.table - {key} && s'.size == s.size
    ensures n == |s'.table| <= used && found == (key in s.table) && s'.memory.Keys == s.memory.Keys
  {
    var b := BinhashHash(key, data.Length);
    var ht;
    ghost var i;
    ht, i := Search(data, key, b, s);
    n, found, s' := used, false, s;
    if ht != null {
      s' := Unlink(data, b, ht, s, i);
      n, found := used - 1, true;
    } else {
      assert s.table - {key} == s.table;
    }
  }
}

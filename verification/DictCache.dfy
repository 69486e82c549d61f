/**
 The delete-behind cache of util/dict_cache.c.  An entry is not deleted from the table
 while it is the table's current entry; it is only marked, and goes when the enumeration
 has moved on.  All operations of the database succeed.
 */
module DictCache {
  import opened Wrappers
  import opened DictTable

  /** DC_LAST_CACHE_CLEANUP_COMPLETED */
  const STAMP: Key := CleanupCompleted

  /** What a DICT_CACHE and its table hold.  `cursor` is the table's own current entry. */
  datatype Cache = Cache(
    entries: seq<Pair>, cursor: Option<Key>, saved: Option<Pair>, deleting: bool, retained: nat, dropped: nat)

  datatype Direction = SeqFirst | SeqNext

  predicate IsSaved(c: Cache, k: Key)
  {
    c.saved.Some? && c.saved.value.key == k
  }

  function Lookup(c: Cache, k: Key): Option<Value>
  {
    if c.deleting && IsSaved(c, k) then None else Get(c.entries, k)
  }

  function Update(c: Cache, k: Key, v: Value, pos: nat): Cache
  {
    c.(deleting := c.deleting && !IsSaved(c, k), entries := Put(c.entries, k, v, pos))
  }

  function Delete(c: Cache, k: Key): Cache
  {
    if IsSaved(c, k) then c.(deleting := true) else c.(entries := Del(c.entries, k))
  }

  /** The first or next entry of the table, passing over the time stamp. */
  function Visible(c: Cache, d: Direction): Option<Pair>
  {
    var r := if d.SeqFirst? then First(c.entries)
             else if c.cursor.Some? then After(c.entries, c.cursor.value) else None;
    if r.Some? && r.value.key == STAMP then After(c.entries, STAMP) else r
  }

  function Sequence(c: Cache, d: Direction): Cache
  {
    var r := Visible(c, d);
    c.(saved := r, cursor := if r.Some? then Some(r.value.key) else None, deleting := false,
       entries := if c.deleting && c.saved.Some? then Del(c.entries, c.saved.value.key) else c.entries)
  }

  /** dict_cache_clean_event */
  function CleanEvent(c: Cache, valid: Pair -> bool, stamp: Value, pos: nat): Cache
  {
    var c1 := if c.saved.None? then Sequence(c.(retained := 0, dropped := 0), SeqFirst) else Sequence(c, SeqNext);
    if c1.saved.None? then c1.(retained := 0, dropped := 0, entries := Put(c1.entries, STAMP, stamp, pos))
    else if valid(c1.saved.value) then c1.(retained := c1.retained + 1)
    else c1.(deleting := true, dropped := c1.dropped + 1)
  }

  // ----------------------------------------------------------- the logical map

  /** What the application sees. */
  function Logical(c: Cache): map<Key, Value>
  {
    AsMap(c.entries) - (if c.deleting && c.saved.Some? then {c.saved.value.key} else {})
  }

  predicate Sound(c: Cache)
  {
    Distinct(c.entries) && (c.deleting ==> c.saved.Some?)
  }

  lemma LookupIsLogical(c: Cache, k: Key)
    requires Sound(c)
    ensures Lookup(c, k) == if k in Logical(c) then Some(Logical(c)[k]) else None
  {
    AsMapGet(c.entries, k);
  }

  lemma UpdateIsLogical(c: Cache, k: Key, v: Value, pos: nat)
    requires Sound(c)
    ensures Sound(Update(c, k, v, pos)) && Logical(Update(c, k, v, pos)) == Logical(c)[k := v]
  {
    PutMap(c.entries, k, v, pos);
  }

  lemma DeleteIsLogical(c: Cache, k: Key)
    requires Sound(c)
    ensures Sound(Delete(c, k)) && Logical(Delete(c, k)) == Logical(c) - {k}
  {
    DelMap(c.entries, k);
    RemoveTwo(AsMap(c.entries), k, if c.saved.Some? then {c.saved.value.key} else {});
  }

  lemma RemoveTwo<K, V>(m: map<K, V>, k: K, s: set<K>)
    ensures m - {k} - s == m - s - {k}
    ensures s == {k} ==> m - s - {k} == m - s
    ensures m - {} == m
  {
  }

  lemma SequenceIsLogical(c: Cache, d: Direction)
    requires Sound(c)
    ensures Sound(Sequence(c, d)) && Logical(Sequence(c, d)) == Logical(c)
  {
    if c.deleting { DelMap(c.entries, c.saved.value.key); }
  }

  datatype Operation =
    | LookupOp(key: Key)
    | UpdateOp(key: Key, value: Value, pos: nat)
    | DeleteOp(key: Key)
    | SequenceOp(direction: Direction)

  function Apply(c: Cache, o: Operation): Cache
  {
    match o
    case LookupOp(_) => c
    case UpdateOp(k, v, pos) => Update(c, k, v, pos)
    case DeleteOp(k) => Delete(c, k)
    case SequenceOp(d) => Sequence(c, d)
  }

  function ApplyAll(c: Cache, ops: seq<Operation>): Cache
  {
    if ops == [] then c else Apply(ApplyAll(c, ops[..|ops| - 1]), ops[|ops| - 1])
  }

  /** The same operations on a plain map. */
  function Plain(m: map<Key, Value>, ops: seq<Operation>): map<Key, Value>
  {
    if ops == [] then m
    else
      var m' := Plain(m, ops[..|ops| - 1]);
      match ops[|ops| - 1]
      case UpdateOp(k, v, _) => m'[k := v]
      case DeleteOp(k) => m' - {k}
      case _ => m'
  }

  /** After any operations, the cache answers every lookup as the plain map does. */
  lemma {:induction false} CacheIsMap(c: Cache, ops: seq<Operation>)
    requires Sound(c)
    ensures Sound(ApplyAll(c, ops)) && Logical(ApplyAll(c, ops)) == Plain(Logical(c), ops)
    ensures forall k :: Lookup(ApplyAll(c, ops), k)
                     == if k in Plain(Logical(c), ops) then Some(Plain(Logical(c), ops)[k]) else None
  {
    if ops != [] {
      var c', o := ApplyAll(c, ops[..|ops| - 1]), ops[|ops| - 1];
      CacheIsMap(c, ops[..|ops| - 1]);
      match o
      case LookupOp(_) =>
      case UpdateOp(k, v, pos) => UpdateIsLogical(c', k, v, pos);
      case DeleteOp(k) => DeleteIsLogical(c', k);
      case SequenceOp(d) => SequenceIsLogical(c', d);
    }
    forall k { LookupIsLogical(ApplyAll(c, ops), k); }
  }

  // --------------------------------------------- the table's current entry is never deleted

  /** The table's current entry, if there is one, is stored. */
  predicate CursorStored(c: Cache)
  {
    c.cursor.Some? ==> Has(c.entries, c.cursor.value)
  }

  /** What holds before and after every call, unless a FIRST call was unsafe. */
  predicate Inv(c: Cache)
  {
    && Sound(c) && CursorStored(c)
    && c.cursor == (if c.saved.Some? then Some(c.saved.value.key) else None)
    && (c.saved.Some? ==> c.saved.value.key != STAMP)
  }

  /** A step of the application, or one cleanup event. */
  datatype Step =
    | User(op: Operation)
    | Clean(stamp: Value, pos: nat)

  function Take(c: Cache, s: Step, valid: Pair -> bool): Cache
  {
    match s
    case User(o) => Apply(c, o)
    case Clean(stamp, pos) => CleanEvent(c, valid, stamp, pos)
  }

  predicate Took(states: seq<Cache>, steps: seq<Step>, valid: Pair -> bool, i: nat)
    requires |states| == |steps| + 1 && i < |steps|
  {
    states[i + 1] == Take(states[i], steps[i], valid)
  }

  /** The states before, between and after the steps of a run. */
  predicate Run(states: seq<Cache>, steps: seq<Step>, valid: Pair -> bool)
  {
    |states| == |steps| + 1 && forall i :: 0 <= i < |steps| ==> Took(states, steps, valid, i)
  }

  /** The entry that FIRST returns is not the one scheduled for deletion.  So it is while no key is saved. */
  predicate SafeFirst(c: Cache)
  {
    !(c.deleting && Visible(c, SeqFirst).Some? && IsSaved(c, Visible(c, SeqFirst).value.key))
  }

  /** Any step of the application is allowed, except a FIRST call that is not safe. */
  predicate Allowed(c: Cache, s: Step)
  {
    s == User(SequenceOp(SeqFirst)) ==> SafeFirst(c)
  }

  lemma VisibleStored(c: Cache, d: Direction)
    requires Distinct(c.entries)
    ensures var r := Visible(c, d);
            r.Some? ==> Has(c.entries, r.value.key) && (d.SeqNext? ==> c.cursor.Some?)
    ensures var r := Visible(c, d);
            r.Some? && d.SeqNext? && CursorStored(c) && c.cursor != Some(STAMP) ==>
              r.value.key != c.cursor.value && r.value.key != STAMP
    ensures var r := Visible(c, d); r.Some? && d.SeqFirst? ==> r.value.key != STAMP
  {
    var r := Visible(c, d);
    if r.Some? {
      var i := Index(c.entries, r.value.key);
      if d.SeqNext? && c.cursor.Some? {
        var k := Index(c.entries, c.cursor.value);
        assert r.value in c.entries;
        if r == After(c.entries, c.cursor.value) {
          IndexOf(c.entries, k + 1);
        }
        if Has(c.entries, STAMP) && Index(c.entries, STAMP) + 1 < |c.entries| {
          IndexOf(c.entries, Index(c.entries, STAMP) + 1);
        }
      } else if d.SeqFirst? {
        IndexOf(c.entries, 0);
        if Has(c.entries, STAMP) && Index(c.entries, STAMP) + 1 < |c.entries| {
          IndexOf(c.entries, Index(c.entries, STAMP) + 1);
        }
      }
    }
  }

  lemma SequenceKeeps(c: Cache, d: Direction)
    requires Inv(c) && (d.SeqFirst? ==> SafeFirst(c))
    ensures Inv(Sequence(c, d))
  {
    VisibleStored(c, d);
    var r := Visible(c, d);
    if c.deleting {
      DelMap(c.entries, c.saved.value.key);
      if r.Some? { DelHas(c.entries, c.saved.value.key, r.value.key); }
    }
  }

  lemma CleanKeeps(c: Cache, valid: Pair -> bool, stamp: Value, pos: nat)
    requires Inv(c)
    ensures Inv(CleanEvent(c, valid, stamp, pos))
  {
    var c0 := if c.saved.None? then c.(retained := 0, dropped := 0) else c;
    var d := if c.saved.None? then SeqFirst else SeqNext;
    SequenceKeeps(c0, d);
    var c1 := Sequence(c0, d);
    if c1.saved.None? { PutMap(c1.entries, STAMP, stamp, pos); }
  }

  lemma UserKeeps(c: Cache, o: Operation)
    requires Inv(c) && Allowed(c, User(o))
    ensures Inv(Apply(c, o))
  {
    match o
    case LookupOp(_) =>
    case SequenceOp(d) => SequenceKeeps(c, d);
    case UpdateOp(k, v, pos) =>
      PutMap(c.entries, k, v, pos);
      if c.saved.Some? { PutHas(c.entries, k, v, pos, c.saved.value.key); }
    case DeleteOp(k) =>
      DelMap(c.entries, k);
      if c.saved.Some? { DelHas(c.entries, k, c.saved.value.key); }
  }

  /** Exactly when FIRST, issued in the middle of an enumeration, leaves the table with a deleted current
      entry: when that first entry is the one scheduled for deletion. */
  lemma FirstIsSafeUnless(c: Cache)
    requires Inv(c)
    ensures CursorStored(Sequence(c, SeqFirst)) <==> SafeFirst(c)
  {
    VisibleStored(c, SeqFirst);
    var r := Visible(c, SeqFirst);
    if c.deleting && r.Some? {
      DelHas(c.entries, c.saved.value.key, r.value.key);
    }
  }

  lemma TakeKeeps(c: Cache, s: Step, valid: Pair -> bool)
    requires Inv(c)
    ensures Allowed(c, s) ==> Inv(Take(c, s, valid))
    ensures CursorStored(Take(c, s, valid)) ==> Allowed(c, s)
  {
    if Allowed(c, s) {
      match s
      case User(o) => UserKeeps(c, o);
      case Clean(stamp, pos) => CleanKeeps(c, valid, stamp, pos);
    } else {
      FirstIsSafeUnless(c);
    }
  }

  lemma {:induction false} AllowedKeeps(states: seq<Cache>, steps: seq<Step>, valid: Pair -> bool, n: nat)
    requires Run(states, steps, valid) && Inv(states[0]) && n <= |steps|
    requires forall i :: 0 <= i < n ==> Allowed(states[i], steps[i])
    ensures Inv(states[n])
  {
    if n > 0 {
      AllowedKeeps(states, steps, valid, n - 1);
      assert Took(states, steps, valid, n - 1);
      TakeKeeps(states[n - 1], steps[n - 1], valid);
    }
  }

  lemma {:induction false} StoredAllowed(states: seq<Cache>, steps: seq<Step>, valid: Pair -> bool, n: nat)
    requires Run(states, steps, valid) && Inv(states[0]) && n <= |steps|
    requires forall i :: 0 <= i <= n ==> CursorStored(states[i])
    ensures forall i :: 0 <= i < n ==> Allowed(states[i], steps[i])
  {
    if n > 0 {
      StoredAllowed(states, steps, valid, n - 1);
      AllowedKeeps(states, steps, valid, n - 1);
      assert Took(states, steps, valid, n - 1);
      TakeKeeps(states[n - 1], steps[n - 1], valid);
    }
  }

  /** In every run of cleanup events and of application calls, enumerations included, the table's current entry is
      stored at every moment, and so whenever NEXT is issued, if and only if every FIRST call of the application
      is safe. */
  lemma NextIsSafe(states: seq<Cache>, steps: seq<Step>, valid: Pair -> bool)
    requires Run(states, steps, valid) && Inv(states[0])
    ensures (forall i :: 0 <= i < |steps| ==> Allowed(states[i], steps[i]))
       <==> (forall i :: 0 <= i < |states| ==> CursorStored(states[i]))
    ensures (forall i :: 0 <= i < |steps| ==> Allowed(states[i], steps[i]))
        ==> (forall i :: 0 <= i < |states| ==> Inv(states[i]))
  {
    if forall i :: 0 <= i < |steps| ==> Allowed(states[i], steps[i]) {
      forall i | 0 <= i < |states| ensures Inv(states[i]) {
        AllowedKeeps(states, steps, valid, i);
      }
    } else if forall i :: 0 <= i < |states| ==> CursorStored(states[i]) {
      StoredAllowed(states, steps, valid, |steps|);
    }
  }

  /** In particular if FIRST is issued only while no current key is saved. */
  lemma FirstWhileNoneSaved(states: seq<Cache>, steps: seq<Step>, valid: Pair -> bool)
    requires Run(states, steps, valid) && Inv(states[0])
    requires forall i :: 0 <= i < |steps| && steps[i] == User(SequenceOp(SeqFirst)) ==> states[i].saved.None?
    ensures forall i :: 0 <= i < |states| ==> Inv(states[i])
  {
    forall i | 0 <= i < |steps| ensures Allowed(states[i], steps[i]) {
      if steps[i] == User(SequenceOp(SeqFirst)) { assert states[i].saved.None?; }
    }
    NextIsSafe(states, steps, valid);
  }

  /** Such a table: one entry, current, deleted, and then enumerated from the start. */
  lemma FirstCanBeUnsafe()
    ensures var c := Delete(Sequence(Cache([Pair(Name("a"), "x")], None, None, false, 0, 0), SeqFirst), Name("a"));
            Inv(c) && !CursorStored(Sequence(c, SeqFirst))
  {
    var e := [Pair(Name("a"), "x")];
    var c1 := Sequence(Cache(e, None, None, false, 0, 0), SeqFirst);
    assert Index(e, Name("a")) == 0;
    assert c1.saved == Some(Pair(Name("a"), "x"));
    FirstIsSafeUnless(Delete(c1, Name("a")));
  }

  // ------------------------------------------------------ a cleanup pass that nobody disturbs

  /** The entries that a pass keeps: those the validator accepts, and the time stamp. */
  function Kept(e: seq<Pair>, valid: Pair -> bool): seq<Pair>
  {
    if e == [] then []
    else (if e[0].key == STAMP || valid(e[0]) then [e[0]] else []) + Kept(e[1..], valid)
  }

  /** How many entries, apart from the time stamp, the validator accepts, or rejects. */
  function Count(e: seq<Pair>, valid: Pair -> bool, verdict: bool): nat
  {
    if e == [] then 0
    else (if e[0].key != STAMP && valid(e[0]) == verdict then 1 else 0) + Count(e[1..], valid, verdict)
  }

  lemma {:induction false} CountConcat(a: seq<Pair>, b: seq<Pair>, valid: Pair -> bool, verdict: bool)
    ensures Count(a + b, valid, verdict) == Count(a, valid, verdict) + Count(b, valid, verdict)
  {
    if a == [] {
      assert a + b == b;
    } else {
      CountConcat(a[1..], b, valid, verdict);
      assert (a + b)[1..] == a[1..] + b;
    }
  }

  lemma {:induction false} KeptConcat(a: seq<Pair>, b: seq<Pair>, valid: Pair -> bool)
    ensures Kept(a + b, valid) == Kept(a, valid) + Kept(b, valid)
  {
    if a == [] {
      assert a + b == b;
    } else {
      KeptConcat(a[1..], b, valid);
      assert (a + b)[1..] == a[1..] + b;
      var h := if a[0].key == STAMP || valid(a[0]) then [a[0]] else [];
      assert h + (Kept(a[1..], valid) + Kept(b, valid)) == h + Kept(a[1..], valid) + Kept(b, valid);
    }
  }

  lemma {:induction false} KeptDistinct(e: seq<Pair>, valid: Pair -> bool)
    requires Distinct(e)
    ensures Distinct(Kept(e, valid))
    ensures forall k :: Missing(e, k) ==> Missing(Kept(e, valid), k)
  {
    if e != [] {
      var r := e[1..];
      KeptDistinct(r, valid);
      assert Missing(r, e[0].key);
      forall k | Missing(e, k) ensures Missing(Kept(e, valid), k) {
        assert Missing(r, k) && e[0].key != k;
      }
    }
  }

  /** The pass that started with the entries `e` is looking at e[i]. */
  predicate MidPass(c: Cache, e: seq<Pair>, i: nat, valid: Pair -> bool)
  {
    && i < |e| && e[i].key != STAMP && Distinct(e)
    && c.entries == Kept(e[..i], valid) + e[i..]
    && c.saved == Some(e[i]) && c.cursor == Some(e[i].key) && c.deleting == !valid(e[i])
    && c.retained == Count(e[..i + 1], valid, true) && c.dropped == Count(e[..i + 1], valid, false)
  }

  /** The position after i, passing over the time stamp. */
  function Step1(e: seq<Pair>, i: nat): nat
  {
    if i < |e| && e[i].key == STAMP then i + 1 else i
  }

  /** One more entry of the pass: what is kept of the prefix. */
  lemma KeptMore(e: seq<Pair>, i: nat, valid: Pair -> bool)
    requires i < |e|
    ensures Kept(e[..i + 1], valid) == Kept(e[..i], valid) + (if e[i].key == STAMP || valid(e[i]) then [e[i]] else [])
    ensures Count(e[..i + 1], valid, true)
         == Count(e[..i], valid, true) + if e[i].key != STAMP && valid(e[i]) then 1 else 0
    ensures Count(e[..i + 1], valid, false)
         == Count(e[..i], valid, false) + if e[i].key != STAMP && !valid(e[i]) then 1 else 0
  {
    assert e[..i + 1] == e[..i] + [e[i]];
    KeptConcat(e[..i], [e[i]], valid);
    CountConcat(e[..i], [e[i]], valid, true);
    CountConcat(e[..i], [e[i]], valid, false);
  }

  /** Where the entries of the pass are in the table, once the first ones have been sifted. */
  lemma SiftedIndex(e: seq<Pair>, i: nat, j: nat, valid: Pair -> bool)
    requires Distinct(e) && i <= j < |e|
    ensures var t := Kept(e[..i], valid) + e[i..];
            Distinct(t) && Index(t, e[j].key) == |Kept(e[..i], valid)| + j - i
  {
    var k := Kept(e[..i], valid);
    var t := k + e[i..];
    KeptDistinct(e[..i], valid);
    forall m, n | 0 <= m < n < |t| ensures t[m].key != t[n].key {
      if m < |k| && n >= |k| {
        assert Missing(e[..i], t[n].key);
        assert Missing(k, t[n].key);
      }
    }
    IndexOf(t, |k| + j - i);
  }

  /** The table without e[i] if it was rejected. */
  lemma DropRejected(c: Cache, e: seq<Pair>, i: nat, valid: Pair -> bool)
    requires MidPass(c, e, i, valid)
    ensures (if c.deleting then Del(c.entries, e[i].key) else c.entries) == Kept(e[..i + 1], valid) + e[i + 1..]
  {
    var k := Kept(e[..i], valid);
    SiftedIndex(e, i, i, valid);
    KeptMore(e, i, valid);
    if c.deleting {
      DelAt(k, e, i);
    } else {
      assert k + e[i..] == (k + [e[i]]) + e[i + 1..];
    }
  }

  lemma DelAt(k: seq<Pair>, e: seq<Pair>, i: nat)
    requires i < |e| && Index(k + e[i..], e[i].key) == |k|
    ensures Del(k + e[i..], e[i].key) == k + [] + e[i + 1..]
  {
    var t := k + e[i..];
    assert t[..|k|] == k && t[|k| + 1..] == e[i + 1..];
  }

  /** What follows e[i] in the table. */
  lemma AfterCurrent(c: Cache, e: seq<Pair>, i: nat, valid: Pair -> bool)
    requires MidPass(c, e, i, valid)
    ensures After(c.entries, e[i].key) == if i + 1 < |e| then Some(e[i + 1]) else None
  {
    var k, t := Kept(e[..i], valid), c.entries;
    SiftedIndex(e, i, i, valid);
    assert i + 1 < |e| ==> t[|k| + 1] == e[i + 1];
  }

  lemma AfterStamp(e: seq<Pair>, i: nat, j: nat, valid: Pair -> bool)
    requires Distinct(e) && i <= j < |e| && e[j].key == STAMP
    ensures After(Kept(e[..i], valid) + e[i..], STAMP) == if j + 1 < |e| then Some(e[j + 1]) else None
  {
    SiftedIndex(e, i, j, valid);
  }

  lemma KeepStamp(e: seq<Pair>, j: nat, valid: Pair -> bool)
    requires j < |e| && e[j].key == STAMP
    ensures Kept(e[..j], valid) + e[j..] == Kept(e[..j + 1], valid) + e[j + 1..]
  {
    var k := Kept(e[..j], valid);
    KeptMore(e, j, valid);
    assert k + e[j..] == (k + [e[j]]) + e[j + 1..];
  }

  /** What NEXT returns in a pass, passing over the time stamp. */
  lemma NextAt(c: Cache, e: seq<Pair>, i: nat, valid: Pair -> bool)
    requires MidPass(c, e, i, valid)
    ensures var j := Step1(e, i + 1); Visible(c, SeqNext) == if j < |e| then Some(e[j]) else None
  {
    AfterCurrent(c, e, i, valid);
    if i + 1 < |e| && e[i + 1].key == STAMP { AfterStamp(e, i, i + 1, valid); }
  }

  /** Moving on from e[i]: the entry is dropped if it was rejected. */
  lemma MoveOn(c: Cache, e: seq<Pair>, i: nat, valid: Pair -> bool)
    requires MidPass(c, e, i, valid)
    ensures var s, j := Sequence(c, SeqNext), Step1(e, i + 1);
            && s.entries == Kept(e[..j], valid) + e[j..] && !s.deleting
            && s.saved == (if j < |e| then Some(e[j]) else None)
            && s.cursor == (if j < |e| then Some(e[j].key) else None)
            && s.retained == c.retained && s.dropped == c.dropped
  {
    DropRejected(c, e, i, valid);
    NextAt(c, e, i, valid);
    if i + 1 < |e| && e[i + 1].key == STAMP { KeepStamp(e, i + 1, valid); }
  }

  predicate PassDone(c: Cache, e: seq<Pair>, valid: Pair -> bool, stamp: Value, pos: nat)
  {
    c.saved.None? && !c.deleting && c.entries == Put(Kept(e, valid), STAMP, stamp, pos)
  }

  /** One event inside a pass: on to the next entry, or to the end. */
  lemma PassStep(c: Cache, e: seq<Pair>, i: nat, valid: Pair -> bool, stamp: Value, pos: nat)
    requires MidPass(c, e, i, valid)
    ensures var c', j := CleanEvent(c, valid, stamp, pos), Step1(e, i + 1);
            if j < |e| then MidPass(c', e, j, valid) else PassDone(c', e, valid, stamp, pos)
  {
    var j := Step1(e, i + 1);
    MoveOn(c, e, i, valid);
    if i + 1 < |e| && e[i + 1].key == STAMP { KeptMore(e, i + 1, valid); }
    if j < |e| {
      assert e[j].key != STAMP by {
        if e[i + 1].key == STAMP { assert e[i + 1].key != e[j].key; }
      }
      KeptMore(e, j, valid);
    } else {
      assert e[..j] == e && Kept(e, valid) + e[j..] == Kept(e, valid);
    }
  }

  /** What FIRST returns at the start of a pass. */
  lemma StartAt(c: Cache)
    requires Distinct(c.entries)
    ensures var j, e := Step1(c.entries, 0), c.entries;
            Visible(c, SeqFirst) == (if j < |e| then Some(e[j]) else None) && (j < |e| ==> e[j].key != STAMP)
  {
    var e := c.entries;
    if |e| > 1 {
      IndexOf(e, 0);
      assert e[0].key != e[1].key;
    }
  }

  /** A time stamp at the start is kept, and not counted. */
  lemma StampKept(e: seq<Pair>, valid: Pair -> bool)
    ensures var j := Step1(e, 0);
            && e == Kept(e[..j], valid) + e[j..]
            && Count(e[..j], valid, true) == Count(e[..j], valid, false) == 0
  {
    assert Kept(e[..0], valid) == [] && e[0..] == e;
    if e != [] && e[0].key == STAMP {
      KeptMore(e, 0, valid);
      assert e == [] + [e[0]] + e[1..];
    }
  }

  /** The first event of a pass. */
  lemma PassStart(c: Cache, valid: Pair -> bool, stamp: Value, pos: nat)
    requires Inv(c) && c.saved.None?
    ensures var c', j, e := CleanEvent(c, valid, stamp, pos), Step1(c.entries, 0), c.entries;
            if j < |e| then MidPass(c', e, j, valid) else PassDone(c', e, valid, stamp, pos)
  {
    var e := c.entries;
    var j := Step1(e, 0);
    StartAt(c.(retained := 0, dropped := 0));
    StampKept(e, valid);
    if j < |e| {
      KeptMore(e, j, valid);
    } else {
      assert e[..j] == e && Kept(e, valid) + e[j..] == Kept(e, valid);
    }
  }

  /** Successive states, with nothing but cleanup events between them. */
  predicate Chain(states: seq<Cache>, valid: Pair -> bool, stamp: Value, pos: nat)
  {
    states != [] && forall k :: 0 < k < |states| ==> states[k] == CleanEvent(states[k - 1], valid, stamp, pos)
  }

  lemma ChainMore(c: Cache, c': Cache, rest: seq<Cache>, valid: Pair -> bool, stamp: Value, pos: nat)
    requires Chain(rest, valid, stamp, pos) && rest[0] == c' && c' == CleanEvent(c, valid, stamp, pos)
    ensures Chain([c] + rest, valid, stamp, pos)
  {
    var s := [c] + rest;
    forall k | 0 < k < |s| ensures s[k] == CleanEvent(s[k - 1], valid, stamp, pos) {
      assert s[k] == rest[k - 1];
      if k > 1 { assert s[k - 1] == rest[k - 2]; }
    }
  }

  lemma LastCounts(c: Cache, e: seq<Pair>, i: nat, valid: Pair -> bool)
    requires MidPass(c, e, i, valid) && Step1(e, i + 1) >= |e|
    ensures c.retained == Count(e, valid, true) && c.dropped == Count(e, valid, false)
  {
    var n := i + 1;
    assert c.retained == Count(e[..n], valid, true) && c.dropped == Count(e[..n], valid, false);
    if n < |e| {
      KeptMore(e, n, valid);
      assert e[..n + 1] == e;
    } else {
      assert e[..n] == e;
    }
  }

  predicate Counted(c: Cache, e: seq<Pair>, valid: Pair -> bool)
  {
    c.retained == Count(e, valid, true) && c.dropped == Count(e, valid, false)
  }

  /** From e[i] to the end of the pass. */
  lemma {:induction false} RestOfPass(c: Cache, e: seq<Pair>, i: nat, valid: Pair -> bool, stamp: Value, pos: nat)
      returns (states: seq<Cache>)
    requires MidPass(c, e, i, valid)
    ensures Chain(states, valid, stamp, pos) && states[0] == c && 2 <= |states| <= |e| - i + 1
    ensures PassDone(states[|states| - 1], e, valid, stamp, pos) && Counted(states[|states| - 2], e, valid)
    decreases |e| - i
  {
    var c' := CleanEvent(c, valid, stamp, pos);
    PassStep(c, e, i, valid, stamp, pos);
    if Step1(e, i + 1) < |e| {
      var rest := RestOfPass(c', e, Step1(e, i + 1), valid, stamp, pos);
      ChainMore(c, c', rest, valid, stamp, pos);
      states := [c] + rest;
    } else {
      LastCounts(c, e, i, valid);
      states := [c, c'];
    }
  }

  /** A pass with no outside changes: after at most one event per entry and one more, the table holds exactly
      the entries that the validator accepted, plus the time stamp. */
  lemma QuietPass(c: Cache, valid: Pair -> bool, stamp: Value, pos: nat) returns (states: seq<Cache>)
    requires Inv(c) && c.saved.None?
    ensures Chain(states, valid, stamp, pos) && states[0] == c && 2 <= |states| <= |c.entries| + 2
    ensures PassDone(states[|states| - 1], c.entries, valid, stamp, pos)
    ensures |states| > 2 ==> Counted(states[|states| - 2], c.entries, valid)
  {
    var c' := CleanEvent(c, valid, stamp, pos);
    PassStart(c, valid, stamp, pos);
    if Step1(c.entries, 0) < |c.entries| {
      var rest := RestOfPass(c', c.entries, Step1(c.entries, 0), valid, stamp, pos);
      ChainMore(c, c', rest, valid, stamp, pos);
      states := [c] + rest;
    } else {
      states := [c, c'];
    }
  }

  lemma {:induction false} KeptMembers(e: seq<Pair>, valid: Pair -> bool, p: Pair)
    ensures p in Kept(e, valid) <==> p in e && (p.key == STAMP || valid(p))
  {
    if e != [] {
      KeptMembers(e[1..], valid, p);
      assert p in e <==> p == e[0] || p in e[1..];
    }
  }

  // --------------------------------------------------- an entry that is stored again survives

  /** The entry is stored, the enumeration has reached it, and it is not scheduled for deletion. */
  predicate Behind(c: Cache, k: Key, v: Value)
  {
    && Get(c.entries, k) == Some(v)
    && (c.saved.Some? ==> Index(c.entries, k) <= Index(c.entries, c.saved.value.key))
    && !(c.deleting && IsSaved(c, k))
  }

  /** A step other than an update or delete of `k` by the application. */
  predicate LeavesAlone(s: Step, k: Key)
  {
    s.User? && (s.op.UpdateOp? || s.op.DeleteOp?) ==> s.op.key != k
  }

  /** A step that starts an enumeration. */
  predicate Restarts(c: Cache, s: Step)
  {
    s == User(SequenceOp(SeqFirst)) || (s.Clean? && c.saved.None?)
  }

  lemma BehindUser(c: Cache, o: Operation, k: Key, v: Value)
    requires Inv(c) && Behind(c, k, v) && LeavesAlone(User(o), k) && o != SequenceOp(SeqFirst)
    ensures Behind(Apply(c, o), k, v)
  {
    match o
    case LookupOp(_) =>
    case SequenceOp(_) => if c.saved.Some? { BehindNext(c, k, v); }
    case UpdateOp(j, w, pos) => BehindUpdate(c, j, w, pos, k, v);
    case DeleteOp(j) => BehindDelete(c, j, k, v);
  }

  lemma BehindUpdate(c: Cache, j: Key, w: Value, pos: nat, k: Key, v: Value)
    requires Inv(c) && Behind(c, k, v) && j != k
    ensures Behind(Update(c, j, w, pos), k, v)
  {
    PutIndex(c.entries, j, w, pos, k);
    if c.saved.Some? && c.saved.value.key != j {
      PutIndex(c.entries, j, w, pos, c.saved.value.key);
    }
  }

  lemma BehindDelete(c: Cache, j: Key, k: Key, v: Value)
    requires Inv(c) && Behind(c, k, v) && j != k
    ensures Behind(Delete(c, j), k, v)
  {
    if !IsSaved(c, j) {
      DelIndex(c.entries, j, k);
      if c.saved.Some? { DelIndex(c.entries, j, c.saved.value.key); }
    }
  }

  lemma BehindNext(c: Cache, k: Key, v: Value)
    requires Inv(c) && Behind(c, k, v) && c.saved.Some?
    ensures Behind(Sequence(c, SeqNext), k, v) && !IsSaved(Sequence(c, SeqNext), k)
  {
    var e, r, cur := c.entries, Visible(c, SeqNext), c.saved.value.key;
    VisibleStored(c, SeqNext);
    if r.Some? {
      NextIsLater(c);
    }
    if c.deleting {
      DelIndex(e, cur, k);
      if r.Some? { DelIndex(e, cur, r.value.key); }
    }
  }

  lemma NextIsLater(c: Cache)
    requires Inv(c) && c.saved.Some? && Visible(c, SeqNext).Some?
    ensures Index(c.entries, c.saved.value.key) < Index(c.entries, Visible(c, SeqNext).value.key)
  {
    var e, cur := c.entries, c.saved.value.key;
    IndexOf(e, Index(e, cur) + 1);
    if Has(e, STAMP) && Index(e, STAMP) + 1 < |e| { IndexOf(e, Index(e, STAMP) + 1); }
  }

  lemma BehindClean(c: Cache, valid: Pair -> bool, stamp: Value, pos: nat, k: Key, v: Value)
    requires Inv(c) && Behind(c, k, v) && c.saved.Some? && k != STAMP
    ensures Behind(CleanEvent(c, valid, stamp, pos), k, v)
  {
    var c1 := Sequence(c, SeqNext);
    BehindNext(c, k, v);
    if c1.saved.None? {
      SequenceKeeps(c, SeqNext);
      PutIndex(c1.entries, STAMP, stamp, pos, k);
    }
  }

  /** An entry that the application stores while it is scheduled for deletion, or after the enumeration has passed it,
      is still there, with the stored value, until a new enumeration starts, whatever else happens in between. */
  lemma {:induction false} UpdatedSurvives(
    c: Cache, k: Key, v: Value, pos: nat, states: seq<Cache>, steps: seq<Step>, valid: Pair -> bool, n: nat)
    requires Inv(c) && k != STAMP && Has(c.entries, k)
    requires c.saved.Some? ==> Index(c.entries, k) <= Index(c.entries, c.saved.value.key)
    requires Run(states, steps, valid) && states[0] == Update(c, k, v, pos) && n <= |steps|
    requires forall i :: 0 <= i < n ==> LeavesAlone(steps[i], k) && !Restarts(states[i], steps[i])
    ensures Inv(states[n]) && Behind(states[n], k, v) && Lookup(states[n], k) == Some(v)
  {
    if n == 0 {
      BehindUpdated(c, k, v, pos);
    } else {
      UpdatedSurvives(c, k, v, pos, states, steps, valid, n - 1);
      assert Took(states, steps, valid, n - 1);
      TakeKeeps(states[n - 1], steps[n - 1], valid);
      BehindStep(states[n - 1], steps[n - 1], valid, k, v);
    }
  }

  lemma BehindUpdated(c: Cache, k: Key, v: Value, pos: nat)
    requires Inv(c) && Has(c.entries, k)
    requires c.saved.Some? ==> Index(c.entries, k) <= Index(c.entries, c.saved.value.key)
    ensures var c' := Update(c, k, v, pos); Inv(c') && Behind(c', k, v)
  {
    var c' := Update(c, k, v, pos);
    UserKeeps(c, UpdateOp(k, v, pos));
    assert c'.entries[Index(c.entries, k)].key == k;
    IndexOf(c'.entries, Index(c.entries, k));
    if c.saved.Some? && c.saved.value.key != k { PutIndex(c.entries, k, v, pos, c.saved.value.key); }
  }

  lemma BehindStep(c: Cache, s: Step, valid: Pair -> bool, k: Key, v: Value)
    requires Inv(c) && Behind(c, k, v) && k != STAMP && LeavesAlone(s, k) && !Restarts(c, s)
    ensures Behind(Take(c, s, valid), k, v)
  {
    match s
    case User(o) => BehindUser(c, o, k, v);
    case Clean(stamp, p) => BehindClean(c, valid, stamp, p, k, v);
  }

  // ------------------------------------------------------------------ enumerations

  /** The enumeration has reached the entry, or is over. */
  predicate Reached(c: Cache, k: Key)
  {
    c.saved.Some? ==> Index(c.entries, k) <= Index(c.entries, c.saved.value.key)
  }

  /** A step that asks for the first or next entry. */
  predicate Asks(s: Step)
  {
    s.Clean? || s.op.SequenceOp?
  }

  /** Step s asks for an entry and gets that of k. */
  predicate Returns(s: Step, c': Cache, k: Key)
  {
    Asks(s) && IsSaved(c', k)
  }

  /** ... with the value that is stored. */
  predicate ReturnsStored(c: Cache, c': Cache, k: Key)
  {
    c'.saved.Some? && Get(c.entries, k) == Some(c'.saved.value.value)
  }

  /** The entry that is found is as it is stored. */
  lemma VisibleValue(c: Cache, d: Direction)
    requires Distinct(c.entries) && Visible(c, d).Some?
    ensures var r := Visible(c, d).value; Has(c.entries, r.key) && Get(c.entries, r.key) == Some(r.value)
  {
    var e := c.entries;
    if e != [] { IndexOf(e, 0); }
    if c.cursor.Some? && Index(e, c.cursor.value) + 1 < |e| { IndexOf(e, Index(e, c.cursor.value) + 1); }
    if Index(e, STAMP) + 1 < |e| { IndexOf(e, Index(e, STAMP) + 1); }
  }

  /** NEXT does not go past an entry that is still ahead. */
  lemma NotPast(c: Cache, k: Key)
    requires Inv(c) && c.saved.Some? && Has(c.entries, k) && k != STAMP && !Reached(c, k)
    ensures var r := Visible(c, SeqNext);
            && r.Some? && Has(c.entries, r.value.key) && r.value.key != c.saved.value.key
            && Index(c.entries, c.saved.value.key) < Index(c.entries, r.value.key) <= Index(c.entries, k)
  {
    NextInTable(c.entries, c.saved.value.key, k);
  }

  lemma NextInTable(e: seq<Pair>, j: Key, k: Key)
    requires Distinct(e) && Has(e, k) && Index(e, j) < Index(e, k) && k != STAMP
    ensures var a := After(e, j); a.Some? && Index(e, a.value.key) == Index(e, j) + 1
    ensures var a := After(e, j); a.value.key == STAMP ==>
              After(e, STAMP).Some? && Index(e, After(e, STAMP).value.key) == Index(e, j) + 2 <= Index(e, k)
  {
    var i := Index(e, j);
    IndexOf(e, i + 1);
    if e[i + 1].key == STAMP { IndexOf(e, i + 2); }
  }

  lemma SameIndex(c: Cache, j: Key, k: Key)
    requires Has(c.entries, j) && Has(c.entries, k) && Index(c.entries, j) == Index(c.entries, k)
    ensures j == k
  {
  }

  lemma NextAhead(c: Cache, k: Key)
    requires Inv(c) && c.saved.Some? && Has(c.entries, k) && k != STAMP && !Reached(c, k)
    ensures var c' := Sequence(c, SeqNext);
            c'.saved.Some? && Has(c'.entries, k) && (Reached(c', k) <==> IsSaved(c', k))
  {
    var e, cur, r := c.entries, c.saved.value.key, Visible(c, SeqNext).value.key;
    NotPast(c, k);
    if c.deleting {
      DelIndex(e, cur, k);
      DelIndex(e, cur, r);
      DelHas(e, cur, k);
    }
    if Index(e, r) == Index(e, k) { SameIndex(c, r, k); }
  }

  lemma NextReached(c: Cache, k: Key)
    requires Inv(c) && Has(c.entries, k) && Reached(c, k) && Has(Sequence(c, SeqNext).entries, k)
    ensures var c' := Sequence(c, SeqNext); Reached(c', k) && !IsSaved(c', k)
  {
    if c.saved.Some? {
      if c.deleting { DelHas(c.entries, c.saved.value.key, k); }
      BehindNext(c, k, c.entries[Index(c.entries, k)].value);
    }
  }

  /** NEXT, for an entry that is stored before and after it. */
  lemma NextReturns(c: Cache, k: Key)
    requires Inv(c) && k != STAMP && Has(c.entries, k) && Has(Sequence(c, SeqNext).entries, k)
    ensures var c' := Sequence(c, SeqNext);
            && (Reached(c, k) ==> Reached(c', k) && !IsSaved(c', k))
            && (!Reached(c, k) ==> (IsSaved(c', k) <==> Reached(c', k)))
            && (IsSaved(c', k) ==> Get(c.entries, k) == Some(c'.saved.value.value))
  {
    if Reached(c, k) { NextReached(c, k); } else { NextAhead(c, k); }
    if Visible(c, SeqNext).Some? { VisibleValue(c, SeqNext); }
  }

  lemma FirstNotPast(c: Cache, k: Key)
    requires Distinct(c.entries) && Has(c.entries, k) && k != STAMP
    ensures var r := Visible(c, SeqFirst);
            r.Some? && Has(c.entries, r.value.key) && Index(c.entries, r.value.key) <= Index(c.entries, k)
  {
    var e := c.entries;
    IndexOf(e, 0);
    if e[0].key == STAMP { IndexOf(e, 1); }
  }

  /** FIRST, in any state: the entry is returned, or is still ahead. */
  lemma FirstReturns(c: Cache, k: Key)
    requires Inv(c) && SafeFirst(c) && k != STAMP && Has(Sequence(c, SeqFirst).entries, k)
    ensures var c' := Sequence(c, SeqFirst);
            && c'.saved.Some? && (IsSaved(c', k) <==> Reached(c', k))
            && (IsSaved(c', k) ==> Get(c.entries, k) == Some(c'.saved.value.value))
  {
    var e := c.entries;
    if c.deleting { DelHas(e, c.saved.value.key, k); }
    FirstNotPast(c, k);
    VisibleValue(c, SeqFirst);
    var r := Visible(c, SeqFirst).value.key;
    if c.deleting {
      DelIndex(e, c.saved.value.key, k);
      DelIndex(e, c.saved.value.key, r);
    }
    if Index(e, r) == Index(e, k) { SameIndex(c, r, k); }
  }

  lemma PutOrder(e: seq<Pair>, j: Key, v: Value, pos: nat, a: Key, b: Key)
    requires Distinct(e) && Has(e, a) && Has(e, b)
    ensures var e' := Put(e, j, v, pos); Index(e', a) <= Index(e', b) <==> Index(e, a) <= Index(e, b)
  {
    PutKeepsIndex(e, j, v, pos, a);
    PutKeepsIndex(e, j, v, pos, b);
  }

  lemma PutKeepsIndex(e: seq<Pair>, j: Key, v: Value, pos: nat, k: Key)
    requires Distinct(e) && Has(e, k)
    ensures Index(Put(e, j, v, pos), k) == Index(e, k) + (if !Has(e, j) && pos <= Index(e, k) then 1 else 0)
  {
    if j == k {
      PutDistinct(e, j, v, pos);
      IndexOf(Put(e, j, v, pos), Index(e, k));
    } else {
      PutIndex(e, j, v, pos, k);
    }
  }

  /** Other calls do not move the enumeration. */
  lemma UpdateReaches(c: Cache, j: Key, v: Value, pos: nat, k: Key)
    requires Inv(c) && Has(c.entries, k)
    ensures Reached(Update(c, j, v, pos), k) <==> Reached(c, k)
  {
    if c.saved.Some? { PutOrder(c.entries, j, v, pos, k, c.saved.value.key); }
  }

  lemma DeleteReaches(c: Cache, j: Key, k: Key)
    requires Inv(c) && Has(c.entries, k) && Has(Delete(c, j).entries, k)
    ensures Reached(Delete(c, j), k) <==> Reached(c, k)
  {
    if !IsSaved(c, j) {
      DelHas(c.entries, j, k);
      DelIndex(c.entries, j, k);
      if c.saved.Some? { DelIndex(c.entries, j, c.saved.value.key); }
    }
  }

  lemma OthersReach(c: Cache, o: Operation, k: Key)
    requires Inv(c) && !o.SequenceOp? && Has(c.entries, k) && Has(Apply(c, o).entries, k)
    ensures Reached(Apply(c, o), k) <==> Reached(c, k)
  {
    match o
    case LookupOp(_) =>
    case UpdateOp(j, v, pos) => UpdateReaches(c, j, v, pos, k);
    case DeleteOp(j) => DeleteReaches(c, j, k);
  }

  lemma CleanReach(c: Cache, valid: Pair -> bool, stamp: Value, pos: nat, k: Key)
    requires Inv(c) && c.saved.Some? && k != STAMP
    ensures var c1, c' := Sequence(c, SeqNext), CleanEvent(c, valid, stamp, pos);
            && c'.saved == c1.saved && (Reached(c', k) <==> Reached(c1, k))
            && (Has(c'.entries, k) <==> Has(c1.entries, k))
  {
    var c1 := Sequence(c, SeqNext);
    SequenceKeeps(c, SeqNext);
    if c1.saved.None? { PutHas(c1.entries, STAMP, stamp, pos, k); }
  }

  /** What a step does for an entry that is stored before and after it. */
  predicate Proceeds(c: Cache, s: Step, c': Cache, k: Key)
  {
    && (Reached(c, k) ==> Reached(c', k) && !Returns(s, c', k))
    && (!Reached(c, k) ==> (Returns(s, c', k) <==> Reached(c', k)))
    && (Returns(s, c', k) ==> ReturnsStored(c, c', k))
  }

  lemma UserProceeds(c: Cache, o: Operation, k: Key)
    requires Inv(c) && o != SequenceOp(SeqFirst) && k != STAMP && Has(c.entries, k) && Has(Apply(c, o).entries, k)
    ensures Proceeds(c, User(o), Apply(c, o), k)
  {
    if o.SequenceOp? { NextReturns(c, k); } else { OthersReach(c, o, k); }
  }

  lemma CleanProceeds(c: Cache, stamp: Value, pos: nat, valid: Pair -> bool, k: Key)
    requires Inv(c) && c.saved.Some? && k != STAMP && Has(c.entries, k)
    requires Has(CleanEvent(c, valid, stamp, pos).entries, k)
    ensures Proceeds(c, Clean(stamp, pos), CleanEvent(c, valid, stamp, pos), k)
  {
    CleanReach(c, valid, stamp, pos, k);
    NextReturns(c, k);
  }

  /** One step that does not start an enumeration. */
  lemma StepProceeds(c: Cache, s: Step, valid: Pair -> bool, k: Key)
    requires Inv(c) && !Restarts(c, s) && k != STAMP && Has(c.entries, k) && Has(Take(c, s, valid).entries, k)
    ensures Proceeds(c, s, Take(c, s, valid), k)
  {
    match s
    case User(o) => UserProceeds(c, o, k);
    case Clean(stamp, pos) => CleanProceeds(c, stamp, pos, valid, k);
  }

  /** The step that starts the enumeration. */
  lemma StartReturns(c: Cache, s: Step, valid: Pair -> bool, k: Key)
    requires Inv(c) && Restarts(c, s) && Allowed(c, s) && k != STAMP && Has(Take(c, s, valid).entries, k)
    ensures var c' := Take(c, s, valid);
            (Returns(s, c', k) <==> Reached(c', k)) && (Returns(s, c', k) ==> ReturnsStored(c, c', k))
  {
    match s
    case User(_) => FirstReturns(c, k);
    case Clean(stamp, pos) =>
      var c0 := c.(retained := 0, dropped := 0);
      var c1 := Sequence(c0, SeqFirst);
      SequenceKeeps(c0, SeqFirst);
      if c1.saved.None? { PutHas(c1.entries, STAMP, stamp, pos, k); }
      FirstReturns(c0, k);
  }

  predicate ReturnsAt(states: seq<Cache>, steps: seq<Step>, i: nat, k: Key)
    requires |states| == |steps| + 1 && i < |steps|
  {
    Returns(steps[i], states[i + 1], k)
  }

  predicate StoredFrom(states: seq<Cache>, k: Key, n: nat)
  {
    forall i :: 0 < i <= n && i < |states| ==> Has(states[i].entries, k)
  }

  /** An enumeration, by the application or by the cleanup: a step that starts it, and others that do not. */
  predicate Enumeration(states: seq<Cache>, steps: seq<Step>, valid: Pair -> bool)
  {
    && Run(states, steps, valid) && steps != [] && Inv(states[0])
    && Restarts(states[0], steps[0]) && Allowed(states[0], steps[0])
    && forall i :: 0 < i < |steps| ==> !Restarts(states[i], steps[i])
  }

  lemma {:induction false} EnumerationInv(states: seq<Cache>, steps: seq<Step>, valid: Pair -> bool, n: nat)
    requires Enumeration(states, steps, valid) && n < |states|
    ensures Inv(states[n])
  {
    if n > 0 {
      EnumerationInv(states, steps, valid, n - 1);
      assert Took(states, steps, valid, n - 1);
      TakeKeeps(states[n - 1], steps[n - 1], valid);
    }
  }

  /** What is known after n steps: the entry was returned once if it has been reached, and never otherwise. */
  predicate OnceIfReached(states: seq<Cache>, steps: seq<Step>, n: nat, k: Key, i: nat)
    requires |states| == |steps| + 1 && n <= |steps|
  {
    && n > 0
    && (Reached(states[n], k) ==>
          i < n && ReturnsAt(states, steps, i, k) && ReturnsStored(states[i], states[i + 1], k))
    && forall j {:trigger ReturnsAt(states, steps, j, k)} :: 0 <= j < n && ReturnsAt(states, steps, j, k) ==>
         Reached(states[n], k) && j == i
  }

  lemma ProceedsAt(states: seq<Cache>, steps: seq<Step>, valid: Pair -> bool, k: Key, m: nat)
    requires Enumeration(states, steps, valid) && k != STAMP && 0 < m < |steps| && StoredFrom(states, k, m + 1)
    ensures Proceeds(states[m], steps[m], states[m + 1], k)
  {
    EnumerationInv(states, steps, valid, m);
    assert Took(states, steps, valid, m);
    StepProceeds(states[m], steps[m], valid, k);
  }

  lemma StartsAt(states: seq<Cache>, steps: seq<Step>, valid: Pair -> bool, k: Key)
    requires Enumeration(states, steps, valid) && k != STAMP && StoredFrom(states, k, 1)
    ensures OnceIfReached(states, steps, 1, k, 0)
  {
    assert Took(states, steps, valid, 0);
    StartReturns(states[0], steps[0], valid, k);
  }

  lemma OnceMore(states: seq<Cache>, steps: seq<Step>, m: nat, k: Key, i: nat)
    requires |states| == |steps| + 1 && m < |steps| && OnceIfReached(states, steps, m, k, i)
    requires Proceeds(states[m], steps[m], states[m + 1], k)
    ensures OnceIfReached(states, steps, m + 1, k, if Reached(states[m], k) then i else m)
  {
    var i' := if Reached(states[m], k) then i else m;
    assert ReturnsAt(states, steps, m, k) <==> Returns(steps[m], states[m + 1], k);
    forall j | 0 <= j < m + 1 && ReturnsAt(states, steps, j, k) ensures Reached(states[m + 1], k) && j == i' {
    }
  }

  lemma {:induction false} CountReturns(states: seq<Cache>, steps: seq<Step>, valid: Pair -> bool, k: Key, n: nat)
      returns (i: nat)
    requires Enumeration(states, steps, valid) && k != STAMP && 0 < n <= |steps| && StoredFrom(states, k, n)
    ensures OnceIfReached(states, steps, n, k, i)
  {
    if n == 1 {
      StartsAt(states, steps, valid, k);
      i := 0;
    } else {
      i := CountReturns(states, steps, valid, k, n - 1);
      ProceedsAt(states, steps, valid, k, n - 1);
      OnceMore(states, steps, n - 1, k, i);
      i := if Reached(states[n - 1], k) then i else n - 1;
    }
  }

  /** An enumeration that has come to its end has returned every entry that was stored throughout exactly once, with the
      value that was stored then, whatever else was stored and deleted in the meantime. */
  lemma EnumeratesOnce(states: seq<Cache>, steps: seq<Step>, valid: Pair -> bool, k: Key) returns (i: nat)
    requires Enumeration(states, steps, valid) && states[|steps|].saved.None?
    requires k != STAMP && StoredFrom(states, k, |steps|)
    ensures i < |steps| && ReturnsAt(states, steps, i, k) && ReturnsStored(states[i], states[i + 1], k)
    ensures forall j :: 0 <= j < |steps| && j != i ==> !ReturnsAt(states, steps, j, k)
  {
    i := CountReturns(states, steps, valid, k, |steps|);
  }
}

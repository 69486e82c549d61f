/**
 The cache of util/ctable.c as a list, most recently used first.
 The values that the application's create() returns are numbered in the order in which they are made.
 */
module CTableSpec {

  datatype Item = Item(key: string, value: nat)

  /** What is cached, how many values were made, and which were passed to the application's delete(), in order. */
  datatype Cache = Cache(items: seq<Item>, created: nat, deleted: seq<nat>)

  predicate Distinct(s: seq<Item>)
  {
    forall i, j :: 0 <= i < j < |s| ==> s[i].key != s[j].key
  }

  predicate Has(s: seq<Item>, key: string)
  {
    exists i :: 0 <= i < |s| && s[i].key == key
  }

  /** The place of a key. */
  function Index(s: seq<Item>, key: string): (i: nat)
    requires Has(s, key)
    ensures i < |s| && s[i].key == key
  {
    if s[0].key == key then 0 else
      assert Has(s[1..], key) by { var i :| 0 <= i < |s| && s[i].key == key; assert s[1..][i - 1].key == key; }
      1 + Index(s[1..], key)
  }

  /** ring_detach and ring_append: item i moves to the front. */
  function ToFront<T>(s: seq<T>, i: nat): (t: seq<T>)
    requires i < |s|
    ensures |t| == |s| && t[0] == s[i]
    ensures forall j :: 0 < j < |t| ==> t[j] == s[if j <= i then j - 1 else j]
  {
    [s[i]] + s[..i] + s[i + 1..]
  }

  lemma HasToFront(s: seq<Item>, i: nat, key: string)
    requires i < |s| && Has(s, key)
    ensures Has(ToFront(s, i), key)
  {
    var k :| 0 <= k < |s| && s[k].key == key;
    var j := if k == i then 0 else if k < i then k + 1 else k;
    assert ToFront(s, i)[j] == s[k];
  }

  /** ctable_locate */
  function Locate(c: Cache, limit: nat, key: string): Cache
    requires limit > 0
  {
    if Has(c.items, key) then c.(items := ToFront(c.items, Index(c.items, key)))
    else if |c.items| >= limit then
      var n := |c.items| - 1;
      Cache([Item(key, c.created)] + c.items[..n], c.created + 1, c.deleted + [c.items[n].value])
    else Cache([Item(key, c.created)] + c.items, c.created + 1, c.deleted)
  }

  /** ctable_refresh */
  function Refresh(c: Cache, limit: nat, key: string): Cache
    requires limit > 0
  {
    if !Has(c.items, key) then Locate(c, limit, key)
    else
      var i := Index(c.items, key);
      Cache(ToFront(c.items[i := Item(key, c.created)], i), c.created + 1, c.deleted + [c.items[i].value])
  }

  // ---------------------------------------------------------------- invariants

  function Values(s: seq<Item>): (v: seq<nat>)
    ensures |v| == |s| && forall i :: 0 <= i < |s| ==> v[i] == s[i].value
  {
    seq(|s|, i requires 0 <= i < |s| => s[i].value)
  }

  function Upto(n: nat): (s: seq<nat>)
    ensures |s| == n && forall i :: 0 <= i < n ==> s[i] == i
  {
    seq(n, i => i)
  }

  /** Every value that was made is either cached once or was deleted once. */
  ghost predicate Conserved(c: Cache)
  {
    multiset(c.deleted) + multiset(Values(c.items)) == multiset(Upto(c.created))
  }

  ghost predicate Inv(c: Cache, limit: nat)
  {
    Distinct(c.items) && |c.items| <= limit && Conserved(c)
  }

  lemma UptoMore(n: nat)
    ensures multiset(Upto(n + 1)) == multiset(Upto(n)) + multiset{n}
  {
    assert Upto(n + 1) == Upto(n) + [n];
  }

  lemma ValuesConcat(a: seq<Item>, b: seq<Item>)
    ensures Values(a + b) == Values(a) + Values(b)
  {
  }

  lemma ToFrontSame(s: seq<Item>, i: nat)
    requires i < |s|
    ensures multiset(Values(ToFront(s, i))) == multiset(Values(s))
  {
    var a, b, c := s[..i], [s[i]], s[i + 1..];
    assert s == a + b + c && ToFront(s, i) == b + a + c;
    ValuesThree(a, b, c);
    ValuesThree(b, a, c);
  }

  lemma ToFrontDistinct(s: seq<Item>, i: nat)
    requires i < |s| && Distinct(s)
    ensures Distinct(ToFront(s, i))
  {
  }

  lemma ValuesThree(a: seq<Item>, b: seq<Item>, c: seq<Item>)
    ensures multiset(Values(a + b + c)) == multiset(Values(a)) + multiset(Values(b)) + multiset(Values(c))
  {
    ValuesConcat(a + b, c);
    ValuesConcat(a, b);
  }

  /** A new value in front of the first n items, and the values of the other items deleted. */
  lemma NewItem(s: seq<Item>, n: nat, key: string, v: nat)
    requires n <= |s|
    ensures multiset(Values([Item(key, v)] + s[..n])) + multiset(Values(s[n..])) == multiset(Values(s)) + multiset{v}
  {
    assert s == s[..n] + s[n..];
    ValuesConcat([Item(key, v)], s[..n]);
    ValuesConcat(s[..n], s[n..]);
    assert Values([Item(key, v)]) == [v];
  }

  lemma EvictConserves(c: Cache, key: string)
    requires Conserved(c) && c.items != []
    ensures var n := |c.items| - 1;
            Conserved(Cache([Item(key, c.created)] + c.items[..n], c.created + 1, c.deleted + [c.items[n].value]))
  {
    var s, n := c.items, |c.items| - 1;
    UptoMore(c.created);
    NewItem(s, n, key, c.created);
    assert Values(s[n..]) == [s[n].value];
    assert multiset(c.deleted + [s[n].value]) == multiset(c.deleted) + multiset{s[n].value};
    Exchange(multiset(c.deleted), multiset(Values(s)), multiset(Values([Item(key, c.created)] + s[..n])), s[n].value,
      c.created);
  }

  lemma AddConserves(c: Cache, key: string)
    requires Conserved(c)
    ensures Conserved(Cache([Item(key, c.created)] + c.items, c.created + 1, c.deleted))
  {
    UptoMore(c.created);
    ValuesConcat([Item(key, c.created)], c.items);
    assert Values([Item(key, c.created)]) == [c.created];
  }

  lemma LocateInv(c: Cache, limit: nat, key: string)
    requires limit > 0 && Inv(c, limit)
    ensures Inv(Locate(c, limit, key), limit)
  {
    if Has(c.items, key) {
      ToFrontSame(c.items, Index(c.items, key));
      ToFrontDistinct(c.items, Index(c.items, key));
    } else if |c.items| >= limit {
      EvictConserves(c, key);
    } else {
      AddConserves(c, key);
    }
  }

  /** A value is deleted and made anew in its place. */
  lemma ReplaceInv(c: Cache, i: nat, limit: nat)
    requires Inv(c, limit) && i < |c.items|
    ensures var items := c.items[i := Item(c.items[i].key, c.created)];
            Inv(Cache(items, c.created + 1, c.deleted + [c.items[i].value]), limit)
  {
    var s := c.items;
    UptoMore(c.created);
    ReplaceValue(s, i, c.created);
    assert multiset(c.deleted + [s[i].value]) == multiset(c.deleted) + multiset{s[i].value};
    Exchange(multiset(c.deleted), multiset(Values(s)), multiset(Values(s[i := Item(s[i].key, c.created)])), s[i].value,
      c.created);
  }

  lemma RefreshInv(c: Cache, limit: nat, key: string)
    requires limit > 0 && Inv(c, limit)
    ensures Inv(Refresh(c, limit, key), limit)
  {
    if !Has(c.items, key) {
      LocateInv(c, limit, key);
    } else {
      var i := Index(c.items, key);
      ReplaceInv(c, i, limit);
      ToFrontSame(c.items[i := Item(key, c.created)], i);
      ToFrontDistinct(c.items[i := Item(key, c.created)], i);
    }
  }

  lemma Exchange(d: multiset<nat>, a: multiset<nat>, b: multiset<nat>, gone: nat, made: nat)
    requires b + multiset{gone} == a + multiset{made}
    ensures d + multiset{gone} + b == d + a + multiset{made}
  {
    assert d + multiset{gone} + b == d + (b + multiset{gone});
  }

  lemma ReplaceValue(s: seq<Item>, i: nat, v: nat)
    requires i < |s|
    ensures multiset(Values(s[i := Item(s[i].key, v)])) + multiset{s[i].value} == multiset(Values(s)) + multiset{v}
  {
    assert Values(s[i := Item(s[i].key, v)]) == Values(s)[i := v];
  }

  // ---------------------------------------------------------------------- runs

  datatype Op = DoLocate(key: string) | DoRefresh(key: string)

  function Step(c: Cache, limit: nat, op: Op): Cache
    requires limit > 0
  {
    match op case DoLocate(k) => Locate(c, limit, k) case DoRefresh(k) => Refresh(c, limit, k)
  }

  function Run(ops: seq<Op>, limit: nat): Cache
    requires limit > 0
  {
    if ops == [] then Cache([], 0, []) else Step(Run(ops[..|ops| - 1], limit), limit, ops[|ops| - 1])
  }

  lemma {:induction false} RunInv(ops: seq<Op>, limit: nat)
    requires limit > 0
    ensures Inv(Run(ops, limit), limit)
  {
    if ops == [] {
      assert Values([]) == [] && Upto(0) == [];
    } else {
      var c, op := Run(ops[..|ops| - 1], limit), ops[|ops| - 1];
      RunInv(ops[..|ops| - 1], limit);
      if op.DoLocate? { LocateInv(c, limit, op.key); } else { RefreshInv(c, limit, op.key); }
    }
  }

  /** A list of keys without one of them. */
  function Without(s: seq<string>, k: string): seq<string>
  {
    if s == [] then [] else if s[0] == k then Without(s[1..], k) else [s[0]] + Without(s[1..], k)
  }

  /** All the keys that were ever asked for, the one that was asked for last in front. */
  function Recent(ops: seq<Op>): seq<string>
  {
    if ops == [] then [] else [ops[|ops| - 1].key] + Without(Recent(ops[..|ops| - 1]), ops[|ops| - 1].key)
  }

  function Keys(s: seq<Item>): (k: seq<string>)
    ensures |k| == |s| && forall i :: 0 <= i < |s| ==> k[i] == s[i].key
  {
    seq(|s|, i requires 0 <= i < |s| => s[i].key)
  }

  function Take(s: seq<string>, n: nat): seq<string>
  {
    if |s| <= n then s else s[..n]
  }

  lemma {:induction false} WithoutAbsent(s: seq<string>, k: string)
    requires k !in s
    ensures Without(s, k) == s
  {
    if s != [] {
      WithoutAbsent(s[1..], k);
    }
  }

  lemma {:induction false} WithoutConcat(a: seq<string>, b: seq<string>, k: string)
    ensures Without(a + b, k) == Without(a, k) + Without(b, k)
  {
    if a == [] {
      assert a + b == b;
    } else {
      var h := if a[0] == k then [] else [a[0]];
      WithoutConcat(a[1..], b, k);
      assert (a + b)[1..] == a[1..] + b;
      assert Without(a + b, k) == h + Without(a[1..] + b, k) && Without(a, k) == h + Without(a[1..], k);
    }
  }

  predicate NoDuplicates(s: seq<string>)
  {
    forall i, j :: 0 <= i < j < |s| ==> s[i] != s[j]
  }

  lemma {:induction false} RecentDistinct(ops: seq<Op>)
    ensures NoDuplicates(Recent(ops))
  {
    if ops != [] {
      RecentDistinct(ops[..|ops| - 1]);
      WithoutDistinct(Recent(ops[..|ops| - 1]), ops[|ops| - 1].key);
    }
  }

  lemma {:induction false} WithoutDistinct(s: seq<string>, k: string)
    requires NoDuplicates(s)
    ensures NoDuplicates(Without(s, k)) && k !in Without(s, k) && forall x :: x in Without(s, k) ==> x in s
  {
    if s != [] {
      WithoutDistinct(s[1..], k);
      var w := Without(s[1..], k);
      assert forall x :: x in w ==> x in s[1..];
      assert s[0] !in w;
    }
  }

  /** Removing the key at position i. */
  lemma WithoutAt(s: seq<string>, i: nat)
    requires i < |s| && NoDuplicates(s)
    ensures Without(s, s[i]) == s[..i] + s[i + 1..]
  {
    var a, b, k := s[..i], s[i + 1..], s[i];
    assert s == a + ([k] + b);
    WithoutConcat(a, [k] + b, k);
    WithoutAbsent(a, k);
    WithoutAbsent(b, k);
    assert ([k] + b)[1..] == b;
  }

  lemma KeysToFront(s: seq<Item>, i: nat)
    requires i < |s| && Distinct(s)
    ensures Keys(ToFront(s, i)) == [s[i].key] + Without(Keys(s), s[i].key)
  {
    WithoutAt(Keys(s), i);
  }

  lemma HasKeys(s: seq<Item>, key: string)
    ensures Has(s, key) <==> key in Keys(s)
  {
    if key in Keys(s) {
      var i :| 0 <= i < |s| && Keys(s)[i] == key;
      assert s[i].key == key;
    }
  }

  lemma LocateKeys(c: Cache, limit: nat, key: string)
    requires limit > 0 && Inv(c, limit)
    ensures var ks := Keys(c.items);
            Keys(Locate(c, limit, key).items)
            == [key] + if Has(c.items, key) then Without(ks, key) else if |ks| >= limit then ks[..|ks| - 1] else ks
  {
    if Has(c.items, key) {
      KeysToFront(c.items, Index(c.items, key));
    }
  }

  lemma RefreshKeys(c: Cache, limit: nat, key: string)
    requires limit > 0 && Inv(c, limit) && Has(c.items, key)
    ensures Keys(Refresh(c, limit, key).items) == [key] + Without(Keys(c.items), key)
  {
    var i := Index(c.items, key);
    var s := c.items[i := Item(key, c.created)];
    KeysToFront(s, i);
    assert Keys(s) == Keys(c.items);
  }

  /** What one request does to the keys. */
  lemma StepKeys(c: Cache, limit: nat, op: Op)
    requires limit > 0 && Inv(c, limit)
    ensures var ks := Keys(c.items);
            Keys(Step(c, limit, op).items)
            == [op.key] + if op.key in ks then Without(ks, op.key) else if |ks| >= limit then ks[..|ks| - 1] else ks
  {
    HasKeys(c.items, op.key);
    LocateKeys(c, limit, op.key);
    if op.DoRefresh? && Has(c.items, op.key) {
      RefreshKeys(c, limit, op.key);
    }
  }

  /** The cache always holds the most recently used keys, in that order: as many as fit, or all of them. */
  lemma {:induction false} HoldsRecent(ops: seq<Op>, limit: nat)
    requires limit > 0
    ensures Keys(Run(ops, limit).items) == Take(Recent(ops), limit)
  {
    if ops != [] {
      var front, op := ops[..|ops| - 1], ops[|ops| - 1];
      HoldsRecent(front, limit);
      RunInv(front, limit);
      StepKeys(Run(front, limit), limit, op);
      RecentDistinct(front);
      TakeStep(Recent(front), op.key, limit);
    } else {
      assert Keys([]) == [];
    }
  }

  /** A key that is in front of the limit moves to the front. */
  lemma TakeInside(r: seq<string>, i: nat, limit: nat)
    requires NoDuplicates(r) && i < |r| && i < limit
    ensures Take([r[i]] + Without(r, r[i]), limit) == [r[i]] + Without(Take(r, limit), r[i])
  {
    WithoutAt(r, i);
    WithoutAt(Take(r, limit), i);
    if |r| > limit {
      FrontTake(r, i, limit);
    }
  }

  lemma FrontTake(r: seq<string>, i: nat, limit: nat)
    requires i < limit < |r|
    ensures ([r[i]] + (r[..i] + r[i + 1..]))[..limit] == [r[i]] + (r[..limit][..i] + r[..limit][i + 1..])
  {
    assert r[..limit][..i] == r[..i] && r[..limit][i + 1..] == r[i + 1..limit];
    assert r[i + 1..] == r[i + 1..limit] + r[limit..];
  }

  /** A key that is behind the limit, or new, pushes the last one out. */
  lemma TakeOutside(r: seq<string>, k: string, limit: nat)
    requires NoDuplicates(r) && limit > 0 && k !in Take(r, limit)
    ensures var ks := Take(r, limit);
            Take([k] + Without(r, k), limit) == [k] + if |ks| >= limit then ks[..|ks| - 1] else ks
  {
    if k in r {
      var i :| 0 <= i < |r| && r[i] == k;
      WithoutAt(r, i);
      assert forall j :: 0 <= j < |Take(r, limit)| ==> Take(r, limit)[j] == r[j];
      assert i >= limit;
    } else {
      WithoutAbsent(r, k);
    }
  }

  lemma TakeStep(r: seq<string>, k: string, limit: nat)
    requires limit > 0 && NoDuplicates(r)
    ensures var ks := Take(r, limit);
            Take([k] + Without(r, k), limit)
            == [k] + if k in ks then Without(ks, k) else if |ks| >= limit then ks[..|ks| - 1] else ks
  {
    if k in Take(r, limit) {
      var i :| 0 <= i < |Take(r, limit)| && Take(r, limit)[i] == k;
      TakeInside(r, i, limit);
    } else {
      TakeOutside(r, k, limit);
    }
  }

  /** ctable_free: what is still cached is deleted, in the order of the hash table. */
  lemma AllDeletedOnce(c: Cache, limit: nat, freed: seq<nat>)
    requires Inv(c, limit) && multiset(freed) == multiset(Values(c.items))
    ensures multiset(c.deleted + freed) == multiset(Upto(c.created))
  {
  }

  lemma {:induction false} DistinctSize(s: seq<string>)
    requires NoDuplicates(s)
    ensures |set k | k in s| == |s|
  {
    if s == [] {
      assert (set k | k in s) == {};
    } else {
      var t := s[..|s| - 1];
      DistinctSize(t);
      assert (set k | k in s) == (set k | k in t) + {s[|s| - 1]};
    }
  }

  // -------------------------------------------------------- which value a key has

  /** Whether the last request of a run makes a value: a refresh, or a key that is not among the most recent ones. */
  predicate Makes(ops: seq<Op>, limit: nat)
    requires ops != []
  {
    var n := |ops| - 1;
    ops[n].DoRefresh? || ops[n].key !in Take(Recent(ops[..n]), limit)
  }

  /** How many values a run makes.  Values are numbered from 0. */
  function Made(ops: seq<Op>, limit: nat): nat
  {
    if ops == [] then 0 else Made(ops[..|ops| - 1], limit) + if Makes(ops, limit) then 1 else 0
  }

  /** The number of the value that was made last for a key. */
  function LastMade(ops: seq<Op>, limit: nat, key: string): nat
  {
    if ops == [] then 0
    else
      var n := |ops| - 1;
      if ops[n].key == key && Makes(ops, limit) then Made(ops[..n], limit) else LastMade(ops[..n], limit, key)
  }

  predicate ValuesAre(s: seq<Item>, ops: seq<Op>, limit: nat)
  {
    forall i {:trigger s[i].value} :: 0 <= i < |s| ==> s[i].value == LastMade(ops, limit, s[i].key)
  }

  /** The items after a request: each has the value it had, or is new in front. */
  predicate Carried(s: seq<Item>, s': seq<Item>, key: string, v: nat)
  {
    && s' != [] && s'[0] == Item(key, v)
    && forall i {:trigger s'[i]} :: 0 < i < |s'| ==> s'[i] in s && s'[i].key != key
  }

  lemma CarriedToFront(s: seq<Item>, i: nat, v: nat)
    requires i < |s| && Distinct(s)
    ensures Carried(s, ToFront(s[i := Item(s[i].key, v)], i), s[i].key, v)
  {
    var t := s[i := Item(s[i].key, v)];
    var s' := ToFront(t, i);
    forall j | 0 < j < |s'| ensures s'[j] in s && s'[j].key != s[i].key {
      var k := if j <= i then j - 1 else j;
      assert s'[j] == t[k] == s[k] && k != i;
    }
  }

  lemma LocateCarried(c: Cache, limit: nat, key: string)
    requires limit > 0 && Inv(c, limit)
    ensures var c' := Locate(c, limit, key);
            if Has(c.items, key) then
              Carried(c.items, c'.items, key, c.items[Index(c.items, key)].value) && c'.created == c.created
            else Carried(c.items, c'.items, key, c.created) && c'.created == c.created + 1
  {
    if Has(c.items, key) {
      var i := Index(c.items, key);
      assert c.items[i := Item(c.items[i].key, c.items[i].value)] == c.items;
      CarriedToFront(c.items, i, c.items[i].value);
    }
  }

  lemma RefreshCarried(c: Cache, limit: nat, key: string)
    requires limit > 0 && Inv(c, limit)
    ensures var c' := Refresh(c, limit, key);
            Carried(c.items, c'.items, key, c.created) && c'.created == c.created + 1
  {
    if Has(c.items, key) {
      CarriedToFront(c.items, Index(c.items, key), c.created);
    } else {
      LocateCarried(c, limit, key);
    }
  }

  lemma CarriedValues(s: seq<Item>, s': seq<Item>, ops: seq<Op>, limit: nat, v: nat)
    requires ops != [] && ValuesAre(s, ops[..|ops| - 1], limit) && Carried(s, s', ops[|ops| - 1].key, v)
    requires v == LastMade(ops, limit, ops[|ops| - 1].key)
    ensures ValuesAre(s', ops, limit)
  {
    forall i | 0 <= i < |s'| ensures s'[i].value == LastMade(ops, limit, s'[i].key) {
      if i > 0 {
        assert s'[i] in s;
        var j :| 0 <= j < |s| && s[j] == s'[i];
        assert s[j].value == LastMade(ops[..|ops| - 1], limit, s[j].key);
      }
    }
  }

  /** After every run of requests, the value cached for a key is the one that was made last for that key, and all the
      values made were made by requests that had to make one. */
  lemma {:induction false} HoldsLastMade(ops: seq<Op>, limit: nat)
    requires limit > 0
    ensures var c := Run(ops, limit); c.created == Made(ops, limit) && ValuesAre(c.items, ops, limit)
  {
    if ops != [] {
      var n := |ops| - 1;
      var c, op := Run(ops[..n], limit), ops[n];
      HoldsLastMade(ops[..n], limit);
      RunInv(ops[..n], limit);
      HoldsRecent(ops[..n], limit);
      HasKeys(c.items, op.key);
      StepValue(c, ops, limit);
    }
  }

  lemma StepValue(c: Cache, ops: seq<Op>, limit: nat)
    requires limit > 0 && ops != [] && Inv(c, limit) && c.created == Made(ops[..|ops| - 1], limit)
    requires ValuesAre(c.items, ops[..|ops| - 1], limit)
    requires Has(c.items, ops[|ops| - 1].key) <==> ops[|ops| - 1].key in Take(Recent(ops[..|ops| - 1]), limit)
    ensures var c' := Step(c, limit, ops[|ops| - 1]);
            c'.created == Made(ops, limit) && ValuesAre(c'.items, ops, limit)
  {
    var op := ops[|ops| - 1];
    var c' := Step(c, limit, op);
    if op.DoRefresh? {
      RefreshCarried(c, limit, op.key);
      CarriedValues(c.items, c'.items, ops, limit, c.created);
    } else {
      LocateCarried(c, limit, op.key);
      var v := if Has(c.items, op.key) then c.items[Index(c.items, op.key)].value else c.created;
      CarriedValues(c.items, c'.items, ops, limit, v);
    }
  }

  /** What a request returns, the value of the item in front: a refresh, or a locate of a key that is not cached, the
      value made by that call, which is new; a locate of a cached key, the value that the key had before. */
  lemma Returned(ops: seq<Op>, op: Op, limit: nat)
    requires limit > 0
    ensures var c, c' := Run(ops, limit), Run(ops + [op], limit);
            && c'.items != [] && c'.items[0].key == op.key
            && (op.DoRefresh? || !Has(c.items, op.key) ==>
                  c'.items[0].value == c.created && c'.created == c.created + 1)
            && (op.DoLocate? && Has(c.items, op.key) ==>
                  c'.items[0] in c.items && c'.created == c.created && c'.deleted == c.deleted)
  {
    var c := Run(ops, limit);
    RunInv(ops, limit);
    assert (ops + [op])[..|ops|] == ops;
    if op.DoRefresh? {
      RefreshCarried(c, limit, op.key);
    } else {
      LocateCarried(c, limit, op.key);
    }
  }

  /** The key is cached after the first n requests. */
  predicate CachedAt(ops: seq<Op>, limit: nat, key: string, n: nat)
    requires limit > 0 && n <= |ops|
  {
    Has(Run(ops[..n], limit).items, key)
  }

  /** Request k makes a value for the key. */
  predicate MakesAt(ops: seq<Op>, limit: nat, key: string, k: nat)
    requires k < |ops|
  {
    ops[k].key == key && Makes(ops[..k + 1], limit)
  }

  /** Request k made a value for the key, which has been cached ever since, up to request n, and got no other value. */
  predicate KeptSince(ops: seq<Op>, limit: nat, key: string, k: nat, n: nat)
    requires limit > 0 && n <= |ops|
  {
    && k < n && CachedAt(ops, limit, key, n)
    && if n == k + 1 then MakesAt(ops, limit, key, k)
       else !MakesAt(ops, limit, key, n - 1) && KeptSince(ops, limit, key, k, n - 1)
  }

  /** The value of a cached key is the one that was made when the key was last absent, or refreshed since. */
  lemma {:induction false} MadeAt(ops: seq<Op>, limit: nat, key: string, n: nat) returns (k: nat)
    requires limit > 0 && n <= |ops| && CachedAt(ops, limit, key, n)
    ensures KeptSince(ops, limit, key, k, n) && LastMade(ops[..n], limit, key) == Made(ops[..k], limit)
  {
    OneBack(ops, limit, key, n);
    if MakesAt(ops, limit, key, n - 1) {
      k := n - 1;
    } else {
      k := MadeAt(ops, limit, key, n - 1);
    }
  }

  lemma OneBack(ops: seq<Op>, limit: nat, key: string, n: nat)
    requires limit > 0 && n <= |ops| && CachedAt(ops, limit, key, n)
    ensures n > 0
    ensures LastMade(ops[..n], limit, key)
         == if MakesAt(ops, limit, key, n - 1) then Made(ops[..n - 1], limit) else LastMade(ops[..n - 1], limit, key)
    ensures MakesAt(ops, limit, key, n - 1) || CachedAt(ops, limit, key, n - 1)
  {
    assert ops[..n][..n - 1] == ops[..n - 1];
    if !MakesAt(ops, limit, key, n - 1) {
      StillHas(ops[..n], limit, key);
    }
  }

  /** A cached key that the last request did not make a value for was cached before it. */
  lemma StillHas(ops: seq<Op>, limit: nat, key: string)
    requires limit > 0 && ops != [] && Has(Run(ops, limit).items, key)
    requires !(ops[|ops| - 1].key == key && Makes(ops, limit))
    ensures Has(Run(ops[..|ops| - 1], limit).items, key)
  {
    var n := |ops| - 1;
    var c, c' := Run(ops[..n], limit), Run(ops, limit);
    RunInv(ops[..n], limit);
    HoldsRecent(ops[..n], limit);
    HasKeys(c.items, key);
    if ops[n].key != key {
      if ops[n].DoRefresh? { RefreshCarried(c, limit, ops[n].key); } else { LocateCarried(c, limit, ops[n].key); }
      var i :| 0 <= i < |c'.items| && c'.items[i].key == key;
      assert c'.items[i] in c.items;
      var j :| 0 <= j < |c.items| && c.items[j] == c'.items[i];
    }
  }
}

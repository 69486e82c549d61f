/**
 The B-tree of linuxdemo/btree.c as a value, and insertion with pre-emptive splitting.
 */
module BTreeSpec {
  import opened Wrappers

  /** A node: its keys and, unless it is a leaf, its children. */
  datatype BTree = Node(leaf: bool, keys: seq<int>, kids: seq<BTree>)

  // ----------------------------------------------------------------- contents

  /** What btree_traverse prints. */
  function InOrder(n: BTree): seq<int>
    decreases n, 1
  {
    if n.leaf || |n.kids| != |n.keys| + 1 then n.keys else Interleave(n.kids, n.keys)
  }

  function Interleave(kids: seq<BTree>, keys: seq<int>): seq<int>
    requires |kids| == |keys| + 1
    decreases kids, 0
  {
    if keys == [] then InOrder(kids[0])
    else InOrder(kids[0]) + [keys[0]] + Interleave(kids[1..], keys[1..])
  }

  predicate Sorted(s: seq<int>)
  {
    forall i, j :: 0 <= i < j < |s| ==> s[i] <= s[j]
  }

  lemma {:induction false} InterleaveSplit(c1: seq<BTree>, k1: seq<int>, k: int, c2: seq<BTree>, k2: seq<int>)
    requires |c1| == |k1| + 1 && |c2| == |k2| + 1
    ensures Interleave(c1 + c2, k1 + [k] + k2) == Interleave(c1, k1) + [k] + Interleave(c2, k2)
    decreases |k1|
  {
    var c, ks := c1 + c2, k1 + [k] + k2;
    if k1 == [] {
      assert c[1..] == c2 && ks[1..] == k2;
    } else {
      InterleaveSplit(c1[1..], k1[1..], k, c2, k2);
      assert c[1..] == c1[1..] + c2 && ks[1..] == k1[1..] + [k] + k2;
    }
  }

  /** What comes before and after one child. */
  function Left(n: BTree, i: nat): seq<int>
    requires i <= |n.keys| && |n.kids| == |n.keys| + 1
  {
    if i == 0 then [] else Interleave(n.kids[..i], n.keys[..i - 1]) + [n.keys[i - 1]]
  }

  function Right(n: BTree, i: nat): seq<int>
    requires i <= |n.keys| && |n.kids| == |n.keys| + 1
  {
    if i == |n.keys| then [] else [n.keys[i]] + Interleave(n.kids[i + 1..], n.keys[i + 1..])
  }

  lemma FromChild(n: BTree, i: nat)
    requires i <= |n.keys| && |n.kids| == |n.keys| + 1
    ensures Interleave(n.kids[i..], n.keys[i..]) == InOrder(n.kids[i]) + Right(n, i)
  {
    var mid := [n.kids[i]];
    if i < |n.keys| {
      InterleaveSplit(mid, [], n.keys[i], n.kids[i + 1..], n.keys[i + 1..]);
      assert [] + [n.keys[i]] + n.keys[i + 1..] == n.keys[i..];
      assert mid + n.kids[i + 1..] == n.kids[i..];
    } else {
      assert n.kids[i..] == mid && n.keys[i..] == [];
    }
  }

  lemma UpToChild(n: BTree, i: nat)
    requires i <= |n.keys| && |n.kids| == |n.keys| + 1
    ensures Interleave(n.kids, n.keys) == Left(n, i) + Interleave(n.kids[i..], n.keys[i..])
  {
    if i > 0 {
      InterleaveSplit(n.kids[..i], n.keys[..i - 1], n.keys[i - 1], n.kids[i..], n.keys[i..]);
      assert n.kids[..i] + n.kids[i..] == n.kids && n.keys[..i - 1] + [n.keys[i - 1]] + n.keys[i..] == n.keys;
    } else {
      assert n.kids[0..] == n.kids && n.keys[0..] == n.keys;
    }
  }

  lemma AroundChild(n: BTree, i: nat)
    requires i <= |n.keys| && |n.kids| == |n.keys| + 1
    ensures Interleave(n.kids, n.keys) == Left(n, i) + InOrder(n.kids[i]) + Right(n, i)
  {
    UpToChild(n, i);
    FromChild(n, i);
    assert Left(n, i) + (InOrder(n.kids[i]) + Right(n, i)) == Left(n, i) + InOrder(n.kids[i]) + Right(n, i);
  }

  // -------------------------------------------------------------------- shape

  /** A tree of height h in which every node has at most 2t-1 keys and every node but the root at least t-1. */
  predicate Shaped(n: BTree, t: nat, h: nat, root: bool)
    decreases h
  {
    && |n.keys| <= 2 * t - 1
    && (!root ==> |n.keys| >= t - 1)
    && (n.leaf <==> h == 0)
    && if h == 0 then n.kids == []
       else
         && |n.kids| == |n.keys| + 1 && n.keys != []
         && forall i :: 0 <= i < |n.kids| ==> Shaped(n.kids[i], t, h - 1, false)
  }

  /** A B-tree of degree t and height h. */
  predicate IsBTree(n: BTree, t: nat, h: nat)
  {
    Shaped(n, t, h, true) && Sorted(InOrder(n))
  }

  predicate Full(n: BTree, t: nat)
  {
    |n.keys| == 2 * t - 1
  }

  // ---------------------------------------------------------------- splitting

  function LowerHalf(y: BTree, t: nat): BTree
    requires t >= 2 && Full(y, t) && (!y.leaf ==> |y.kids| == 2 * t)
  {
    Node(y.leaf, y.keys[..t - 1], if y.leaf then [] else y.kids[..t])
  }

  function UpperHalf(y: BTree, t: nat): BTree
    requires t >= 2 && Full(y, t) && (!y.leaf ==> |y.kids| == 2 * t)
  {
    Node(y.leaf, y.keys[t..], if y.leaf then [] else y.kids[t..])
  }

  /** btree_split_child */
  function Split(x: BTree, i: nat, t: nat): BTree
    requires t >= 2 && !x.leaf && i <= |x.keys| && |x.kids| == |x.keys| + 1
    requires Full(x.kids[i], t) && (!x.kids[i].leaf ==> |x.kids[i].kids| == 2 * t)
  {
    var y := x.kids[i];
    Node(false, x.keys[..i] + [y.keys[t - 1]] + x.keys[i..],
      x.kids[..i] + [LowerHalf(y, t), UpperHalf(y, t)] + x.kids[i + 1..])
  }

  lemma HalvesInOrder(y: BTree, t: nat)
    requires t >= 2 && Full(y, t) && (!y.leaf ==> |y.kids| == 2 * t)
    ensures InOrder(y) == InOrder(LowerHalf(y, t)) + [y.keys[t - 1]] + InOrder(UpperHalf(y, t))
  {
    assert y.keys == y.keys[..t - 1] + [y.keys[t - 1]] + y.keys[t..];
    if !y.leaf {
      InterleaveSplit(y.kids[..t], y.keys[..t - 1], y.keys[t - 1], y.kids[t..], y.keys[t..]);
      assert y.kids == y.kids[..t] + y.kids[t..];
    }
  }

  /** What is before and after the halves of a child that was split. */
  lemma SplitAround(x: BTree, i: nat, t: nat)
    requires t >= 2 && !x.leaf && i <= |x.keys| && |x.kids| == |x.keys| + 1
    requires Full(x.kids[i], t) && (!x.kids[i].leaf ==> |x.kids[i].kids| == 2 * t)
    ensures var x' := Split(x, i, t);
            && x'.kids[i] == LowerHalf(x.kids[i], t) && x'.kids[i + 1] == UpperHalf(x.kids[i], t)
            && x'.keys[i] == x.kids[i].keys[t - 1]
            && Left(x', i) == Left(x, i) && Right(x', i + 1) == Right(x, i)
  {
    var x' := Split(x, i, t);
    assert x'.kids[..i] == x.kids[..i] && x'.kids[i + 2..] == x.kids[i + 1..];
    assert x'.keys[i + 1..] == x.keys[i..];
    if i > 0 { assert x'.keys[..i - 1] == x.keys[..i - 1]; }
    if i < |x.keys| { assert x'.keys[i + 2..] == x.keys[i + 1..]; }
  }

  /** What comes after a child is a key, the next child, and what comes after that. */
  lemma RightOfKey(n: BTree, i: nat)
    requires i < |n.keys| && |n.kids| == |n.keys| + 1
    ensures Right(n, i) == [n.keys[i]] + (InOrder(n.kids[i + 1]) + Right(n, i + 1))
  {
    var hi := Node(false, n.keys[i + 1..], n.kids[i + 1..]);
    AroundChild(hi, 0);
    if i + 1 < |n.keys| {
      assert hi.keys[1..] == n.keys[i + 2..] && hi.kids[1..] == n.kids[i + 2..];
    }
    assert Right(hi, 0) == Right(n, i + 1);
    assert [] + InOrder(hi.kids[0]) + Right(hi, 0) == InOrder(hi.kids[0]) + Right(hi, 0);
  }

  lemma SplitLeft(x: BTree, i: nat, t: nat)
    requires t >= 2 && !x.leaf && i <= |x.keys| && |x.kids| == |x.keys| + 1
    requires Full(x.kids[i], t) && (!x.kids[i].leaf ==> |x.kids[i].kids| == 2 * t)
    ensures var x' := Split(x, i, t);
            && x'.kids[i] == LowerHalf(x.kids[i], t) && x'.kids[i + 1] == UpperHalf(x.kids[i], t)
            && x'.keys[i] == x.kids[i].keys[t - 1]
            && Left(x', i) == Left(x, i)
            && Right(x', i) == [x'.keys[i]] + (InOrder(x'.kids[i + 1]) + Right(x, i))
  {
    SplitAround(x, i, t);
    RightOfKey(Split(x, i, t), i);
  }

  /** Splitting a full child does not change what the tree contains, or in which order. */
  lemma SplitInOrder(x: BTree, i: nat, t: nat)
    requires t >= 2 && !x.leaf && i <= |x.keys| && |x.kids| == |x.keys| + 1
    requires Full(x.kids[i], t) && (!x.kids[i].leaf ==> |x.kids[i].kids| == 2 * t)
    ensures InOrder(Split(x, i, t)) == InOrder(x)
  {
    var x' := Split(x, i, t);
    var y, lo, hi := x.kids[i], LowerHalf(x.kids[i], t), UpperHalf(x.kids[i], t);
    AroundChild(x, i);
    AroundChild(x', i);
    SplitLeft(x, i, t);
    HalvesInOrder(y, t);
    RegroupFive(Left(x, i), InOrder(lo), [y.keys[t - 1]], InOrder(hi), Right(x, i));
  }

  /** ... nor does it break the shape, or change the height. */
  lemma SplitShaped(x: BTree, i: nat, t: nat, h: nat, root: bool)
    requires t >= 2 && h > 0 && Shaped(x, t, h, root) && !Full(x, t) && i <= |x.keys| && Full(x.kids[i], t)
    ensures !x.kids[i].leaf ==> |x.kids[i].kids| == 2 * t
    ensures Shaped(Split(x, i, t), t, h, root)
  {
    var y := x.kids[i];
    assert Shaped(y, t, h - 1, false);
    var x' := Split(x, i, t);
    assert Shaped(LowerHalf(y, t), t, h - 1, false);
    assert Shaped(UpperHalf(y, t), t, h - 1, false);
    forall j | 0 <= j < |x'.kids| ensures Shaped(x'.kids[j], t, h - 1, false) {
      if j < i {
        assert x'.kids[j] == x.kids[j];
      } else if j > i + 1 {
        assert x'.kids[j] == x.kids[j - 1];
      }
    }
  }

  // ---------------------------------------------------------------- insertion

  /** Where a scan from the last key down stops: after the last key that is not greater than k. */
  function Position(keys: seq<int>, k: int): (p: nat)
    ensures p <= |keys| && (p > 0 ==> keys[p - 1] <= k)
    ensures forall j :: p <= j < |keys| ==> keys[j] > k
  {
    if keys == [] || keys[|keys| - 1] <= k then |keys| else Position(keys[..|keys| - 1], k)
  }

  /** The node and child into which btree_insert_nonfull descends: the child is split first if it is full. */
  function Prepare(x: BTree, k: int, t: nat, h: nat, root: bool): (r: (BTree, nat))
    requires t >= 2 && h > 0 && Shaped(x, t, h, root) && !Full(x, t)
    ensures Shaped(r.0, t, h, root) && r.1 <= |r.0.keys|
    ensures Shaped(r.0.kids[r.1], t, h - 1, false) && !Full(r.0.kids[r.1], t)
  {
    var p := Position(x.keys, k);
    if Full(x.kids[p], t) then
      SplitShaped(x, p, t, h, root);
      var x' := Split(x, p, t);
      (x', if k > x'.keys[p] then p + 1 else p)
    else (x, p)
  }

  /** btree_insert_nonfull */
  function InsertNonfull(x: BTree, k: int, t: nat, h: nat, root: bool): BTree
    requires t >= 2 && Shaped(x, t, h, root) && !Full(x, t)
    decreases h
  {
    if x.leaf then
      var p := Position(x.keys, k);
      Node(true, x.keys[..p] + [k] + x.keys[p..], [])
    else
      var (x', p) := Prepare(x, k, t, h, root);
      x'.(kids := x'.kids[p := InsertNonfull(x'.kids[p], k, t, h - 1, false)])
  }

  /** The rest of btree_insert after the split of a full root. */
  function InsertHalf(x: BTree, k: int, t: nat, h: nat): BTree
    requires t >= 2 && |x.keys| == 1 && |x.kids| == 2
    requires Shaped(x.kids[0], t, h, false) && Shaped(x.kids[1], t, h, false) && !Full(x.kids[0], t)
             && !Full(x.kids[1], t)
  {
    var i := if x.keys[0] < k then 1 else 0;
    x.(kids := x.kids[i := InsertNonfull(x.kids[i], k, t, h, false)])
  }

  /** btree_insert */
  function Insert(x: BTree, k: int, t: nat, h: nat): BTree
    requires t >= 2 && Shaped(x, t, h, true)
  {
    if Full(x, t) then
      RootSplit(x, t, h);
      InsertHalf(Split(Node(false, [], [x]), 0, t), k, t, h)
    else InsertNonfull(x, k, t, h, true)
  }

  /** Splitting a full root gives a root with one key and a tree that is one higher. */
  lemma RootSplit(x: BTree, t: nat, h: nat)
    requires t >= 2 && Shaped(x, t, h, true) && Full(x, t)
    ensures !x.leaf ==> |x.kids| == 2 * t
    ensures var x' := Split(Node(false, [], [x]), 0, t);
            && Shaped(x', t, h + 1, true) && |x'.keys| == 1
            && Shaped(x'.kids[0], t, h, false) && !Full(x'.kids[0], t)
            && Shaped(x'.kids[1], t, h, false) && !Full(x'.kids[1], t)
            && InOrder(x') == InOrder(x)
  {
    var top := Node(false, [], [x]);
    var x' := Split(top, 0, t);
    assert x'.kids == [LowerHalf(x, t), UpperHalf(x, t)] && x'.keys == [x.keys[t - 1]];
    SplitInOrder(top, 0, t);
    assert InOrder(top) == InOrder(x);
  }

  /** `s'` is `s` with one more element, and is sorted if `s` is. */
  predicate Added(s: seq<int>, k: int, s': seq<int>)
  {
    multiset(s') == multiset(s) + multiset{k} && (Sorted(s) ==> Sorted(s'))
  }

  predicate AllLe(a: seq<int>, b: seq<int>)
  {
    forall x, y :: x in a && y in b ==> x <= y
  }

  lemma SortedConcat(a: seq<int>, b: seq<int>)
    ensures Sorted(a + b) <==> Sorted(a) && Sorted(b) && AllLe(a, b)
  {
    var s := a + b;
    if Sorted(s) {
      assert forall i :: 0 <= i < |a| ==> a[i] == s[i];
      assert forall i :: 0 <= i < |b| ==> b[i] == s[|a| + i];
      forall x, y | x in a && y in b ensures x <= y {
        var i :| 0 <= i < |a| && a[i] == x;
        var j :| 0 <= j < |b| && b[j] == y;
        assert s[i] <= s[|a| + j];
      }
    }
    if Sorted(a) && Sorted(b) && AllLe(a, b) {
      forall i, j | 0 <= i < j < |s| ensures s[i] <= s[j] {
        if i < |a| && j >= |a| { assert s[i] in a && s[j] in b; }
      }
    }
  }

  /** Adding to the middle part of a list whose other parts lie below and above. */
  lemma AddedBetween(a: seq<int>, c: seq<int>, b: seq<int>, k: int, c': seq<int>)
    requires Added(c, k, c') && (Sorted(a + c + b) ==> AllLe(a, [k]) && AllLe([k], b))
    ensures Added(a + c + b, k, a + c' + b)
  {
    assert multiset(a + c' + b) == multiset(a + c + b) + multiset{k};
    if Sorted(a + c + b) {
      SortedConcat(a + c, b);
      SortedConcat(a, c);
      SortedConcat(a + c', b);
      SortedConcat(a, c');
      forall x | x in c' ensures x == k || x in c {
        assert x in multiset(c');
        assert x == k || x in multiset(c);
      }
      forall x, y | x in a && y in c' ensures x <= y {
        if y == k { assert k in [k]; }
      }
      forall x, y | x in a + c' && y in b ensures x <= y {
        if x in a { assert x in a + c; } else if x == k { assert k in [k]; } else { assert x in a + c; }
      }
    }
  }

  lemma AddedAt(a: seq<int>, k: int, b: seq<int>)
    requires Sorted(a + b) ==> AllLe(a, [k]) && AllLe([k], b)
    ensures Added(a + b, k, a + [k] + b)
  {
    assert a + [] + b == a + b;
    AddedBetween(a, [], b, k, [k]);
  }

  /** In a sorted node, the position splits the keys by k. */
  lemma PositionSorted(keys: seq<int>, k: int)
    requires Sorted(keys)
    ensures AllLe(keys[..Position(keys, k)], [k]) && AllLe([k], keys[Position(keys, k)..])
  {
    var p := Position(keys, k);
    assert forall i :: 0 <= i < p ==> keys[i] <= keys[p - 1];
  }

  /** What is left and right of a child in a sorted tree lies below and above what is in its neighbouring keys. */
  lemma ChildBounds(n: BTree, i: nat, k: int)
    requires !n.leaf && i <= |n.keys| && |n.kids| == |n.keys| + 1 && Sorted(InOrder(n))
    requires i > 0 ==> n.keys[i - 1] <= k
    requires i < |n.keys| ==> k <= n.keys[i]
    ensures AllLe(Left(n, i), [k]) && AllLe([k], Right(n, i))
  {
    AroundChild(n, i);
    var a, c, b := Left(n, i), InOrder(n.kids[i]), Right(n, i);
    SortedConcat(a + c, b);
    SortedConcat(a, c);
    if i > 0 {
      SortedConcat(Interleave(n.kids[..i], n.keys[..i - 1]), [n.keys[i - 1]]);
      forall x | x in a ensures x <= k {
        assert n.keys[i - 1] in [n.keys[i - 1]];
      }
    }
    if i < |n.keys| {
      SortedConcat([n.keys[i]], Interleave(n.kids[i + 1..], n.keys[i + 1..]));
      forall x | x in b ensures k <= x {
        assert n.keys[i] in [n.keys[i]];
      }
    }
  }

  /** In a sorted node with children, the keys are sorted too. */
  lemma {:induction false} KeysSorted(kids: seq<BTree>, keys: seq<int>)
    requires |kids| == |keys| + 1 && Sorted(Interleave(kids, keys))
    ensures Sorted(keys) && forall x :: x in keys ==> x in Interleave(kids, keys)
    decreases |keys|
  {
    if keys != [] {
      var a, r := InOrder(kids[0]), Interleave(kids[1..], keys[1..]);
      SortedConcat(a + [keys[0]], r);
      KeysSorted(kids[1..], keys[1..]);
      SortedConcat([keys[0]], keys[1..]);
      assert keys == [keys[0]] + keys[1..];
      forall x, y | x in [keys[0]] && y in keys[1..] ensures x <= y {
        assert x in a + [keys[0]];
      }
    }
  }

  /** The half into which k goes after a split is the right one. */
  lemma SplitBounds(x: BTree, p: nat, k: int)
    requires !x.leaf && |x.kids| == |x.keys| + 1 && p < |x.keys| && Sorted(InOrder(x))
    requires (p > 0 ==> x.keys[p - 1] <= k) && (p + 1 < |x.keys| ==> k <= x.keys[p + 1])
    ensures var q := if k > x.keys[p] then p + 1 else p; AllLe(Left(x, q), [k]) && AllLe([k], Right(x, q))
  {
    KeysSorted(x.kids, x.keys);
    ChildBounds(x, if k > x.keys[p] then p + 1 else p, k);
  }

  lemma SplitKeys(x: BTree, p: nat, k: int, t: nat)
    requires t >= 2 && !x.leaf && |x.kids| == |x.keys| + 1 && p == Position(x.keys, k)
    requires Full(x.kids[p], t) && (!x.kids[p].leaf ==> |x.kids[p].kids| == 2 * t)
    ensures var x' := Split(x, p, t);
            |x'.kids| == |x'.keys| + 1 && (p > 0 ==> x'.keys[p - 1] <= k) && (p + 1 < |x'.keys| ==> k <= x'.keys[p + 1])
  {
  }

  /** The child that is prepared is the right one for k. */
  lemma PrepareBounds(x: BTree, k: int, t: nat, h: nat, root: bool)
    requires t >= 2 && h > 0 && Shaped(x, t, h, root) && !Full(x, t) && Sorted(InOrder(x))
    ensures var (x', p) := Prepare(x, k, t, h, root);
            AllLe(Left(x', p), [k]) && AllLe([k], Right(x', p))
  {
    var p := Position(x.keys, k);
    if Full(x.kids[p], t) {
      SplitShaped(x, p, t, h, root);
      SplitInOrder(x, p, t);
      SplitKeys(x, p, k, t);
      SplitBounds(Split(x, p, t), p, k);
    } else {
      ChildBounds(x, p, k);
    }
  }

  lemma PrepareInOrder(x: BTree, k: int, t: nat, h: nat, root: bool)
    requires t >= 2 && h > 0 && Shaped(x, t, h, root) && !Full(x, t)
    ensures InOrder(Prepare(x, k, t, h, root).0) == InOrder(x)
  {
    var p := Position(x.keys, k);
    if Full(x.kids[p], t) {
      SplitShaped(x, p, t, h, root);
      SplitInOrder(x, p, t);
    }
  }

  /** Replacing one child. */
  lemma ReplaceChild(x: BTree, p: nat, c: BTree, t: nat, h: nat, root: bool)
    requires h > 0 && Shaped(x, t, h, root) && p <= |x.keys| && Shaped(c, t, h - 1, false)
    ensures var x' := x.(kids := x.kids[p := c]);
            Shaped(x', t, h, root) && InOrder(x') == Left(x, p) + InOrder(c) + Right(x, p)
  {
    var x' := x.(kids := x.kids[p := c]);
    AroundChild(x', p);
    assert x'.kids[..p] == x.kids[..p];
    assert x'.kids[p + 1..] == x.kids[p + 1..];
  }

  /** btree_insert_nonfull keeps shape and height and adds exactly the new key. */
  lemma {:induction false} InsertNonfullKeeps(x: BTree, k: int, t: nat, h: nat, root: bool)
    requires t >= 2 && Shaped(x, t, h, root) && !Full(x, t)
    ensures var x' := InsertNonfull(x, k, t, h, root);
            Shaped(x', t, h, root) && Added(InOrder(x), k, InOrder(x'))
    decreases h
  {
    if x.leaf {
      var p := Position(x.keys, k);
      assert x.keys[..p] + x.keys[p..] == x.keys;
      if Sorted(x.keys) { PositionSorted(x.keys, k); }
      AddedAt(x.keys[..p], k, x.keys[p..]);
    } else {
      var (x', p) := Prepare(x, k, t, h, root);
      var c := InsertNonfull(x'.kids[p], k, t, h - 1, false);
      InsertNonfullKeeps(x'.kids[p], k, t, h - 1, false);
      PrepareInOrder(x, k, t, h, root);
      if Sorted(InOrder(x)) { PrepareBounds(x, k, t, h, root); }
      AroundChild(x', p);
      AddedBetween(Left(x', p), InOrder(x'.kids[p]), Right(x', p), k, InOrder(c));
      ReplaceChild(x', p, c, t, h, root);
    }
  }

  /** Adding to one child of a node. */
  lemma AddBelow(x: BTree, i: nat, c: BTree, k: int, t: nat, h: nat)
    requires h > 0 && Shaped(x, t, h, true) && i <= |x.keys|
    requires Shaped(c, t, h - 1, false) && Added(InOrder(x.kids[i]), k, InOrder(c))
    requires Sorted(InOrder(x)) ==> AllLe(Left(x, i), [k]) && AllLe([k], Right(x, i))
    ensures Shaped(x.(kids := x.kids[i := c]), t, h, true) && Added(InOrder(x), k, InOrder(x.(kids := x.kids[i := c])))
  {
    AroundChild(x, i);
    AddedBetween(Left(x, i), InOrder(x.kids[i]), Right(x, i), k, InOrder(c));
    ReplaceChild(x, i, c, t, h, true);
  }

  lemma InsertHalfKeeps(x: BTree, k: int, t: nat, h: nat)
    requires t >= 2 && Shaped(x, t, h + 1, true) && Sorted(InOrder(x)) && |x.keys| == 1 && |x.kids| == 2
    requires Shaped(x.kids[0], t, h, false) && Shaped(x.kids[1], t, h, false) && !Full(x.kids[0], t)
             && !Full(x.kids[1], t)
    ensures Shaped(InsertHalf(x, k, t, h), t, h + 1, true) && Added(InOrder(x), k, InOrder(InsertHalf(x, k, t, h)))
  {
    var i := if x.keys[0] < k then 1 else 0;
    var y := x.kids[i];
    var c := InsertNonfull(y, k, t, h, false);
    assert Shaped(c, t, h, false) && Added(InOrder(y), k, InOrder(c)) by { InsertNonfullKeeps(y, k, t, h, false); }
    assert AllLe(Left(x, i), [k]) && AllLe([k], Right(x, i)) by { ChildBounds(x, i, k); }
    AddHalf(x, i, c, k, t, h);
  }

  lemma AddHalf(x: BTree, i: nat, c: BTree, k: int, t: nat, h: nat)
    requires Shaped(x, t, h + 1, true) && i <= |x.keys|
    requires Shaped(c, t, h, false) && Added(InOrder(x.kids[i]), k, InOrder(c))
    requires AllLe(Left(x, i), [k]) && AllLe([k], Right(x, i))
    ensures Shaped(x.(kids := x.kids[i := c]), t, h + 1, true)
            && Added(InOrder(x), k, InOrder(x.(kids := x.kids[i := c])))
  {
    AddBelow(x, i, c, k, t, h + 1);
  }

  /** For every B-tree and every key, btree_insert gives a B-tree with exactly that key added; only the split of a
      full root makes it higher. */
  lemma InsertKeeps(x: BTree, k: int, t: nat, h: nat)
    requires t >= 2 && IsBTree(x, t, h)
    ensures IsBTree(Insert(x, k, t, h), t, if Full(x, t) then h + 1 else h)
    ensures multiset(InOrder(Insert(x, k, t, h))) == multiset(InOrder(x)) + multiset{k}
  {
    if Full(x, t) {
      RootSplit(x, t, h);
      InsertHalfKeeps(Split(Node(false, [], [x]), 0, t), k, t, h);
    } else {
      InsertNonfullKeeps(x, k, t, h, true);
    }
  }
}

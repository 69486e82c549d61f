/**
 Insertion into the B-tree of linuxdemo/btree.c, on the heap: arrays are shifted in place
 and nodes are relinked.
 */
module BTreeObject {
  import Spec = BTreeSpec
  import opened BTreeMemory

  /** `for (j = hi; j >= lo; j--) a[j + 1] = a[j];` */
  method ShiftUp<T>(a: array<T>, lo: nat, hi: int)
    requires lo <= hi + 1 < a.Length
    modifies a
    ensures forall j :: 0 <= j < lo ==> a[j] == old(a[j])
    ensures forall j :: lo <= j <= hi ==> a[j + 1] == old(a[j])
  {
    var j := hi;
    while j >= lo
      invariant lo - 1 <= j <= hi
      invariant forall k :: 0 <= k <= j ==> a[k] == old(a[k])
      invariant forall k :: j < k <= hi ==> a[k + 1] == old(a[k])
    {
      a[j + 1] := a[j];
      j := j - 1;
    }
  }

  /** `for (j = 0; j < n; j++) dst[j] = src[j + from];` */
  method CopyFrom<T>(dst: array<T>, src: array<T>, from: nat, n: nat)
    requires dst != src && n <= dst.Length && from + n <= src.Length
    modifies dst
    ensures Prefix(dst, n) == Prefix(src, from + n)[from..]
  {
    for j := 0 to n
      invariant forall k :: 0 <= k < j ==> dst[k] == src[k + from]
    {
      dst[j] := src[j + from];
    }
  }

  /** `r` is `s` with v at position p. */
  lemma Inserted<T>(s: seq<T>, r: seq<T>, p: nat, v: T)
    requires p <= |s| && |r| == |s| + 1 && r[p] == v
    requires forall j :: 0 <= j < p ==> r[j] == s[j]
    requires forall j :: p <= j < |s| ==> r[j + 1] == s[j]
    ensures r == s[..p] + [v] + s[p..]
  {
    var t := s[..p] + [v] + s[p..];
    forall j | 0 <= j < |r| ensures r[j] == t[j] {
      if j > p {
        assert t[j] == s[j - 1] && r[(j - 1) + 1] == s[j - 1];
      }
    }
  }

  /** Makes room at position p among the first n elements, and stores v there. */
  method InsertAt<T>(a: array<T>, p: nat, n: nat, v: T)
    requires p <= n < a.Length
    modifies a
    ensures Prefix(a, n + 1) == old(Prefix(a, n))[..p] + [v] + old(Prefix(a, n))[p..]
  {
    ShiftUp(a, p, n - 1);
    a[p] := v;
    Inserted(old(Prefix(a, n)), Prefix(a, n + 1), p, v);
  }

  /** The leaf's loop in btree_insert_nonfull: larger keys move up until k fits. */
  method MakeRoom(a: array<int>, n: nat, k: int) returns (p: nat)
    requires n < a.Length
    modifies a
    ensures p == Spec.Position(old(Prefix(a, n)), k)
    ensures p <= n && forall j :: 0 <= j < p ==> a[j] == old(a[j])
    ensures forall j :: p <= j < n ==> a[j + 1] == old(a[j])
  {
    var i := n - 1;
    while i >= 0 && a[i] > k
      invariant -1 <= i < n
      invariant forall j :: 0 <= j <= i ==> a[j] == old(a[j])
      invariant forall j :: i < j < n ==> a[j + 1] == old(a[j]) && old(a[j]) > k
    {
      a[i + 1] := a[i];
      i := i - 1;
    }
    p := i + 1;
  }

  method InsertSorted(a: array<int>, n: nat, k: int)
    requires n < a.Length
    modifies a
    ensures var ks := old(Prefix(a, n)); var p := Spec.Position(ks, k); Prefix(a, n + 1) == ks[..p] + [k] + ks[p..]
  {
    var p := MakeRoom(a, n, k);
    a[p] := k;
    Inserted(old(Prefix(a, n)), Prefix(a, n + 1), p, k);
  }

  /** New nodes and arrays are only ever added. */
  twostate predicate Grew(s: Store, new s': Store)
  {
    && (forall n :: n in s'.memory && n !in s.memory ==> fresh(n))
    && (forall a :: a in s'.arrays && a !in s.arrays ==> fresh(a))
  }

  lemma ChildLink(s: Store, t: nat, b: Tree, p: nat)
    requires Holds(s, t) && !b.leaf && p < |b.kids| && Tied(s.memory, b)
    ensures p < b.id.kids.Length && b.id.kids[p] == b.kids[p].id
  {
    assert Sized(b.id, t) && FieldsOf(b.id).kids == KidIds(b.kids);
    assert b.id.kids[p] == KidIds(b.kids)[p];
  }

  class BTreeHandle {
    var root: BNode
    const t: nat

    /** btree_create */
    constructor (t: nat)
      requires t >= 2
      ensures this.t == t && fresh(root) && fresh(root.keys) && fresh(root.kids)
      ensures Represents(Store(map[root := Fields(true, [], [])], {root.keys, root.kids}), Node(root, true, [], []), 0)
    {
      var x := new BNode(t, true);
      this.t := t;
      root := x;
      new;
      assert FieldsOf(root) == Fields(true, [], []);
      ghost var b := Node(root, true, [], []);
      assert Spec.IsBTree(Erase(b), t, 0) && Distinct(b);
    }

    /** The first half of btree_split_child: a new node with what y holds above its middle key. */
    method UpperNode(y: BNode) returns (z: BNode)
      requires t >= 2 && Sized(y, t) && y.num == 2 * t - 1
      ensures fresh(z) && fresh(z.keys) && fresh(z.kids) && Sized(z, t)
      ensures FieldsOf(z) == UpperFields(FieldsOf(y), t)
    {
      z := new BNode(t, y.leaf);
      z.num := t - 1;
      CopyFrom(z.keys, y.keys, t, t - 1);
      if !y.leaf {
        CopyFrom(z.kids, y.kids, t, t);
      }
    }

    /** The second half: x gets z as its child after position i, and k as the key between the two. */
    method AddChild(x: BNode, i: nat, z: BNode, k: int)
      requires t >= 2 && Sized(x, t) && !x.leaf && i <= x.num < 2 * t - 1
      modifies x`num, x.keys, x.kids
      ensures Sized(x, t)
      ensures FieldsOf(x) == WithChild(old(FieldsOf(x)), i, z, k)
    {
      InsertAt(x.kids, i + 1, x.num + 1, z);
      InsertAt(x.keys, i, x.num, k);
      x.num := x.num + 1;
    }

    /** btree_split_child, as a change of the three nodes. */
    method SplitNodes(x: BNode, y: BNode, i: nat) returns (z: BNode)
      requires t >= 2 && Sized(x, t) && !x.leaf && i <= x.num < 2 * t - 1
      requires y != x && y.keys != x.keys && y.kids != x.kids && Sized(y, t) && y.num == 2 * t - 1
      modifies x`num, x.keys, x.kids, y`num
      ensures fresh(z) && fresh(z.keys) && fresh(z.kids) && Sized(x, t) && Sized(y, t) && Sized(z, t)
      ensures FieldsOf(x) == WithChild(old(FieldsOf(x)), i, z, old(FieldsOf(y)).keys[t - 1])
      ensures FieldsOf(y) == LowerFields(old(FieldsOf(y)), t) && FieldsOf(z) == UpperFields(old(FieldsOf(y)), t)
    {
      ghost var f := FieldsOf(y);
      z := UpperNode(y);
      y.num := t - 1;
      AddChild(x, i, z, y.keys[t - 1]);
      assert FieldsOf(y) == LowerFields(f, t);
    }

    /** ... which leaves every other node alone. */
    method SplitAmong(ghost s: Store, x: BNode, y: BNode, i: nat) returns (z: BNode)
      requires Holds(s, t) && x in s.memory && y in s.memory && y != x && CanSplitAt(s.memory, x, y, i, t)
      requires Sized(x, t) && !x.leaf && i <= x.num < 2 * t - 1 && Sized(y, t) && y.num == 2 * t - 1
      requires FieldsOf(x) == s.memory[x] && FieldsOf(y) == s.memory[y]
      modifies x`num, x.keys, x.kids, y`num
      ensures fresh(z) && fresh(z.keys) && fresh(z.kids)
      ensures forall n {:trigger Sized(n, t)} {:trigger FieldsOf(n)} :: n in SplitOf(s.memory, x, y, z, i, t) ==>
                Sized(n, t) && FieldsOf(n) == SplitOf(s.memory, x, y, z, i, t)[n]
    {
      z := SplitNodes(x, y, i);
      ghost var m := SplitOf(s.memory, x, y, z, i, t);
      forall n | n in m ensures Sized(n, t) && FieldsOf(n) == m[n] {
        if n != x && n != y && n != z {
          assert old(Sized(n, t) && FieldsOf(n) == s.memory[n]);
        }
      }
    }

    /** btree_split_child, as a change of the store. */
    method SplitChild(ghost s: Store, x: BNode, y: BNode, i: nat) returns (z: BNode, ghost s': Store)
      requires Holds(s, t) && x in s.memory && y in s.memory && y != x
      requires !x.leaf && i <= x.num < 2 * t - 1 && y.num == 2 * t - 1
      requires CanSplitAt(s.memory, x, y, i, t)
      modifies x`num, x.keys, x.kids, y`num
      ensures Holds(s', t) && Grew(s, s') && z !in s.memory
      ensures s'.memory == SplitOf(s.memory, x, y, z, i, t)
    {
      assert Sized(x, t) && Sized(y, t) && FieldsOf(x) == s.memory[x] && FieldsOf(y) == s.memory[y];
      z := SplitAmong(s, x, y, i);
      s' := Store(SplitOf(s.memory, x, y, z, i, t), s.arrays + {z.keys, z.kids});
      SeparateGrow(s, z, s'.memory);
    }

    /** btree_split_child, as a change of the tree. */
    method SplitTree(ghost s: Store, x: BNode, i: nat, ghost b: Tree, ghost h: nat, ghost root: bool)
        returns (ghost z: BNode, ghost s': Store)
      requires Holds(s, t) && x == b.id && h > 0 && Roomy(s.memory, b, t, h, root) && CanSplit(b, i, t)
      modifies s.memory.Keys, x.keys, x.kids
      ensures Holds(s', t) && Grew(s, s')
      ensures Became(s.memory, b, s'.memory, Split(b, i, t, z))
    {
      KidShape(s.memory, b, t, h, root, i);
      ChildLink(s, t, b, i);
      var y := x.kids[i];
      assert Sized(x, t) && Sized(y, t) && FieldsOf(x) == s.memory[x] && FieldsOf(y) == s.memory[y];
      z, s' := SplitChild(s, x, y, i);
      SplitOfDid(s.memory, x, y, z, i, t);
      SplitBecame(s.memory, s'.memory, b, i, t, z);
    }

    /** The leaf case of btree_insert_nonfull. */
    method InsertLeaf(ghost s: Store, x: BNode, k: int, ghost b: Tree, ghost root: bool)
        returns (ghost s': Store, ghost b': Tree)
      requires Holds(s, t) && x == b.id && Roomy(s.memory, b, t, 0, root)
      modifies x`num, x.keys
      ensures Holds(s', t) && Grew(s, s')
      ensures Became(s.memory, b, s'.memory, b')
      ensures Erase(b') == Spec.InsertNonfull(Erase(b), k, t, 0, root)
    {
      assert Sized(x, t) && FieldsOf(x) == s.memory[x];
      InsertSorted(x.keys, x.num, k);
      x.num := x.num + 1;
      ghost var p := Spec.Position(b.keys, k);
      b' := Node(x, true, b.keys[..p] + [k] + b.keys[p..], []);
      s' := Store(s.memory[x := FieldsOf(x)], s.arrays);
      forall n | n in s.memory && n != x ensures Sized(n, t) && FieldsOf(n) == s.memory[n] {
        assert old(Sized(n, t) && FieldsOf(n) == s.memory[n]);
      }
    }

    /** The search of btree_insert_nonfull through the keys of an inner node. */
    method FindChild(x: BNode, k: int) returns (p: nat)
      requires Sized(x, t)
      ensures p == Spec.Position(Prefix(x.keys, x.num), k)
    {
      var i := x.num - 1;
      while i >= 0 && x.keys[i] > k
        invariant -1 <= i < x.num
        invariant forall j :: i < j < x.num ==> x.keys[j] > k
      {
        i := i - 1;
      }
      p := i + 1;
    }

    /** The choice of the child to descend into. */
    method ChooseChild(ghost s: Store, x: BNode, k: int, ghost b: Tree, ghost h: nat, ghost root: bool)
        returns (p: nat, full: bool)
      requires Holds(s, t) && x == b.id && h > 0 && Roomy(s.memory, b, t, h, root)
      ensures p == Spec.Position(b.keys, k) && (full <==> CanSplit(b, p, t))
    {
      assert Sized(x, t) && FieldsOf(x) == s.memory[x];
      p := FindChild(x, k);
      KidShape(s.memory, b, t, h, root, p);
      ChildLink(s, t, b, p);
      var y := x.kids[p];
      assert Sized(y, t) && FieldsOf(y) == s.memory[y];
      full := y.num == 2 * t - 1;
    }

    /** The child is full: it is split, and the right half is chosen. */
    method SplitChosen(ghost s: Store, x: BNode, k: int, i: nat, ghost b: Tree, ghost h: nat, ghost root: bool)
        returns (p: nat, ghost s': Store, ghost b': Tree)
      requires Holds(s, t) && x == b.id && h > 0 && Roomy(s.memory, b, t, h, root) && i == Spec.Position(b.keys, k)
               && CanSplit(b, i, t)
      modifies s.memory.Keys, x.keys, x.kids
      ensures Holds(s', t) && Grew(s, s')
      ensures Became(s.memory, b, s'.memory, b')
      ensures (Erase(b'), p) == Spec.Prepare(Erase(b), k, t, h, root)
    {
      ghost var z;
      p := i;
      z, s' := SplitTree(s, x, p, b, h, root);
      b' := Split(b, p, t, z);
      PrepareSplits(s.memory, b, k, t, h, root, z);
      assert Sized(x, t) && FieldsOf(x) == s'.memory[x];
      if k > x.keys[p] {
        p := p + 1;
      }
    }

    /** ... which is split first if it is full. */
    method PrepareChild(ghost s: Store, x: BNode, k: int, ghost b: Tree, ghost h: nat, ghost root: bool)
        returns (p: nat, ghost s': Store, ghost b': Tree)
      requires Holds(s, t) && x == b.id && h > 0 && Roomy(s.memory, b, t, h, root)
      modifies s.memory.Keys, s.arrays
      ensures Holds(s', t) && Grew(s, s')
      ensures Became(s.memory, b, s'.memory, b')
      ensures (Erase(b'), p) == Spec.Prepare(Erase(b), k, t, h, root)
    {
      var full;
      p, full := ChooseChild(s, x, k, b, h, root);
      assert Sized(x, t);
      if full {
        p, s', b' := SplitChosen(s, x, k, p, b, h, root);
      } else {
        s', b' := s, b;
        NoChange(s.memory, b);
        PrepareSplits(s.memory, b, k, t, h, root, x);
      }
    }

    /** btree_insert_nonfull */
    method InsertNonfull(ghost s: Store, x: BNode, k: int, ghost b: Tree, ghost h: nat, ghost root: bool)
        returns (ghost s': Store, ghost b': Tree)
      requires Holds(s, t) && x == b.id && Roomy(s.memory, b, t, h, root)
      modifies s.memory.Keys, s.arrays
      ensures Holds(s', t) && Grew(s, s')
      ensures Became(s.memory, b, s'.memory, b')
      ensures Erase(b') == Spec.InsertNonfull(Erase(b), k, t, h, root)
      decreases h
    {
      assert Sized(x, t) && FieldsOf(x) == s.memory[x];
      if x.leaf {
        s', b' := InsertLeaf(s, x, k, b, root);
      } else {
        var p;
        ghost var s1, b1, c;
        p, s1, b1 := PrepareChild(s, x, k, b, h, root);
        PreparedChild(s1.memory, b1, p, Erase(b), k, t, h, root);
        ChildLink(s1, t, b1, p);
        s', c := InsertNonfull(s1, x.kids[p], k, b1.kids[p], h - 1, false);
        b' := WithKid(b1, p, c);
        InsertedBelow(s.memory, b, s1.memory, b1, s'.memory, p, c, k, t, h, root);
      }
    }

    /** btree_insert, when the root is full: a new root is put above it ... */
    method AddRoot(ghost s: Store, r: BNode) returns (x: BNode, ghost s': Store)
      requires Holds(s, t) && r in s.memory
      ensures Holds(s', t) && Grew(s, s') && fresh(x) && x !in s.memory
              && s'.memory == s.memory[x := Fields(false, [], [r])]
      ensures x.num == 0 && !x.leaf && fresh(x.keys) && fresh(x.kids)
    {
      x := new BNode(t, false);
      x.kids[0] := r;
      assert FieldsOf(x) == Fields(false, [], [r]);
      forall n | n in s.memory ensures Sized(n, t) && FieldsOf(n) == s.memory[n] {
        assert old(Sized(n, t) && FieldsOf(n) == s.memory[n]);
      }
      s' := Store(s.memory[x := Fields(false, [], [r])], s.arrays + {x.keys, x.kids});
    }

    /** ... and the full node is split. */
    method RaiseRoot(ghost s: Store, r: BNode, ghost b: Tree, ghost h: nat)
        returns (x: BNode, ghost z: BNode, ghost s': Store)
      requires Holds(s, t) && r == b.id && Tied(s.memory, b) && Distinct(b)
      requires Spec.Shaped(Erase(b), t, h, true) && Spec.Full(Erase(b), t)
      modifies s.memory.Keys
      ensures Holds(s', t) && Grew(s, s')
      ensures var top := Node(x, false, [], [b]);
              CanSplit(top, 0, t) && Tied(s'.memory, Split(top, 0, t, z)) && Distinct(Split(top, 0, t, z))
    {
      ghost var s0;
      x, s0 := AddRoot(s, r);
      NewRoot(s.memory, b, x, t, h);
      assert Sized(r, t) && FieldsOf(r) == s0.memory[r];
      z, s' := SplitChild(s0, x, r, 0);
      SplitOfDid(s0.memory, x, r, z, 0, t);
      SplitBecame(s0.memory, s'.memory, Node(x, false, [], [b]), 0, t, z);
    }

    method InsertRaised(ghost s: Store, r: BNode, k: int, ghost b: Tree, ghost h: nat)
        returns (x: BNode, ghost s': Store, ghost b': Tree)
      requires Holds(s, t) && r == b.id && Tied(s.memory, b) && Distinct(b)
      requires Spec.Shaped(Erase(b), t, h, true) && Spec.Full(Erase(b), t)
      modifies s.memory.Keys, s.arrays
      ensures Holds(s', t) && Grew(s, s') && b'.id == x && Tied(s'.memory, b') && Distinct(b')
      ensures Erase(b') == Spec.Insert(Erase(b), k, t, h)
    {
      ghost var z, s1, c;
      x, z, s1 := RaiseRoot(s, r, b, h);
      ghost var b1 := Split(Node(x, false, [], [b]), 0, t, z);
      assert Sized(x, t) && FieldsOf(x) == s1.memory[x];
      var i := 0;
      if x.keys[0] < k {
        i := i + 1;
      }
      SplitRootReady(s1.memory, b, x, z, i, t, h);
      ChildLink(s1, t, b1, i);
      s', c := InsertNonfull(s1, x.kids[i], k, b1.kids[i], h, false);
      b' := WithKid(b1, i, c);
      InsertedHalf(s1.memory, b1, s'.memory, i, c, Erase(b), k, t, h);
    }

    method InsertTree(ghost s: Store, r: BNode, k: int, ghost b: Tree, ghost h: nat)
        returns (x: BNode, ghost s': Store, ghost b': Tree)
      requires Holds(s, t) && r == b.id && Tied(s.memory, b) && Distinct(b) && Spec.Shaped(Erase(b), t, h, true)
      modifies s.memory.Keys, s.arrays
      ensures Holds(s', t) && Grew(s, s') && b'.id == x && Tied(s'.memory, b') && Distinct(b')
      ensures Erase(b') == Spec.Insert(Erase(b), k, t, h)
    {
      assert Sized(r, t) && FieldsOf(r) == s.memory[r];
      if r.num == 2 * t - 1 {
        x, s', b' := InsertRaised(s, r, k, b, h);
      } else {
        x := r;
        s', b' := InsertNonfull(s, r, k, b, h, true);
      }
    }

    /** ... with what it means for the tree as a value. */
    method InsertKeeping(ghost s: Store, r: BNode, k: int, ghost b: Tree, ghost h: nat)
        returns (x: BNode, ghost s': Store, ghost b': Tree, ghost h': nat)
      requires Holds(s, t) && r == b.id && Tied(s.memory, b) && Distinct(b) && Spec.IsBTree(Erase(b), t, h)
      modifies s.memory.Keys, s.arrays
      ensures Holds(s', t) && Grew(s, s') && b'.id == x && Tied(s'.memory, b') && Distinct(b')
      ensures Spec.IsBTree(Erase(b'), t, h') && h' == if Spec.Full(Erase(b), t) then h + 1 else h
      ensures Erase(b') == Spec.Insert(Erase(b), k, t, h)
      ensures multiset(Spec.InOrder(Erase(b'))) == multiset(Spec.InOrder(Erase(b))) + multiset{k}
    {
      x, s', b' := InsertTree(s, r, k, b, h);
      h' := if Spec.Full(Erase(b), t) then h + 1 else h;
      InsertKept(b, b', k, t, h);
    }

    /** The tree with this root is in memory, and it is a B-tree `b` of height h.  (Equality with `true` makes the
        verifier treat the conjunction as one fact.) */
    ghost predicate Represents(s: Store, b: Tree, h: nat)
      reads this, s.memory.Keys, s.arrays
    {
      true == (root == b.id && Holds(s, t) && Tied(s.memory, b) && Distinct(b) && Spec.IsBTree(Erase(b), t, h))
    }

    /** btree_insert: the keys stay sorted, exactly k is added, and only the split of a full root makes the tree
        higher. */
    method Insert(k: int, ghost s: Store, ghost b: Tree, ghost h: nat)
        returns (ghost s': Store, ghost b': Tree, ghost h': nat)
      requires Represents(s, b, h) && this !in s.arrays
      modifies this, s.memory.Keys, s.arrays
      ensures Represents(s', b', h') && Grew(s, s')
      ensures h' == if Spec.Full(Erase(b), t) then h + 1 else h
      ensures Erase(b') == Spec.Insert(Erase(b), k, t, h)
      ensures multiset(Spec.InOrder(Erase(b'))) == multiset(Spec.InOrder(Erase(b))) + multiset{k}
    {
      var x;
      x, s', b', h' := InsertKeeping(s, root, k, b, h);
      SetRoot(x, s', b', h');
    }

    method SetRoot(x: BNode, ghost s: Store, ghost b: Tree, ghost h: nat)
      requires b.id == x && Holds(s, t) && Tied(s.memory, b) && Distinct(b) && Spec.IsBTree(Erase(b), t, h)
      modifies `root
      ensures Represents(s, b, h)
    {
      root := x;
      forall n | n in s.memory ensures Sized(n, t) && FieldsOf(n) == s.memory[n] {
        assert old(Sized(n, t) && FieldsOf(n) == s.memory[n]);
      }
    }
  }

  /** Any run of insertions into a new tree: a B-tree that holds exactly the keys that were inserted. */
  method Build(t: nat, keys: seq<int>) returns (tree: BTreeHandle, ghost s: Store, ghost b: Tree, ghost h: nat)
    requires t >= 2
    ensures tree.t == t && tree.Represents(s, b, h)
    ensures multiset(Spec.InOrder(Erase(b))) == multiset(keys)
  {
    tree := new BTreeHandle(t);
    b, h := Node(tree.root, true, [], []), 0;
    s := Store(map[tree.root := Fields(true, [], [])], {tree.root.keys, tree.root.kids});
    for i := 0 to |keys|
      invariant tree.Represents(s, b, h) && fresh(tree) && tree !in s.arrays && fresh(s.memory.Keys) && fresh(s.arrays)
      invariant tree.t == t && multiset(Spec.InOrder(Erase(b))) == multiset(keys[..i])
    {
      assert keys[..i + 1] == keys[..i] + [keys[i]];
      s, b, h := tree.Insert(keys[i], s, b, h);
    }
    assert keys[..|keys|] == keys;
  }
}

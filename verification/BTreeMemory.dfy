/**
 The nodes of linuxdemo/btree.c in memory: each node owns an array of keys and an array of
 children, of which only the first `num` keys and `num + 1` children are in use.
 */
module BTreeMemory {
  import BTreeSpec

  class BNode {
    const keys: array<int>
    const kids: array<BNode?>
    var num: int
    var leaf: bool

    /** btree_create_node */
    constructor (t: nat, leaf: bool)
      requires t >= 2
      ensures this.leaf == leaf && num == 0 && fresh(keys) && fresh(kids)
      ensures keys.Length == 2 * t - 1 && kids.Length == 2 * t
    {
      this.leaf := leaf;
      this.num := 0;
      keys := new int[2 * t - 1](_ => 0);
      kids := new BNode?[2 * t](_ => null);
    }
  }

  /** A B-tree that names its nodes. */
  datatype Tree = Node(id: BNode, leaf: bool, keys: seq<int>, kids: seq<Tree>)

  function Erase(t: Tree): BTreeSpec.BTree
  {
    BTreeSpec.Node(t.leaf, t.keys, seq(|t.kids|, i requires 0 <= i < |t.kids| => Erase(t.kids[i])))
  }

  /** The nodes of a tree, and of a list of trees. */
  function Ids(t: Tree): set<BNode>
    decreases t, 1
  {
    {t.id} + AllIds(t.kids)
  }

  function AllIds(ts: seq<Tree>): set<BNode>
    decreases ts, 0
  {
    if ts == [] then {} else Ids(ts[0]) + AllIds(ts[1..])
  }

  /** No node occurs twice. */
  predicate Distinct(t: Tree)
    decreases t, 1
  {
    t.id !in AllIds(t.kids) && AllDistinct(t.kids)
  }

  predicate AllDistinct(ts: seq<Tree>)
    decreases ts, 0
  {
    ts != [] ==> Distinct(ts[0]) && AllDistinct(ts[1..]) && Ids(ts[0]) !! AllIds(ts[1..])
  }

  lemma {:induction false} ConcatIds(a: seq<Tree>, b: seq<Tree>)
    ensures AllIds(a + b) == AllIds(a) + AllIds(b)
    ensures AllDistinct(a + b) <==> AllDistinct(a) && AllDistinct(b) && AllIds(a) !! AllIds(b)
    decreases |a|
  {
    if a == [] {
      assert a + b == b;
    } else {
      ConcatIds(a[1..], b);
      assert (a + b)[1..] == a[1..] + b;
    }
  }

  lemma SingleIds(t: Tree)
    ensures AllIds([t]) == Ids(t) && (AllDistinct([t]) <==> Distinct(t))
  {
    assert [t][1..] == [];
  }

  lemma Pieces(ts: seq<Tree>, i: nat)
    requires i < |ts|
    ensures ts == ts[..i] + [ts[i]] + ts[i + 1..]
  {
  }

  lemma ThreeIds(a: seq<Tree>, t: Tree, c: seq<Tree>)
    ensures AllIds(a + [t] + c) == AllIds(a) + Ids(t) + AllIds(c)
    ensures AllDistinct(a + [t] + c) <==>
              && AllDistinct(a) && Distinct(t) && AllDistinct(c)
              && AllIds(a) !! Ids(t) && AllIds(a) !! AllIds(c) && Ids(t) !! AllIds(c)
  {
    SingleIds(t);
    ConcatIds(a, [t]);
    ConcatIds(a + [t], c);
  }

  /** A list of trees around one of them. */
  lemma AroundIds(ts: seq<Tree>, i: nat)
    requires i < |ts|
    ensures ts == ts[..i] + [ts[i]] + ts[i + 1..]
    ensures AllIds(ts) == AllIds(ts[..i]) + Ids(ts[i]) + AllIds(ts[i + 1..])
    ensures AllDistinct(ts) <==>
              && AllDistinct(ts[..i]) && Distinct(ts[i]) && AllDistinct(ts[i + 1..])
              && AllIds(ts[..i]) !! Ids(ts[i]) && AllIds(ts[..i]) !! AllIds(ts[i + 1..])
              && Ids(ts[i]) !! AllIds(ts[i + 1..])
  {
    Pieces(ts, i);
    ThreeIds(ts[..i], ts[i], ts[i + 1..]);
  }

  /** The part of a node's fields that is in use. */
  datatype Fields = Fields(leaf: bool, keys: seq<int>, kids: seq<BNode?>)
  type Memory = map<BNode, Fields>

  ghost predicate Sized(n: BNode, t: nat)
    reads n
  {
    n.keys.Length == 2 * t - 1 && n.kids.Length == 2 * t && 0 <= n.num <= 2 * t - 1
  }

  /** The first n elements of an array. */
  ghost function Prefix<T>(a: array<T>, n: nat): (s: seq<T>)
    requires n <= a.Length
    reads a
    ensures |s| == n && forall i :: 0 <= i < n ==> s[i] == a[i]
  {
    seq(n, i requires 0 <= i < n reads a => a[i])
  }

  ghost function FieldsOf(n: BNode): Fields
    requires 0 <= n.num <= n.keys.Length && n.num < n.kids.Length
    reads n, n.keys, n.kids
  {
    Fields(n.leaf, Prefix(n.keys, n.num), if n.leaf then [] else Prefix(n.kids, n.num + 1))
  }

  /** What is stored in a set of nodes, and the arrays in which. */
  datatype Store = Store(memory: Memory, arrays: set<object>)

  /** Every node has its own arrays. */
  predicate Separate(s: Store)
  {
    && (forall n {:trigger n.keys} {:trigger n.kids} :: n in s.memory ==> n.keys in s.arrays && n.kids in s.arrays)
    && (forall n, m {:trigger n.keys, m.keys} :: n in s.memory && m in s.memory && n.keys == m.keys ==> n == m)
    && (forall n, m {:trigger n.kids, m.kids} :: n in s.memory && m in s.memory && n.kids == m.kids ==> n == m)
  }

  /** The heap is as the store says: every node has its own arrays, of the right size, and the stored fields. */
  ghost predicate Holds(s: Store, t: nat)
    reads s.memory.Keys, s.arrays
  {
    && t >= 2 && Separate(s)
    && (forall n {:trigger Sized(n, t)} :: n in s.memory ==> Sized(n, t))
    && (forall n {:trigger FieldsOf(n)} :: n in s.memory ==> Sized(n, t) && FieldsOf(n) == s.memory[n])
  }

  /** A new node brings its own arrays. */
  lemma SeparateGrow(s: Store, z: BNode, m: Memory)
    requires Separate(s) && z.keys !in s.arrays && z.kids !in s.arrays && m.Keys == s.memory.Keys + {z}
    ensures Separate(Store(m, s.arrays + {z.keys, z.kids}))
  {
  }

  function KidIds(ts: seq<Tree>): seq<BNode?>
  {
    seq(|ts|, i requires 0 <= i < |ts| => ts[i].id)
  }

  /** The memory at the node of `t` and below is exactly `t`. */
  predicate Tied(m: Memory, t: Tree)
    decreases t, 1
  {
    t.id in m && m[t.id] == Fields(t.leaf, t.keys, KidIds(t.kids)) && AllTied(m, t.kids)
  }

  predicate AllTied(m: Memory, ts: seq<Tree>)
    decreases ts, 0
  {
    ts != [] ==> Tied(m, ts[0]) && AllTied(m, ts[1..])
  }

  lemma {:induction false} ConcatTied(m: Memory, a: seq<Tree>, b: seq<Tree>)
    ensures AllTied(m, a + b) <==> AllTied(m, a) && AllTied(m, b)
    decreases |a|
  {
    if a == [] {
      assert a + b == b;
    } else {
      ConcatTied(m, a[1..], b);
      assert (a + b)[1..] == a[1..] + b;
    }
  }

  lemma AroundTied(m: Memory, ts: seq<Tree>, i: nat)
    requires i < |ts|
    ensures AllTied(m, ts) <==> AllTied(m, ts[..i]) && Tied(m, ts[i]) && AllTied(m, ts[i + 1..])
  {
    var a, b, c := ts[..i], [ts[i]], ts[i + 1..];
    assert ts == a + b + c;
    ConcatTied(m, a + b, c);
    ConcatTied(m, a, b);
    assert b[1..] == [];
  }

  predicate Agree(m: Memory, m': Memory, nodes: set<BNode>)
  {
    forall n :: n in nodes && n in m ==> n in m' && m'[n] == m[n]
  }

  lemma {:induction false} TiedFrame(m: Memory, m': Memory, t: Tree)
    requires Tied(m, t) && Agree(m, m', Ids(t))
    ensures Tied(m', t)
    decreases t, 1
  {
    AllTiedFrame(m, m', t.kids);
  }

  lemma {:induction false} AllTiedFrame(m: Memory, m': Memory, ts: seq<Tree>)
    requires AllTied(m, ts) && Agree(m, m', AllIds(ts))
    ensures AllTied(m', ts)
    decreases ts, 0
  {
    if ts != [] {
      TiedFrame(m, m', ts[0]);
      AllTiedFrame(m, m', ts[1..]);
    }
  }

  lemma {:induction false} TiedStored(m: Memory, t: Tree)
    requires Tied(m, t)
    ensures Ids(t) <= m.Keys
    decreases t, 1
  {
    AllTiedStored(m, t.kids);
  }

  lemma {:induction false} AllTiedStored(m: Memory, ts: seq<Tree>)
    requires AllTied(m, ts)
    ensures AllIds(ts) <= m.Keys
    decreases ts, 0
  {
    if ts != [] {
      TiedStored(m, ts[0]);
      AllTiedStored(m, ts[1..]);
    }
  }

  // ---------------------------------------------------------------- splitting

  predicate FullNode(y: Tree, t: nat)
  {
    t >= 2 && |y.keys| == 2 * t - 1 && if y.leaf then y.kids == [] else |y.kids| == 2 * t
  }

  predicate CanSplit(x: Tree, i: nat, t: nat)
  {
    !x.leaf && i <= |x.keys| && |x.kids| == |x.keys| + 1 && FullNode(x.kids[i], t)
  }

  function Lower(y: Tree, t: nat): Tree
    requires FullNode(y, t)
  {
    Node(y.id, y.leaf, y.keys[..t - 1], if y.leaf then [] else y.kids[..t])
  }

  function Upper(y: Tree, t: nat, z: BNode): Tree
    requires FullNode(y, t)
  {
    Node(z, y.leaf, y.keys[t..], if y.leaf then [] else y.kids[t..])
  }

  /** btree_split_child, with `z` as the new node. */
  function Split(x: Tree, i: nat, t: nat, z: BNode): Tree
    requires CanSplit(x, i, t)
  {
    var y := x.kids[i];
    Node(x.id, false, x.keys[..i] + [y.keys[t - 1]] + x.keys[i..],
      x.kids[..i] + [Lower(y, t), Upper(y, t, z)] + x.kids[i + 1..])
  }

  lemma EraseHalves(y: Tree, t: nat, z: BNode)
    requires FullNode(y, t)
    ensures BTreeSpec.Full(Erase(y), t) && (!y.leaf ==> |Erase(y).kids| == 2 * t)
    ensures Erase(Lower(y, t)) == BTreeSpec.LowerHalf(Erase(y), t)
    ensures Erase(Upper(y, t, z)) == BTreeSpec.UpperHalf(Erase(y), t)
  {
  }

  lemma EraseSplit(x: Tree, i: nat, t: nat, z: BNode)
    requires CanSplit(x, i, t)
    ensures BTreeSpec.Full(Erase(x).kids[i], t) && (!Erase(x).kids[i].leaf ==> |Erase(x).kids[i].kids| == 2 * t)
    ensures Erase(Split(x, i, t, z)) == BTreeSpec.Split(Erase(x), i, t)
  {
    EraseHalves(x.kids[i], t, z);
    assert Erase(x).kids[i] == Erase(x.kids[i]);
    var x' := Split(x, i, t, z);
    var a, b := Erase(x').kids, BTreeSpec.Split(Erase(x), i, t).kids;
    forall j | 0 <= j < |a| ensures a[j] == b[j] {
      assert a[j] == Erase(x'.kids[j]);
      if j < i {
        assert x'.kids[j] == x.kids[j];
      } else if j > i + 1 {
        assert x'.kids[j] == x.kids[j - 1];
      }
    }
  }

  lemma HalvesIds(y: Tree, t: nat, z: BNode)
    requires FullNode(y, t) && Distinct(y) && z !in Ids(y)
    ensures Distinct(Lower(y, t)) && Distinct(Upper(y, t, z))
    ensures Ids(Lower(y, t)) !! Ids(Upper(y, t, z))
    ensures Ids(Lower(y, t)) + Ids(Upper(y, t, z)) == Ids(y) + {z}
  {
    if !y.leaf {
      ConcatIds(y.kids[..t], y.kids[t..]);
      assert y.kids == y.kids[..t] + y.kids[t..];
    }
  }

  lemma PairIds(a: seq<Tree>, lo: Tree, hi: Tree, c: seq<Tree>)
    ensures AllIds(a + [lo, hi] + c) == AllIds(a) + Ids(lo) + Ids(hi) + AllIds(c)
    ensures AllDistinct(a + [lo, hi] + c) <==>
              && AllDistinct(a) && Distinct(lo) && Distinct(hi) && AllDistinct(c) && Ids(lo) !! Ids(hi)
              && AllIds(a) !! Ids(lo) + Ids(hi) && AllIds(c) !! Ids(lo) + Ids(hi) && AllIds(a) !! AllIds(c)
  {
    SingleIds(lo);
    SingleIds(hi);
    ConcatIds([lo], [hi]);
    assert [lo] + [hi] == [lo, hi];
    ConcatIds(a, [lo, hi]);
    ConcatIds(a + [lo, hi], c);
  }

  lemma SplitIds(x: Tree, i: nat, t: nat, z: BNode)
    requires CanSplit(x, i, t) && Distinct(x) && z !in Ids(x)
    ensures Distinct(Split(x, i, t, z)) && Ids(Split(x, i, t, z)) == Ids(x) + {z}
  {
    var y := x.kids[i];
    AroundIds(x.kids, i);
    HalvesIds(y, t, z);
    PairIds(x.kids[..i], Lower(y, t), Upper(y, t, z), x.kids[i + 1..]);
  }

  function LowerFields(f: Fields, t: nat): Fields
    requires t >= 2 && |f.keys| == 2 * t - 1 && (!f.leaf ==> |f.kids| == 2 * t)
  {
    Fields(f.leaf, f.keys[..t - 1], if f.leaf then [] else f.kids[..t])
  }

  function UpperFields(f: Fields, t: nat): Fields
    requires t >= 2 && |f.keys| == 2 * t - 1 && (!f.leaf ==> |f.kids| == 2 * t)
  {
    Fields(f.leaf, f.keys[t..], if f.leaf then [] else f.kids[t..])
  }

  function WithChild(f: Fields, i: nat, z: BNode, k: int): Fields
    requires i <= |f.keys| && |f.kids| == |f.keys| + 1
  {
    Fields(false, f.keys[..i] + [k] + f.keys[i..], f.kids[..i + 1] + [z] + f.kids[i + 1..])
  }

  /** x is an inner node, and y a full node. */
  predicate CanSplitAt(m: Memory, x: BNode, y: BNode, i: nat, t: nat)
  {
    && t >= 2 && x in m && y in m && x != y && i <= |m[x].keys| && |m[x].kids| == |m[x].keys| + 1
    && |m[y].keys| == 2 * t - 1 && (!m[y].leaf ==> |m[y].kids| == 2 * t)
  }

  /** What btree_split_child does to memory. */
  function SplitOf(m: Memory, x: BNode, y: BNode, z: BNode, i: nat, t: nat): Memory
    requires CanSplitAt(m, x, y, i, t)
  {
    m[x := WithChild(m[x], i, z, m[y].keys[t - 1])][y := LowerFields(m[y], t)][z := UpperFields(m[y], t)]
  }

  /** ... node by node. */
  predicate DidSplit(m: Memory, m': Memory, x: BNode, y: BNode, z: BNode, i: nat, t: nat)
    requires CanSplitAt(m, x, y, i, t)
  {
    && m'.Keys == m.Keys + {z}
    && m'[x] == WithChild(m[x], i, z, m[y].keys[t - 1])
    && m'[y] == LowerFields(m[y], t)
    && m'[z] == UpperFields(m[y], t)
    && forall n :: n in m && n != x && n != y ==> m'[n] == m[n]
  }

  lemma SplitOfDid(m: Memory, x: BNode, y: BNode, z: BNode, i: nat, t: nat)
    requires CanSplitAt(m, x, y, i, t) && z !in m
    ensures DidSplit(m, SplitOf(m, x, y, z, i, t), x, y, z, i, t)
  {
  }

  lemma HalvesTied(m: Memory, m': Memory, y: Tree, t: nat, z: BNode)
    requires FullNode(y, t) && Tied(m, y) && Distinct(y) && z !in m
    requires y.id in m' && m'[y.id] == Fields(y.leaf, y.keys[..t - 1], if y.leaf then [] else KidIds(y.kids)[..t])
    requires z in m' && m'[z] == Fields(y.leaf, y.keys[t..], if y.leaf then [] else KidIds(y.kids)[t..])
    requires Agree(m, m', AllIds(y.kids))
    ensures Tied(m', Lower(y, t)) && Tied(m', Upper(y, t, z))
  {
    AllTiedFrame(m, m', y.kids);
    if !y.leaf {
      assert y.kids == y.kids[..t] + y.kids[t..];
      ConcatTied(m', y.kids[..t], y.kids[t..]);
    }
  }

  lemma SplitKids(x: Tree, i: nat, t: nat, z: BNode)
    requires CanSplit(x, i, t)
    ensures KidIds(Split(x, i, t, z).kids) == KidIds(x.kids)[..i + 1] + [z] + KidIds(x.kids)[i + 1..]
  {
  }

  lemma SplitAllTied(m: Memory, a: seq<Tree>, lo: Tree, hi: Tree, c: seq<Tree>)
    requires AllTied(m, a) && Tied(m, lo) && Tied(m, hi) && AllTied(m, c)
    ensures AllTied(m, a + [lo, hi] + c)
  {
    ConcatTied(m, a + [lo, hi], c);
    ConcatTied(m, a, [lo, hi]);
    ConcatTied(m, [lo], [hi]);
    assert [lo] + [hi] == [lo, hi] && [lo][1..] == [] && [hi][1..] == [];
  }

  lemma SplitTied(m: Memory, m': Memory, x: Tree, i: nat, t: nat, z: BNode)
    requires CanSplit(x, i, t) && Distinct(x) && Tied(m, x) && z !in m
    requires x.kids[i].id in m && m[x.kids[i].id] == Fields(x.kids[i].leaf, x.kids[i].keys, KidIds(x.kids[i].kids))
    requires x.kids[i].id != x.id && DidSplit(m, m', x.id, x.kids[i].id, z, i, t)
    ensures Tied(m', Split(x, i, t, z))
  {
    var a, y, c := x.kids[..i], x.kids[i], x.kids[i + 1..];
    AroundIds(x.kids, i);
    AroundTied(m, x.kids, i);
    AllTiedFrame(m, m', a);
    AllTiedFrame(m, m', c);
    HalvesTied(m, m', y, t, z);
    SplitAllTied(m', a, Lower(y, t), Upper(y, t, z), c);
    SplitKids(x, i, t, z);
  }

  // ---------------------------------------------------------------- insertion

  /** The memory holds a tree that has the shape of a B-tree and a root with room for a key. */
  predicate Roomy(m: Memory, b: Tree, t: nat, h: nat, root: bool)
  {
    && t >= 2 && Tied(m, b) && Distinct(b)
    && BTreeSpec.Shaped(Erase(b), t, h, root) && !BTreeSpec.Full(Erase(b), t)
  }

  /** A change of memory from tree `b` to tree `b'` that adds nodes and touches nothing outside the tree. */
  predicate Became(m: Memory, b: Tree, m': Memory, b': Tree)
  {
    && m.Keys <= m'.Keys && b'.id == b.id && Tied(m', b') && Distinct(b')
    && Ids(b') == Ids(b) + (m'.Keys - m.Keys)
    && Agree(m, m', m.Keys - Ids(b))
  }

  lemma EraseKid(b: Tree, i: nat)
    requires i < |b.kids|
    ensures |Erase(b).kids| == |b.kids| && Erase(b).kids[i] == Erase(b.kids[i])
  {
  }

  function WithKid(b: Tree, i: nat, c: Tree): Tree
    requires i < |b.kids|
  {
    Node(b.id, b.leaf, b.keys, b.kids[i := c])
  }

  lemma EraseWithKid(b: Tree, i: nat, c: Tree)
    requires i < |b.kids|
    ensures Erase(WithKid(b, i, c)) == Erase(b).(kids := Erase(b).kids[i := Erase(c)])
  {
  }

  lemma KidInside(m: Memory, b: Tree, i: nat)
    requires Tied(m, b) && Distinct(b) && i < |b.kids|
    ensures Tied(m, b.kids[i]) && Distinct(b.kids[i])
    ensures Ids(b.kids[i]) <= Ids(b) <= m.Keys && b.id !in Ids(b.kids[i])
    ensures |m[b.id].kids| == |b.kids| && m[b.id].kids[i] == b.kids[i].id
  {
    AroundTied(m, b.kids, i);
    AroundIds(b.kids, i);
    TiedStored(m, b);
  }

  lemma WithKidIds(b: Tree, i: nat, c: Tree, added: set<BNode>)
    requires i < |b.kids| && Distinct(b) && Distinct(c) && Ids(c) == Ids(b.kids[i]) + added && added !! Ids(b)
    ensures Distinct(WithKid(b, i, c)) && Ids(WithKid(b, i, c)) == Ids(b) + added
  {
    AroundIds(b.kids, i);
    var ts := b.kids[i := c];
    AroundIds(ts, i);
    assert ts[..i] == b.kids[..i] && ts[i + 1..] == b.kids[i + 1..];
  }

  lemma WithKidTied(m: Memory, m': Memory, b: Tree, i: nat, c: Tree)
    requires Tied(m, b) && Distinct(b) && i < |b.kids| && Tied(m', c) && c.id == b.kids[i].id
    requires Agree(m, m', m.Keys - Ids(b.kids[i]))
    ensures Tied(m', WithKid(b, i, c))
  {
    AroundIds(b.kids, i);
    AroundTied(m, b.kids, i);
    TiedStored(m, b);
    var ts := b.kids[i := c];
    AroundTied(m', ts, i);
    assert ts[..i] == b.kids[..i] && ts[i + 1..] == b.kids[i + 1..];
    AllTiedFrame(m, m', ts[..i]);
    AllTiedFrame(m, m', ts[i + 1..]);
    assert KidIds(ts) == KidIds(b.kids);
  }

  /** A change of one child's tree is a change of the tree. */
  lemma BecameAbove(m: Memory, m': Memory, b: Tree, i: nat, c: Tree)
    requires Tied(m, b) && Distinct(b) && i < |b.kids| && Became(m, b.kids[i], m', c)
    ensures Became(m, b, m', WithKid(b, i, c))
  {
    KidInside(m, b, i);
    WithKidIds(b, i, c, m'.Keys - m.Keys);
    WithKidTied(m, m', b, i, c);
  }

  /** Changes compose. */
  lemma BecameTwice(m0: Memory, b0: Tree, m1: Memory, b1: Tree, m2: Memory, b2: Tree)
    requires Became(m0, b0, m1, b1) && Became(m1, b1, m2, b2)
    ensures Became(m0, b0, m2, b2)
  {
  }

  lemma NoChange(m: Memory, b: Tree)
    requires Tied(m, b) && Distinct(b)
    ensures Became(m, b, m, b)
  {
  }

  /** btree_split_child is such a change. */
  lemma SplitBecame(m: Memory, m': Memory, x: Tree, i: nat, t: nat, z: BNode)
    requires CanSplit(x, i, t) && Distinct(x) && Tied(m, x) && z !in m
    requires x.kids[i].id in m && m[x.kids[i].id] == Fields(x.kids[i].leaf, x.kids[i].keys, KidIds(x.kids[i].kids))
    requires x.kids[i].id != x.id && DidSplit(m, m', x.id, x.kids[i].id, z, i, t)
    ensures Became(m, x, m', Split(x, i, t, z))
  {
    KidInside(m, x, i);
    SplitTied(m, m', x, i, t, z);
    SplitIds(x, i, t, z);
  }

  /** What a node's fields say about its child in a tree with the shape of a B-tree. */
  lemma KidShape(m: Memory, b: Tree, t: nat, h: nat, root: bool, i: nat)
    requires t >= 2 && h > 0 && Tied(m, b) && Distinct(b) && BTreeSpec.Shaped(Erase(b), t, h, root) && i <= |b.keys|
    ensures !b.leaf && |b.kids| == |b.keys| + 1 && b.id in m
    ensures var c := b.kids[i];
            && c.id in m && c.id != b.id && m[b.id].kids[i] == c.id && m[c.id] == Fields(c.leaf, c.keys, KidIds(c.kids))
            && BTreeSpec.Shaped(Erase(c), t, h - 1, false)
            && (|c.keys| == 2 * t - 1 ==> FullNode(c, t) && CanSplit(b, i, t))
  {
    EraseKid(b, i);
    KidInside(m, b, i);
    assert BTreeSpec.Shaped(Erase(b).kids[i], t, h - 1, false);
  }

  lemma PrepareSplits(m: Memory, b: Tree, k: int, t: nat, h: nat, root: bool, z: BNode)
    requires h > 0 && Roomy(m, b, t, h, root)
    ensures BTreeSpec.Position(b.keys, k) < |b.kids|
    ensures var p := BTreeSpec.Position(b.keys, k);
            if CanSplit(b, p, t) then
              var b' := Split(b, p, t, z);
              BTreeSpec.Prepare(Erase(b), k, t, h, root) == (Erase(b'), if k > b'.keys[p] then p + 1 else p)
            else
              |b.kids[p].keys| < 2 * t - 1 && BTreeSpec.Prepare(Erase(b), k, t, h, root) == (Erase(b), p)
  {
    var p := BTreeSpec.Position(b.keys, k);
    KidShape(m, b, t, h, root, p);
    EraseKid(b, p);
    if CanSplit(b, p, t) {
      EraseSplit(b, p, t, z);
    }
  }

  /** The child that was prepared has room for a key. */
  lemma PreparedChild(m: Memory, b: Tree, p: nat, b0: BTreeSpec.BTree, k: int, t: nat, h: nat, root: bool)
    requires t >= 2 && h > 0 && BTreeSpec.Shaped(b0, t, h, root) && !BTreeSpec.Full(b0, t)
    requires Tied(m, b) && Distinct(b) && (Erase(b), p) == BTreeSpec.Prepare(b0, k, t, h, root)
    ensures !b.leaf && p < |b.kids| && Roomy(m, b.kids[p], t, h - 1, false)
  {
    KidShape(m, b, t, h, root, p);
    KidInside(m, b, p);
    EraseKid(b, p);
  }

  /** Preparing a child and then inserting below it is an insertion. */
  lemma InsertedBelow(
    m: Memory, b: Tree, m1: Memory, b1: Tree, m2: Memory, p: nat, c: Tree, k: int, t: nat, h: nat, root: bool)
    requires h > 0 && Roomy(m, b, t, h, root) && Became(m, b, m1, b1) && p < |b1.kids|
    requires (Erase(b1), p) == BTreeSpec.Prepare(Erase(b), k, t, h, root)
    requires Became(m1, b1.kids[p], m2, c) && Roomy(m1, b1.kids[p], t, h - 1, false)
    requires Erase(c) == BTreeSpec.InsertNonfull(Erase(b1.kids[p]), k, t, h - 1, false)
    ensures Became(m, b, m2, WithKid(b1, p, c))
    ensures Erase(WithKid(b1, p, c)) == BTreeSpec.InsertNonfull(Erase(b), k, t, h, root)
  {
    BecameAbove(m1, m2, b1, p, c);
    BecameTwice(m, b, m1, b1, m2, WithKid(b1, p, c));
    EraseKid(b1, p);
    EraseWithKid(b1, p, c);
  }

  /** A new root above the old one, not yet split. */
  lemma NewRoot(m: Memory, b: Tree, x: BNode, t: nat, h: nat)
    requires t >= 2 && Tied(m, b) && Distinct(b) && x !in m && BTreeSpec.Shaped(Erase(b), t, h, true)
             && BTreeSpec.Full(Erase(b), t)
    ensures var top := Node(x, false, [], [b]); var m' := m[x := Fields(false, [], [b.id])];
            Tied(m', top) && Distinct(top) && Ids(top) == Ids(b) + {x} && CanSplit(top, 0, t)
            && Erase(top) == BTreeSpec.Node(false, [], [Erase(b)])
  {
    var m' := m[x := Fields(false, [], [b.id])];
    TiedStored(m, b);
    TiedFrame(m, m', b);
    SingleIds(b);
    assert [b][1..] == [];
    assert KidIds([b]) == [b.id];
  }

  /** The halves of a root that was split have room for a key. */
  lemma SplitRootReady(m: Memory, b: Tree, x: BNode, z: BNode, i: nat, t: nat, h: nat)
    requires t >= 2 && BTreeSpec.Shaped(Erase(b), t, h, true) && BTreeSpec.Full(Erase(b), t) && i < 2
    requires var top := Node(x, false, [], [b]);
             CanSplit(top, 0, t) && Tied(m, Split(top, 0, t, z)) && Distinct(Split(top, 0, t, z))
    ensures var b1 := Split(Node(x, false, [], [b]), 0, t, z);
            !b1.leaf && |b1.kids| == 2 && |b1.keys| == 1 && Roomy(m, b1.kids[i], t, h, false)
            && Erase(b1) == BTreeSpec.Split(BTreeSpec.Node(false, [], [Erase(b)]), 0, t)
  {
    var top := Node(x, false, [], [b]);
    var b1 := Split(top, 0, t, z);
    EraseSplit(top, 0, t, z);
    assert Erase(top) == BTreeSpec.Node(false, [], [Erase(b)]);
    BTreeSpec.RootSplit(Erase(b), t, h);
    KidInside(m, b1, i);
    EraseKid(b1, i);
  }

  /** Inserting below one half of a full root is an insertion. */
  lemma InsertedHalf(m1: Memory, b1: Tree, m2: Memory, i: nat, c: Tree, x: BTreeSpec.BTree, k: int, t: nat, h: nat)
    requires t >= 2 && BTreeSpec.Shaped(x, t, h, true) && BTreeSpec.Full(x, t)
    requires |b1.kids| == 2 && |b1.keys| == 1 && Tied(m1, b1) && Distinct(b1) && i == (if b1.keys[0] < k then 1 else 0)
    requires !x.leaf ==> |x.kids| == 2 * t
    requires Erase(b1) == BTreeSpec.Split(BTreeSpec.Node(false, [], [x]), 0, t)
    requires Roomy(m1, b1.kids[i], t, h, false) && Became(m1, b1.kids[i], m2, c)
    requires Erase(c) == BTreeSpec.InsertNonfull(Erase(b1.kids[i]), k, t, h, false)
    ensures Became(m1, b1, m2, WithKid(b1, i, c))
    ensures Erase(WithKid(b1, i, c)) == BTreeSpec.Insert(x, k, t, h)
  {
    BTreeSpec.RootSplit(x, t, h);
    BecameAbove(m1, m2, b1, i, c);
    EraseKid(b1, i);
    EraseWithKid(b1, i, c);
  }

  lemma InsertKept(b: Tree, b': Tree, k: int, t: nat, h: nat)
    requires t >= 2 && BTreeSpec.IsBTree(Erase(b), t, h) && Erase(b') == BTreeSpec.Insert(Erase(b), k, t, h)
    ensures BTreeSpec.IsBTree(Erase(b'), t, if BTreeSpec.Full(Erase(b), t) then h + 1 else h)
    ensures multiset(BTreeSpec.InOrder(Erase(b'))) == multiset(BTreeSpec.InOrder(Erase(b))) + multiset{k}
  {
    BTreeSpec.InsertKeeps(Erase(b), k, t, h);
  }
}

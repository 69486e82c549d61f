/**
 Values that describe a red-black tree of linuxdemo/rbtree.c: the tree itself, and
 a tree with a hole in it.  Both mention the nodes they describe, so that a heap
 can be compared with them, but nothing in this module reads the heap.
 */
module RedBlackSpec {
  import opened Wrappers

  datatype Color = Red | Black

  /** A `void *`: compared and copied, never followed. */
  type Value = int

  class Node {
    var color: Color
    var left: Node
    var right: Node
    var parent: Node
    var key: int
    var value: Value

    /** A node fresh from malloc: the links hold nothing meaningful. */
    constructor (key: int, value: Value)
      ensures this.key == key && this.value == value
    {
      this.key, this.value := key, value;
      color, left, right, parent := Red, this, this, this;
    }
  }

  /** What one node holds, apart from its links. */
  datatype Cell = Cell(node: Node, color: Color, key: int, value: Value)

  datatype Tree = Leaf | Bin(left: Tree, cell: Cell, right: Tree)

  /** A tree with one subtree missing, seen from the hole: the cell above the hole,
      that cell's other subtree, and the rest of the tree above it. */
  datatype Context =
    | Top
    | LeftOf(up: Context, cell: Cell, right: Tree)
    | RightOf(up: Context, left: Tree, cell: Cell)

  function Plug(c: Context, t: Tree): Tree
    decreases c
  {
    match c
    case Top => t
    case LeftOf(up, cell, r) => Plug(up, Bin(t, cell, r))
    case RightOf(up, l, cell) => Plug(up, Bin(l, cell, t))
  }

  function Depth(c: Context): nat
  {
    if c.Top? then 0 else 1 + Depth(c.up)
  }

  // ---------------------------------------------------------------- nodes

  function Nodes(t: Tree): set<Node>
  {
    match t
    case Leaf => {}
    case Bin(l, cell, r) => Nodes(l) + {cell.node} + Nodes(r)
  }

  function ContextNodes(c: Context): set<Node>
  {
    match c
    case Top => {}
    case LeftOf(up, cell, r) => ContextNodes(up) + {cell.node} + Nodes(r)
    case RightOf(up, l, cell) => ContextNodes(up) + {cell.node} + Nodes(l)
  }

  /** No node occurs twice. */
  predicate Distinct(t: Tree)
  {
    match t
    case Leaf => true
    case Bin(l, cell, r) =>
      && Distinct(l) && Distinct(r)
      && cell.node !in Nodes(l) && cell.node !in Nodes(r)
      && Nodes(l) !! Nodes(r)
  }

  predicate DistinctContext(c: Context)
  {
    match c
    case Top => true
    case LeftOf(up, cell, r) =>
      && DistinctContext(up) && Distinct(r)
      && cell.node !in ContextNodes(up) && cell.node !in Nodes(r)
      && ContextNodes(up) !! Nodes(r)
    case RightOf(up, l, cell) =>
      && DistinctContext(up) && Distinct(l)
      && cell.node !in ContextNodes(up) && cell.node !in Nodes(l)
      && ContextNodes(up) !! Nodes(l)
  }

  // ------------------------------------------------------------- contents

  datatype Entry = Entry(key: int, value: Value)

  function EntryOf(cell: Cell): Entry
  {
    Entry(cell.key, cell.value)
  }

  /** The entries in order, as rbtree_traversal meets them. */
  function Entries(t: Tree): seq<Entry>
  {
    match t
    case Leaf => []
    case Bin(l, cell, r) => Entries(l) + [EntryOf(cell)] + Entries(r)
  }

  function Before(c: Context): seq<Entry>
  {
    match c
    case Top => []
    case LeftOf(up, _, _) => Before(up)
    case RightOf(up, l, cell) => Before(up) + Entries(l) + [EntryOf(cell)]
  }

  function After(c: Context): seq<Entry>
  {
    match c
    case Top => []
    case LeftOf(up, cell, r) => [EntryOf(cell)] + Entries(r) + After(up)
    case RightOf(up, _, _) => After(up)
  }

  function Whole(c: Context, t: Tree): seq<Entry>
  {
    Before(c) + Entries(t) + After(c)
  }

  predicate Sorted(s: seq<Entry>)
  {
    forall i, j :: 0 <= i < j < |s| ==> s[i].key < s[j].key
  }

  /** The finite map that a list of entries with distinct keys stands for. */
  function ToMap(s: seq<Entry>): map<int, Value>
  {
    if s == [] then map[] else ToMap(s[1..])[s[0].key := s[0].value]
  }

  lemma {:induction false} PlugEntries(c: Context, t: Tree)
    ensures Entries(Plug(c, t)) == Whole(c, t)
    decreases c
  {
    match c
    case Top =>
      assert [] + Entries(t) + [] == Entries(t);
    case LeftOf(up, cell, r) =>
      PlugEntries(up, Bin(t, cell, r));
      assert Whole(up, Bin(t, cell, r)) == Whole(c, t);
    case RightOf(up, l, cell) =>
      PlugEntries(up, Bin(l, cell, t));
      assert Whole(up, Bin(l, cell, t)) == Whole(c, t);
  }

  lemma {:induction false} PlugNodes(c: Context, t: Tree)
    ensures Nodes(Plug(c, t)) == ContextNodes(c) + Nodes(t)
    decreases c
  {
    match c
    case Top =>
    case LeftOf(up, cell, r) => PlugNodes(up, Bin(t, cell, r));
    case RightOf(up, l, cell) => PlugNodes(up, Bin(l, cell, t));
  }

  predicate AllBelow(s: seq<Entry>, k: int)
  {
    forall i :: 0 <= i < |s| ==> s[i].key < k
  }

  predicate AllAbove(s: seq<Entry>, k: int)
  {
    forall i :: 0 <= i < |s| ==> k < s[i].key
  }

  /** The map holds exactly the entries of the list. */
  lemma {:induction false} MapMembers(s: seq<Entry>)
    requires Sorted(s)
    ensures forall k :: k in ToMap(s) ==> exists i :: 0 <= i < |s| && s[i].key == k
    ensures forall i :: 0 <= i < |s| ==> s[i].key in ToMap(s) && ToMap(s)[s[i].key] == s[i].value
  {
    if s != [] {
      var r := s[1..];
      MapMembers(r);
      forall i | 0 <= i < |s| ensures s[i].key in ToMap(s) && ToMap(s)[s[i].key] == s[i].value {
        if i > 0 { assert s[i] == r[i - 1] && s[0].key < s[i].key; }
      }
      forall k | k in ToMap(s) ensures exists i :: 0 <= i < |s| && s[i].key == k {
        if k != s[0].key {
          assert k in ToMap(r);
          var i :| 0 <= i < |r| && r[i].key == k;
          assert s[i + 1].key == k;
        }
      }
    }
  }

  lemma {:induction false} MapOfConcat(a: seq<Entry>, b: seq<Entry>)
    ensures ToMap(a + b) == ToMap(b) + ToMap(a)
  {
    if a == [] {
      assert a + b == b;
    } else {
      MapOfConcat(a[1..], b);
      assert (a + b)[1..] == a[1..] + b;
    }
  }

  lemma {:induction false} MapWithin(s: seq<Entry>, k: int)
    requires AllBelow(s, k) || AllAbove(s, k)
    ensures k !in ToMap(s)
  {
    if s != [] { MapWithin(s[1..], k); }
  }

  /** An entry between two parts of a list. */
  lemma AroundAt(a: seq<Entry>, e: Entry, b: seq<Entry>, i: nat)
    requires i < |a + b|
    ensures (a + b)[i] == (a + [e] + b)[if i < |a| then i else i + 1] == if i < |a| then a[i] else b[i - |a|]
  {
  }

  lemma SortedParts(a: seq<Entry>, e: Entry, b: seq<Entry>)
    requires Sorted(a + [e] + b)
    ensures Sorted(a + b) && AllBelow(a, e.key) && AllAbove(b, e.key)
  {
    var s, t := a + b, a + [e] + b;
    assert t[|a|] == e;
    forall i | 0 <= i < |a| ensures a[i].key < e.key {
      AroundAt(a, e, b, i);
    }
    forall i | 0 <= i < |b| ensures e.key < b[i].key {
      AroundAt(a, e, b, |a| + i);
    }
    forall i, j | 0 <= i < j < |s| ensures s[i].key < s[j].key {
      AroundAt(a, e, b, i);
      AroundAt(a, e, b, j);
    }
  }

  lemma SortedJoin(a: seq<Entry>, e: Entry, b: seq<Entry>)
    requires Sorted(a + b) && AllBelow(a, e.key) && AllAbove(b, e.key)
    ensures Sorted(a + [e] + b)
  {
    var s, t := a + b, a + [e] + b;
    forall i, j | 0 <= i < j < |t| ensures t[i].key < t[j].key {
      if i != |a| { AroundAt(a, e, b, if i < |a| then i else i - 1); }
      if j != |a| { AroundAt(a, e, b, if j < |a| then j else j - 1); }
    }
  }

  lemma SortedAround(a: seq<Entry>, e: Entry, b: seq<Entry>)
    ensures Sorted(a + [e] + b) <==> Sorted(a + b) && AllBelow(a, e.key) && AllAbove(b, e.key)
  {
    if Sorted(a + [e] + b) { SortedParts(a, e, b); }
    if Sorted(a + b) && AllBelow(a, e.key) && AllAbove(b, e.key) { SortedJoin(a, e, b); }
  }

  /** A sorted list with an entry between two halves, as a map: the entry is the only difference. */
  lemma MapAround(a: seq<Entry>, e: Entry, b: seq<Entry>)
    requires AllBelow(a, e.key) && AllAbove(b, e.key)
    ensures e.key !in ToMap(a + b)
    ensures ToMap(a + [e] + b) == ToMap(a + b)[e.key := e.value]
    ensures ToMap(a + b) == ToMap(a + [e] + b) - {e.key}
  {
    MapWithin(a, e.key);
    MapWithin(b, e.key);
    MapOfConcat(a, b);
    MapOfConcat(a + [e], b);
    MapOfConcat(a, [e]);
    assert ToMap([e]) == map[e.key := e.value];
    MapAdd(ToMap(a), ToMap(b), e.key, e.value);
  }

  // --------------------------------------------------------- balance

  predicate IsBlack(t: Tree)
  {
    t.Leaf? || t.cell.color.Black?
  }

  predicate BlackAbove(c: Context)
  {
    c.Top? || c.cell.color.Black?
  }

  function Weight(color: Color): nat
  {
    if color.Black? then 1 else 0
  }

  /** Black nodes on the leftmost path; on every path when `Balanced` holds. */
  function BlackHeight(t: Tree): nat
  {
    if t.Leaf? then 0 else BlackHeight(t.left) + Weight(t.cell.color)
  }

  /** No red child of a red node, equal black heights. */
  predicate Balanced(t: Tree)
  {
    match t
    case Leaf => true
    case Bin(l, cell, r) =>
      && Balanced(l) && Balanced(r)
      && BlackHeight(l) == BlackHeight(r)
      && (cell.color.Red? ==> IsBlack(l) && IsBlack(r))
  }

  /** Balanced, except that a red root may have red children. */
  predicate BalancedBelow(t: Tree)
  {
    t.Bin? ==> Balanced(t.left) && Balanced(t.right) && BlackHeight(t.left) == BlackHeight(t.right)
  }

  /** A black root and every balance rule hold around a hole that takes a subtree of black height `h`. */
  predicate BalancedContext(c: Context, h: nat)
  {
    match c
    case Top => true
    case LeftOf(up, cell, r) =>
      && Balanced(r) && BlackHeight(r) == h
      && (cell.color.Red? ==> IsBlack(r) && BlackAbove(up) && !up.Top?)
      && BalancedContext(up, h + Weight(cell.color))
    case RightOf(up, l, cell) =>
      && Balanced(l) && BlackHeight(l) == h
      && (cell.color.Red? ==> IsBlack(l) && BlackAbove(up) && !up.Top?)
      && BalancedContext(up, h + Weight(cell.color))
  }

  /** A red-black search tree. */
  predicate RedBlack(t: Tree)
  {
    IsBlack(t) && Balanced(t) && Sorted(Entries(t))
  }

  lemma {:induction false} PlugBalanced(c: Context, t: Tree)
    requires BalancedContext(c, BlackHeight(t)) && Balanced(t)
    requires IsBlack(t) || (!c.Top? && BlackAbove(c))
    ensures Balanced(Plug(c, t)) && IsBlack(Plug(c, t))
    decreases c
  {
    match c
    case Top =>
    case LeftOf(up, cell, r) => PlugBalanced(up, Bin(t, cell, r));
    case RightOf(up, l, cell) => PlugBalanced(up, Bin(l, cell, t));
  }

  lemma {:induction false} UnplugBalanced(c: Context, t: Tree)
    requires Balanced(Plug(c, t)) && IsBlack(Plug(c, t))
    ensures Balanced(t) && BalancedContext(c, BlackHeight(t))
    ensures IsBlack(t) || (!c.Top? && BlackAbove(c))
    decreases c
  {
    match c
    case Top =>
    case LeftOf(up, cell, r) => UnplugBalanced(up, Bin(t, cell, r));
    case RightOf(up, l, cell) => UnplugBalanced(up, Bin(l, cell, t));
  }

  // ---------------------------------------------------------- height

  function Max(a: nat, b: nat): nat { if a < b then b else a }

  function Height(t: Tree): nat
  {
    if t.Leaf? then 0 else 1 + Max(Height(t.left), Height(t.right))
  }

  lemma {:induction false} Pow2Add(a: nat, b: nat)
    ensures Pow2(a + b) == Pow2(a) * Pow2(b)
  {
    if a != 0 { Pow2Add(a - 1, b); }
  }

  lemma {:induction false} Pow2Grows(a: nat, b: nat)
    requires a <= b
    ensures Pow2(a) <= Pow2(b)
  {
    if a < b { Pow2Grows(a, b - 1); }
  }

  lemma {:induction false} HeightAndSize(t: Tree)
    requires Balanced(t)
    ensures Height(t) <= 2 * BlackHeight(t) + (if IsBlack(t) then 0 else 1)
    ensures Pow2(BlackHeight(t)) <= |Entries(t)| + 1
  {
    match t
    case Leaf =>
    case Bin(l, cell, r) =>
      HeightAndSize(l);
      HeightAndSize(r);
  }

  lemma SquareGrows(a: nat, b: nat)
    requires a <= b
    ensures a * a <= b * b
  {
    assert a * a <= a * b <= b * b;
  }

  /** A red-black tree of n keys has a height h with 2^h <= (n+1)^2, that is, h <= 2 log2(n+1). */
  lemma HeightBound(t: Tree)
    requires IsBlack(t) && Balanced(t)
    ensures Pow2(Height(t)) <= (|Entries(t)| + 1) * (|Entries(t)| + 1)
  {
    HeightAndSize(t);
    Pow2Grows(Height(t), BlackHeight(t) + BlackHeight(t));
    Pow2Add(BlackHeight(t), BlackHeight(t));
    SquareGrows(Pow2(BlackHeight(t)), |Entries(t)| + 1);
  }

  // ------------------------------------------------- steps that keep order and nodes

  /** The subtree one level above the focus. */
  function Hang(c: Context, t: Tree): Tree
    requires !c.Top?
  {
    if c.LeftOf? then Bin(t, c.cell, c.right) else Bin(c.left, c.cell, t)
  }

  function Sibling(c: Context): Tree
    requires !c.Top?
  {
    if c.LeftOf? then c.right else c.left
  }

  function Paint(t: Tree, color: Color): Tree
    requires t.Bin?
  {
    t.(cell := t.cell.(color := color))
  }

  /** Two focuses on trees with the same entries and the same nodes. */
  predicate SameContents(c: Context, t: Tree, c': Context, t': Tree)
  {
    Entries(Plug(c, t)) == Entries(Plug(c', t')) && Nodes(Plug(c, t)) == Nodes(Plug(c', t'))
  }

  lemma SamePlug(c: Context, t: Tree, t': Tree)
    requires Entries(t) == Entries(t') && Nodes(t) == Nodes(t')
    ensures SameContents(c, t, c, t')
  {
    PlugEntries(c, t);
    PlugEntries(c, t');
    PlugNodes(c, t);
    PlugNodes(c, t');
  }

  lemma SameRotate(c: Context, a: Tree, cx: Cell, b: Tree, cy: Cell, d: Tree)
    ensures SameContents(c, Bin(Bin(a, cx, b), cy, d), c, Bin(a, cx, Bin(b, cy, d)))
  {
    assert Entries(Bin(Bin(a, cx, b), cy, d)) == Entries(Bin(a, cx, Bin(b, cy, d)));
    SamePlug(c, Bin(Bin(a, cx, b), cy, d), Bin(a, cx, Bin(b, cy, d)));
  }

  function Blacken(t: Tree): Tree
  {
    if t.Leaf? then t else Paint(t, Black)
  }

  // ------------------------------------------------------------- insertion

  /** The loop invariant of rbtree_insert_fixup: only the red node at the focus may have a red parent. */
  predicate InsertInv(c: Context, t: Tree)
  {
    t.Bin? && t.cell.color.Red? && Balanced(t) && BalancedContext(c, BlackHeight(t))
  }

  lemma InsertDone(c: Context, t: Tree)
    requires InsertInv(c, t) && BlackAbove(c)
    ensures var w := Blacken(Plug(c, t));
            && w.Bin? && IsBlack(w) && Balanced(w)
            && Entries(w) == Entries(Plug(c, t)) && Nodes(w) == Nodes(Plug(c, t))
  {
    PlugNodes(c, t);
    assert t.cell.node in Nodes(Plug(c, t));
    if !c.Top? { PlugBalanced(c, t); }
  }

  predicate RedParent(c: Context)
  {
    !c.Top? && c.cell.color.Red?
  }

  /** Red uncle: paint parent and uncle black, the grandparent red, and go on from the grandparent. */
  function UncleRed(c: Context, t: Tree): Tree
    requires !c.Top? && !c.up.Top? && Sibling(c.up).Bin?
  {
    var p, u := Paint(Hang(c, t), Black), Paint(Sibling(c.up), Black);
    var g := c.up.cell.(color := Red);
    if c.up.LeftOf? then Bin(p, g, u) else Bin(u, g, p)
  }

  lemma UncleRedBalance(c: Context, t: Tree)
    requires InsertInv(c, t) && RedParent(c) && !IsBlack(Sibling(c.up))
    ensures InsertInv(c.up.up, UncleRed(c, t))
  {
    var p, u, h := Hang(c, t), Sibling(c.up), BlackHeight(t);
    assert BalancedContext(c.up, h) && Balanced(u) && c.up.cell.color.Black?;
    assert Balanced(Paint(p, Black)) && BlackHeight(Paint(p, Black)) == h + 1;
    assert Balanced(Paint(u, Black)) && BlackHeight(Paint(u, Black)) == h + 1;
    assert Balanced(UncleRed(c, t)) && BlackHeight(UncleRed(c, t)) == h + 1;
  }

  lemma UncleRedSame(c: Context, t: Tree)
    requires !c.Top? && !c.up.Top? && Sibling(c.up).Bin?
    ensures SameContents(c, t, c.up.up, UncleRed(c, t))
  {
    var p, u := Hang(c, t), Sibling(c.up);
    assert Entries(Paint(u, Black)) == Entries(u) && Entries(Paint(p, Black)) == Entries(p);
    assert Nodes(Paint(u, Black)) == Nodes(u) && Nodes(Paint(p, Black)) == Nodes(p);
    assert Entries(UncleRed(c, t)) == Entries(Hang(c.up, p));
    assert Nodes(UncleRed(c, t)) == Nodes(Hang(c.up, p));
    SamePlug(c.up.up, Hang(c.up, p), UncleRed(c, t));
  }

  /** Black uncle, after any first rotation: the focus is an outer grandchild. */
  lemma OuterBalanceLeft(up: Context, t: Tree, cp: Cell, s: Tree, cg: Cell, u: Tree)
    requires IsBlack(u) && cp.color.Red? && InsertInv(LeftOf(LeftOf(up, cg, u), cp, s), t)
    ensures InsertInv(LeftOf(up, cp.(color := Black), Bin(s, cg.(color := Red), u)), t)
  {
    var h := BlackHeight(t);
    assert BalancedContext(LeftOf(up, cg, u), h) && cg.color.Black?;
    assert Balanced(Bin(s, cg.(color := Red), u)) && BlackHeight(Bin(s, cg.(color := Red), u)) == h;
  }

  lemma OuterBalanceRight(up: Context, t: Tree, cp: Cell, s: Tree, cg: Cell, u: Tree)
    requires IsBlack(u) && cp.color.Red? && InsertInv(RightOf(RightOf(up, u, cg), s, cp), t)
    ensures InsertInv(RightOf(up, Bin(u, cg.(color := Red), s), cp.(color := Black)), t)
  {
    var h := BlackHeight(t);
    assert BalancedContext(RightOf(up, u, cg), h) && cg.color.Black?;
    assert Balanced(Bin(u, cg.(color := Red), s)) && BlackHeight(Bin(u, cg.(color := Red), s)) == h;
  }

  lemma OuterSameLeft(up: Context, t: Tree, cp: Cell, s: Tree, cg: Cell, u: Tree)
    ensures SameContents(LeftOf(LeftOf(up, cg, u), cp, s), t,
            LeftOf(up, cp.(color := Black), Bin(s, cg.(color := Red), u)), t)
  {
    SameRotate(up, t, cp, s, cg, u);
    SamePlug(up, Bin(t, cp, Bin(s, cg, u)), Bin(t, cp.(color := Black), Bin(s, cg.(color := Red), u)));
  }

  lemma OuterSameRight(up: Context, t: Tree, cp: Cell, s: Tree, cg: Cell, u: Tree)
    ensures SameContents(RightOf(RightOf(up, u, cg), s, cp), t,
            RightOf(up, Bin(u, cg.(color := Red), s), cp.(color := Black)), t)
  {
    SameRotate(up, u, cg, s, cp, t);
    SamePlug(up, Bin(Bin(u, cg, s), cp, t), Bin(Bin(u, cg.(color := Red), s), cp.(color := Black), t));
  }

  /** The first rotation: an inner grandchild becomes an outer one. */
  lemma InnerBalanceLeft(up: Context, a: Tree, cp: Cell, l: Tree, cz: Cell, r: Tree)
    requires cp.color.Red? && InsertInv(RightOf(up, a, cp), Bin(l, cz, r))
    ensures InsertInv(LeftOf(up, cz, r), Bin(a, cp, l))
  {
    assert Balanced(Bin(a, cp, l)) && BlackHeight(Bin(a, cp, l)) == BlackHeight(Bin(l, cz, r));
  }

  lemma InnerBalanceRight(up: Context, a: Tree, cp: Cell, l: Tree, cz: Cell, r: Tree)
    requires cp.color.Red? && InsertInv(LeftOf(up, cp, a), Bin(l, cz, r))
    ensures InsertInv(RightOf(up, l, cz), Bin(r, cp, a))
  {
    assert Balanced(Bin(r, cp, a)) && BlackHeight(Bin(r, cp, a)) == BlackHeight(Bin(l, cz, r));
  }

  // ------------------------------------------------------------- searching

  /** The key `k` can only be below the focus. */
  predicate Bracketed(c: Context, k: int)
  {
    AllBelow(Before(c), k) && AllAbove(After(c), k)
  }

  lemma BracketedSide(c: Context, k: int)
    requires !c.Top? && Bracketed(c, k)
    ensures c.LeftOf? <==> k < c.cell.key
  {
    if c.LeftOf? {
      assert After(c)[0] == EntryOf(c.cell);
    } else {
      assert Before(c)[|Before(c)| - 1] == EntryOf(c.cell);
    }
  }

  lemma Outer<T>(b: seq<T>, l: seq<T>, e: T, r: seq<T>, a: seq<T>)
    ensures b + (l + [e] + r) + a == (b + l) + [e] + (r + a)
  {
  }

  lemma SortedHere(c: Context, t: Tree)
    requires t.Bin? && Sorted(Entries(Plug(c, t)))
    ensures AllBelow(Before(c) + Entries(t.left), t.cell.key)
    ensures AllAbove(Entries(t.right) + After(c), t.cell.key)
  {
    PlugEntries(c, t);
    Outer(Before(c), Entries(t.left), EntryOf(t.cell), Entries(t.right), After(c));
    SortedParts(Before(c) + Entries(t.left), EntryOf(t.cell), Entries(t.right) + After(c));
  }

  lemma DescendLeft(c: Context, t: Tree, k: int)
    requires t.Bin? && Sorted(Entries(Plug(c, t))) && Bracketed(c, k) && k < t.cell.key
    ensures Bracketed(LeftOf(c, t.cell, t.right), k)
  {
    SortedHere(c, t);
    var b := Entries(t.right) + After(c);
    assert After(LeftOf(c, t.cell, t.right)) == [EntryOf(t.cell)] + b;
  }

  lemma DescendRight(c: Context, t: Tree, k: int)
    requires t.Bin? && Sorted(Entries(Plug(c, t))) && Bracketed(c, k) && k > t.cell.key
    ensures Bracketed(RightOf(c, t.left, t.cell), k)
  {
    SortedHere(c, t);
    var a := Before(c) + Entries(t.left);
    assert Before(RightOf(c, t.left, t.cell)) == a + [EntryOf(t.cell)];
  }

  /** A key that is bracketed is stored exactly when it is in the subtree. */
  lemma NotOutside(c: Context, t: Tree, k: int)
    requires Bracketed(c, k)
    ensures k in ToMap(Entries(Plug(c, t))) <==> k in ToMap(Entries(t))
    ensures k in ToMap(Entries(t)) ==> ToMap(Entries(Plug(c, t)))[k] == ToMap(Entries(t))[k]
  {
    PlugEntries(c, t);
    MapOfConcat(Before(c) + Entries(t), After(c));
    MapOfConcat(Before(c), Entries(t));
    MapWithin(Before(c), k);
    MapWithin(After(c), k);
  }

  lemma FoundHere(c: Context, t: Tree)
    requires t.Bin? && Sorted(Entries(Plug(c, t)))
    ensures t.cell.key in ToMap(Entries(Plug(c, t))) && ToMap(Entries(Plug(c, t)))[t.cell.key] == t.cell.value
  {
    PlugEntries(c, t);
    MapMembers(Whole(c, t));
    assert Whole(c, t)[|Before(c)| + |Entries(t.left)|] == EntryOf(t.cell);
  }

  /** The entries with and without a new one at a leaf. */
  lemma LeafEntries(c: Context, cell: Cell)
    ensures Entries(Plug(c, Leaf)) == Before(c) + After(c)
    ensures Entries(Plug(c, Bin(Leaf, cell, Leaf))) == Before(c) + [EntryOf(cell)] + After(c)
  {
    PlugEntries(c, Leaf);
    PlugEntries(c, Bin(Leaf, cell, Leaf));
    assert Whole(c, Leaf) == Before(c) + After(c);
    assert Entries(Bin(Leaf, cell, Leaf)) == [EntryOf(cell)];
  }

  lemma LeafNodes(c: Context, cell: Cell)
    ensures Nodes(Plug(c, Bin(Leaf, cell, Leaf))) == Nodes(Plug(c, Leaf)) + {cell.node}
  {
    PlugNodes(c, Leaf);
    PlugNodes(c, Bin(Leaf, cell, Leaf));
  }

  /** Hanging a new entry at the leaf where the search for its key ended. */
  lemma AddAtLeaf(c: Context, cell: Cell)
    requires Sorted(Entries(Plug(c, Leaf))) && Bracketed(c, cell.key)
    ensures var s, s' := Entries(Plug(c, Leaf)), Entries(Plug(c, Bin(Leaf, cell, Leaf)));
            && Sorted(s') && cell.key !in ToMap(s)
            && ToMap(s') == ToMap(s)[cell.key := cell.value]
    ensures Nodes(Plug(c, Bin(Leaf, cell, Leaf))) == Nodes(Plug(c, Leaf)) + {cell.node}
  {
    LeafEntries(c, cell);
    LeafNodes(c, cell);
    SortedAround(Before(c), EntryOf(cell), After(c));
    MapAround(Before(c), EntryOf(cell), After(c));
  }

  // -------------------------------------------------------------- deletion

  /** The loop invariant of rbtree_delete_fixup: the subtree at the focus is one black node short. */
  predicate DeleteInv(c: Context, t: Tree)
  {
    BalancedBelow(t) && BalancedContext(c, BlackHeight(t) + 1)
  }

  /** How many rounds the loop can still take. */
  function Rounds(c: Context, t: Tree): nat
  {
    if IsBlack(t) then Depth(c) else 0
  }

  /** A node one black node short has a sibling. */
  lemma HasSibling(c: Context, t: Tree)
    requires DeleteInv(c, t) && !c.Top?
    ensures Sibling(c).Bin? && Balanced(Sibling(c)) && BlackHeight(Sibling(c)) == BlackHeight(t) + 1
    ensures !IsBlack(Sibling(c)) ==> Sibling(c).left.Bin? && Sibling(c).right.Bin? && c.cell.color.Black?
  {
  }

  lemma RedSiblingLeft(up: Context, t: Tree, cp: Cell, wl: Tree, cw: Cell, wr: Tree)
    requires cw.color.Red? && DeleteInv(LeftOf(up, cp, Bin(wl, cw, wr)), t)
    ensures var c' := LeftOf(LeftOf(up, cw.(color := Black), wr), cp.(color := Red), wl);
            && DeleteInv(c', t) && IsBlack(wl)
            && SameContents(LeftOf(up, cp, Bin(wl, cw, wr)), t, c', t)
  {
    SameRotate(up, t, cp, wl, cw, wr);
    SamePlug(up, Bin(Bin(t, cp, wl), cw, wr), Bin(Bin(t, cp.(color := Red), wl), cw.(color := Black), wr));
  }

  lemma RedSiblingRight(up: Context, t: Tree, cp: Cell, wl: Tree, cw: Cell, wr: Tree)
    requires cw.color.Red? && DeleteInv(RightOf(up, Bin(wl, cw, wr), cp), t)
    ensures var c' := RightOf(RightOf(up, wl, cw.(color := Black)), wr, cp.(color := Red));
            && DeleteInv(c', t) && IsBlack(wr)
            && SameContents(RightOf(up, Bin(wl, cw, wr), cp), t, c', t)
  {
    SameRotate(up, wl, cw, wr, cp, t);
    SamePlug(up, Bin(wl, cw, Bin(wr, cp, t)), Bin(wl, cw.(color := Black), Bin(wr, cp.(color := Red), t)));
  }

  /** Two black nephews: paint the sibling red and pass the missing black node up. */
  function BlackNephews(c: Context, t: Tree): Tree
    requires !c.Top? && Sibling(c).Bin?
  {
    if c.LeftOf? then Bin(t, c.cell, Paint(c.right, Red)) else Bin(Paint(c.left, Red), c.cell, t)
  }

  lemma BlackNephewsKeep(c: Context, t: Tree)
    requires !c.Top? && DeleteInv(c, t) && IsBlack(t)
    requires Sibling(c).Bin? && IsBlack(Sibling(c)) && IsBlack(Sibling(c).left) && IsBlack(Sibling(c).right)
    ensures DeleteInv(c.up, BlackNephews(c, t))
    ensures SameContents(c, t, c.up, BlackNephews(c, t))
  {
    var w := Paint(Sibling(c), Red);
    assert Balanced(w) && BlackHeight(w) == BlackHeight(t);
    assert Entries(w) == Entries(Sibling(c)) && Nodes(w) == Nodes(Sibling(c));
    SamePlug(c.up, Hang(c, t), BlackNephews(c, t));
  }

  /** A sibling after the rotation that takes its red inner child up. */
  function InnerTurnedLeft(wt: Tree): Tree
    requires wt.Bin? && wt.left.Bin?
  {
    Bin(wt.left.left, wt.left.cell.(color := Black), Bin(wt.left.right, wt.cell.(color := Red), wt.right))
  }

  function InnerTurnedRight(wt: Tree): Tree
    requires wt.Bin? && wt.right.Bin?
  {
    Bin(Bin(wt.left, wt.cell.(color := Red), wt.right.left), wt.right.cell.(color := Black), wt.right.right)
  }

  /** Inner nephew red, outer one black: a rotation makes the outer one red. */
  lemma InnerNephewLeft(up: Context, t: Tree, cp: Cell, a: Tree, cn: Cell, b: Tree, cw: Cell, wr: Tree)
    requires cn.color.Red? && cw.color.Black? && IsBlack(wr)
    requires DeleteInv(LeftOf(up, cp, Bin(Bin(a, cn, b), cw, wr)), t)
    ensures var c' := LeftOf(up, cp, Bin(a, cn.(color := Black), Bin(b, cw.(color := Red), wr)));
            && DeleteInv(c', t)
            && SameContents(LeftOf(up, cp, Bin(Bin(a, cn, b), cw, wr)), t, c', t)
  {
    var cs := RightOf(up, t, cp);
    var w' := Bin(a, cn.(color := Black), Bin(b, cw.(color := Red), wr));
    assert Balanced(Bin(Bin(a, cn, b), cw, wr)) && Balanced(Bin(a, cn, b));
    assert Balanced(Bin(b, cw.(color := Red), wr));
    assert Balanced(w') && BlackHeight(w') == BlackHeight(t) + 1;
    SameRotate(cs, a, cn, b, cw, wr);
    SamePlug(cs, Bin(a, cn, Bin(b, cw, wr)), w');
  }

  lemma InnerNephewRight(up: Context, t: Tree, cp: Cell, wl: Tree, cw: Cell, a: Tree, cn: Cell, b: Tree)
    requires cn.color.Red? && cw.color.Black? && IsBlack(wl)
    requires DeleteInv(RightOf(up, Bin(wl, cw, Bin(a, cn, b)), cp), t)
    ensures var c' := RightOf(up, Bin(Bin(wl, cw.(color := Red), a), cn.(color := Black), b), cp);
            && DeleteInv(c', t)
            && SameContents(RightOf(up, Bin(wl, cw, Bin(a, cn, b)), cp), t, c', t)
  {
    var cs := LeftOf(up, cp, t);
    var w' := Bin(Bin(wl, cw.(color := Red), a), cn.(color := Black), b);
    assert Balanced(Bin(wl, cw, Bin(a, cn, b))) && Balanced(Bin(a, cn, b));
    assert Balanced(Bin(wl, cw.(color := Red), a));
    assert Balanced(w') && BlackHeight(w') == BlackHeight(t) + 1;
    SameRotate(cs, wl, cw, a, cn, b);
    SamePlug(cs, Bin(Bin(wl, cw, a), cn, b), w');
  }

  /** Outer nephew red: the last rotation, after which every rule holds again. */
  lemma OuterNephewLeft(up: Context, t: Tree, cp: Cell, wl: Tree, cw: Cell, wr: Tree)
    requires !IsBlack(wr) && cw.color.Black? && IsBlack(t)
    requires DeleteInv(LeftOf(up, cp, Bin(wl, cw, wr)), t)
    ensures var t' := Bin(Bin(t, cp.(color := Black), wl), cw.(color := cp.color), Paint(wr, Black));
            && Balanced(Plug(up, t')) && IsBlack(Plug(up, t'))
            && SameContents(LeftOf(up, cp, Bin(wl, cw, wr)), t, up, t')
  {
    var t' := Bin(Bin(t, cp.(color := Black), wl), cw.(color := cp.color), Paint(wr, Black));
    assert Balanced(Bin(t, cp.(color := Black), wl));
    assert Balanced(Bin(wl, cw, wr)) && Balanced(wr);
    assert Balanced(Paint(wr, Black));
    assert Balanced(t') && BlackHeight(t') == BlackHeight(t) + 1 + Weight(cp.color);
    PlugBalanced(up, t');
    SameRotate(up, t, cp, wl, cw, wr);
    assert Entries(Paint(wr, Black)) == Entries(wr);
    SamePlug(up, Bin(Bin(t, cp, wl), cw, wr), t');
  }

  lemma OuterNephewRight(up: Context, t: Tree, cp: Cell, wl: Tree, cw: Cell, wr: Tree)
    requires !IsBlack(wl) && cw.color.Black? && IsBlack(t)
    requires DeleteInv(RightOf(up, Bin(wl, cw, wr), cp), t)
    ensures var t' := Bin(Paint(wl, Black), cw.(color := cp.color), Bin(wr, cp.(color := Black), t));
            && Balanced(Plug(up, t')) && IsBlack(Plug(up, t'))
            && SameContents(RightOf(up, Bin(wl, cw, wr), cp), t, up, t')
  {
    var t' := Bin(Paint(wl, Black), cw.(color := cp.color), Bin(wr, cp.(color := Black), t));
    assert Balanced(Bin(wr, cp.(color := Black), t));
    assert Balanced(Bin(wl, cw, wr)) && Balanced(wl);
    assert Balanced(Paint(wl, Black));
    assert Balanced(t') && BlackHeight(t') == BlackHeight(t) + 1 + Weight(cp.color);
    PlugBalanced(up, t');
    SameRotate(up, wl, cw, wr, cp, t);
    assert Entries(Paint(wl, Black)) == Entries(wl);
    SamePlug(up, Bin(wl, cw, Bin(wr, cp, t)), t');
  }

  lemma DeleteDone(c: Context, t: Tree)
    requires DeleteInv(c, t) && (c.Top? || !IsBlack(t))
    ensures var w := Plug(c, Blacken(t));
            IsBlack(w) && Balanced(w) && SameContents(c, t, c, Blacken(t))
  {
    if !c.Top? { PlugBalanced(c, Blacken(t)); }
    SamePlug(c, t, Blacken(t));
  }

  // ---------------------------------------- where the deleted node and its successor are

  /** Every node of a tree is the top of some subtree. */
  lemma {:induction false} FindNode(c: Context, t: Tree, n: Node) returns (c': Context, t': Tree)
    requires n in Nodes(t)
    ensures Plug(c', t') == Plug(c, t) && t'.Bin? && t'.cell.node == n
    decreases t
  {
    if t.cell.node == n {
      c', t' := c, t;
    } else if n in Nodes(t.left) {
      c', t' := FindNode(LeftOf(c, t.cell, t.right), t.left, n);
    } else {
      c', t' := FindNode(RightOf(c, t.left, t.cell), t.right, n);
    }
  }

  /** The context `i`, itself placed in the context `o`. */
  function Compose(i: Context, o: Context): Context
  {
    match i
    case Top => o
    case LeftOf(up, cell, r) => LeftOf(Compose(up, o), cell, r)
    case RightOf(up, l, cell) => RightOf(Compose(up, o), l, cell)
  }

  /** The way from a subtree down to its smallest key. */
  predicate AllLeft(i: Context)
  {
    i.Top? || (i.LeftOf? && AllLeft(i.up))
  }

  lemma {:induction false} ComposePlug(i: Context, o: Context, t: Tree)
    ensures Plug(Compose(i, o), t) == Plug(o, Plug(i, t))
    decreases i
  {
    if !i.Top? { ComposePlug(i.up, o, Hang(i, t)); }
  }

  lemma {:induction false} ComposeOrder(i: Context, o: Context, o': Context)
    requires AllLeft(i) && After(o) == After(o')
    ensures Before(Compose(i, o)) == Before(o)
    ensures After(Compose(i, o)) == After(Compose(i, o'))
    decreases i
  {
    if !i.Top? { ComposeOrder(i.up, o, o'); }
  }

  /** Balance does not depend on keys and values. */
  lemma {:induction false} ComposeBalanced(i: Context, up: Context, l: Tree, cell: Cell, e: Entry, h: nat)
    requires BalancedContext(Compose(i, RightOf(up, l, cell)), h)
    ensures BalancedContext(Compose(i, RightOf(up, l, cell.(key := e.key, value := e.value))), h)
    ensures var c := Compose(i, RightOf(up, l, cell));
            var c' := Compose(i, RightOf(up, l, cell.(key := e.key, value := e.value)));
            BlackAbove(c) == BlackAbove(c') && !c.Top? && !c'.Top?
    decreases i
  {
    if !i.Top? { ComposeBalanced(i.up, up, l, cell, e, h + Weight(i.cell.color)); }
  }

  /** The only subtree of a node that lacks a child. */
  function OnlyChild(t: Tree): Tree
    requires t.Bin?
  {
    if t.left.Bin? then t.left else t.right
  }

  predicate LacksChild(t: Tree)
  {
    t.Bin? && (t.left.Leaf? || t.right.Leaf?)
  }

  lemma RemoveHere(c: Context, t: Tree)
    requires LacksChild(t) && Sorted(Entries(Plug(c, t)))
    ensures var s, s' := Entries(Plug(c, t)), Entries(Plug(c, OnlyChild(t)));
            Sorted(s') && ToMap(s') == ToMap(s) - {t.cell.key}
  {
    PlugEntries(c, t);
    PlugEntries(c, OnlyChild(t));
    var a, e, b := Before(c) + Entries(t.left), EntryOf(t.cell), Entries(t.right) + After(c);
    assert Whole(c, t) == a + [e] + b;
    assert Whole(c, OnlyChild(t)) == a + b;
    SortedAround(a, e, b);
    MapAround(a, e, b);
  }

  lemma RegroupEntries<T>(a: seq<T>, e: seq<T>, f: seq<T>, r: seq<T>, z: seq<T>)
    ensures (a + e) + (f + r) + z == a + e + (f + r + z)
    ensures (a + f) + r + z == a + (f + r + z)
  {
    Regroup(a + e, f + r, z);
    Regroup(a, f, r);
    Regroup(a, f + r, z);
  }

  lemma Middle<T>(b: seq<T>, l: seq<T>, e: T, r: seq<T>, a: seq<T>)
    ensures var s, k := b + (l + [e] + r) + a, |b| + |l|;
            s[k] == e && s[k + 1..] == r + a
  {
  }

  /** The node unlinked is the successor, and its entry moves to the node above it. */
  lemma RemoveSuccessor(i: Context, up: Context, l: Tree, cell: Cell, t: Tree)
    requires AllLeft(i) && t.Bin? && t.left.Leaf?
    requires Sorted(Entries(Plug(Compose(i, RightOf(up, l, cell)), t)))
    ensures var s := Entries(Plug(Compose(i, RightOf(up, l, cell)), t));
            var s' := Entries(Plug(Compose(i, RightOf(up, l, cell.(key := t.cell.key, value := t.cell.value))),
              t.right));
            Sorted(s') && ToMap(s') == ToMap(s) - {cell.key}
  {
    var o, o' := RightOf(up, l, cell), RightOf(up, l, cell.(key := t.cell.key, value := t.cell.value));
    ComposeOrder(i, o, o');
    ComposeOrder(i, o', o);
    PlugEntries(Compose(i, o), t);
    PlugEntries(Compose(i, o'), t.right);
    var a, e, z := Before(up) + Entries(l), EntryOf(cell), After(Compose(i, o));
    var b := [EntryOf(t.cell)] + Entries(t.right) + z;
    assert Before(o) == a + [e] && Before(o') == a + [EntryOf(t.cell)];
    assert Entries(t) == [EntryOf(t.cell)] + Entries(t.right);
    RegroupEntries(a, [e], [EntryOf(t.cell)], Entries(t.right), z);
    SortedAround(a, e, b);
    MapAround(a, e, b);
  }

  /** Taking a node with at most one child out of a balanced tree. */
  lemma UnlinkBalance(c: Context, t: Tree)
    requires LacksChild(t) && Balanced(t) && BalancedContext(c, BlackHeight(t))
    ensures t.cell.color.Black? ==> DeleteInv(c, OnlyChild(t))
    ensures t.cell.color.Red? ==> OnlyChild(t).Leaf? && BalancedContext(c, 0)
  {
    assert BlackHeight(t.left) == BlackHeight(t.right) == 0;
  }

  lemma {:induction false} FirstEntry(i: Context, t: Tree)
    requires AllLeft(i) && t.Bin? && t.left.Leaf?
    ensures Entries(Plug(i, t)) != [] && Entries(Plug(i, t))[0] == EntryOf(t.cell)
  {
    PlugEntries(i, t);
    ComposeOrder(i, Top, Top);
    ComposeTop(i);
    assert Before(i) == [] && Entries(t)[0] == EntryOf(t.cell);
  }

  /** What comes at and after the node at the focus, in order. */
  lemma NextEntries(c: Context, t: Tree)
    requires t.Bin?
    ensures var k, s := |Before(c)| + |Entries(t.left)|, Entries(Plug(c, t));
            k < |s| && s[k] == EntryOf(t.cell) && s[k + 1..] == Entries(t.right) + After(c)
  {
    PlugEntries(c, t);
    Middle(Before(c), Entries(t.left), EntryOf(t.cell), Entries(t.right), After(c));
  }

  lemma {:induction false} ComposeTop(i: Context)
    ensures Compose(i, Top) == i
  {
    if !i.Top? { ComposeTop(i.up); }
  }

  /** With the node at the focus of `was` gone, `now` is what is left, and only the fixup is missing. */
  predicate ReadyToFix(was: Tree, now: Context, x: Tree, color: Color, key: int)
  {
    && Sorted(Entries(Plug(now, x))) && ToMap(Entries(Plug(now, x))) == ToMap(Entries(was)) - {key}
    && (color.Black? ==> DeleteInv(now, x))
    && (color.Red? ==> IsBlack(Plug(now, x)) && Balanced(Plug(now, x)))
  }

  lemma ReadyHere(c: Context, t: Tree)
    requires LacksChild(t) && RedBlack(Plug(c, t))
    ensures ReadyToFix(Plug(c, t), c, OnlyChild(t), t.cell.color, t.cell.key)
  {
    RemoveHere(c, t);
    UnplugBalanced(c, t);
    UnlinkBalance(c, t);
    if t.cell.color.Red? { PlugBalanced(c, Leaf); }
  }

  lemma ReadySuccessor(i: Context, up: Context, l: Tree, cell: Cell, t: Tree)
    requires AllLeft(i) && t.Bin? && t.left.Leaf? && RedBlack(Plug(Compose(i, RightOf(up, l, cell)), t))
    ensures ReadyToFix(Plug(Compose(i, RightOf(up, l, cell)), t),
                       Compose(i, RightOf(up, l, cell.(key := t.cell.key, value := t.cell.value))),
                       OnlyChild(t), t.cell.color, cell.key)
  {
    var c := Compose(i, RightOf(up, l, cell));
    var c' := Compose(i, RightOf(up, l, cell.(key := t.cell.key, value := t.cell.value)));
    RemoveSuccessor(i, up, l, cell, t);
    UnplugBalanced(c, t);
    ComposeBalanced(i, up, l, cell, EntryOf(t.cell), BlackHeight(t));
    UnlinkBalance(c', t);
    if t.cell.color.Red? { PlugBalanced(c', Leaf); }
  }

  lemma {:induction false} RekeyNodes(i: Context, up: Context, l: Tree, cell: Cell, e: Entry, t: Tree)
    ensures Nodes(Plug(Compose(i, RightOf(up, l, cell.(key := e.key, value := e.value))), t))
         == Nodes(Plug(Compose(i, RightOf(up, l, cell)), t))
  {
    var cell' := cell.(key := e.key, value := e.value);
    ComposePlug(i, RightOf(up, l, cell), t);
    ComposePlug(i, RightOf(up, l, cell'), t);
    PlugNodes(up, Bin(l, cell, Plug(i, t)));
    PlugNodes(up, Bin(l, cell', Plug(i, t)));
  }

  lemma UnlinkNodes(c: Context, t: Tree)
    requires LacksChild(t) && Distinct(t) && t.cell.node !in ContextNodes(c)
    ensures Nodes(Plug(c, OnlyChild(t))) == Nodes(Plug(c, t)) - {t.cell.node}
  {
    PlugNodes(c, t);
    PlugNodes(c, OnlyChild(t));
  }
}

/**
 How the nodes of linuxdemo/rbtree.c are linked in memory: with parent links, and with
 one shared sentinel `nil` that stands for every missing child and for the parent of
 the root.
 */
module RedBlackMemory {
  import opened RedBlackSpec

  /** All fields of one node, and of a set of nodes, at one moment. */
  datatype Fields = Fields(color: Color, left: Node, right: Node, parent: Node, key: int, value: Value)
  type Memory = map<Node, Fields>

  ghost function FieldsOf(n: Node): Fields
    reads n
  {
    Fields(n.color, n.left, n.right, n.parent, n.key, n.value)
  }

  ghost function Snapshot(nodes: set<Node>): (m: Memory)
    reads nodes
    ensures m.Keys == nodes
  {
    map n | n in nodes :: FieldsOf(n)
  }

  /** The node at the top of a subtree. */
  function TopNode(t: Tree, nil: Node): Node
  {
    if t.Leaf? then nil else t.cell.node
  }

  function ParentNode(c: Context, nil: Node): Node
  {
    if c.Top? then nil else c.cell.node
  }

  /** The node of `cell` holds the cell, with these links. */
  predicate Linked(m: Memory, cell: Cell, left: Node, right: Node, parent: Node)
  {
    cell.node in m && m[cell.node] == Fields(cell.color, left, right, parent, cell.key, cell.value)
  }

  /** The memory below parent `p` is exactly the tree `t`. */
  predicate Tied(m: Memory, t: Tree, p: Node, nil: Node)
  {
    match t
    case Leaf => true
    case Bin(l, cell, r) =>
      && Linked(m, cell, TopNode(l, nil), TopNode(r, nil), p)
      && Tied(m, l, cell.node, nil) && Tied(m, r, cell.node, nil)
  }

  /** The memory around the subtree at `hole` is exactly the context `c`. */
  predicate TiedContext(m: Memory, c: Context, hole: Node, root: Node, nil: Node)
  {
    match c
    case Top => root == hole
    case LeftOf(up, cell, r) =>
      && Linked(m, cell, hole, TopNode(r, nil), ParentNode(up, nil))
      && Tied(m, r, cell.node, nil)
      && TiedContext(m, up, cell.node, root, nil)
    case RightOf(up, l, cell) =>
      && Linked(m, cell, TopNode(l, nil), hole, ParentNode(up, nil))
      && Tied(m, l, cell.node, nil)
      && TiedContext(m, up, cell.node, root, nil)
  }

  predicate Separate(c: Context, t: Tree, nil: Node)
  {
    && Distinct(t) && DistinctContext(c) && Nodes(t) !! ContextNodes(c)
    && nil !in Nodes(t) && nil !in ContextNodes(c)
  }

  /** The memory is the tree `t` in the context `c`. */
  predicate Shape(m: Memory, c: Context, t: Tree, root: Node, nil: Node)
  {
    && Separate(c, t, nil)
    && TiedContext(m, c, TopNode(t, nil), root, nil)
    && Tied(m, t, ParentNode(c, nil), nil)
  }

  predicate Agree(m: Memory, m': Memory, nodes: set<Node>)
  {
    forall n :: n in nodes && n in m ==> n in m' && m'[n] == m[n]
  }

  lemma {:induction false} TiedFrame(m: Memory, m': Memory, t: Tree, p: Node, nil: Node)
    requires Tied(m, t, p, nil) && Agree(m, m', Nodes(t))
    ensures Tied(m', t, p, nil)
  {
    if t.Bin? {
      TiedFrame(m, m', t.left, t.cell.node, nil);
      TiedFrame(m, m', t.right, t.cell.node, nil);
    }
  }

  lemma {:induction false} ContextFrame(m: Memory, m': Memory, c: Context, hole: Node, root: Node, nil: Node)
    requires TiedContext(m, c, hole, root, nil) && Agree(m, m', ContextNodes(c))
    ensures TiedContext(m', c, hole, root, nil)
  {
    match c
    case Top =>
    case LeftOf(up, cell, r) =>
      TiedFrame(m, m', r, cell.node, nil);
      ContextFrame(m, m', up, cell.node, root, nil);
    case RightOf(up, l, cell) =>
      TiedFrame(m, m', l, cell.node, nil);
      ContextFrame(m, m', up, cell.node, root, nil);
  }

  /** One level up is another view of the same memory. */
  lemma Zoom(m: Memory, c: Context, t: Tree, root: Node, nil: Node)
    requires !c.Top?
    ensures Shape(m, c, t, root, nil) <==> Shape(m, c.up, Hang(c, t), root, nil)
  {
  }

  lemma {:induction false} ZoomOut(m: Memory, c: Context, t: Tree, root: Node, nil: Node)
    ensures Shape(m, Top, Plug(c, t), root, nil) <==> Shape(m, c, t, root, nil)
    decreases c
  {
    if !c.Top? {
      Zoom(m, c, t, root, nil);
      ZoomOut(m, c.up, Hang(c, t), root, nil);
    }
  }

  // ------------------------------------------------- single steps on memory

  /** The link from above to `hole` now leads to `hole'`. */
  function Relinked(m: Memory, c: Context, hole': Node): Memory
    requires !c.Top? ==> c.cell.node in m
  {
    match c
    case Top => m
    case LeftOf(_, cell, _) => m[cell.node := m[cell.node].(left := hole')]
    case RightOf(_, _, cell) => m[cell.node := m[cell.node].(right := hole')]
  }

  lemma Relink(m: Memory, c: Context, hole: Node, hole': Node, root: Node, nil: Node)
    requires TiedContext(m, c, hole, root, nil) && DistinctContext(c)
    ensures TiedContext(Relinked(m, c, hole'), c, hole', if c.Top? then hole' else root, nil)
  {
    var m' := Relinked(m, c, hole');
    match c
    case Top =>
    case LeftOf(up, cell, r) =>
      TiedFrame(m, m', r, cell.node, nil);
      ContextFrame(m, m', up, cell.node, root, nil);
    case RightOf(up, l, cell) =>
      TiedFrame(m, m', l, cell.node, nil);
      ContextFrame(m, m', up, cell.node, root, nil);
  }

  function Reparented(m: Memory, t: Tree, p: Node): Memory
    requires t.Bin? ==> t.cell.node in m
  {
    if t.Leaf? then m else m[t.cell.node := m[t.cell.node].(parent := p)]
  }

  lemma Reparent(m: Memory, t: Tree, p: Node, q: Node, nil: Node)
    requires Tied(m, t, p, nil) && Distinct(t)
    ensures Tied(Reparented(m, t, q), t, q, nil)
  {
    if t.Bin? {
      TiedFrame(m, Reparented(m, t, q), t.left, t.cell.node, nil);
      TiedFrame(m, Reparented(m, t, q), t.right, t.cell.node, nil);
    }
  }

  /** Painting the node at the focus. */
  lemma PaintShape(m: Memory, c: Context, t: Tree, color: Color, root: Node, nil: Node)
    requires Shape(m, c, t, root, nil) && t.Bin?
    ensures t.cell.node in m
    ensures Shape(m[t.cell.node := m[t.cell.node].(color := color)], c, Paint(t, color), root, nil)
  {
    var m' := m[t.cell.node := m[t.cell.node].(color := color)];
    TiedFrame(m, m', t.left, t.cell.node, nil);
    TiedFrame(m, m', t.right, t.cell.node, nil);
    ContextFrame(m, m', c, t.cell.node, root, nil);
  }

  // ------------------------------------------------------------ rotations

  /** The upper node `x`, the lower node `y` and the subtree that changes sides are distinct nodes. */
  predicate CanRotate(m: Memory, x: Node, y: Node, b: Node, p: Node, nil: Node)
  {
    && nil in m && x in m && y in m && b in m && p in m
    && x != nil && y != nil && y != x && p != x && p != y
    && b != x && b != y && (b != nil ==> b != p)
  }

  predicate CanRotateLeft(m: Memory, x: Node, nil: Node)
  {
    x in m && m[x].right in m && CanRotate(m, x, m[x].right, m[m[x].right].left, m[x].parent, nil)
  }

  predicate CanRotateRight(m: Memory, y: Node, nil: Node)
  {
    y in m && m[y].left in m && CanRotate(m, y, m[y].left, m[m[y].left].right, m[y].parent, nil)
  }

  /** In `m'`, `b` is a child of `down`; only `down`, `up`, `b` and `p` differ from `m`. */
  predicate Turned(m: Memory, m': Memory, down: Node, up: Node, b: Node, p: Node, nil: Node)
    requires CanRotate(m, down, up, b, p, nil)
  {
    && m'.Keys == m.Keys
    && (b != nil ==> m'[b] == m[b].(parent := down))
    && forall n :: n in m && n != down && n != up && (n == nil || (n != b && n != p)) ==> m'[n] == m[n]
  }

  /** What rbtree_left_rotate does to memory. */
  predicate LeftTurned(m: Memory, m': Memory, x: Node, nil: Node)
    requires CanRotateLeft(m, x, nil)
  {
    var y, p := m[x].right, m[x].parent;
    var b := m[y].left;
    && Turned(m, m', x, y, b, p, nil)
    && m'[x] == m[x].(right := b, parent := y)
    && m'[y] == m[y].(left := x, parent := p)
    && (p != nil ==> m'[p] == if m[p].left == x then m[p].(left := y) else m[p].(right := y))
  }

  /** What rbtree_right_rotate does to memory. */
  predicate RightTurned(m: Memory, m': Memory, y: Node, nil: Node)
    requires CanRotateRight(m, y, nil)
  {
    var x, p := m[y].left, m[y].parent;
    var b := m[x].right;
    && Turned(m, m', y, x, b, p, nil)
    && m'[y] == m[y].(left := b, parent := x)
    && m'[x] == m[x].(right := y, parent := p)
    && (p != nil ==> m'[p] == if m[p].right == y then m[p].(right := x) else m[p].(left := x))
  }

  /** The pieces around two adjacent nodes do not overlap. */
  predicate Apart(c: Context, a: Tree, x: Node, b: Tree, y: Node, d: Tree, nil: Node)
  {
    && DistinctContext(c) && Distinct(a) && Distinct(b) && Distinct(d)
    && x != y && x != nil && y != nil
    && {x, y, nil} !! ContextNodes(c) && {x, y, nil} !! Nodes(a) && {x, y, nil} !! Nodes(b) && {x, y, nil} !! Nodes(d)
    && ContextNodes(c) !! Nodes(a) && ContextNodes(c) !! Nodes(b) && ContextNodes(c) !! Nodes(d)
    && Nodes(a) !! Nodes(b) && Nodes(a) !! Nodes(d) && Nodes(b) !! Nodes(d)
  }

  lemma ApartLow(c: Context, a: Tree, cx: Cell, b: Tree, cy: Cell, d: Tree, nil: Node)
    ensures Separate(c, Bin(a, cx, Bin(b, cy, d)), nil) <==> Apart(c, a, cx.node, b, cy.node, d, nil)
  {
    assert Nodes(Bin(b, cy, d)) == Nodes(b) + {cy.node} + Nodes(d);
    assert Distinct(Bin(a, cx, Bin(b, cy, d))) <==>
      && Distinct(a) && Distinct(Bin(b, cy, d))
      && cx.node !in Nodes(a) && cx.node !in Nodes(Bin(b, cy, d))
      && Nodes(a) !! Nodes(Bin(b, cy, d));
  }

  lemma ApartHigh(c: Context, a: Tree, cx: Cell, b: Tree, cy: Cell, d: Tree, nil: Node)
    ensures Separate(c, Bin(Bin(a, cx, b), cy, d), nil) <==> Apart(c, a, cx.node, b, cy.node, d, nil)
  {
    assert Nodes(Bin(a, cx, b)) == Nodes(a) + {cx.node} + Nodes(b);
    assert Distinct(Bin(Bin(a, cx, b), cy, d)) <==>
      && Distinct(d) && Distinct(Bin(a, cx, b))
      && cy.node !in Nodes(d) && cy.node !in Nodes(Bin(a, cx, b))
      && Nodes(Bin(a, cx, b)) !! Nodes(d);
  }

  /** The link down to a node, seen from its parent. */
  lemma LinkFromAbove(m: Memory, c: Context, hole: Node, root: Node, nil: Node)
    requires TiedContext(m, c, hole, root, nil)
    requires DistinctContext(c) && nil !in ContextNodes(c) && hole !in ContextNodes(c) && hole != nil
    ensures c.Top? <==> ParentNode(c, nil) == nil
    ensures !c.Top? ==>
              && c.cell.node in m && c.cell.node in ContextNodes(c)
              && (c.LeftOf? <==> m[c.cell.node].left == hole)
              && (c.RightOf? <==> m[c.cell.node].right == hole)
  {
  }

  /** The pieces of the tree survive a rotation that moves `b` from `up` to `down`. */
  lemma TurnedParts(
    m: Memory, m': Memory, c: Context, a: Tree, b: Tree, d: Tree, down: Node, up: Node, x: Node, y: Node, root: Node,
    nil: Node)
    requires {x, y} == {down, up} && Apart(c, a, x, b, y, d, nil)
    requires CanRotate(m, down, up, TopNode(b, nil), ParentNode(c, nil), nil)
    requires Turned(m, m', down, up, TopNode(b, nil), ParentNode(c, nil), nil)
    requires TiedContext(m, c, down, root, nil)
    requires !c.Top? ==> m'[c.cell.node] == Relinked(m, c, up)[c.cell.node]
    requires Tied(m, a, x, nil) && Tied(m, b, up, nil) && Tied(m, d, y, nil)
    ensures TiedContext(m', c, up, if c.Top? then up else root, nil)
    ensures Tied(m', a, x, nil) && Tied(m', b, down, nil) && Tied(m', d, y, nil)
  {
    LinkFromAbove(m, c, down, root, nil);
    assert b.Bin? ==> b.cell.node in Nodes(b);
    TiedFrame(m, m', a, x, nil);
    TiedFrame(m, m', d, y, nil);
    Reparent(m, b, up, down, nil);
    TiedFrame(Reparented(m, b, down), m', b, down, nil);
    Relink(m, c, down, up, root, nil);
    ContextFrame(Relinked(m, c, up), m', c, up, if c.Top? then up else root, nil);
  }

  lemma CanLeft(m: Memory, c: Context, a: Tree, cx: Cell, b: Tree, cy: Cell, d: Tree, root: Node, nil: Node)
    requires nil in m && Shape(m, c, Bin(a, cx, Bin(b, cy, d)), root, nil)
    ensures CanRotateLeft(m, cx.node, nil)
    ensures m[cx.node].right == cy.node && m[cx.node].parent == ParentNode(c, nil) && m[cy.node].left == TopNode(b, nil)
    ensures c.Top? <==> m[cx.node].parent == nil
  {
    ApartLow(c, a, cx, b, cy, d, nil);
    LinkFromAbove(m, c, cx.node, root, nil);
    assert Tied(m, Bin(b, cy, d), cx.node, nil) && Tied(m, b, cy.node, nil);
    assert b.Bin? ==> b.cell.node in Nodes(b);
  }

  lemma CanRight(m: Memory, c: Context, a: Tree, cx: Cell, b: Tree, cy: Cell, d: Tree, root: Node, nil: Node)
    requires nil in m && Shape(m, c, Bin(Bin(a, cx, b), cy, d), root, nil)
    ensures CanRotateRight(m, cy.node, nil)
    ensures m[cy.node].left == cx.node && m[cy.node].parent == ParentNode(c, nil) && m[cx.node].right == TopNode(b, nil)
    ensures c.Top? <==> m[cy.node].parent == nil
  {
    ApartHigh(c, a, cx, b, cy, d, nil);
    LinkFromAbove(m, c, cy.node, root, nil);
    assert Tied(m, Bin(a, cx, b), cy.node, nil) && Tied(m, b, cx.node, nil);
    assert b.Bin? ==> b.cell.node in Nodes(b);
  }

  /** rbtree_left_rotate turns the subtree at `x`, and nothing around it. */
  lemma LeftRotation(
    m: Memory, m': Memory, c: Context, a: Tree, cx: Cell, b: Tree, cy: Cell, d: Tree, root: Node, nil: Node)
    requires nil in m && Shape(m, c, Bin(a, cx, Bin(b, cy, d)), root, nil)
    requires CanRotateLeft(m, cx.node, nil) && LeftTurned(m, m', cx.node, nil)
    ensures Shape(m', c, Bin(Bin(a, cx, b), cy, d), if c.Top? then cy.node else root, nil)
  {
    CanLeft(m, c, a, cx, b, cy, d, root, nil);
    ApartLow(c, a, cx, b, cy, d, nil);
    ApartHigh(c, a, cx, b, cy, d, nil);
    assert Tied(m, Bin(b, cy, d), cx.node, nil);
    LinkFromAbove(m, c, cx.node, root, nil);
    TurnedParts(m, m', c, a, b, d, cx.node, cy.node, cx.node, cy.node, root, nil);
    assert Tied(m', Bin(a, cx, b), cy.node, nil);
  }

  lemma RightRotation(
    m: Memory, m': Memory, c: Context, a: Tree, cx: Cell, b: Tree, cy: Cell, d: Tree, root: Node, nil: Node)
    requires nil in m && Shape(m, c, Bin(Bin(a, cx, b), cy, d), root, nil)
    requires CanRotateRight(m, cy.node, nil) && RightTurned(m, m', cy.node, nil)
    ensures Shape(m', c, Bin(a, cx, Bin(b, cy, d)), if c.Top? then cx.node else root, nil)
  {
    CanRight(m, c, a, cx, b, cy, d, root, nil);
    ApartLow(c, a, cx, b, cy, d, nil);
    ApartHigh(c, a, cx, b, cy, d, nil);
    assert Tied(m, Bin(a, cx, b), cy.node, nil);
    LinkFromAbove(m, c, cy.node, root, nil);
    TurnedParts(m, m', c, a, b, d, cy.node, cx.node, cx.node, cy.node, root, nil);
    assert Tied(m', Bin(b, cy, d), cx.node, nil);
  }

  // ------------------------------------------------------ adding and removing

  /** What rbtree_insert does to memory before it calls the fixup: `z` becomes a child of `y`. */
  predicate Attached(m: Memory, m': Memory, z: Node, y: Node, key: int, value: Value, nil: Node)
    requires y in m
  {
    && m'.Keys == m.Keys + {z}
    && m'[z] == Fields(Red, nil, nil, y, key, value)
    && (y != nil ==> m'[y] == if key < m[y].key then m[y].(left := z) else m[y].(right := z))
    && forall n :: n in m && (n == nil || n != y) ==> m'[n] == m[n]
  }

  lemma AttachShape(m: Memory, m': Memory, c: Context, z: Node, key: int, value: Value, root: Node, nil: Node)
    requires Shape(m, c, Leaf, root, nil) && z !in m && nil in m && Bracketed(c, key) && ParentNode(c, nil) in m
    requires Attached(m, m', z, ParentNode(c, nil), key, value, nil)
    ensures Shape(m', c, Bin(Leaf, Cell(z, Red, key, value), Leaf), if c.Top? then z else root, nil)
  {
    NodesStored(m, c, nil, root, nil);
    Relink(m, c, nil, z, root, nil);
    if !c.Top? { BracketedSide(c, key); }
    ContextFrame(Relinked(m, c, z), m', c, z, if c.Top? then z else root, nil);
  }

  lemma {:induction false} TreeStored(m: Memory, t: Tree, p: Node, nil: Node)
    requires Tied(m, t, p, nil)
    ensures Nodes(t) <= m.Keys
  {
    if t.Bin? {
      TreeStored(m, t.left, t.cell.node, nil);
      TreeStored(m, t.right, t.cell.node, nil);
    }
  }

  lemma {:induction false} NodesStored(m: Memory, c: Context, hole: Node, root: Node, nil: Node)
    requires TiedContext(m, c, hole, root, nil)
    ensures ContextNodes(c) <= m.Keys
  {
    if !c.Top? {
      TreeStored(m, Sibling(c), c.cell.node, nil);
      NodesStored(m, c.up, c.cell.node, root, nil);
    }
  }

  lemma {:induction false} RootInContext(m: Memory, c: Context, hole: Node, root: Node, nil: Node)
    requires TiedContext(m, c, hole, root, nil)
    ensures if c.Top? then root == hole else root in ContextNodes(c)
  {
    if !c.Top? { RootInContext(m, c.up, c.cell.node, root, nil); }
  }

  lemma {:induction false} ComposeShape(m: Memory, i: Context, o: Context, t: Tree, root: Node, nil: Node)
    ensures Shape(m, Compose(i, o), t, root, nil) <==> Shape(m, o, Plug(i, t), root, nil)
    decreases i
  {
    if !i.Top? {
      Zoom(m, Compose(i, o), t, root, nil);
      ComposeShape(m, i.up, o, Hang(i, t), root, nil);
    }
  }

  /** What unlinking `y` does to memory: its child `x`, possibly `nil`, comes below its parent `p`. */
  predicate Unlinked(m: Memory, m': Memory, y: Node, x: Node, p: Node, nil: Node)
    requires x in m && p in m
  {
    && m'.Keys == m.Keys - {y}
    && x in m' && m'[x] == m[x].(parent := p)
    && (p != nil ==> p in m' && m'[p] == if m[p].left == y then m[p].(left := x) else m[p].(right := x))
    && forall n :: n in m' && n != x && (n == nil || n != p) ==> m'[n] == m[n]
  }

  lemma UnlinkShape(m: Memory, m': Memory, c: Context, t: Tree, root: Node, nil: Node)
    requires Shape(m, c, t, root, nil) && LacksChild(t) && nil in m
    requires TopNode(OnlyChild(t), nil) in m && ParentNode(c, nil) in m
    requires Unlinked(m, m', t.cell.node, TopNode(OnlyChild(t), nil), ParentNode(c, nil), nil)
    ensures Shape(m', c, OnlyChild(t), if c.Top? then TopNode(OnlyChild(t), nil) else root, nil)
    ensures nil in m' && m'[nil].color == m[nil].color
    ensures OnlyChild(t).Leaf? ==> m'[nil].parent == ParentNode(c, nil)
  {
    var y, x := t.cell.node, OnlyChild(t);
    assert x.Bin? ==> x.cell.node in Nodes(x);
    assert Separate(c, x, nil) && y !in Nodes(x) && y !in ContextNodes(c);
    LinkFromAbove(m, c, y, root, nil);
    NodesStored(m, c, y, root, nil);
    TreeStored(m, x, y, nil);
    Reparent(m, x, y, ParentNode(c, nil), nil);
    TiedFrame(Reparented(m, x, ParentNode(c, nil)), m', x, ParentNode(c, nil), nil);
    Relink(m, c, y, TopNode(x, nil), root, nil);
    var hole := TopNode(x, nil);
    ContextFrame(Relinked(m, c, hole), m', c, hole, if c.Top? then hole else root, nil);
  }

  /** Giving the node at the focus another key and value. */
  lemma RekeyShape(m: Memory, c: Context, t: Tree, key: int, value: Value, root: Node, nil: Node)
    requires Shape(m, c, t, root, nil) && t.Bin?
    ensures t.cell.node in m
    ensures Shape(m[t.cell.node := m[t.cell.node].(key := key, value := value)],
                  c, t.(cell := t.cell.(key := key, value := value)), root, nil)
  {
    var m' := m[t.cell.node := m[t.cell.node].(key := key, value := value)];
    TiedFrame(m, m', t.left, t.cell.node, nil);
    TiedFrame(m, m', t.right, t.cell.node, nil);
    ContextFrame(m, m', c, t.cell.node, root, nil);
  }
}

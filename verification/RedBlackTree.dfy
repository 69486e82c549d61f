/**
 The operations of linuxdemo/rbtree.c, on the heap.
 */
module RedBlackTree {
  import opened RedBlackSpec
  import opened RedBlackMemory

  class RBTree {
    var root: Node
    const nil: Node
    ghost var tree: Tree
    ghost var nodes: set<Node>

    ghost predicate At(c: Context, t: Tree)
      reads `root, `nodes, nodes
    {
      nil in nodes && Shape(Snapshot(nodes), c, t, root, nil)
    }

    ghost predicate Valid()
      reads this, nodes
    {
      nil in nodes && nodes == Nodes(tree) + {nil} && nil.color == Black && At(Top, tree) && RedBlack(tree)
    }

    ghost function Contents(): map<int, Value>
      reads `tree
    {
      ToMap(Entries(tree))
    }

    constructor ()
      ensures Valid() && Contents() == map[]
      ensures fresh(nodes)
    {
      var sentinel := new Node(0, 0);
      sentinel.color := Black;
      root, nil := sentinel, sentinel;
      tree, nodes := Leaf, {sentinel};
    }

    method LeftRotate(x: Node)
      requires CanRotateLeft(Snapshot(nodes), x, nil)
      modifies `root, nodes - {nil}
      ensures LeftTurned(old(Snapshot(nodes)), Snapshot(nodes), x, nil)
      ensures root == if old(x.parent) == nil then old(x.right) else old(root)
    {
      var y := x.right;

      x.right := y.left;
      if y.left != nil {
        y.left.parent := x;
      }

      y.parent := x.parent;
      if x.parent == nil {
        root := y;
      } else if x == x.parent.left {
        x.parent.left := y;
      } else {
        x.parent.right := y;
      }

      y.left := x;
      x.parent := y;
    }

    method RightRotate(y: Node)
      requires CanRotateRight(Snapshot(nodes), y, nil)
      modifies `root, nodes - {nil}
      ensures RightTurned(old(Snapshot(nodes)), Snapshot(nodes), y, nil)
      ensures root == if old(y.parent) == nil then old(y.left) else old(root)
    {
      var x := y.left;

      y.left := x.right;
      if x.right != nil {
        x.right.parent := y;
      }

      x.parent := y.parent;
      if y.parent == nil {
        root := x;
      } else if y == y.parent.right {
        y.parent.right := x;
      } else {
        y.parent.left := x;
      }

      x.right := y;
      y.parent := x;
    }

    method LeftRotateAt(
      x: Node, ghost c: Context, ghost a: Tree, ghost cx: Cell, ghost b: Tree, ghost cy: Cell, ghost d: Tree)
      requires At(c, Bin(a, cx, Bin(b, cy, d))) && x == cx.node
      modifies `root, nodes - {nil}
      ensures At(c, Bin(Bin(a, cx, b), cy, d))
    {
      ghost var m := Snapshot(nodes);
      CanLeft(m, c, a, cx, b, cy, d, root, nil);
      ghost var r := root;
      LeftRotate(x);
      LeftRotation(m, Snapshot(nodes), c, a, cx, b, cy, d, r, nil);
    }

    method RightRotateAt(
      y: Node, ghost c: Context, ghost a: Tree, ghost cx: Cell, ghost b: Tree, ghost cy: Cell, ghost d: Tree)
      requires At(c, Bin(Bin(a, cx, b), cy, d)) && y == cy.node
      modifies `root, nodes - {nil}
      ensures At(c, Bin(a, cx, Bin(b, cy, d)))
    {
      ghost var m := Snapshot(nodes);
      CanRight(m, c, a, cx, b, cy, d, root, nil);
      ghost var r := root;
      RightRotate(y);
      RightRotation(m, Snapshot(nodes), c, a, cx, b, cy, d, r, nil);
    }

    /** What the fields of the node at the focus are. */
    lemma Look(c: Context, t: Tree)
      requires At(c, t) && t.Bin?
      ensures t.cell.node in nodes && t.cell.node != nil
      ensures FieldsOf(t.cell.node)
           == Fields(t.cell.color, TopNode(t.left, nil), TopNode(t.right, nil), ParentNode(c, nil), t.cell.key,
             t.cell.value)
    {
      assert Snapshot(nodes)[t.cell.node] == FieldsOf(t.cell.node);
    }

    /** The same about the node above the focus. */
    lemma LookUp(c: Context, t: Tree)
      requires At(c, t) && !c.Top?
      ensures At(c.up, Hang(c, t))
      ensures c.cell.node in nodes && c.cell.node != nil && (t.Bin? ==> t.cell.node != c.cell.node)
      ensures c.cell.node.color == c.cell.color && c.cell.node.parent == ParentNode(c.up, nil)
      ensures c.LeftOf? ==> c.cell.node.left == TopNode(t, nil) && c.cell.node.right == TopNode(c.right, nil)
      ensures c.RightOf? ==> c.cell.node.right == TopNode(t, nil) && c.cell.node.left == TopNode(c.left, nil)
      ensures t.Bin? && Sibling(c).Bin? ==> t.cell.node != Sibling(c).cell.node
    {
      Zoom(Snapshot(nodes), c, t, root, nil);
      Look(c.up, Hang(c, t));
      assert t.Bin? ==> t.cell.node in Nodes(t);
      assert Sibling(c).Bin? ==> Sibling(c).cell.node in Nodes(Sibling(c));
    }

    /** The color of the sibling, which may be `nil`. */
    lemma LookAcross(c: Context, t: Tree)
      requires At(c, t) && !c.Top? && nil.color == Black
      ensures TopNode(Sibling(c), nil) in nodes
      ensures TopNode(Sibling(c), nil).color == Red <==> !IsBlack(Sibling(c))
    {
      var s := Sibling(c);
      if s.Bin? {
        var cs := if c.LeftOf? then RightOf(c.up, t, c.cell) else LeftOf(c.up, c.cell, t);
        LookUp(c, t);
        assert Hang(cs, s) == Hang(c, t);
        Zoom(Snapshot(nodes), cs, s, root, nil);
        Look(cs, s);
      }
    }

    lemma ParentColor(c: Context, t: Tree)
      requires At(c, t) && t.Bin? && nil.color == Black
      ensures t.cell.node in nodes && t.cell.node.parent in nodes
      ensures t.cell.node.parent.color == Red <==> RedParent(c)
    {
      Look(c, t);
      if !c.Top? { LookUp(c, t); }
    }

    /** `node->color = color` */
    method Recolor(node: Node, color: Color, ghost c: Context, ghost t: Tree)
      requires At(c, t) && t.Bin? && node == t.cell.node
      modifies node`color
      ensures At(c, Paint(t, color))
    {
      Look(c, t);
      ghost var m := Snapshot(nodes);
      PaintShape(m, c, t, color, root, nil);
      node.color := color;
      assert Snapshot(nodes) == m[node := m[node].(color := color)];
    }

    /** Both branches of rbtree_insert_fixup with a red uncle `y`. */
    method InsertUncleRed(z: Node, y: Node, ghost c: Context, ghost t: Tree) returns (z': Node)
      requires At(c, t) && InsertInv(c, t) && RedParent(c) && z == t.cell.node
      requires !IsBlack(Sibling(c.up)) && y == Sibling(c.up).cell.node
      modifies nodes - {nil}
      ensures At(c.up.up, UncleRed(c, t)) && z' == UncleRed(c, t).cell.node
    {
      ghost var p, u, up := Hang(c, t), Sibling(c.up), c.up.up;
      Look(c, t);
      LookUp(c, t);
      Recolor(z.parent, Black, c.up, p);
      p := Paint(p, Black);
      LookUp(c.up, p);
      ghost var cu := if c.up.LeftOf? then RightOf(up, p, c.up.cell) else LeftOf(up, c.up.cell, p);
      assert Hang(cu, u) == Hang(c.up, p);
      Zoom(Snapshot(nodes), cu, u, root, nil);
      Recolor(y, Black, cu, u);
      u := Paint(u, Black);
      Zoom(Snapshot(nodes), cu, u, root, nil);
      Look(up, Hang(cu, u));
      assert z.parent.parent == c.up.cell.node;
      z' := z.parent.parent;
      Recolor(z', Red, up, Hang(cu, u));
    }

    /** The last three lines of that branch: the focus is an outer grandchild. */
    method InsertOuterLeft(z: Node, ghost c: Context, ghost t: Tree) returns (ghost c': Context)
      requires At(c, t) && InsertInv(c, t) && RedParent(c) && z == t.cell.node
      requires c.LeftOf? && c.up.LeftOf? && IsBlack(c.up.right)
      modifies `root, nodes - {nil}
      ensures At(c', t) && InsertInv(c', t) && BlackAbove(c')
      ensures SameContents(c, t, c', t) && Depth(c') < Depth(c)
    {
      ghost var up, cp, cg, s, u := c.up.up, c.cell, c.up.cell, c.right, c.up.right;
      Look(c, t);
      LookUp(c, t);
      Recolor(z.parent, Black, c.up, Hang(c, t));
      cp := cp.(color := Black);
      LookUp(c.up, Bin(t, cp, s));
      Recolor(z.parent.parent, Red, up, Bin(Bin(t, cp, s), cg, u));
      cg := cg.(color := Red);
      RightRotateAt(z.parent.parent, up, t, cp, s, cg, u);
      c' := LeftOf(up, cp, Bin(s, cg, u));
      Zoom(Snapshot(nodes), c', t, root, nil);
      OuterBalanceLeft(up, t, c.cell, s, c.up.cell, u);
      OuterSameLeft(up, t, c.cell, s, c.up.cell, u);
    }

    /** rbtree_insert_fixup below the left child of the grandparent, with a black uncle. */
    method InsertUncleBlackLeft(z: Node, ghost c: Context, ghost t: Tree)
        returns (z': Node, ghost c': Context, ghost t': Tree)
      requires At(c, t) && InsertInv(c, t) && RedParent(c) && z == t.cell.node
      requires c.up.LeftOf? && IsBlack(Sibling(c.up))
      modifies `root, nodes - {nil}
      ensures At(c', t') && InsertInv(c', t') && BlackAbove(c') && z' == t'.cell.node
      ensures SameContents(c, t, c', t') && Depth(c') < Depth(c)
    {
      z', c', t' := z, c, t;
      ghost var up := c.up;
      Look(c, t);
      LookUp(c, t);
      if z' == z'.parent.right {
        z' := z'.parent;
        InnerBalanceLeft(up, c.left, c.cell, t.left, t.cell, t.right);
        SameRotate(up, c.left, c.cell, t.left, t.cell, t.right);
        LeftRotateAt(z', up, c.left, c.cell, t.left, t.cell, t.right);
        c', t' := LeftOf(up, t.cell, t.right), Bin(c.left, c.cell, t.left);
        Zoom(Snapshot(nodes), c', t', root, nil);
      }
      c' := InsertOuterLeft(z', c', t');
    }

    method InsertOuterRight(z: Node, ghost c: Context, ghost t: Tree) returns (ghost c': Context)
      requires At(c, t) && InsertInv(c, t) && RedParent(c) && z == t.cell.node
      requires c.RightOf? && c.up.RightOf? && IsBlack(c.up.left)
      modifies `root, nodes - {nil}
      ensures At(c', t) && InsertInv(c', t) && BlackAbove(c')
      ensures SameContents(c, t, c', t) && Depth(c') < Depth(c)
    {
      ghost var up, cp, cg, s, u := c.up.up, c.cell, c.up.cell, c.left, c.up.left;
      Look(c, t);
      LookUp(c, t);
      Recolor(z.parent, Black, c.up, Hang(c, t));
      cp := cp.(color := Black);
      LookUp(c.up, Bin(s, cp, t));
      Recolor(z.parent.parent, Red, up, Bin(u, cg, Bin(s, cp, t)));
      cg := cg.(color := Red);
      LeftRotateAt(z.parent.parent, up, u, cg, s, cp, t);
      c' := RightOf(up, Bin(u, cg, s), cp);
      Zoom(Snapshot(nodes), c', t, root, nil);
      OuterBalanceRight(up, t, c.cell, s, c.up.cell, u);
      OuterSameRight(up, t, c.cell, s, c.up.cell, u);
    }

    /** The mirror image, below the right child of the grandparent. */
    method InsertUncleBlackRight(z: Node, ghost c: Context, ghost t: Tree)
        returns (z': Node, ghost c': Context, ghost t': Tree)
      requires At(c, t) && InsertInv(c, t) && RedParent(c) && z == t.cell.node
      requires c.up.RightOf? && IsBlack(Sibling(c.up))
      modifies `root, nodes - {nil}
      ensures At(c', t') && InsertInv(c', t') && BlackAbove(c') && z' == t'.cell.node
      ensures SameContents(c, t, c', t') && Depth(c') < Depth(c)
    {
      z', c', t' := z, c, t;
      ghost var up := c.up;
      Look(c, t);
      LookUp(c, t);
      if z' == z'.parent.left {
        z' := z'.parent;
        InnerBalanceRight(up, c.right, c.cell, t.left, t.cell, t.right);
        SameRotate(up, t.left, t.cell, t.right, c.cell, c.right);
        RightRotateAt(z', up, t.left, t.cell, t.right, c.cell, c.right);
        c', t' := RightOf(up, t.left, t.cell), Bin(t.right, c.cell, c.right);
        Zoom(Snapshot(nodes), c', t', root, nil);
      }
      c' := InsertOuterRight(z', c', t');
    }

    /** One round of the loop in rbtree_insert_fixup. */
    method InsertFixupRound(z: Node, ghost c: Context, ghost t: Tree)
        returns (z': Node, ghost c': Context, ghost t': Tree)
      requires At(c, t) && InsertInv(c, t) && RedParent(c) && z == t.cell.node && nil.color == Black
      modifies `root, nodes - {nil}
      ensures At(c', t') && InsertInv(c', t') && z' == t'.cell.node
      ensures SameContents(c, t, c', t') && Depth(c') < Depth(c)
    {
      Look(c, t);
      LookUp(c, t);
      LookUp(c.up, Hang(c, t));
      var y := if z.parent == z.parent.parent.left then z.parent.parent.right else z.parent.parent.left;
      LookAcross(c.up, Hang(c, t));
      if y.color == Red {
        UncleRedBalance(c, t);
        UncleRedSame(c, t);
        z' := InsertUncleRed(z, y, c, t);
        c', t' := c.up.up, UncleRed(c, t);
      } else if z.parent == z.parent.parent.left {
        z', c', t' := InsertUncleBlackLeft(z, c, t);
      } else {
        z', c', t' := InsertUncleBlackRight(z, c, t);
      }
    }

    /** `T->root->color = BLACK` */
    method BlackenRoot(ghost w: Tree)
      requires At(Top, w) && w.Bin? && Balanced(Blacken(w))
      requires nil.color == Black && nodes == Nodes(w) + {nil} && Sorted(Entries(w))
      modifies this`tree, nodes - {nil}
      ensures Valid() && Entries(tree) == Entries(w)
    {
      Look(Top, w);
      Recolor(root, Black, Top, w);
      tree := Blacken(w);
    }

    /** The loop in rbtree_insert_fixup. */
    method InsertRebalance(z0: Node, ghost c0: Context, ghost t0: Tree) returns (ghost c: Context, ghost t: Tree)
      requires At(c0, t0) && InsertInv(c0, t0) && z0 == t0.cell.node && nil.color == Black
      modifies `root, nodes - {nil}
      ensures At(c, t) && InsertInv(c, t) && BlackAbove(c) && SameContents(c0, t0, c, t)
    {
      var z := z0;
      c, t := c0, t0;
      ParentColor(c, t);
      while z.parent.color == Red
        invariant At(c, t) && InsertInv(c, t) && z == t.cell.node && nil.color == Black
        invariant z in nodes && z.parent in nodes && (z.parent.color == Red <==> RedParent(c))
        invariant SameContents(c0, t0, c, t)
        decreases Depth(c)
      {
        z, c, t := InsertFixupRound(z, c, t);
        ParentColor(c, t);
      }
    }

    method InsertFixup(z: Node, ghost c: Context, ghost t: Tree)
      requires At(c, t) && InsertInv(c, t) && z == t.cell.node
      requires nil.color == Black && nodes == Nodes(Plug(c, t)) + {nil} && Sorted(Entries(Plug(c, t)))
      modifies this`root, this`tree, nodes - {nil}
      ensures Valid() && Entries(tree) == Entries(Plug(c, t))
    {
      ghost var c', t' := InsertRebalance(z, c, t);
      InsertDone(c', t');
      ZoomOut(Snapshot(nodes), c', t', root, nil);
      BlackenRoot(Plug(c', t'));
    }

    /** The search of rbtree_insert: the key is found, or the search ends at a leaf below `y`. */
    method FindPlace(key: int) returns (found: bool, y: Node, ghost c: Context)
      requires Valid()
      ensures found ==> key in Contents()
      ensures !found ==> At(c, Leaf) && y == ParentNode(c, nil) && Plug(c, Leaf) == tree && Bracketed(c, key)
    {
      y := nil;
      var x := root;
      ghost var t := tree;
      c := Top;
      while x != nil
        invariant At(c, t) && x == TopNode(t, nil) && y == ParentNode(c, nil)
        invariant Plug(c, t) == tree && Bracketed(c, key)
        decreases t
      {
        Look(c, t);
        y := x;
        if key < x.key {
          DescendLeft(c, t, key);
          x := x.left;
          c, t := LeftOf(c, t.cell, t.right), t.left;
          Zoom(Snapshot(nodes), c, t, root, nil);
        } else if key > x.key {
          DescendRight(c, t, key);
          x := x.right;
          c, t := RightOf(c, t.left, t.cell), t.right;
          Zoom(Snapshot(nodes), c, t, root, nil);
        } else {
          FoundHere(c, t);
          found := true;
          return;
        }
      }
      found := false;
    }

    method Insert(z: Node)
      requires Valid() && z !in nodes
      modifies this, nodes - {nil}, z
      ensures Valid()
      ensures old(z.key) in old(Contents()) ==> Contents() == old(Contents()) && nodes == old(nodes)
      ensures old(z.key) !in old(Contents()) ==>
                Contents() == old(Contents())[old(z.key) := old(z.value)] && nodes == old(nodes) + {z}
    {
      var found, y;
      ghost var c;
      found, y, c := FindPlace(z.key);
      if found {
        return;
      }
      UnplugBalanced(c, Leaf);
      AddAtLeaf(c, Cell(z, Red, z.key, z.value));
      Attach(z, y, c);
    }

    /** The rest of rbtree_insert: the search ended below `y`. */
    method Attach(z: Node, y: Node, ghost c: Context)
      requires z !in nodes && At(c, Leaf) && y == ParentNode(c, nil) && nil.color == Black
      requires BalancedContext(c, 0) && Bracketed(c, z.key)
      requires var w := Plug(c, Bin(Leaf, Cell(z, Red, z.key, z.value), Leaf));
               Sorted(Entries(w)) && nodes + {z} == Nodes(w) + {nil}
      modifies this, nodes - {nil}, z
      ensures Valid()
      ensures Entries(tree) == Entries(Plug(c, Bin(Leaf, Cell(z, Red, old(z.key), old(z.value)), Leaf)))
      ensures nodes == old(nodes) + {z}
    {
      ghost var cell := Cell(z, Red, z.key, z.value);
      AttachBelow(z, y, c);
      InsertFixup(z, c, Bin(Leaf, cell, Leaf));
    }

    /** The new node is linked where the search ended. */
    method AttachBelow(z: Node, y: Node, ghost c: Context)
      requires z !in nodes && At(c, Leaf) && y == ParentNode(c, nil) && Bracketed(c, z.key)
      modifies `root, `nodes, nodes - {nil}, z
      ensures nodes == old(nodes) + {z} && At(c, Bin(Leaf, Cell(z, Red, old(z.key), old(z.value)), Leaf))
    {
      if !c.Top? { LookUp(c, Leaf); }
      ghost var m, r, key, value := Snapshot(nodes), root, z.key, z.value;
      AttachNode(z, y);
      AttachShape(m, Snapshot(nodes), c, z, key, value, r, nil);
    }

    method AttachNode(z: Node, y: Node)
      requires z !in nodes && nil in nodes && y in nodes
      modifies `root, `nodes, nodes - {nil}, z
      ensures nodes == old(nodes) + {z}
      ensures Attached(old(Snapshot(nodes)), Snapshot(nodes), z, y, old(z.key), old(z.value), nil)
      ensures root == if y == nil then z else old(root)
    {
      z.parent := y;
      if y == nil {
        root := z;
      } else if z.key < y.key {
        y.left := z;
      } else {
        y.right := z;
      }

      z.left := nil;
      z.right := nil;
      z.color := Red;
      nodes := nodes + {z};
    }

    /** rbtree_search */
    method Search(key: int) returns (node: Node)
      requires Valid()
      ensures key !in Contents() ==> node == nil
      ensures key in Contents() ==> node in nodes && node != nil && node.key == key && node.value == Contents()[key]
    {
      node := root;
      ghost var c, t := Top, tree;
      while node != nil
        invariant At(c, t) && node == TopNode(t, nil)
        invariant Plug(c, t) == tree && Bracketed(c, key)
        decreases t
      {
        Look(c, t);
        if key < node.key {
          DescendLeft(c, t, key);
          node := node.left;
          c, t := LeftOf(c, t.cell, t.right), t.left;
          Zoom(Snapshot(nodes), c, t, root, nil);
        } else if key > node.key {
          DescendRight(c, t, key);
          node := node.right;
          c, t := RightOf(c, t.left, t.cell), t.right;
          Zoom(Snapshot(nodes), c, t, root, nil);
        } else {
          FoundHere(c, t);
          return;
        }
      }
      NotOutside(c, t, key);
    }

    // ------------------------------------------------------------ deletion

    /** The focus of rbtree_delete_fixup: `x` may be `nil`, but then `nil` remembers its parent. */
    ghost predicate Deleting(x: Node, c: Context, t: Tree)
      reads `root, `nodes, nodes
    {
      && At(c, t) && DeleteInv(c, t) && nil.color == Black
      && x == TopNode(t, nil) && x in nodes && x.parent == ParentNode(c, nil)
    }

    /** `w->color = BLACK; p->color = RED; left_rotate(p)` */
    method TurnRedSiblingLeft(p: Node, w: Node, ghost up: Context, ghost t: Tree, ghost cp: Cell, ghost wt: Tree)
      requires At(up, Bin(t, cp, wt)) && wt.Bin? && p == cp.node && w == wt.cell.node
      modifies `root, nodes - {nil}
      ensures At(up, Bin(Bin(t, cp.(color := Red), wt.left), wt.cell.(color := Black), wt.right))
    {
      ghost var cs := RightOf(up, t, cp);
      Zoom(Snapshot(nodes), cs, wt, root, nil);
      Look(cs, wt);
      Recolor(w, Black, cs, wt);
      ghost var wb := Paint(wt, Black);
      Zoom(Snapshot(nodes), cs, wb, root, nil);
      Look(up, Bin(t, cp, wb));
      Recolor(p, Red, up, Bin(t, cp, wb));
      LeftRotateAt(p, up, t, cp.(color := Red), wb.left, wb.cell, wb.right);
    }

    /** Sibling red, focus on the left. */
    method FixRedSiblingLeft(x: Node, w: Node, ghost c: Context, ghost t: Tree) returns (ghost c': Context)
      requires Deleting(x, c, t) && c.LeftOf? && !IsBlack(c.right) && w == c.right.cell.node
      modifies `root, nodes - {nil}
      ensures Deleting(x, c', t) && c'.LeftOf? && IsBlack(c'.right) && c'.cell.color == Red
      ensures SameContents(c, t, c', t)
    {
      ghost var up, cp, wt := c.up, c.cell, c.right;
      RedSiblingLeft(up, t, cp, wt.left, wt.cell, wt.right);
      LookUp(c, t);
      TurnRedSiblingLeft(x.parent, w, up, t, cp, wt);
      c' := LeftOf(LeftOf(up, wt.cell.(color := Black), wt.right), cp.(color := Red), wt.left);
      Zoom(Snapshot(nodes), c'.up, Hang(c', t), root, nil);
      Refocus(x, c', t);
    }

    /** After a rotation around it, the focus is still where `x` is. */
    lemma Refocus(x: Node, c: Context, t: Tree)
      requires !c.Top? && At(c.up, Hang(c, t))
      requires x == TopNode(t, nil) && (x == nil ==> x.parent == c.cell.node) && nil.color == Black
      requires DeleteInv(c, t)
      ensures Deleting(x, c, t)
    {
      Zoom(Snapshot(nodes), c, t, root, nil);
      if t.Bin? { Look(c, t); }
    }

    /** `w->left->color = BLACK; w->color = RED; right_rotate(w)` */
    method TurnInnerNephewLeft(w: Node, ghost c: Context, ghost wt: Tree)
      requires At(c, wt) && wt.Bin? && wt.left.Bin? && w == wt.cell.node
      modifies `root, nodes - {nil}
      ensures At(c, InnerTurnedLeft(wt))
    {
      ghost var n, cn := wt.left, LeftOf(c, wt.cell, wt.right);
      Look(c, wt);
      Zoom(Snapshot(nodes), cn, n, root, nil);
      Look(cn, n);
      Recolor(w.left, Black, cn, n);
      n := Paint(n, Black);
      Zoom(Snapshot(nodes), cn, n, root, nil);
      Recolor(w, Red, c, Bin(n, wt.cell, wt.right));
      RightRotateAt(w, c, n.left, n.cell, n.right, wt.cell.(color := Red), wt.right);
    }

    /** The same with the focus on the sibling's other side. */
    method TurnAcrossLeft(w: Node, ghost up: Context, ghost t: Tree, ghost cp: Cell, ghost wt: Tree)
      requires At(up, Bin(t, cp, wt)) && wt.Bin? && wt.left.Bin? && w == wt.cell.node
      modifies `root, nodes - {nil}
      ensures At(up, Bin(t, cp, InnerTurnedLeft(wt)))
    {
      ghost var cs := RightOf(up, t, cp);
      Zoom(Snapshot(nodes), cs, wt, root, nil);
      TurnInnerNephewLeft(w, cs, wt);
      Zoom(Snapshot(nodes), cs, InnerTurnedLeft(wt), root, nil);
    }

    /** Inner nephew red and outer nephew black, focus on the left. */
    method FixInnerNephewLeft(x: Node, w: Node, ghost c: Context, ghost t: Tree) returns (ghost c': Context)
      requires Deleting(x, c, t) && c.LeftOf? && c.right.Bin? && IsBlack(c.right) && w == c.right.cell.node
      requires !IsBlack(c.right.left) && IsBlack(c.right.right)
      modifies `root, nodes - {nil}
      ensures Deleting(x, c', t) && c'.LeftOf? && c'.right.Bin? && IsBlack(c'.right) && !IsBlack(c'.right.right)
      ensures SameContents(c, t, c', t)
    {
      ghost var up, cp, wt := c.up, c.cell, c.right;
      InnerNephewLeft(up, t, cp, wt.left.left, wt.left.cell, wt.left.right, wt.cell, wt.right);
      LookUp(c, t);
      TurnAcrossLeft(w, up, t, cp, wt);
      c' := LeftOf(up, cp, InnerTurnedLeft(wt));
      Refocus(x, c', t);
    }

    /** `w->color = p->color; p->color = BLACK; w->right->color = BLACK; left_rotate(p)` */
    method TurnOuterNephewLeft(p: Node, w: Node, ghost up: Context, ghost t: Tree, ghost cp: Cell, ghost wt: Tree)
      requires At(up, Bin(t, cp, wt)) && wt.Bin? && wt.right.Bin? && p == cp.node && w == wt.cell.node
      modifies `root, nodes - {nil}
      ensures At(up, Bin(Bin(t, cp.(color := Black), wt.left), wt.cell.(color := cp.color), Paint(wt.right, Black)))
    {
      ghost var cs := RightOf(up, t, cp);
      Zoom(Snapshot(nodes), cs, wt, root, nil);
      Look(cs, wt);
      Look(up, Bin(t, cp, wt));
      Recolor(w, p.color, cs, wt);
      ghost var v := Paint(wt, cp.color);
      Zoom(Snapshot(nodes), cs, v, root, nil);
      Recolor(p, Black, up, Bin(t, cp, v));
      cs := RightOf(up, t, cp.(color := Black));
      Zoom(Snapshot(nodes), cs, v, root, nil);
      ghost var cr := RightOf(cs, v.left, v.cell);
      Look(cs, v);
      Zoom(Snapshot(nodes), cr, v.right, root, nil);
      Look(cr, v.right);
      Recolor(w.right, Black, cr, v.right);
      Zoom(Snapshot(nodes), cr, Paint(v.right, Black), root, nil);
      v := v.(right := Paint(v.right, Black));
      Zoom(Snapshot(nodes), cs, v, root, nil);
      LeftRotateAt(p, up, t, cp.(color := Black), v.left, v.cell, v.right);
    }

    /** Outer nephew red, focus on the left: the last rotation. */
    method FixOuterNephewLeft(x: Node, w: Node, ghost c: Context, ghost t: Tree) returns (ghost w': Tree)
      requires Deleting(x, c, t) && IsBlack(t) && c.LeftOf? && c.right.Bin? && IsBlack(c.right)
               && w == c.right.cell.node
      requires !IsBlack(c.right.right)
      modifies `root, nodes - {nil}
      ensures At(Top, w') && w'.Bin? && Balanced(w') && IsBlack(w') && SameContents(c, t, Top, w')
    {
      ghost var up, cp, wt := c.up, c.cell, c.right;
      OuterNephewLeft(up, t, cp, wt.left, wt.cell, wt.right);
      LookUp(c, t);
      TurnOuterNephewLeft(x.parent, w, up, t, cp, wt);
      ghost var t' := Bin(Bin(t, cp.(color := Black), wt.left), wt.cell.(color := cp.color), Paint(wt.right, Black));
      w' := Plug(up, t');
      PlugNodes(up, t');
      ZoomOut(Snapshot(nodes), up, t', root, nil);
    }

    /** Two black nephews: `w->color = RED` */
    method FixBlackNephews(x: Node, w: Node, ghost c: Context, ghost t: Tree)
      requires Deleting(x, c, t) && IsBlack(t) && !c.Top? && w == TopNode(Sibling(c), nil)
      requires Sibling(c).Bin? && IsBlack(Sibling(c)) && IsBlack(Sibling(c).left) && IsBlack(Sibling(c).right)
      modifies nodes - {nil}
      ensures Deleting(c.cell.node, c.up, BlackNephews(c, t))
      ensures x.parent == old(x.parent) && SameContents(c, t, c.up, BlackNephews(c, t))
    {
      BlackNephewsKeep(c, t);
      LookUp(c, t);
      ghost var wt := Sibling(c);
      ghost var cs := if c.LeftOf? then RightOf(c.up, t, c.cell) else LeftOf(c.up, c.cell, t);
      assert Hang(cs, wt) == Hang(c, t);
      Zoom(Snapshot(nodes), cs, wt, root, nil);
      Look(cs, wt);
      Recolor(w, Red, cs, wt);
      Zoom(Snapshot(nodes), cs, Paint(wt, Red), root, nil);
      assert Hang(cs, Paint(wt, Red)) == BlackNephews(c, t);
      Look(c.up, BlackNephews(c, t));
    }

    /** The colors of the sibling's children, which may be `nil`. */
    lemma LookNephews(c: Context, t: Tree)
      requires At(c, t) && !c.Top? && Sibling(c).Bin? && nil.color == Black
      ensures var w := Sibling(c).cell.node;
              && w in nodes && w != nil && w.left in nodes && w.right in nodes
              && w.left == TopNode(Sibling(c).left, nil) && w.right == TopNode(Sibling(c).right, nil)
              && (w.left.color == Black <==> IsBlack(Sibling(c).left))
              && (w.right.color == Black <==> IsBlack(Sibling(c).right))
    {
      var wt := Sibling(c);
      var cs := if c.LeftOf? then RightOf(c.up, t, c.cell) else LeftOf(c.up, c.cell, t);
      LookUp(c, t);
      assert Hang(cs, wt) == Hang(c, t);
      Zoom(Snapshot(nodes), cs, wt, root, nil);
      Look(cs, wt);
      var cl, cr := LeftOf(cs, wt.cell, wt.right), RightOf(cs, wt.left, wt.cell);
      Zoom(Snapshot(nodes), cl, wt.left, root, nil);
      Zoom(Snapshot(nodes), cr, wt.right, root, nil);
      LookAcross(cl, wt.left);
      LookAcross(cr, wt.right);
    }

    /** The last rotation, and on to the root. */
    method EndWithOuterLeft(x: Node, w: Node, ghost c: Context, ghost t: Tree) returns (x': Node, ghost t': Tree)
      requires Deleting(x, c, t) && IsBlack(t) && c.LeftOf? && c.right.Bin? && IsBlack(c.right)
               && w == c.right.cell.node
      requires !IsBlack(c.right.right)
      modifies `root, nodes - {nil}
      ensures Deleting(x', Top, t') && SameContents(c, t, Top, t')
    {
      t' := FixOuterNephewLeft(x, w, c, t);
      Look(Top, t');
      x' := root;
    }

    /** Some nephew red, focus on the left: one or two rotations end the loop. */
    method FixRedNephewLeft(x: Node, w0: Node, ghost c0: Context, ghost t: Tree) returns (x': Node, ghost t': Tree)
      requires Deleting(x, c0, t) && IsBlack(t) && c0.LeftOf? && c0.right.Bin? && IsBlack(c0.right)
               && w0 == c0.right.cell.node
      requires !IsBlack(c0.right.left) || !IsBlack(c0.right.right)
      modifies `root, nodes - {nil}
      ensures Deleting(x', Top, t') && SameContents(c0, t, Top, t')
    {
      var w := w0;
      ghost var c := c0;
      LookNephews(c, t);
      if w.right.color == Black {
        c := FixInnerNephewLeft(x, w, c, t);
        LookUp(c, t);
        w := x.parent.right;
      }
      x', t' := EndWithOuterLeft(x, w, c, t);
    }

    /** One round of rbtree_delete_fixup with the focus on the left, once the sibling is black. */
    method FixBlackSiblingLeft(x: Node, w: Node, ghost c: Context, ghost t: Tree)
        returns (x': Node, ghost c': Context, ghost t': Tree)
      requires Deleting(x, c, t) && IsBlack(t) && c.LeftOf? && c.right.Bin? && IsBlack(c.right)
               && w == c.right.cell.node
      modifies `root, nodes - {nil}
      ensures Deleting(x', c', t') && SameContents(c, t, c', t')
      ensures c'.Top? || (c' == c.up && t'.Bin? && t'.cell.color == c.cell.color)
    {
      LookNephews(c, t);
      if w.left.color == Black && w.right.color == Black {
        FixBlackNephews(x, w, c, t);
        x', c', t' := x.parent, c.up, BlackNephews(c, t);
      } else {
        x', t' := FixRedNephewLeft(x, w, c, t);
        c' := Top;
      }
    }

    /** One round of rbtree_delete_fixup with the focus on the left. */
    method DeleteRoundLeft(x: Node, ghost c0: Context, ghost t: Tree)
        returns (x': Node, ghost c': Context, ghost t': Tree)
      requires Deleting(x, c0, t) && IsBlack(t) && c0.LeftOf?
      modifies `root, nodes - {nil}
      ensures Deleting(x', c', t') && SameContents(c0, t, c', t') && Rounds(c', t') < Rounds(c0, t)
    {
      ghost var c := c0;
      HasSibling(c, t);
      LookUp(c, t);
      LookAcross(c, t);
      var w := x.parent.right;
      if w.color == Red {
        c := FixRedSiblingLeft(x, w, c, t);
        HasSibling(c, t);
        LookUp(c, t);
        w := x.parent.right;
      }
      x', c', t' := FixBlackSiblingLeft(x, w, c, t);
    }

    // The mirror images, with the focus on the right.

    method TurnRedSiblingRight(p: Node, w: Node, ghost up: Context, ghost t: Tree, ghost cp: Cell, ghost wt: Tree)
      requires At(up, Bin(wt, cp, t)) && wt.Bin? && p == cp.node && w == wt.cell.node
      modifies `root, nodes - {nil}
      ensures At(up, Bin(wt.left, wt.cell.(color := Black), Bin(wt.right, cp.(color := Red), t)))
    {
      ghost var cs := LeftOf(up, cp, t);
      Zoom(Snapshot(nodes), cs, wt, root, nil);
      Look(cs, wt);
      Recolor(w, Black, cs, wt);
      ghost var wb := Paint(wt, Black);
      Zoom(Snapshot(nodes), cs, wb, root, nil);
      Look(up, Bin(wb, cp, t));
      Recolor(p, Red, up, Bin(wb, cp, t));
      RightRotateAt(p, up, wb.left, wb.cell, wb.right, cp.(color := Red), t);
    }

    method FixRedSiblingRight(x: Node, w: Node, ghost c: Context, ghost t: Tree) returns (ghost c': Context)
      requires Deleting(x, c, t) && c.RightOf? && !IsBlack(c.left) && w == c.left.cell.node
      modifies `root, nodes - {nil}
      ensures Deleting(x, c', t) && c'.RightOf? && IsBlack(c'.left) && c'.cell.color == Red
      ensures SameContents(c, t, c', t)
    {
      ghost var up, cp, wt := c.up, c.cell, c.left;
      RedSiblingRight(up, t, cp, wt.left, wt.cell, wt.right);
      LookUp(c, t);
      TurnRedSiblingRight(x.parent, w, up, t, cp, wt);
      c' := RightOf(RightOf(up, wt.left, wt.cell.(color := Black)), wt.right, cp.(color := Red));
      Zoom(Snapshot(nodes), c'.up, Hang(c', t), root, nil);
      Refocus(x, c', t);
    }

    method TurnInnerNephewRight(w: Node, ghost c: Context, ghost wt: Tree)
      requires At(c, wt) && wt.Bin? && wt.right.Bin? && w == wt.cell.node
      modifies `root, nodes - {nil}
      ensures At(c, InnerTurnedRight(wt))
    {
      ghost var n, cn := wt.right, RightOf(c, wt.left, wt.cell);
      Look(c, wt);
      Zoom(Snapshot(nodes), cn, n, root, nil);
      Look(cn, n);
      Recolor(w.right, Black, cn, n);
      n := Paint(n, Black);
      Zoom(Snapshot(nodes), cn, n, root, nil);
      Recolor(w, Red, c, Bin(wt.left, wt.cell, n));
      LeftRotateAt(w, c, wt.left, wt.cell.(color := Red), n.left, n.cell, n.right);
    }

    method TurnAcrossRight(w: Node, ghost up: Context, ghost t: Tree, ghost cp: Cell, ghost wt: Tree)
      requires At(up, Bin(wt, cp, t)) && wt.Bin? && wt.right.Bin? && w == wt.cell.node
      modifies `root, nodes - {nil}
      ensures At(up, Bin(InnerTurnedRight(wt), cp, t))
    {
      ghost var cs := LeftOf(up, cp, t);
      Zoom(Snapshot(nodes), cs, wt, root, nil);
      TurnInnerNephewRight(w, cs, wt);
      Zoom(Snapshot(nodes), cs, InnerTurnedRight(wt), root, nil);
    }

    method FixInnerNephewRight(x: Node, w: Node, ghost c: Context, ghost t: Tree) returns (ghost c': Context)
      requires Deleting(x, c, t) && c.RightOf? && c.left.Bin? && IsBlack(c.left) && w == c.left.cell.node
      requires !IsBlack(c.left.right) && IsBlack(c.left.left)
      modifies `root, nodes - {nil}
      ensures Deleting(x, c', t) && c'.RightOf? && c'.left.Bin? && IsBlack(c'.left) && !IsBlack(c'.left.left)
      ensures SameContents(c, t, c', t)
    {
      ghost var up, cp, wt := c.up, c.cell, c.left;
      InnerNephewRight(up, t, cp, wt.left, wt.cell, wt.right.left, wt.right.cell, wt.right.right);
      LookUp(c, t);
      TurnAcrossRight(w, up, t, cp, wt);
      c' := RightOf(up, InnerTurnedRight(wt), cp);
      Refocus(x, c', t);
    }

    method TurnOuterNephewRight(p: Node, w: Node, ghost up: Context, ghost t: Tree, ghost cp: Cell, ghost wt: Tree)
      requires At(up, Bin(wt, cp, t)) && wt.Bin? && wt.left.Bin? && p == cp.node && w == wt.cell.node
      modifies `root, nodes - {nil}
      ensures At(up, Bin(Paint(wt.left, Black), wt.cell.(color := cp.color), Bin(wt.right, cp.(color := Black), t)))
    {
      ghost var cs := LeftOf(up, cp, t);
      Zoom(Snapshot(nodes), cs, wt, root, nil);
      Look(cs, wt);
      Look(up, Bin(wt, cp, t));
      Recolor(w, p.color, cs, wt);
      ghost var v := Paint(wt, cp.color);
      Zoom(Snapshot(nodes), cs, v, root, nil);
      Recolor(p, Black, up, Bin(v, cp, t));
      cs := LeftOf(up, cp.(color := Black), t);
      Zoom(Snapshot(nodes), cs, v, root, nil);
      ghost var cl := LeftOf(cs, v.cell, v.right);
      Look(cs, v);
      Zoom(Snapshot(nodes), cl, v.left, root, nil);
      Look(cl, v.left);
      Recolor(w.left, Black, cl, v.left);
      Zoom(Snapshot(nodes), cl, Paint(v.left, Black), root, nil);
      v := v.(left := Paint(v.left, Black));
      Zoom(Snapshot(nodes), cs, v, root, nil);
      RightRotateAt(p, up, v.left, v.cell, v.right, cp.(color := Black), t);
    }

    method FixOuterNephewRight(x: Node, w: Node, ghost c: Context, ghost t: Tree) returns (ghost w': Tree)
      requires Deleting(x, c, t) && IsBlack(t) && c.RightOf? && c.left.Bin? && IsBlack(c.left) && w == c.left.cell.node
      requires !IsBlack(c.left.left)
      modifies `root, nodes - {nil}
      ensures At(Top, w') && w'.Bin? && Balanced(w') && IsBlack(w') && SameContents(c, t, Top, w')
    {
      ghost var up, cp, wt := c.up, c.cell, c.left;
      OuterNephewRight(up, t, cp, wt.left, wt.cell, wt.right);
      LookUp(c, t);
      TurnOuterNephewRight(x.parent, w, up, t, cp, wt);
      ghost var t' := Bin(Paint(wt.left, Black), wt.cell.(color := cp.color), Bin(wt.right, cp.(color := Black), t));
      w' := Plug(up, t');
      PlugNodes(up, t');
      ZoomOut(Snapshot(nodes), up, t', root, nil);
    }

    /** The last rotation, and on to the root. */
    method EndWithOuterRight(x: Node, w: Node, ghost c: Context, ghost t: Tree) returns (x': Node, ghost t': Tree)
      requires Deleting(x, c, t) && IsBlack(t) && c.RightOf? && c.left.Bin? && IsBlack(c.left) && w == c.left.cell.node
      requires !IsBlack(c.left.left)
      modifies `root, nodes - {nil}
      ensures Deleting(x', Top, t') && SameContents(c, t, Top, t')
    {
      t' := FixOuterNephewRight(x, w, c, t);
      Look(Top, t');
      x' := root;
    }

    method FixRedNephewRight(x: Node, w0: Node, ghost c0: Context, ghost t: Tree) returns (x': Node, ghost t': Tree)
      requires Deleting(x, c0, t) && IsBlack(t) && c0.RightOf? && c0.left.Bin? && IsBlack(c0.left)
               && w0 == c0.left.cell.node
      requires !IsBlack(c0.left.left) || !IsBlack(c0.left.right)
      modifies `root, nodes - {nil}
      ensures Deleting(x', Top, t') && SameContents(c0, t, Top, t')
    {
      var w := w0;
      ghost var c := c0;
      LookNephews(c, t);
      if w.left.color == Black {
        c := FixInnerNephewRight(x, w, c, t);
        LookUp(c, t);
        w := x.parent.left;
      }
      x', t' := EndWithOuterRight(x, w, c, t);
    }

    method FixBlackSiblingRight(x: Node, w: Node, ghost c: Context, ghost t: Tree)
        returns (x': Node, ghost c': Context, ghost t': Tree)
      requires Deleting(x, c, t) && IsBlack(t) && c.RightOf? && c.left.Bin? && IsBlack(c.left) && w == c.left.cell.node
      modifies `root, nodes - {nil}
      ensures Deleting(x', c', t') && SameContents(c, t, c', t')
      ensures c'.Top? || (c' == c.up && t'.Bin? && t'.cell.color == c.cell.color)
    {
      LookNephews(c, t);
      if w.left.color == Black && w.right.color == Black {
        FixBlackNephews(x, w, c, t);
        x', c', t' := x.parent, c.up, BlackNephews(c, t);
      } else {
        x', t' := FixRedNephewRight(x, w, c, t);
        c' := Top;
      }
    }

    method DeleteRoundRight(x: Node, ghost c0: Context, ghost t: Tree)
        returns (x': Node, ghost c': Context, ghost t': Tree)
      requires Deleting(x, c0, t) && IsBlack(t) && c0.RightOf?
      modifies `root, nodes - {nil}
      ensures Deleting(x', c', t') && SameContents(c0, t, c', t') && Rounds(c', t') < Rounds(c0, t)
    {
      ghost var c := c0;
      HasSibling(c, t);
      LookUp(c, t);
      LookAcross(c, t);
      var w := x.parent.left;
      if w.color == Red {
        c := FixRedSiblingRight(x, w, c, t);
        HasSibling(c, t);
        LookUp(c, t);
        w := x.parent.left;
      }
      x', c', t' := FixBlackSiblingRight(x, w, c, t);
    }

    /** The loop test of rbtree_delete_fixup. */
    lemma LoopTest(x: Node, c: Context, t: Tree)
      requires Deleting(x, c, t)
      ensures x == root <==> c.Top?
      ensures x.color == Black <==> IsBlack(t)
      ensures !c.Top? ==> x.parent in nodes
      ensures !c.Top? ==> (x == x.parent.left <==> c.LeftOf?)
    {
      RootInContext(Snapshot(nodes), c, x, root, nil);
      assert t.Bin? ==> x in Nodes(t);
      if t.Bin? { Look(c, t); }
      if !c.Top? {
        LookUp(c, t);
        HasSibling(c, t);
      }
    }

    /** The loop in rbtree_delete_fixup. */
    method DeleteRebalance(x0: Node, ghost c0: Context, ghost t0: Tree)
        returns (x: Node, ghost c: Context, ghost t: Tree)
      requires Deleting(x0, c0, t0)
      modifies `root, nodes - {nil}
      ensures Deleting(x, c, t) && (c.Top? || !IsBlack(t)) && SameContents(c0, t0, c, t)
    {
      x, c, t := x0, c0, t0;
      LoopTest(x, c, t);
      while x != root && x.color == Black
        invariant Deleting(x, c, t) && SameContents(c0, t0, c, t)
        invariant (x == root <==> c.Top?) && (x.color == Black <==> IsBlack(t))
        invariant !c.Top? ==> x.parent in nodes && (x == x.parent.left <==> c.LeftOf?)
        decreases Rounds(c, t)
      {
        if x == x.parent.left {
          x, c, t := DeleteRoundLeft(x, c, t);
        } else {
          x, c, t := DeleteRoundRight(x, c, t);
        }
        LoopTest(x, c, t);
      }
    }

    /** `x->color = BLACK`, where `x` may be `nil`. */
    method BlackenFocus(x: Node, ghost c: Context, ghost t: Tree)
      requires At(c, t) && x == TopNode(t, nil) && nil.color == Black
      modifies nodes
      ensures At(c, Blacken(t)) && nil.color == Black
    {
      ghost var m := Snapshot(nodes);
      if t.Bin? {
        Look(c, t);
        PaintShape(m, c, t, Black, root, nil);
      }
      x.color := Black;
      assert Snapshot(nodes) == m[x := m[x].(color := Black)];
    }

    /** The last line of rbtree_delete_fixup. */
    method DeleteFinish(x: Node, ghost c: Context, ghost t: Tree)
      requires At(c, t) && x == TopNode(t, nil) && nil.color == Black
      modifies `tree, nodes
      ensures At(Top, tree) && nil.color == Black && tree == Plug(c, Blacken(t))
    {
      BlackenFocus(x, c, t);
      ZoomOut(Snapshot(nodes), c, Blacken(t), root, nil);
      tree := Plug(c, Blacken(t));
    }

    method DeleteFixup(x: Node, ghost c: Context, ghost t: Tree)
      requires Deleting(x, c, t)
      requires nodes == Nodes(Plug(c, t)) + {nil} && Sorted(Entries(Plug(c, t)))
      modifies this`root, this`tree, nodes
      ensures Valid() && Entries(tree) == Entries(Plug(c, t))
    {
      var x': Node;
      ghost var c': Context, t': Tree;
      x', c', t' := DeleteRebalance(x, c, t);
      DeleteDone(c', t');
      DeleteFinish(x', c', t');
    }

    /** rbtree_mini */
    method Mini(x0: Node, ghost o: Context, ghost t0: Tree) returns (x: Node, ghost i: Context, ghost t: Tree)
      requires At(o, t0) && t0.Bin? && x0 == t0.cell.node
      ensures At(Compose(i, o), t) && AllLeft(i) && Plug(i, t) == t0
      ensures t.Bin? && t.left.Leaf? && x == t.cell.node
    {
      x, i, t := x0, Top, t0;
      Look(o, t);
      while x.left != nil
        invariant At(Compose(i, o), t) && AllLeft(i) && Plug(i, t) == t0
        invariant t.Bin? && x == t.cell.node && x in nodes && x.left == TopNode(t.left, nil)
        invariant t.left.Leaf? <==> x.left == nil
        decreases t
      {
        x := x.left;
        i, t := LeftOf(i, t.cell, t.right), t.left;
        Zoom(Snapshot(nodes), Compose(i, o), t, root, nil);
        Look(Compose(i, o), t);
      }
    }

    /** `x` is the node at position `k` of the entries in order. */
    ghost predicate IsEntry(x: Node, k: nat)
      reads `tree, `nodes, nodes
    {
      k < |Entries(tree)| && x in nodes && Entry(x.key, x.value) == Entries(tree)[k]
    }

    /** rbtree_successor: the node of the next entry in order, or nil. */
    method Successor(x0: Node, ghost c0: Context, ghost t0: Tree) returns (y: Node, ghost i: Context, ghost s: Tree)
      requires Valid() && At(c0, t0) && Plug(c0, t0) == tree && t0.Bin? && x0 == t0.cell.node
      ensures var k := |Before(c0)| + |Entries(t0.left)|;
              && IsEntry(x0, k)
              && (if k + 1 < |Entries(tree)| then y != nil && IsEntry(y, k + 1) else y == nil)
      ensures t0.right.Bin? ==>
                && At(Compose(i, RightOf(c0, t0.left, t0.cell)), s) && AllLeft(i) && Plug(i, s) == t0.right
                && s.Bin? && s.left.Leaf? && y == s.cell.node
    {
      Look(c0, t0);
      NextEntries(c0, t0);
      ghost var rest := Entries(tree)[|Before(c0)| + |Entries(t0.left)| + 1..];
      y, i, s := x0.parent, Top, Leaf;
      if x0.right != nil {
        ghost var o := RightOf(c0, t0.left, t0.cell);
        Zoom(Snapshot(nodes), o, t0.right, root, nil);
        y, i, s := Mini(x0.right, o, t0.right);
        Look(Compose(i, o), s);
        FirstEntry(i, s);
        assert rest[0] == EntryOf(s.cell);
        return;
      }
      var x := x0;
      ghost var c, t := c0, t0;
      while y != nil && x == y.right
        invariant At(c, t) && t.Bin? && x == t.cell.node && y == ParentNode(c, nil) && y in nodes
        invariant After(c) == After(c0)
        decreases c
      {
        LookUp(c, t);
        x := y;
        y := y.parent;
        c, t := c.up, Hang(c, t);
        Look(c, t);
        if !c.Top? { LookUp(c, t); }
      }
      if !c.Top? {
        LookUp(c, t);
        Look(c.up, Hang(c, t));
        assert rest[0] == EntryOf(c.cell);
      }
    }

    /** rbtree_delete, up to the copying of the entry: `y` is taken out and its child `x` put in its place. */
    method Unlink(y: Node, x: Node)
      requires nil in nodes && y in nodes && x in nodes && y.parent in nodes
      requires y != nil && x != y && y.parent != y && (x == y.parent ==> x == nil)
      modifies `root, `nodes, nodes
      ensures nodes == old(nodes) - {y}
      ensures Unlinked(old(Snapshot(nodes)), Snapshot(nodes), y, x, old(y.parent), nil)
      ensures root == if old(y.parent) == nil then x else old(root)
      ensures FieldsOf(y) == old(FieldsOf(y))
    {
      x.parent := y.parent;
      if y.parent == nil {
        root := x;
      } else if y == y.parent.left {
        y.parent.left := x;
      } else {
        y.parent.right := x;
      }
      nodes := nodes - {y};
    }

    method UnlinkAt(y: Node, x: Node, ghost c: Context, ghost t: Tree)
      requires At(c, t) && LacksChild(t) && y == t.cell.node && x == TopNode(OnlyChild(t), nil) && nil.color == Black
      requires nodes == Nodes(Plug(c, t)) + {nil}
      modifies `root, `nodes, nodes
      ensures nodes == old(nodes) - {y} && x in nodes && nodes == Nodes(Plug(c, OnlyChild(t))) + {nil}
      ensures At(c, OnlyChild(t)) && nil.color == Black && x.parent == ParentNode(c, nil)
      ensures FieldsOf(y) == old(FieldsOf(y))
    {
      ghost var m, r := Snapshot(nodes), root;
      Look(c, t);
      LookOnlyChild(c, t);
      if !c.Top? { LookUp(c, t); }
      UnlinkNodes(c, t);
      Unlink(y, x);
      UnlinkShape(m, Snapshot(nodes), c, t, r, nil);
      if OnlyChild(t).Bin? { Look(c, OnlyChild(t)); }
    }

    lemma LookOnlyChild(c: Context, t: Tree)
      requires At(c, t) && LacksChild(t)
      ensures TopNode(OnlyChild(t), nil) in nodes && TopNode(OnlyChild(t), nil) != t.cell.node
      ensures OnlyChild(t).Bin? ==> TopNode(OnlyChild(t), nil) != ParentNode(c, nil)
      ensures t.cell.node != ParentNode(c, nil)
    {
      var x := OnlyChild(t);
      Look(c, t);
      if x.Bin? {
        var cx := if t.left.Bin? then LeftOf(c, t.cell, t.right) else RightOf(c, t.left, t.cell);
        Zoom(Snapshot(nodes), cx, x, root, nil);
        Look(cx, x);
        assert x.cell.node in Nodes(x);
      }
    }

    /** `z->key = y->key; z->value = y->value`, where `z` is above the focus. */
    method CopyEntry(
      z: Node, y: Node, ghost i: Context, ghost up: Context, ghost l: Tree, ghost cell: Cell, ghost t: Tree)
      requires At(Compose(i, RightOf(up, l, cell)), t) && z == cell.node && nil.color == Black
      modifies z`key, z`value
      ensures At(Compose(i, RightOf(up, l, cell.(key := y.key, value := y.value))), t) && nil.color == Black
      ensures y != z ==> y.key == old(y.key) && y.value == old(y.value)
    {
      ghost var m, r := Snapshot(nodes), Plug(i, t);
      ghost var cell' := cell.(key := y.key, value := y.value);
      ComposeShape(m, i, RightOf(up, l, cell), t, root, nil);
      Zoom(m, RightOf(up, l, cell), r, root, nil);
      Look(up, Bin(l, cell, r));
      RekeyShape(m, up, Bin(l, cell, r), y.key, y.value, root, nil);
      z.key := y.key;
      z.value := y.value;
      assert Snapshot(nodes) == m[z := m[z].(key := cell'.key, value := cell'.value)];
      Zoom(Snapshot(nodes), RightOf(up, l, cell'), r, root, nil);
      ComposeShape(Snapshot(nodes), i, RightOf(up, l, cell'), t, root, nil);
    }

    /** The last step of rbtree_delete: `if (color == BLACK) fixup(x)` */
    method FixIfBlack(x: Node, color: Color, ghost was: Tree, ghost c: Context, ghost t: Tree, ghost key: int)
      requires At(c, t) && nil.color == Black && x == TopNode(t, nil) && x in nodes && x.parent == ParentNode(c, nil)
      requires nodes == Nodes(Plug(c, t)) + {nil} && ReadyToFix(was, c, t, color, key)
      modifies this`root, this`tree, nodes
      ensures Valid() && Contents() == ToMap(Entries(was)) - {key}
    {
      if color == Black {
        DeleteFixup(x, c, t);
      } else {
        ZoomOut(Snapshot(nodes), c, t, root, nil);
        tree := Plug(c, t);
      }
    }

    method Delete(z: Node) returns (y: Node)
      requires Valid() && z in nodes && z != nil
      modifies this, nodes
      ensures Valid() && y in old(nodes) && y != nil && nodes == old(nodes) - {y}
      ensures Contents() == old(Contents()) - {old(z.key)}
    {
      ghost var c, t := FindNode(Top, tree, z);
      ZoomOut(Snapshot(nodes), c, t, root, nil);
      Look(c, t);
      if z.left == nil || z.right == nil {
        y := z;
        ReadyHere(c, t);
        DeleteNode(z, tree, c, t);
      } else {
        ghost var i, s;
        y, i, s := Successor(z, c, t);
        ComposePlug(i, RightOf(c, t.left, t.cell), s);
        ReadySuccessor(i, c, t.left, t.cell, s);
        DeleteSuccessor(z, y, tree, i, c, t.left, t.cell, s);
      }
    }

    /** The child that takes the place of `y`. */
    method ChildOf(y: Node, ghost c: Context, ghost t: Tree) returns (x: Node)
      requires At(c, t) && LacksChild(t) && y == t.cell.node
      ensures x == TopNode(OnlyChild(t), nil)
    {
      Look(c, t);
      LookOnlyChild(c, t);
      x := nil;
      if y.left != nil {
        x := y.left;
      } else if y.right != nil {
        x := y.right;
      }
    }

    /** rbtree_delete from line 262 on, when the node unlinked is `z` itself. */
    method DeleteNode(z: Node, ghost was: Tree, ghost c: Context, ghost t: Tree)
      requires At(c, t) && LacksChild(t) && z == t.cell.node && nil.color == Black
      requires nodes == Nodes(Plug(c, t)) + {nil} && ReadyToFix(was, c, OnlyChild(t), t.cell.color, t.cell.key)
      modifies this, nodes
      ensures Valid() && nodes == old(nodes) - {z} && Contents() == ToMap(Entries(was)) - {t.cell.key}
    {
      Look(c, t);
      var x := ChildOf(z, c, t);
      UnlinkAt(z, x, c, t);
      FixIfBlack(x, z.color, was, c, OnlyChild(t), t.cell.key);
    }

    /** Taking out the successor `y` of `z`, whose entry moves to `z`. */
    method UnlinkSuccessor(
      z: Node, y: Node, x: Node, ghost i: Context, ghost up: Context, ghost l: Tree, ghost cell: Cell, ghost s: Tree)
      requires At(Compose(i, RightOf(up, l, cell)), s) && nil.color == Black
      requires LacksChild(s) && y == s.cell.node && z == cell.node && x == TopNode(OnlyChild(s), nil)
      requires nodes == Nodes(Plug(Compose(i, RightOf(up, l, cell)), s)) + {nil}
      modifies `root, `nodes, nodes
      ensures nodes == old(nodes) - {y} && x in nodes && nil.color == Black && y.color == s.cell.color
      ensures var c' := Compose(i, RightOf(up, l, cell.(key := s.cell.key, value := s.cell.value)));
              At(c', OnlyChild(s)) && x.parent == ParentNode(c', nil) && nodes == Nodes(Plug(c', OnlyChild(s))) + {nil}
    {
      RekeyNodes(i, up, l, cell, EntryOf(s.cell), OnlyChild(s));
      Look(Compose(i, RightOf(up, l, cell)), s);
      UnlinkAt(y, x, Compose(i, RightOf(up, l, cell)), s);
      LookAt(i, up, l, cell, OnlyChild(s));
      CopyEntry(z, y, i, up, l, cell, OnlyChild(s));
    }

    lemma LookAt(i: Context, up: Context, l: Tree, cell: Cell, t: Tree)
      requires At(Compose(i, RightOf(up, l, cell)), t)
      ensures cell.node in nodes && cell.node != nil
    {
      ComposeShape(Snapshot(nodes), i, RightOf(up, l, cell), t, root, nil);
      LookUp(RightOf(up, l, cell), Plug(i, t));
    }

    /** rbtree_delete from line 262 on, when the node unlinked is the successor `y` of `z`. */
    method DeleteSuccessor(
      z: Node, y: Node, ghost was: Tree, ghost i: Context, ghost up: Context, ghost l: Tree, ghost cell: Cell,
      ghost s: Tree)
      requires At(Compose(i, RightOf(up, l, cell)), s) && nil.color == Black
      requires LacksChild(s) && y == s.cell.node && z == cell.node
      requires nodes == Nodes(Plug(Compose(i, RightOf(up, l, cell)), s)) + {nil}
      requires ReadyToFix(was, Compose(i, RightOf(up, l, cell.(key := s.cell.key, value := s.cell.value))),
               OnlyChild(s), s.cell.color, cell.key)
      modifies this, nodes
      ensures Valid() && nodes == old(nodes) - {y} && Contents() == ToMap(Entries(was)) - {cell.key}
    {
      ghost var c, c' := Compose(i, RightOf(up, l, cell)),
        Compose(i, RightOf(up, l, cell.(key := s.cell.key, value := s.cell.value)));
      Look(c, s);
      var x := ChildOf(y, c, s);
      UnlinkSuccessor(z, y, x, i, up, l, cell, s);
      FixIfBlack(x, y.color, was, c', OnlyChild(s), cell.key);
    }
  }
}

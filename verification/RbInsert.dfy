/** rb_link_node and rb_insert_color: a red leaf is hung in and the red-red violation is moved up. */
module RbInsert {
  import opened RbTheory
  import opened RbTree

  /** Legal except that `t`, a red subtree, may hang below a red node. */
  ghost predicate RedAt(k: Ctx<RbNode>, t: Tree<RbNode>, h: nat) {
    t.Node? && t.c == Red && Rb(t, h) && RbCtx(k, h)
  }

  /** The in-order sequence around a place. */
  ghost function Around(k: Ctx<RbNode>, t: Tree<RbNode>): seq<RbNode> {
    Inorder(Plug(k, t))
  }

  /** Red uncle: the blackness of the grandparent moves down to both of its children. */
  method PushBlackDown(parent: RbNode, uncle: RbNode, gparent: RbNode, root: RbRoot, ghost k: Ctx<RbNode>, ghost g: Tree<RbNode>)
    requires root.Mirrored() && At(k, g, root.mem)
    requires g.Node? && g.v == gparent && g.left.Node? && g.right.Node?
    requires (g.left.v == parent && g.right.v == uncle) || (g.left.v == uncle && g.right.v == parent)
    modifies root, root.mem.at.Keys
    ensures root.Mirrored() && root.mem.at.Keys == old(root.mem.at.Keys)
    ensures At(k, Node(g.left.(c := Black), gparent, Red, g.right.(c := Black)), root.mem)
  {
    DistinctTop(k, g, root.mem);
    PaintTop(g, Black);
    PaintNode(uncle, Black, root, k, g);
    ghost var g1 := Paint(g, uncle, Black);
    PaintTop(g1, Black);
    PaintNode(parent, Black, root, k, g1);
    ghost var g2 := Paint(g1, parent, Black);
    PaintTop(g2, Red);
    PaintNode(gparent, Red, root, k, g2);
  }

  lemma DistinctTop(k: Ctx<RbNode>, g: Tree<RbNode>, m: Mem)
    requires At(k, g, m)
    ensures TopDistinct(g)
    ensures g.Node? && g.left.Node? ==> g.left.v in Elems(g)
    ensures g.Node? && g.right.Node? ==> g.right.v in Elems(g)
  {
  }

  lemma LiftAt(k: Ctx<RbNode>, t: Tree<RbNode>, m: Mem)
    requires !k.Top?
    ensures At(k, t, m) <==> At(k.up, Lift(k, t), m)
  {
    match k
    case InLeft(up, v, c, r) => ZipLeft(up, v, c, r, t, m);
    case InRight(l, v, c, up) => ZipRight(l, v, c, up, t, m);
  }

  /** Black parent over red grandparent, then the grandparent turns away from the violation. */
  method TurnRight(parent: RbNode, gparent: RbNode, root: RbRoot, ghost kk: Ctx<RbNode>,
                   ghost a: Tree<RbNode>, ghost b: Tree<RbNode>, ghost u: Tree<RbNode>)
    requires root.Mirrored() && At(kk, Node(Node(a, parent, Red, b), gparent, Black, u), root.mem)
    modifies root, root.mem.at.Keys
    ensures root.Mirrored() && root.mem.at.Keys == old(root.mem.at.Keys)
    ensures At(kk, Node(a, parent, Black, Node(b, gparent, Red, u)), root.mem)
  {
    ghost var g := Node(Node(a, parent, Red, b), gparent, Black, u);
    DistinctTop(kk, g, root.mem);
    PaintTop(g, Black);
    PaintNode(parent, Black, root, kk, g);
    g := Paint(g, parent, Black);
    PaintTop(g, Red);
    PaintNode(gparent, Red, root, kk, g);
    RotateRightHere(gparent, root, kk, a, parent, Black, b, Red, u);
  }

  method TurnLeft(parent: RbNode, gparent: RbNode, root: RbRoot, ghost kk: Ctx<RbNode>,
                  ghost u: Tree<RbNode>, ghost b: Tree<RbNode>, ghost a: Tree<RbNode>)
    requires root.Mirrored() && At(kk, Node(u, gparent, Black, Node(b, parent, Red, a)), root.mem)
    modifies root, root.mem.at.Keys
    ensures root.Mirrored() && root.mem.at.Keys == old(root.mem.at.Keys)
    ensures At(kk, Node(Node(u, gparent, Red, b), parent, Black, a), root.mem)
  {
    ghost var g := Node(u, gparent, Black, Node(b, parent, Red, a));
    DistinctTop(kk, g, root.mem);
    PaintTop(g, Black);
    PaintNode(parent, Black, root, kk, g);
    g := Paint(g, parent, Black);
    PaintTop(g, Red);
    PaintNode(gparent, Red, root, kk, g);
    RotateLeftHere(gparent, root, kk, u, Red, b, parent, Black, a);
  }

  /** What the grandparent links to. */
  lemma GrandLinks(k: Ctx<RbNode>, p: Tree<RbNode>, m: Mem)
    requires !k.Top? && At(k, p, m) && p.Node?
    ensures k.v in m.at && p.v in m.at && m.at[p.v].c == p.c
    ensures m.at[p.v].left == Ptr(p.left) && m.at[p.v].right == Ptr(p.right)
    ensures k.InLeft? ==> m.at[k.v].right == Ptr(k.right) && (k.right.Node? ==> k.right.v in m.at && m.at[k.right.v].c == k.right.c)
    ensures k.InRight? ==> m.at[k.v].left == Ptr(k.left) && (k.left.Node? ==> k.left.v in m.at && m.at[k.left.v].c == k.left.c)
  {
  }

  /** What a legal path says right above a place below a red parent. */
  lemma RedParent(k: Ctx<RbNode>, h: nat)
    requires RbCtx(k, h) && !k.Top? && k.c == Red
    ensures !k.up.Top? && k.up.c == Black && RbCtx(k.up, h) && RbCtx(k.up.up, h + 1)
    ensures k.InLeft? ==> Rb(k.right, h) && IsBlack(k.right)
    ensures k.InRight? ==> Rb(k.left, h) && IsBlack(k.left)
    ensures k.up.InLeft? ==> Rb(k.up.right, h)
    ensures k.up.InRight? ==> Rb(k.up.left, h)
  {
    StepUp(k, h);
    StepUp(k.up, h);
  }

  /** Red uncle: the violation moves two levels up. */
  lemma PushedDown(k: Ctx<RbNode>, t: Tree<RbNode>, h: nat)
    requires RedAt(k, t, h) && !k.Top? && k.c == Red && !k.up.Top?
    requires k.up.InLeft? ==> k.up.right.Node? && k.up.right.c == Red
    requires k.up.InRight? ==> k.up.left.Node? && k.up.left.c == Red
    ensures k.up.InLeft? ==>
              var p := Lift(k, t);
              var t2 := Node(p.(c := Black), k.up.v, Red, k.up.right.(c := Black));
              RedAt(k.up.up, t2, h + 1) && Around(k.up.up, t2) == Around(k, t)
    ensures k.up.InRight? ==>
              var p := Lift(k, t);
              var t2 := Node(k.up.left.(c := Black), k.up.v, Red, p.(c := Black));
              RedAt(k.up.up, t2, h + 1) && Around(k.up.up, t2) == Around(k, t)
  {
    RedParent(k, h);
    var g := Lift(k.up, Lift(k, t));
    if k.up.InLeft? {
      SameInorder(k.up.up, g, Node(Lift(k, t).(c := Black), k.up.v, Red, k.up.right.(c := Black)));
    } else {
      SameInorder(k.up.up, g, Node(k.up.left.(c := Black), k.up.v, Red, Lift(k, t).(c := Black)));
    }
  }

  /** Black uncle, parent on the left: after the turn nothing is left to repair. */
  lemma TurnedLeft(k: Ctx<RbNode>, t: Tree<RbNode>, h: nat, p: Tree<RbNode>)
    requires RedAt(k, t, h) && !k.Top? && k.c == Red && k.up.InLeft? && IsBlack(k.up.right)
    requires p == if k.InLeft? then Lift(k, t) else Node(Node(k.left, k.v, Red, t.left), t.v, Red, t.right)
    ensures var g, u := k.up.v, k.up.right;
            var k2 := InLeft(k.up.up, p.v, Black, Node(p.right, g, Red, u));
            RedAt(k2, p.left, h) && Around(k2, p.left) == Around(k, t)
  {
    RedParent(k, h);
    var kk, g, u := k.up.up, k.up.v, k.up.right;
    if k.InRight? {
      TurnInorder(k.left, k.v, Red, t.left, t.v, Red, t.right, Red, Red);
    }
    assert Inorder(p) == Inorder(Lift(k, t));
    TurnInorder(p.left, p.v, Black, p.right, g, Red, u, Red, Black);
    SameInorder(kk, Lift(k.up, Lift(k, t)), Node(p.left, p.v, Black, Node(p.right, g, Red, u)));
    assert Lift(InLeft(kk, p.v, Black, Node(p.right, g, Red, u)), p.left) == Node(p.left, p.v, Black, Node(p.right, g, Red, u));
  }

  lemma TurnedRight(k: Ctx<RbNode>, t: Tree<RbNode>, h: nat, p: Tree<RbNode>)
    requires RedAt(k, t, h) && !k.Top? && k.c == Red && k.up.InRight? && IsBlack(k.up.left)
    requires p == if k.InRight? then Lift(k, t) else Node(t.left, t.v, Red, Node(t.right, k.v, Red, k.right))
    ensures var g, u := k.up.v, k.up.left;
            var k2 := InRight(Node(u, g, Red, p.left), p.v, Black, k.up.up);
            RedAt(k2, p.right, h) && Around(k2, p.right) == Around(k, t)
  {
    RedParent(k, h);
    var kk, g, u := k.up.up, k.up.v, k.up.left;
    if k.InLeft? {
      TurnInorder(t.left, t.v, Red, t.right, k.v, Red, k.right, Red, Red);
    }
    assert Inorder(p) == Inorder(Lift(k, t));
    TurnInorder(u, g, Black, p.left, p.v, Red, p.right, Red, Black);
    SameInorder(kk, Lift(k.up, Lift(k, t)), Node(Node(u, g, Red, p.left), p.v, Black, p.right));
    assert Lift(InRight(Node(u, g, Red, p.left), p.v, Black, kk), p.right) == Node(Node(u, g, Red, p.left), p.v, Black, p.right);
  }

  /** One round of the loop when the parent is the left child of the grandparent. */
  method FixLeft(node: RbNode, parent: RbNode, gparent: RbNode, root: RbRoot, ghost k: Ctx<RbNode>, ghost t: Tree<RbNode>, ghost h: nat)
      returns (n: RbNode, ghost k2: Ctx<RbNode>, ghost t2: Tree<RbNode>, ghost h2: nat)
    requires root.Mirrored() && At(k, t, root.mem) && RedAt(k, t, h) && t.v == node
    requires !k.Top? && k.v == parent && k.c == Red && k.up.InLeft? && k.up.v == gparent
    modifies root, root.mem.at.Keys
    ensures root.Mirrored() && root.mem.at.Keys == old(root.mem.at.Keys)
    ensures At(k2, t2, root.mem) && RedAt(k2, t2, h2) && t2.v == n
    ensures Depth(k2) < Depth(k) && Around(k2, t2) == Around(k, t)
  {
    ghost var kk, u, p := k.up.up, k.up.right, Lift(k, t);
    RedParent(k, h);
    LiftAt(k, t, root.mem);
    LiftAt(k.up, p, root.mem);
    GrandLinks(k.up, p, root.mem);
    var uncle := gparent.right;
    if uncle != null && uncle.color == Red {
      PushBlackDown(parent, uncle, gparent, root, kk, Node(p, gparent, Black, u));
      n, k2, t2, h2 := gparent, kk, Node(p.(c := Black), gparent, Red, u.(c := Black)), h + 1;
      PushedDown(k, t, h);
    } else {
      n, k2, t2 := RotateLeftSide(node, parent, gparent, root, k, t, h);
      h2 := h;
    }
  }

  /** Black uncle: one or two rotations finish the repair. */
  method RotateLeftSide(node: RbNode, parent: RbNode, gparent: RbNode, root: RbRoot, ghost k: Ctx<RbNode>, ghost t: Tree<RbNode>, ghost h: nat)
      returns (n: RbNode, ghost k2: Ctx<RbNode>, ghost t2: Tree<RbNode>)
    requires root.Mirrored() && At(k, t, root.mem) && RedAt(k, t, h) && t.v == node
    requires !k.Top? && k.v == parent && k.c == Red && k.up.InLeft? && k.up.v == gparent && IsBlack(k.up.right)
    modifies root, root.mem.at.Keys
    ensures root.Mirrored() && root.mem.at.Keys == old(root.mem.at.Keys)
    ensures At(k2, t2, root.mem) && RedAt(k2, t2, h) && t2.v == n
    ensures Depth(k2) < Depth(k) && Around(k2, t2) == Around(k, t)
  {
    ghost var kk, u, p := k.up.up, k.up.right, Lift(k, t);
    RedParent(k, h);
    LiftAt(k, t, root.mem);
    LiftAt(k.up, p, root.mem);
    GrandLinks(k.up, p, root.mem);
    var node', parent' := node, parent;
    if parent.right == node {
      RotateLeftHere(parent, root, k.up, k.left, Red, t.left, node, Red, t.right);
      node', parent' := parent, node;
      p := Node(Node(k.left, parent, Red, t.left), node, Red, t.right);
      LiftAt(k.up, p, root.mem);
    }
    TurnRight(parent', gparent, root, kk, p.left, p.right, u);
    n, t2 := node', p.left;
    k2 := InLeft(kk, parent', Black, Node(p.right, gparent, Red, u));
    LiftAt(k2, t2, root.mem);
    TurnedLeft(k, t, h, p);
  }

  /** One round of the loop when the parent is the right child of the grandparent. */
  method FixRight(node: RbNode, parent: RbNode, gparent: RbNode, root: RbRoot, ghost k: Ctx<RbNode>, ghost t: Tree<RbNode>, ghost h: nat)
      returns (n: RbNode, ghost k2: Ctx<RbNode>, ghost t2: Tree<RbNode>, ghost h2: nat)
    requires root.Mirrored() && At(k, t, root.mem) && RedAt(k, t, h) && t.v == node
    requires !k.Top? && k.v == parent && k.c == Red && k.up.InRight? && k.up.v == gparent
    modifies root, root.mem.at.Keys
    ensures root.Mirrored() && root.mem.at.Keys == old(root.mem.at.Keys)
    ensures At(k2, t2, root.mem) && RedAt(k2, t2, h2) && t2.v == n
    ensures Depth(k2) < Depth(k) && Around(k2, t2) == Around(k, t)
  {
    ghost var kk, u, p := k.up.up, k.up.left, Lift(k, t);
    RedParent(k, h);
    LiftAt(k, t, root.mem);
    LiftAt(k.up, p, root.mem);
    GrandLinks(k.up, p, root.mem);
    var uncle := gparent.left;
    if uncle != null && uncle.color == Red {
      PushBlackDown(parent, uncle, gparent, root, kk, Node(u, gparent, Black, p));
      n, k2, t2, h2 := gparent, kk, Node(u.(c := Black), gparent, Red, p.(c := Black)), h + 1;
      PushedDown(k, t, h);
    } else {
      n, k2, t2 := RotateRightSide(node, parent, gparent, root, k, t, h);
      h2 := h;
    }
  }

  /** Black uncle: one or two rotations finish the repair. */
  method RotateRightSide(node: RbNode, parent: RbNode, gparent: RbNode, root: RbRoot, ghost k: Ctx<RbNode>, ghost t: Tree<RbNode>, ghost h: nat)
      returns (n: RbNode, ghost k2: Ctx<RbNode>, ghost t2: Tree<RbNode>)
    requires root.Mirrored() && At(k, t, root.mem) && RedAt(k, t, h) && t.v == node
    requires !k.Top? && k.v == parent && k.c == Red && k.up.InRight? && k.up.v == gparent && IsBlack(k.up.left)
    modifies root, root.mem.at.Keys
    ensures root.Mirrored() && root.mem.at.Keys == old(root.mem.at.Keys)
    ensures At(k2, t2, root.mem) && RedAt(k2, t2, h) && t2.v == n
    ensures Depth(k2) < Depth(k) && Around(k2, t2) == Around(k, t)
  {
    ghost var kk, u, p := k.up.up, k.up.left, Lift(k, t);
    RedParent(k, h);
    LiftAt(k, t, root.mem);
    LiftAt(k.up, p, root.mem);
    GrandLinks(k.up, p, root.mem);
    var node', parent' := node, parent;
    if parent.left == node {
      RotateRightHere(parent, root, k.up, t.left, node, Red, t.right, Red, k.right);
      node', parent' := parent, node;
      p := Node(t.left, node, Red, Node(t.right, parent, Red, k.right));
      LiftAt(k.up, p, root.mem);
    }
    TurnLeft(parent', gparent, root, kk, u, p.left, p.right);
    n, t2 := node', p.right;
    k2 := InRight(Node(u, gparent, Red, p.left), parent', Black, kk);
    LiftAt(k2, t2, root.mem);
    TurnedRight(k, t, h, p);
  }

  /** rb_insert_color. */
  method InsertColor(node: RbNode, root: RbRoot, ghost k0: Ctx<RbNode>, ghost t0: Tree<RbNode>, ghost h0: nat)
      returns (ghost tree: Tree<RbNode>)
    requires root.Mirrored() && At(k0, t0, root.mem) && RedAt(k0, t0, h0) && t0.v == node
    modifies root, root.mem.at.Keys
    ensures root.Mirrored() && root.mem.at.Keys == old(root.mem.at.Keys)
    ensures At(Top, tree, root.mem) && RedBlack(tree)
    ensures Inorder(tree) == Before(k0) + Inorder(t0) + After(k0)
  {
    hide At, RedBlack;
    ghost var k, t, h := k0, t0, h0;
    var node := node;
    UpLinks(k, t, root.mem);
    var parent := node.parent;
    while parent != null && parent.color == Red
      invariant root.Mirrored() && root.mem.at.Keys == old(root.mem.at.Keys)
      invariant At(k, t, root.mem) && RedAt(k, t, h) && t.v == node && parent == CtxPtr(k)
      invariant parent != null ==> parent.color == k.c
      invariant Around(k, t) == Around(k0, t0)
      decreases Depth(k)
    {
      RedParent(k, h);
      GrandparentLinks(k, t, root.mem);
      var gparent := parent.parent;
      if parent == gparent.left {
        node, k, t, h := FixLeft(node, parent, gparent, root, k, t, h);
      } else {
        node, k, t, h := FixRight(node, parent, gparent, root, k, t, h);
      }
      UpLinks(k, t, root.mem);
      parent := node.parent;
    }
    PlugInorder(k0, t0);
    tree := BlackenRoot(root, k, t, h);
  }

  /** The root turns black. */
  method BlackenRoot(root: RbRoot, ghost k: Ctx<RbNode>, ghost t: Tree<RbNode>, ghost h: nat) returns (ghost tree: Tree<RbNode>)
    requires root.Mirrored() && At(k, t, root.mem) && RedAt(k, t, h) && (!k.Top? ==> k.c == Black)
    modifies root, root.mem.at.Keys
    ensures root.Mirrored() && root.mem.at.Keys == old(root.mem.at.Keys)
    ensures At(Top, tree, root.mem) && RedBlack(tree) && Inorder(tree) == Around(k, t)
  {
    tree := Plug(k, t);
    PlugAt(k, t, root.mem);
    RootIs(tree, root.mem);
    PaintNode(root.node, Black, root, Top, tree);
    Finished(k, t, h);
    tree := Paint(tree, tree.v, Black);
  }

  lemma UpLinks(k: Ctx<RbNode>, t: Tree<RbNode>, m: Mem)
    requires At(k, t, m) && t.Node?
    ensures t.v in m.at && m.at[t.v].parent == CtxPtr(k)
    ensures !k.Top? ==> k.v in m.at && m.at[k.v].c == k.c
  {
  }

  lemma GrandparentLinks(k: Ctx<RbNode>, t: Tree<RbNode>, m: Mem)
    requires At(k, t, m) && !k.Top? && !k.up.Top?
    ensures k.v in m.at && m.at[k.v].parent == k.up.v && k.up.v in m.at
    ensures m.at[k.up.v].left == k.v <==> k.up.InLeft?
  {
    LiftAt(k, t, m);
    assert LinkedCtx(k.up, k.v, m);
  }

  lemma RootIs(tree: Tree<RbNode>, m: Mem)
    requires At(Top, tree, m)
    ensures m.root == Ptr(tree)
  {
  }

  /** When the loop ends, at most the root is red where it should not be. */
  lemma Finished(k: Ctx<RbNode>, t: Tree<RbNode>, h: nat)
    requires RedAt(k, t, h) && (!k.Top? ==> k.c == Black)
    ensures Plug(k, t).Node? && RedBlack(Paint(Plug(k, t), Plug(k, t).v, Black))
  {
    if k.Top? {
      assert Rb(Paint(t, t.v, Black), h + 1);
    } else {
      PlugRb(k, t, h);
      assert Plug(k, t).(c := Black) == Plug(k, t);
    }
  }

  /** rb_link_node at an empty place. */
  method LinkNode(node: RbNode, parent: RbNode?, left: bool, root: RbRoot, ghost k: Ctx<RbNode>)
    requires root.Mirrored() && At(k, Leaf, root.mem) && parent == CtxPtr(k) && node !in CtxElems(k)
    requires !k.Top? ==> (left <==> k.InLeft?)
    modifies root, root.mem.at.Keys, node
    ensures root.Mirrored() && root.mem.at.Keys == old(root.mem.at.Keys) + {node}
    ensures At(k, Node(Leaf, node, Red, Leaf), root.mem)
  {
    ghost var m := root.mem;
    AtLinks(k, Leaf, m);
    Adopt(node, parent, root);
    ghost var m1 := root.mem;
    LinkedCtxFrame(k, null, m, m1);
    if parent == null {
      root.PutRoot(node);
    } else if left {
      root.PutLeft(parent, node);
    } else {
      root.PutRight(parent, node);
    }
    HungAt(k, node, m1, root.mem);
  }

  method Adopt(node: RbNode, parent: RbNode?, root: RbRoot)
    requires root.Mirrored()
    modifies root, node
    ensures root.Mirrored() && root.mem == old(root.mem).(at := old(root.mem).at[node := Cell(parent, null, null, Red)])
  {
    node.parent, node.color := parent, Red;
    node.left, node.right := null, null;
    root.mem := root.mem.(at := root.mem.at[node := Cell(parent, null, null, Red)]);
  }

  lemma HungAt(k: Ctx<RbNode>, node: RbNode, m: Mem, m2: Mem)
    requires LinkedCtx(k, null, m) && node !in CtxElems(k) && node in m.at && m.at[node] == Cell(CtxPtr(k), null, null, Red)
    requires k.Top? ==> m2 == m.(root := node)
    requires k.InLeft? ==> m2 == SetLeft(m, k.v, node)
    requires k.InRight? ==> m2 == SetRight(m, k.v, node)
    ensures At(k, Node(Leaf, node, Red, Leaf), m2)
  {
    match k
    case Top =>
    case InLeft(up, x, c, r) => LinkedFrame(r, x, m, m2); LinkedCtxFrame(up, x, m, m2);
    case InRight(l, x, c, up) => LinkedFrame(l, x, m, m2); LinkedCtxFrame(up, x, m, m2);
  }
}

/** rb_erase: splicing a node out and, when a black one went away, repairing the short side. */
module RbErase {
  import opened RbTheory
  import opened RbTree
  import opened RbInsert

  /** Legal except that the paths through the place are one black node short; a red node at the
      place is about to be painted black, which makes good for it. */
  ghost predicate ShortAt(k: Ctx<RbNode>, t: Tree<RbNode>, h: nat) {
    RbCtx(k, h + 1) && if IsBlack(t) then Rb(t, h) else Rb(Blacken(t), h + 1)
  }

  /** The measure of the repair: how deep the place is; a red node ends it. */
  ghost function Rank(k: Ctx<RbNode>, t: Tree<RbNode>): nat {
    if IsBlack(t) then 1 + Depth(k) else 0
  }

  /** The node right above the place and its links. */
  lemma UpLinks2(k: Ctx<RbNode>, t: Tree<RbNode>, m: Mem)
    requires At(k, t, m) && !k.Top?
    ensures k.v in m.at && m.at[k.v].c == k.c && m.at[k.v].parent == CtxPtr(k.up)
    ensures k.InLeft? ==> m.at[k.v].left == Ptr(t) && m.at[k.v].right == Ptr(k.right)
    ensures k.InRight? ==> m.at[k.v].right == Ptr(t) && m.at[k.v].left == Ptr(k.left)
  {
  }

  /** The links of a subtree's top node and its children's colours. */
  lemma SubLinks(k: Ctx<RbNode>, s: Tree<RbNode>, m: Mem)
    requires At(k, s, m) && s.Node?
    ensures s.v in m.at && m.at[s.v].c == s.c && m.at[s.v].left == Ptr(s.left) && m.at[s.v].right == Ptr(s.right)
    ensures s.left.Node? ==> s.left.v in m.at && m.at[s.left.v].c == s.left.c
    ensures s.right.Node? ==> s.right.v in m.at && m.at[s.right.v].c == s.right.c
  {
    assert Linked(s.left, s.v, m) && Linked(s.right, s.v, m);
  }

  function Sibling(k: Ctx<RbNode>): Tree<RbNode>
    requires !k.Top?
  {
    if k.InLeft? then k.right else k.left
  }

  /** The same tree seen from the sibling's place. */
  ghost function SiblingCtx(k: Ctx<RbNode>, t: Tree<RbNode>): Ctx<RbNode>
    requires !k.Top?
  {
    if k.InLeft? then InRight(t, k.v, k.c, k.up) else InLeft(k.up, k.v, k.c, t)
  }

  lemma Sideways(k: Ctx<RbNode>, t: Tree<RbNode>, m: Mem)
    requires !k.Top?
    ensures At(k, t, m) <==> At(SiblingCtx(k, t), Sibling(k), m)
  {
    LiftAt(k, t, m);
    LiftAt(SiblingCtx(k, t), Sibling(k), m);
  }

  lemma SiblingLinks(k: Ctx<RbNode>, t: Tree<RbNode>, m: Mem)
    requires At(k, t, m) && !k.Top?
    ensures k.v in m.at && m.at[k.v].c == k.c
    ensures k.InLeft? ==> m.at[k.v].right == Ptr(Sibling(k))
    ensures k.InRight? ==> m.at[k.v].left == Ptr(Sibling(k))
    ensures var s := Sibling(k);
            s.Node? ==>
              && s.v in m.at && m.at[s.v].c == s.c && m.at[s.v].left == Ptr(s.left) && m.at[s.v].right == Ptr(s.right)
              && (s.left.Node? ==> s.left.v in m.at && m.at[s.left.v].c == s.left.c)
              && (s.right.Node? ==> s.right.v in m.at && m.at[s.right.v].c == s.right.c)
  {
    UpLinks2(k, t, m);
    Sideways(k, t, m);
    if Sibling(k).Node? { SubLinks(SiblingCtx(k, t), Sibling(k), m); }
  }

  lemma ReddenOk(k: Ctx<RbNode>, t: Tree<RbNode>, h: nat, t2: Tree<RbNode>)
    requires ShortAt(k, t, h) && IsBlack(t) && !k.Top? && Sibling(k).Node? && Sibling(k).c == Black
    requires IsBlack(Sibling(k).left) && IsBlack(Sibling(k).right)
    requires var s := Sibling(k).(c := Red);
             t2 == if k.InLeft? then Node(t, k.v, k.c, s) else Node(s, k.v, k.c, t)
    ensures ShortAt(k.up, t2, if k.c == Red then h else h + 1) && Around(k.up, t2) == Around(k, t)
  {
    StepUp(k, h + 1);
    SameInorder(k.up, Lift(k, t), t2);
  }

  /** Black sibling with black children: it turns red, and the whole subtree above is short. */
  method Redden(parent: RbNode, other: RbNode, root: RbRoot, ghost k: Ctx<RbNode>, ghost t: Tree<RbNode>, ghost h: nat)
      returns (ghost t2: Tree<RbNode>)
    requires root.Mirrored() && At(k, t, root.mem) && ShortAt(k, t, h) && IsBlack(t)
    requires !k.Top? && k.v == parent && Sibling(k).Node? && Sibling(k).v == other && Sibling(k).c == Black
    requires IsBlack(Sibling(k).left) && IsBlack(Sibling(k).right)
    modifies root, root.mem.at.Keys
    ensures root.Mirrored() && root.mem.at.Keys == old(root.mem.at.Keys)
    ensures At(k.up, t2, root.mem) && Around(k.up, t2) == Around(k, t)
    ensures ShortAt(k.up, t2, if k.c == Red then h else h + 1) && Ptr(t2) == parent && (k.c == Red ==> !IsBlack(t2))
  {
    ghost var g := Lift(k, t);
    LiftAt(k, t, root.mem);
    DistinctTop(k.up, g, root.mem);
    PaintTop(g, Red);
    PaintNode(other, Red, root, k.up, g);
    t2 := Paint(g, other, Red);
    ReddenOk(k, t, h, t2);
  }

  lemma SiblingThere(k: Ctx<RbNode>, h: nat)
    requires RbCtx(k, h + 1) && !k.Top?
    ensures Sibling(k).Node?
  {
    StepUp(k, h + 1);
  }

  // ---- The place is the left child of `parent`.

  /** Red sibling: turned above the parent, so that the place gets a black sibling. */
  method RedSiblingLeft(parent: RbNode, other: RbNode, root: RbRoot, ghost k: Ctx<RbNode>, ghost t: Tree<RbNode>, ghost h: nat)
      returns (sibling: RbNode, ghost k2: Ctx<RbNode>)
    requires root.Mirrored() && At(k, t, root.mem) && ShortAt(k, t, h) && IsBlack(t)
    requires k.InLeft? && k.v == parent && k.right.Node? && k.right.v == other && k.right.c == Red
    modifies root, root.mem.at.Keys
    ensures root.Mirrored() && root.mem.at.Keys == old(root.mem.at.Keys)
    ensures At(k2, t, root.mem) && ShortAt(k2, t, h) && Around(k2, t) == Around(k, t)
    ensures k2.InLeft? && k2.v == parent && k2.c == Red && k2.right.Node? && k2.right.v == sibling && k2.right.c == Black
  {
    ghost var up, s := k.up, k.right;
    StepUp(k, h + 1);
    ghost var g := Lift(k, t);
    LiftAt(k, t, root.mem);
    DistinctTop(up, g, root.mem);
    PaintTop(g, Black);
    PaintNode(other, Black, root, up, g);
    g := Paint(g, other, Black);
    PaintTop(g, Red);
    PaintNode(parent, Red, root, up, g);
    RotateLeftHere(parent, root, up, t, Red, s.left, other, Black, s.right);
    k2 := InLeft(InLeft(up, other, Black, s.right), parent, Red, s.left);
    LiftAt(k2, t, root.mem);
    LiftAt(k2.up, Lift(k2, t), root.mem);
    UpLinks2(k2, t, root.mem);
    sibling := parent.right;
    RedSiblingLeftOk(k, t, h);
  }

  lemma RedSiblingLeftOk(k: Ctx<RbNode>, t: Tree<RbNode>, h: nat)
    requires ShortAt(k, t, h) && k.InLeft? && k.right.Node? && k.right.c == Red
    ensures var s := k.right;
            var k2 := InLeft(InLeft(k.up, s.v, Black, s.right), k.v, Red, s.left);
            ShortAt(k2, t, h) && Around(k2, t) == Around(k, t) && s.left.Node? && s.left.c == Black
  {
    StepUp(k, h + 1);
    var s := k.right;
    var k2 := InLeft(InLeft(k.up, s.v, Black, s.right), k.v, Red, s.left);
    assert RbCtx(k2.up, h + 1);
    TurnInorder(t, k.v, k.c, s.left, s.v, Red, s.right, Red, Black);
    SameInorder(k.up, Lift(k, t), Lift(k2.up, Lift(k2, t)));
  }

  /** Black sibling with a red child: one or two rotations bring the missing black node. */
  method BorrowLeft(parent: RbNode, other: RbNode, root: RbRoot, ghost k: Ctx<RbNode>, ghost t: Tree<RbNode>, ghost h: nat)
      returns (ghost t2: Tree<RbNode>)
    requires root.Mirrored() && At(k, t, root.mem) && ShortAt(k, t, h) && IsBlack(t)
    requires k.InLeft? && k.v == parent && k.right.Node? && k.right.v == other && k.right.c == Black
    requires !IsBlack(k.right.left) || !IsBlack(k.right.right)
    modifies root, root.mem.at.Keys
    ensures root.Mirrored() && root.mem.at.Keys == old(root.mem.at.Keys)
    ensures At(k.up, t2, root.mem) && RedBlack(Plug(k.up, t2)) && Around(k.up, t2) == Around(k, t)
  {
    var other := other;
    ghost var s := k.right;
    ghost var s2 := StraightenLeft(s);
    LiftAt(k, t, root.mem);
    SiblingLinks(k, t, root.mem);
    if other.right == null || other.right.color == Black {
      other := StraightenLeftHere(parent, other, root, k, t);
    }
    t2 := RaiseLeft(parent, other, root, k, t, s2);
    BorrowLeftOk(k, t, h);
  }

  /** The sibling with its red child on the side away from the place. */
  ghost function StraightenLeft(s: Tree<RbNode>): Tree<RbNode>
    requires s.Node? && (!IsBlack(s.left) || !IsBlack(s.right))
  {
    if !IsBlack(s.right) then s
    else Node(s.left.left, s.left.v, Black, Node(s.left.right, s.v, Red, s.right))
  }

  method StraightenLeftHere(parent: RbNode, other: RbNode, root: RbRoot, ghost k: Ctx<RbNode>, ghost t: Tree<RbNode>)
      returns (sibling: RbNode)
    requires root.Mirrored() && At(k, t, root.mem)
    requires k.InLeft? && k.v == parent && k.right.Node? && k.right.v == other && k.right.c == Black
    requires IsBlack(k.right.right) && !IsBlack(k.right.left)
    modifies root, root.mem.at.Keys
    ensures root.Mirrored() && root.mem.at.Keys == old(root.mem.at.Keys)
    ensures At(k.(right := StraightenLeft(k.right)), t, root.mem) && sibling == StraightenLeft(k.right).v
  {
    ghost var s := k.right;
    ghost var n := s.left;
    ghost var ks := InRight(t, parent, k.c, k.up);
    Sideways(k, t, root.mem);
    DistinctTop(ks, s, root.mem);
    SubLinks(ks, s, root.mem);
    var inner := other.left;
    if inner != null {
      PaintTop(s, Black);
      PaintNode(inner, Black, root, ks, s);
    }
    ghost var s1 := Paint(s, inner, Black);
    PaintTop(s1, Red);
    PaintNode(other, Red, root, ks, s1);
    RotateRightHere(other, root, ks, n.left, n.v, Black, n.right, Red, s.right);
    ghost var k2 := k.(right := StraightenLeft(s));
    Sideways(k2, t, root.mem);
    UpLinks2(k2, t, root.mem);
    sibling := parent.right;
  }

  method RaiseLeft(parent: RbNode, other: RbNode, root: RbRoot, ghost k: Ctx<RbNode>, ghost t: Tree<RbNode>, ghost s: Tree<RbNode>)
      returns (ghost t2: Tree<RbNode>)
    requires root.Mirrored() && k.InLeft? && k.v == parent && At(k.(right := s), t, root.mem)
    requires s.Node? && s.v == other && s.right.Node?
    modifies root, root.mem.at.Keys
    ensures root.Mirrored() && root.mem.at.Keys == old(root.mem.at.Keys)
    ensures t2 == Node(Node(t, parent, Black, s.left), other, k.c, s.right.(c := Black))
    ensures At(k.up, t2, root.mem)
  {
    hide Linked, LinkedCtx;
    ghost var k2, up := k.(right := s), k.up;
    ghost var g := Lift(k2, t);
    LiftAt(k2, t, root.mem);
    SiblingLinks(k2, t, root.mem);
    DistinctTop(up, g, root.mem);
    PaintTop(g, k.c);
    PaintNode(other, parent.color, root, up, g);
    ghost var s1 := s.(c := k.c);
    g := Node(t, parent, k.c, s1);
    PaintTop(g, Black);
    PaintNode(parent, Black, root, up, g);
    g := Node(t, parent, Black, s1);
    DownLeft(up, g, root.mem);
    SiblingLinks(InLeft(up, parent, Black, s1), t, root.mem);
    if other.right != null {
      PaintFarLeft(up, g, root.mem);
      PaintNode(other.right, Black, root, up, g);
    }
    RotateLeftHere(parent, root, up, t, Black, s.left, other, k.c, s.right.(c := Black));
    t2 := Node(Node(t, parent, Black, s.left), other, k.c, s.right.(c := Black));
  }

  lemma DownLeft(k: Ctx<RbNode>, t: Tree<RbNode>, m: Mem)
    requires At(k, t, m) && t.Node?
    ensures At(InLeft(k, t.v, t.c, t.right), t.left, m)
  {
  }

  lemma DownRight(k: Ctx<RbNode>, t: Tree<RbNode>, m: Mem)
    requires At(k, t, m) && t.Node?
    ensures At(InRight(t.left, t.v, t.c, k), t.right, m)
  {
  }

  lemma PaintFarLeft(k: Ctx<RbNode>, g: Tree<RbNode>, m: Mem)
    requires At(k, g, m) && g.Node? && g.right.Node? && g.right.right.Node?
    ensures g.right.right.v in Elems(g)
    ensures Paint(g, g.right.right.v, Black) == g.(right := g.right.(right := g.right.right.(c := Black)))
  {
    DistinctTop(k, g, m);
    assert Linked(g.right, g.v, m);
    PaintTop(g.right, Black);
  }

  lemma BorrowLeftOk(k: Ctx<RbNode>, t: Tree<RbNode>, h: nat)
    requires ShortAt(k, t, h) && IsBlack(t) && k.InLeft? && k.right.Node? && k.right.c == Black
    requires !IsBlack(k.right.left) || !IsBlack(k.right.right)
    ensures var s := StraightenLeft(k.right);
            s.right.Node?
            && var t2 := Node(Node(t, k.v, Black, s.left), s.v, k.c, s.right.(c := Black));
            RedBlack(Plug(k.up, t2)) && Around(k.up, t2) == Around(k, t)
  {
    StepUp(k, h + 1);
    var s0 := k.right;
    var s := StraightenLeft(s0);
    var t2 := Node(Node(t, k.v, Black, s.left), s.v, k.c, s.right.(c := Black));
    if IsBlack(s0.right) {
      var n := s0.left;
      TurnInorder(n.left, n.v, Black, n.right, s0.v, Red, s0.right, n.c, s0.c);
    }
    assert Inorder(s) == Inorder(s0) && Inorder(s.right.(c := Black)) == Inorder(s.right);
    TurnInorder(t, k.v, k.c, s.left, s.v, s.c, s.right.(c := Black), Black, k.c);
    SameInorder(k.up, Lift(k, t), t2);
    PlugRb(k.up, t2, if k.c == Red then h + 1 else h + 2);
  }

  /** One round of the loop of __rb_erase_color; `done` stands for its `break`. */
  method StepLeft(parent: RbNode, root: RbRoot, ghost k: Ctx<RbNode>, ghost t: Tree<RbNode>, ghost h: nat)
      returns (done: bool, ghost k2: Ctx<RbNode>, ghost t2: Tree<RbNode>, ghost h2: nat)
    requires root.Mirrored() && At(k, t, root.mem) && ShortAt(k, t, h) && IsBlack(t)
    requires k.InLeft? && k.v == parent
    modifies root, root.mem.at.Keys
    ensures root.Mirrored() && root.mem.at.Keys == old(root.mem.at.Keys)
    ensures At(k2, t2, root.mem) && Around(k2, t2) == Around(k, t)
    ensures done ==> RedBlack(Plug(k2, t2))
    ensures !done ==> ShortAt(k2, t2, h2) && Ptr(t2) == parent && (Rank(k2, t2) < Rank(k, t))
  {
    ghost var k1 := k;
    SiblingLinks(k, t, root.mem);
    SiblingThere(k, h);
    var other := parent.right;
    if other.color == Red {
      other, k1 := RedSiblingLeft(parent, other, root, k, t, h);
    }
    done, t2, h2 := BlackSiblingLeft(parent, other, root, k1, t, h);
    k2 := k1.up;
  }

  method BlackSiblingLeft(parent: RbNode, other: RbNode, root: RbRoot, ghost k: Ctx<RbNode>, ghost t: Tree<RbNode>, ghost h: nat)
      returns (done: bool, ghost t2: Tree<RbNode>, ghost h2: nat)
    requires root.Mirrored() && At(k, t, root.mem) && ShortAt(k, t, h) && IsBlack(t)
    requires k.InLeft? && k.v == parent && k.right.Node? && k.right.v == other && k.right.c == Black
    modifies root, root.mem.at.Keys
    ensures root.Mirrored() && root.mem.at.Keys == old(root.mem.at.Keys)
    ensures At(k.up, t2, root.mem) && Around(k.up, t2) == Around(k, t)
    ensures done ==> RedBlack(Plug(k.up, t2))
    ensures !done ==> ShortAt(k.up, t2, h2) && Ptr(t2) == parent && (k.c == Red ==> !IsBlack(t2))
  {
    SiblingLinks(k, t, root.mem);
    h2 := if k.c == Red then h else h + 1;
    if (other.left == null || other.left.color == Black) && (other.right == null || other.right.color == Black) {
      t2 := Redden(parent, other, root, k, t, h);
      done := false;
    } else {
      t2 := BorrowLeft(parent, other, root, k, t, h);
      done := true;
    }
  }

  // ---- The place is the right child of `parent`.

  /** Red sibling: turned above the parent, so that the place gets a black sibling. */
  method RedSiblingRight(parent: RbNode, other: RbNode, root: RbRoot, ghost k: Ctx<RbNode>, ghost t: Tree<RbNode>, ghost h: nat)
      returns (sibling: RbNode, ghost k2: Ctx<RbNode>)
    requires root.Mirrored() && At(k, t, root.mem) && ShortAt(k, t, h) && IsBlack(t)
    requires k.InRight? && k.v == parent && k.left.Node? && k.left.v == other && k.left.c == Red
    modifies root, root.mem.at.Keys
    ensures root.Mirrored() && root.mem.at.Keys == old(root.mem.at.Keys)
    ensures At(k2, t, root.mem) && ShortAt(k2, t, h) && Around(k2, t) == Around(k, t)
    ensures k2.InRight? && k2.v == parent && k2.c == Red && k2.left.Node? && k2.left.v == sibling && k2.left.c == Black
  {
    ghost var up, s := k.up, k.left;
    StepUp(k, h + 1);
    ghost var g := Lift(k, t);
    LiftAt(k, t, root.mem);
    DistinctTop(up, g, root.mem);
    PaintTop(g, Black);
    PaintNode(other, Black, root, up, g);
    g := Paint(g, other, Black);
    PaintTop(g, Red);
    PaintNode(parent, Red, root, up, g);
    RotateRightHere(parent, root, up, s.left, other, Black, s.right, Red, t);
    k2 := InRight(s.right, parent, Red, InRight(s.left, other, Black, up));
    LiftAt(k2, t, root.mem);
    LiftAt(k2.up, Lift(k2, t), root.mem);
    UpLinks2(k2, t, root.mem);
    sibling := parent.left;
    RedSiblingRightOk(k, t, h);
  }

  lemma RedSiblingRightOk(k: Ctx<RbNode>, t: Tree<RbNode>, h: nat)
    requires ShortAt(k, t, h) && k.InRight? && k.left.Node? && k.left.c == Red
    ensures var s := k.left;
            var k2 := InRight(s.right, k.v, Red, InRight(s.left, s.v, Black, k.up));
            ShortAt(k2, t, h) && Around(k2, t) == Around(k, t) && s.right.Node? && s.right.c == Black
  {
    StepUp(k, h + 1);
    var s := k.left;
    var k2 := InRight(s.right, k.v, Red, InRight(s.left, s.v, Black, k.up));
    assert RbCtx(k2.up, h + 1);
    TurnInorder(s.left, s.v, Black, s.right, k.v, Red, t, Red, k.c);
    SameInorder(k.up, Lift(k, t), Lift(k2.up, Lift(k2, t)));
  }

  /** Black sibling with a red child: one or two rotations bring the missing black node. */
  method BorrowRight(parent: RbNode, other: RbNode, root: RbRoot, ghost k: Ctx<RbNode>, ghost t: Tree<RbNode>, ghost h: nat)
      returns (ghost t2: Tree<RbNode>)
    requires root.Mirrored() && At(k, t, root.mem) && ShortAt(k, t, h) && IsBlack(t)
    requires k.InRight? && k.v == parent && k.left.Node? && k.left.v == other && k.left.c == Black
    requires !IsBlack(k.left.left) || !IsBlack(k.left.right)
    modifies root, root.mem.at.Keys
    ensures root.Mirrored() && root.mem.at.Keys == old(root.mem.at.Keys)
    ensures At(k.up, t2, root.mem) && RedBlack(Plug(k.up, t2)) && Around(k.up, t2) == Around(k, t)
  {
    var other := other;
    ghost var s := k.left;
    ghost var s2 := StraightenRight(s);
    LiftAt(k, t, root.mem);
    SiblingLinks(k, t, root.mem);
    if other.left == null || other.left.color == Black {
      other := StraightenRightHere(parent, other, root, k, t);
    }
    t2 := RaiseRight(parent, other, root, k, t, s2);
    BorrowRightOk(k, t, h);
  }

  /** The sibling with its red child on the side away from the place. */
  ghost function StraightenRight(s: Tree<RbNode>): Tree<RbNode>
    requires s.Node? && (!IsBlack(s.left) || !IsBlack(s.right))
  {
    if !IsBlack(s.left) then s
    else Node(Node(s.left, s.v, Red, s.right.left), s.right.v, Black, s.right.right)
  }

  method StraightenRightHere(parent: RbNode, other: RbNode, root: RbRoot, ghost k: Ctx<RbNode>, ghost t: Tree<RbNode>)
      returns (sibling: RbNode)
    requires root.Mirrored() && At(k, t, root.mem)
    requires k.InRight? && k.v == parent && k.left.Node? && k.left.v == other && k.left.c == Black
    requires IsBlack(k.left.left) && !IsBlack(k.left.right)
    modifies root, root.mem.at.Keys
    ensures root.Mirrored() && root.mem.at.Keys == old(root.mem.at.Keys)
    ensures At(k.(left := StraightenRight(k.left)), t, root.mem) && sibling == StraightenRight(k.left).v
  {
    ghost var s := k.left;
    ghost var n := s.right;
    ghost var ks := InLeft(k.up, parent, k.c, t);
    Sideways(k, t, root.mem);
    DistinctTop(ks, s, root.mem);
    SubLinks(ks, s, root.mem);
    var inner := other.right;
    if inner != null {
      PaintTop(s, Black);
      PaintNode(inner, Black, root, ks, s);
    }
    ghost var s1 := Paint(s, inner, Black);
    PaintTop(s1, Red);
    PaintNode(other, Red, root, ks, s1);
    RotateLeftHere(other, root, ks, s.left, Red, n.left, n.v, Black, n.right);
    ghost var k2 := k.(left := StraightenRight(s));
    Sideways(k2, t, root.mem);
    UpLinks2(k2, t, root.mem);
    sibling := parent.left;
  }

  method RaiseRight(parent: RbNode, other: RbNode, root: RbRoot, ghost k: Ctx<RbNode>, ghost t: Tree<RbNode>, ghost s: Tree<RbNode>)
      returns (ghost t2: Tree<RbNode>)
    requires root.Mirrored() && k.InRight? && k.v == parent && At(k.(left := s), t, root.mem)
    requires s.Node? && s.v == other && s.left.Node?
    modifies root, root.mem.at.Keys
    ensures root.Mirrored() && root.mem.at.Keys == old(root.mem.at.Keys)
    ensures t2 == Node(s.left.(c := Black), other, k.c, Node(s.right, parent, Black, t))
    ensures At(k.up, t2, root.mem)
  {
    hide Linked, LinkedCtx;
    ghost var k2, up := k.(left := s), k.up;
    ghost var g := Lift(k2, t);
    LiftAt(k2, t, root.mem);
    SiblingLinks(k2, t, root.mem);
    DistinctTop(up, g, root.mem);
    PaintTop(g, k.c);
    PaintNode(other, parent.color, root, up, g);
    ghost var s1 := s.(c := k.c);
    g := Node(s1, parent, k.c, t);
    PaintTop(g, Black);
    PaintNode(parent, Black, root, up, g);
    g := Node(s1, parent, Black, t);
    DownRight(up, g, root.mem);
    SiblingLinks(InRight(s1, parent, Black, up), t, root.mem);
    if other.left != null {
      PaintFarRight(up, g, root.mem);
      PaintNode(other.left, Black, root, up, g);
    }
    RotateRightHere(parent, root, up, s.left.(c := Black), other, k.c, s.right, Black, t);
    t2 := Node(s.left.(c := Black), other, k.c, Node(s.right, parent, Black, t));
  }

  lemma PaintFarRight(k: Ctx<RbNode>, g: Tree<RbNode>, m: Mem)
    requires At(k, g, m) && g.Node? && g.left.Node? && g.left.left.Node?
    ensures g.left.left.v in Elems(g)
    ensures Paint(g, g.left.left.v, Black) == g.(left := g.left.(left := g.left.left.(c := Black)))
  {
    DistinctTop(k, g, m);
    assert Linked(g.left, g.v, m);
    PaintTop(g.left, Black);
  }

  lemma BorrowRightOk(k: Ctx<RbNode>, t: Tree<RbNode>, h: nat)
    requires ShortAt(k, t, h) && IsBlack(t) && k.InRight? && k.left.Node? && k.left.c == Black
    requires !IsBlack(k.left.left) || !IsBlack(k.left.right)
    ensures var s := StraightenRight(k.left);
            s.left.Node?
            && var t2 := Node(s.left.(c := Black), s.v, k.c, Node(s.right, k.v, Black, t));
            RedBlack(Plug(k.up, t2)) && Around(k.up, t2) == Around(k, t)
  {
    StepUp(k, h + 1);
    var s0 := k.left;
    var s := StraightenRight(s0);
    var t2 := Node(s.left.(c := Black), s.v, k.c, Node(s.right, k.v, Black, t));
    if IsBlack(s0.left) {
      var n := s0.right;
      TurnInorder(s0.left, s0.v, s0.c, n.left, n.v, n.c, n.right, Red, Black);
    }
    assert Inorder(s) == Inorder(s0) && Inorder(s.left.(c := Black)) == Inorder(s.left);
    TurnInorder(s.left.(c := Black), s.v, k.c, s.right, k.v, Black, t, s.c, k.c);
    SameInorder(k.up, Lift(k, t), t2);
    PlugRb(k.up, t2, if k.c == Red then h + 1 else h + 2);
  }

  /** One round of the loop of __rb_erase_color; `done` stands for its `break`. */
  method StepRight(parent: RbNode, root: RbRoot, ghost k: Ctx<RbNode>, ghost t: Tree<RbNode>, ghost h: nat)
      returns (done: bool, ghost k2: Ctx<RbNode>, ghost t2: Tree<RbNode>, ghost h2: nat)
    requires root.Mirrored() && At(k, t, root.mem) && ShortAt(k, t, h) && IsBlack(t)
    requires k.InRight? && k.v == parent
    modifies root, root.mem.at.Keys
    ensures root.Mirrored() && root.mem.at.Keys == old(root.mem.at.Keys)
    ensures At(k2, t2, root.mem) && Around(k2, t2) == Around(k, t)
    ensures done ==> RedBlack(Plug(k2, t2))
    ensures !done ==> ShortAt(k2, t2, h2) && Ptr(t2) == parent && (Rank(k2, t2) < Rank(k, t))
  {
    ghost var k1 := k;
    SiblingLinks(k, t, root.mem);
    SiblingThere(k, h);
    var other := parent.left;
    if other.color == Red {
      other, k1 := RedSiblingRight(parent, other, root, k, t, h);
    }
    done, t2, h2 := BlackSiblingRight(parent, other, root, k1, t, h);
    k2 := k1.up;
  }

  method BlackSiblingRight(parent: RbNode, other: RbNode, root: RbRoot, ghost k: Ctx<RbNode>, ghost t: Tree<RbNode>, ghost h: nat)
      returns (done: bool, ghost t2: Tree<RbNode>, ghost h2: nat)
    requires root.Mirrored() && At(k, t, root.mem) && ShortAt(k, t, h) && IsBlack(t)
    requires k.InRight? && k.v == parent && k.left.Node? && k.left.v == other && k.left.c == Black
    modifies root, root.mem.at.Keys
    ensures root.Mirrored() && root.mem.at.Keys == old(root.mem.at.Keys)
    ensures At(k.up, t2, root.mem) && Around(k.up, t2) == Around(k, t)
    ensures done ==> RedBlack(Plug(k.up, t2))
    ensures !done ==> ShortAt(k.up, t2, h2) && Ptr(t2) == parent && (k.c == Red ==> !IsBlack(t2))
  {
    SiblingLinks(k, t, root.mem);
    h2 := if k.c == Red then h else h + 1;
    if (other.left == null || other.left.color == Black) && (other.right == null || other.right.color == Black) {
      t2 := Redden(parent, other, root, k, t, h);
      done := false;
    } else {
      t2 := BorrowRight(parent, other, root, k, t, h);
      done := true;
    }
  }

  /** __rb_erase_color. */
  method EraseColor(node: RbNode?, parent: RbNode?, root: RbRoot, ghost k0: Ctx<RbNode>, ghost t0: Tree<RbNode>, ghost h0: nat)
      returns (ghost tree: Tree<RbNode>)
    requires root.Mirrored() && At(k0, t0, root.mem) && ShortAt(k0, t0, h0) && node == Ptr(t0) && parent == CtxPtr(k0)
    modifies root, root.mem.at.Keys
    ensures root.Mirrored() && root.mem.at.Keys == old(root.mem.at.Keys)
    ensures At(Top, tree, root.mem) && RedBlack(tree) && Inorder(tree) == Around(k0, t0)
  {
    var node, parent := node, parent;
    ghost var k, t, h := k0, t0, h0;
    TopLinks(k, t, root.mem);
    while (node == null || node.color == Black) && node != root.node
      invariant root.Mirrored() && root.mem.at.Keys == old(root.mem.at.Keys)
      invariant At(k, t, root.mem) && ShortAt(k, t, h) && node == Ptr(t) && parent == CtxPtr(k)
      invariant Around(k, t) == Around(k0, t0)
      invariant node != null ==> node.color == t.c
      invariant node == root.node <==> k.Top?
      decreases Rank(k, t)
    {
      SideLinks(k, t, h, root.mem);
      var done;
      ghost var k1, t1, h1;
      if parent.left == node {
        done, k1, t1, h1 := StepLeft(parent, root, k, t, h);
      } else {
        done, k1, t1, h1 := StepRight(parent, root, k, t, h);
      }
      if done {
        t := Plug(k1, t1);
        PlugAt(k1, t1, root.mem);
        k, h := Top, Settle(t);
        node := root.node;
        TopLinks(k, t, root.mem);
        break;
      }
      k, t, h := k1, t1, h1;
      node := parent;
      TopLinks(k, t, root.mem);
      parent := node.parent;
    }
    tree := Settled(node, root, k, t, h);
  }

  ghost function Settle(t: Tree<RbNode>): (h: nat)
    requires RedBlack(t)
    ensures Rb(t, h) && IsBlack(t)
  {
    var h: nat :| Rb(t, h);
    h
  }

  /** The node where the loop ends, if any, turns black. */
  method Settled(node: RbNode?, root: RbRoot, ghost k: Ctx<RbNode>, ghost t: Tree<RbNode>, ghost h: nat)
      returns (ghost tree: Tree<RbNode>)
    requires root.Mirrored() && At(k, t, root.mem) && ShortAt(k, t, h) && node == Ptr(t) && (k.Top? || !IsBlack(t))
    modifies root, root.mem.at.Keys
    ensures root.Mirrored() && root.mem.at.Keys == old(root.mem.at.Keys)
    ensures At(Top, tree, root.mem) && RedBlack(tree) && Inorder(tree) == Around(k, t)
  {
    ghost var t2 := t;
    if node != null {
      PaintNode(node, Black, root, k, t);
      t2 := Paint(t, node, Black);
      assert t2 == Blacken(t);
    }
    tree := Plug(k, t2);
    SameInorder(k, t, t2);
    PlugAt(k, t2, root.mem);
    PlugRb(k, t2, if IsBlack(t) then h else h + 1);
  }

  lemma TopLinks(k: Ctx<RbNode>, t: Tree<RbNode>, m: Mem)
    requires At(k, t, m)
    ensures t.Node? ==> t.v in m.at && m.at[t.v].c == t.c && m.at[t.v].parent == CtxPtr(k)
    ensures m.root == Ptr(t) <==> k.Top?
  {
    RootInCtx(k, Ptr(t), m);
  }

  lemma {:induction false} RootInCtx(k: Ctx<RbNode>, n: RbNode?, m: Mem)
    requires LinkedCtx(k, n, m)
    ensures if k.Top? then m.root == n else m.root in CtxElems(k)
    decreases k
  {
    if k.InLeft? || k.InRight? { RootInCtx(k.up, k.v, m); }
  }

  /** The side of the place can be read off the parent's left link. */
  lemma SideLinks(k: Ctx<RbNode>, t: Tree<RbNode>, h: nat, m: Mem)
    requires At(k, t, m) && ShortAt(k, t, h) && !k.Top?
    ensures k.v in m.at && (m.at[k.v].left == Ptr(t) <==> k.InLeft?)
  {
    UpLinks2(k, t, m);
    StepUp(k, h + 1);
    assert Sibling(k).Node?;
    Sideways(k, t, m);
  }

  // ---- Splicing.

  /** The memory after `node` was replaced by its only child. */
  ghost function Spliced(m: Mem, node: RbNode, child: RbNode?, parent: RbNode?): Mem {
    SetLink(SetParent(m, child, parent), parent, node, child)
  }

  method Splice(node: RbNode, child: RbNode?, parent: RbNode?, root: RbRoot)
    requires root.Mirrored() && Known(root.mem, child) && Known(root.mem, parent)
    modifies root, root.mem.at.Keys
    ensures root.Mirrored() && root.mem == Spliced(old(root.mem), node, child, parent)
  {
    if child != null {
      root.PutParent(child, parent);
    }
    root.PutLink(parent, node, child);
  }

  lemma SpliceAt(k: Ctx<RbNode>, t: Tree<RbNode>, m: Mem)
    requires At(k, t, m) && t.Node? && (t.left.Leaf? || t.right.Leaf?)
    ensures var s := OnlyChild(t);
            && Known(m, Ptr(s)) && Known(m, CtxPtr(k))
            && var m2 := Spliced(m, t.v, Ptr(s), CtxPtr(k));
            At(k, s, m2) && m2.at.Keys == m.at.Keys && t.v in m.at && m2.at[t.v] == m.at[t.v]
  {
    hide Plug, Elems, CtxElems;
    AtLinks(k, t, m);
    SpliceApart(k, t, m);
    var s := OnlyChild(t);
    var m2 := Spliced(m, t.v, Ptr(s), CtxPtr(k));
    Reparent(s, t.v, CtxPtr(k), m, m2);
    Relink(k, t.v, Ptr(s), m, m2);
  }

  function OnlyChild(t: Tree<RbNode>): Tree<RbNode>
    requires t.Node?
  {
    if t.left.Leaf? then t.right else t.left
  }

  lemma SpliceApart(k: Ctx<RbNode>, t: Tree<RbNode>, m: Mem)
    requires At(k, t, m) && t.Node? && (t.left.Leaf? || t.right.Leaf?)
    ensures var s := OnlyChild(t);
            && Linked(s, t.v, m) && LinkedCtx(k, t.v, m) && CtxElems(k) !! Elems(s) && t.v !in Elems(s) && t.v !in CtxElems(k)
            && CtxPtr(k) !in Elems(s) && Ptr(s) !in CtxElems(k) && CtxPtr(k) != t.v && Ptr(s) != t.v
            && (k.InRight? ==> Ptr(k.left) != t.v) && (Ptr(s) != null ==> Ptr(s) in m.at)
  {
  }

  lemma {:induction false} ComposeAt(sp: Ctx<RbNode>, base: Ctx<RbNode>, t: Tree<RbNode>, m: Mem)
    ensures At(Compose(sp, base), t, m) <==> At(base, Plug(sp, t), m)
    decreases sp
  {
    if !sp.Top? {
      LiftAt(Compose(sp, base), t, m);
      LiftAt(sp, t, m);
      ComposeAt(sp.up, base, Lift(sp, t), m);
    }
  }

  /** The memory after `x` took over all links of `old`. */
  ghost function Replaced(m: Mem, old_: RbNode, x: RbNode): Mem
    requires old_ in m.at
  {
    var o := m.at[old_];
    var m1 := m.(at := m.at[x := o]);
    SetParent(SetParent(SetLink(m1, o.parent, old_, x), o.left, x), o.right, x)
  }

  ghost predicate CanReplace(m: Mem, old_: RbNode, x: RbNode) {
    && old_ in m.at && x in m.at && x != old_
    && var o := m.at[old_];
    && Known(m, o.parent) && Known(m, o.left) && Known(m, o.right) && o.left != null
    && o.parent != old_ && x != o.parent && x != o.left && x != o.right && o.left != o.right
    && o.parent != o.left && (o.right != null ==> o.parent != o.right)
  }

  method CopyLinks(old_: RbNode, node: RbNode, root: RbRoot)
    requires root.Mirrored() && old_ in root.mem.at && node in root.mem.at && old_ != node
    modifies root, node
    ensures root.Mirrored() && root.mem == old(root.mem.(at := root.mem.at[node := root.mem.at[old_]]))
  {
    node.parent := old_.parent;
    node.color := old_.color;
    node.right := old_.right;
    node.left := old_.left;
    root.mem := root.mem.(at := root.mem.at[node := root.mem.at[old_]]);
  }

  method Replace(old_: RbNode, node: RbNode, root: RbRoot)
    requires root.Mirrored() && CanReplace(root.mem, old_, node)
    modifies root, root.mem.at.Keys
    ensures root.Mirrored() && root.mem == Replaced(old(root.mem), old_, node)
  {
    CopyLinks(old_, node, root);
    root.PutLink(old_.parent, old_, node);
    assert root.mem.at[old_] == old(root.mem).at[old_];
    root.PutParent(old_.left, node);
    assert root.mem.at[old_].right == old(root.mem).at[old_].right;
    if old_.right != null {
      root.PutParent(old_.right, node);
    }
  }

  lemma ReplacedCells(m: Mem, old_: RbNode, x: RbNode)
    requires CanReplace(m, old_, x)
    ensures var o, m2 := m.at[old_], Replaced(m, old_, x);
            && m2.at.Keys == m.at.Keys && m2.at[x] == o && m2.root == (if o.parent == null then x else m.root)
            && m2.at[o.left] == m.at[o.left].(parent := x)
            && (o.right != null ==> m2.at[o.right] == m.at[o.right].(parent := x))
            && (o.parent != null ==>
                  m2.at[o.parent] == if m.at[o.parent].left == old_ then m.at[o.parent].(left := x) else m.at[o.parent].(right := x))
            && forall n :: n in m.at && n != x && n != o.left && n != o.right && n != o.parent ==> m2.at[n] == m.at[n]
  {
  }

  lemma ReplaceAt(k: Ctx<RbNode>, l: Tree<RbNode>, old_: RbNode, c: Color, r: Tree<RbNode>, x: RbNode, m: Mem)
    requires At(k, Node(l, old_, c, r), m) && l.Node? && x in m.at
    requires x !in CtxElems(k) && x !in Elems(l) && x !in Elems(r) && x != old_
    ensures CanReplace(m, old_, x) && At(k, Node(l, x, c, r), Replaced(m, old_, x))
  {
    AtLinks(k, Node(l, old_, c, r), m);
    ReplacedCells(m, old_, x);
    ReplacedAt(k, l, old_, c, r, x, m, Replaced(m, old_, x));
  }

  /** `x` took over the cell of `old_`, and the neighbours of `old_` were told. */
  ghost predicate HandedOver(m: Mem, m2: Mem, k: Ctx<RbNode>, l: RbNode, old_: RbNode, r: RbNode?, x: RbNode)
    requires x in m.at && old_ in m.at
  {
    && m2.at.Keys == m.at.Keys && m2.at[x] == m.at[old_] && m2.root == (if k.Top? then x else m.root)
    && l in m.at && m2.at[l] == m.at[l].(parent := x)
    && (r != null ==> r in m.at && m2.at[r] == m.at[r].(parent := x))
    && (!k.Top? ==> k.v in m.at && LinkTo(m.at[k.v], m2.at[k.v], old_, x))
    && forall n :: n in m.at && n != x && n != l && n != r && n != CtxPtr(k) ==> m2.at[n] == m.at[n]
  }

  predicate LinkTo(cell: Cell, cell2: Cell, old_: RbNode, x: RbNode) {
    cell2 == if cell.left == old_ then cell.(left := x) else cell.(right := x)
  }

  lemma ReplacedAt(k: Ctx<RbNode>, l: Tree<RbNode>, old_: RbNode, c: Color, r: Tree<RbNode>, x: RbNode, m: Mem, m2: Mem)
    requires At(k, Node(l, old_, c, r), m) && l.Node? && x in m.at && old_ in m.at
    requires x !in CtxElems(k) && x !in Elems(l) && x !in Elems(r) && x != old_
    requires HandedOver(m, m2, k, l.v, old_, Ptr(r), x)
    ensures At(k, Node(l, x, c, r), m2)
  {
    assert k.InRight? ==> Ptr(k.left) != old_;
    Relink(k, old_, x, m, m2);
    Reparent(l, old_, x, m, m2);
    Reparent(r, old_, x, m, m2);
  }

  /** Splicing out a red node harms nothing; splicing out a black one leaves the place one short. */
  lemma SplicedOk(k: Ctx<RbNode>, t: Tree<RbNode>, h: nat)
    requires RbCtx(k, h) && Rb(t, h) && t.Node? && (t.left.Leaf? || t.right.Leaf?)
    ensures t.c == Black ==> h > 0 && ShortAt(k, OnlyChild(t), h - 1)
    ensures t.c == Red ==> RedBlack(Plug(k, OnlyChild(t)))
  {
    if t.c == Red {
      PlugRb(k, OnlyChild(t), h);
    }
  }

  /** The end of rb_erase, after `label color`. */
  method Rebalance(child: RbNode?, parent: RbNode?, color: Color, root: RbRoot, ghost k: Ctx<RbNode>, ghost s: Tree<RbNode>, ghost h: nat)
      returns (ghost tree: Tree<RbNode>)
    requires root.Mirrored() && At(k, s, root.mem) && child == Ptr(s) && parent == CtxPtr(k)
    requires color == Black ==> h > 0 && ShortAt(k, s, h - 1)
    requires color == Red ==> RedBlack(Plug(k, s))
    modifies root, root.mem.at.Keys
    ensures root.Mirrored() && root.mem.at.Keys == old(root.mem.at.Keys)
    ensures At(Top, tree, root.mem) && RedBlack(tree) && Inorder(tree) == Around(k, s)
  {
    if color == Black {
      tree := EraseColor(child, parent, root, k, s, h - 1);
    } else {
      tree := Plug(k, s);
      PlugAt(k, s, root.mem);
    }
  }

  /** Goes down to the successor of `old_`: the leftmost node of its right subtree. */
  method Successor(old_: RbNode, root: RbRoot, ghost k: Ctx<RbNode>, ghost t: Tree<RbNode>)
      returns (node: RbNode, ghost sp: Ctx<RbNode>, ghost s: Tree<RbNode>)
    requires root.Mirrored() && At(k, t, root.mem) && t.Node? && t.v == old_ && t.right.Node?
    ensures s.Node? && s.v == node && s.left.Leaf? && AllLeft(sp) && Plug(sp, s) == t.right
    ensures At(Compose(sp, InRight(t.left, old_, t.c, k)), s, root.mem)
  {
    ghost var base := InRight(t.left, old_, t.c, k);
    sp, s := Top, t.right;
    ZipRight(t.left, old_, t.c, k, t.right, root.mem);
    SubLinks(k, t, root.mem);
    SubLinks(base, s, root.mem);
    node := old_.right;
    var left := node.left;
    while left != null
      invariant s.Node? && s.v == node && AllLeft(sp) && Plug(sp, s) == t.right
      invariant At(Compose(sp, base), s, root.mem) && left == Ptr(s.left)
      decreases s
    {
      node := left;
      ZipLeft(Compose(sp, base), s.v, s.c, s.right, s.left, root.mem);
      sp, s := InLeft(sp, s.v, s.c, s.right), s.left;
      SubLinks(Compose(sp, base), s, root.mem);
      left := node.left;
    }
  }

  /** rb_erase of a node with two children: its successor is spliced out and put in its place. */
  method EraseInner(old_: RbNode, root: RbRoot, ghost k: Ctx<RbNode>, ghost t: Tree<RbNode>) returns (ghost tree: Tree<RbNode>)
    requires root.Mirrored() && At(k, t, root.mem) && RedBlack(Plug(k, t)) && t.Node? && t.v == old_
    requires t.left.Node? && t.right.Node?
    modifies root, root.mem.at.Keys
    ensures root.Mirrored() && root.mem.at.Keys == old(root.mem.at.Keys)
    ensures At(Top, tree, root.mem) && RedBlack(tree)
    ensures Inorder(tree) == Before(k) + Inorder(t.left) + Inorder(t.right) + After(k)
  {
    ghost var sp, s;
    var node;
    node, sp, s := Successor(old_, root, k, t);
    ghost var k1, k2 := Compose(sp, InRight(t.left, old_, t.c, k)), Compose(sp, InRight(t.left, node, t.c, k));
    SubLinks(k1, s, root.mem);
    UpLinks(k1, s, root.mem);
    var child, parent, color := node.right, node.parent, node.color;
    SpineParent(sp, InRight(t.left, old_, t.c, k), s, root.mem);
    SwapAt(k, t, sp, s, root.mem);
    Splice(node, child, parent, root);
    if node.parent == old_ {
      parent := node;
    }
    Replace(old_, node, root);
    ghost var h := InnerOk(k, t, sp, s);
    tree := Rebalance(child, parent, color, root, k2, s.right, h);
    InnerOrder(k, t, sp, s);
  }

  /** The successor `s.v` is spliced out and takes over the links of `t.v`. */
  lemma SwapAt(k: Ctx<RbNode>, t: Tree<RbNode>, sp: Ctx<RbNode>, s: Tree<RbNode>, m: Mem)
    requires t.Node? && t.left.Node? && s.Node? && s.left.Leaf?
    requires At(Compose(sp, InRight(t.left, t.v, t.c, k)), s, m)
    ensures var k1 := Compose(sp, InRight(t.left, t.v, t.c, k));
            && Known(m, Ptr(s.right)) && Known(m, CtxPtr(k1))
            && var m2 := Spliced(m, s.v, Ptr(s.right), CtxPtr(k1));
            && m2.at.Keys == m.at.Keys && s.v in m.at && m2.at[s.v] == m.at[s.v] && CanReplace(m2, t.v, s.v)
            && Replaced(m2, t.v, s.v).at.Keys == m.at.Keys
            && At(Compose(sp, InRight(t.left, s.v, t.c, k)), s.right, Replaced(m2, t.v, s.v))
  {
    var b1, b2 := InRight(t.left, t.v, t.c, k), InRight(t.left, s.v, t.c, k);
    var r := Plug(sp, s.right);
    FreshName(k, t, sp, s, m);
    SpliceAt(Compose(sp, b1), s, m);
    var m2 := Spliced(m, s.v, Ptr(s.right), CtxPtr(Compose(sp, b1)));
    ComposeAt(sp, b1, s.right, m2);
    ZipRight(t.left, t.v, t.c, k, r, m2);
    ReplaceAt(k, t.left, t.v, t.c, r, s.v, m2);
    ZipRight(t.left, s.v, t.c, k, r, Replaced(m2, t.v, s.v));
    ComposeAt(sp, b2, s.right, Replaced(m2, t.v, s.v));
  }

  lemma FreshName(k: Ctx<RbNode>, t: Tree<RbNode>, sp: Ctx<RbNode>, s: Tree<RbNode>, m: Mem)
    requires t.Node? && s.Node? && s.left.Leaf?
    requires At(Compose(sp, InRight(t.left, t.v, t.c, k)), s, m)
    ensures s.v !in CtxElems(k) && s.v !in Elems(t.left) && s.v != t.v && s.v !in Elems(Plug(sp, s.right))
  {
    var base := InRight(t.left, t.v, t.c, k);
    LinkedSelf(Compose(sp, base), s, m);
    assert s.v !in CtxElems(sp) + (CtxElems(k) + {t.v} + Elems(t.left)) by { ComposeElems(sp, base); }
    SetsApart(CtxElems(sp), CtxElems(k), t.v, Elems(t.left), s.v);
    assert s.v !in Elems(Plug(sp, s.right)) by { PlugElems(sp, s.right); }

  }

  lemma SpineParent(sp: Ctx<RbNode>, base: Ctx<RbNode>, s: Tree<RbNode>, m: Mem)
    requires At(Compose(sp, base), s, m) && !base.Top? && s.Node?
    ensures s.v in m.at
    ensures sp.Top? ==> m.at[s.v].parent == base.v
    ensures !sp.Top? ==> m.at[s.v].parent != base.v
  {
    UpLinks(Compose(sp, base), s, m);
    assert LinkedCtx(Compose(sp, base), Ptr(s), m);
    SpineApart(sp, base, Ptr(s), m);
  }

  lemma SetsApart(a: set<RbNode>, b: set<RbNode>, x: RbNode, c: set<RbNode>, n: RbNode)
    requires n !in a + (b + {x} + c)
    ensures n !in a && n !in b && n != x && n !in c
  {
  }

  lemma LinkedSelf(k: Ctx<RbNode>, s: Tree<RbNode>, m: Mem)
    requires At(k, s, m) && s.Node?
    ensures s.v !in CtxElems(k) && s.v !in Elems(s.left) && s.v !in Elems(s.right)
  {
  }

  lemma {:induction false} ComposeElems(sp: Ctx<RbNode>, base: Ctx<RbNode>)
    ensures CtxElems(Compose(sp, base)) == CtxElems(sp) + CtxElems(base)
    decreases sp
  {
    if !sp.Top? { ComposeElems(sp.up, base); }
  }

  lemma {:induction false} SpineApart(sp: Ctx<RbNode>, base: Ctx<RbNode>, n: RbNode?, m: Mem)
    requires LinkedCtx(Compose(sp, base), n, m) && !base.Top?
    ensures base.v !in CtxElems(sp)
    decreases sp
  {
    if !sp.Top? {
      SpineApart(sp.up, base, sp.v, m);
      ComposeElems(sp.up, base);
    }
  }

  lemma InnerOk(k: Ctx<RbNode>, t: Tree<RbNode>, sp: Ctx<RbNode>, s: Tree<RbNode>) returns (h: nat)
    requires RedBlack(Plug(k, t)) && t.Node? && s.Node? && s.left.Leaf? && Plug(sp, s) == t.right
    ensures var k2 := Compose(sp, InRight(t.left, s.v, t.c, k));
            && (s.c == Black ==> h > 0 && ShortAt(k2, s.right, h - 1))
            && (s.c == Red ==> RedBlack(Plug(k2, s.right)))
  {
    var base := InRight(t.left, t.v, t.c, k);
    PlugCompose(sp, base, s);
    h := UnplugRb(Compose(sp, base), s);
    RenameRb(sp, k, t.left, t.v, s.v, t.c, h);
    SplicedOk(Compose(sp, InRight(t.left, s.v, t.c, k)), s, h);
  }

  lemma FrontJoin<T>(x: T, c: seq<T>, d: seq<T>)
    ensures [] + ([] + [x] + c) + d == [x] + ([] + c + d)
  {
  }

  lemma FiveJoin<T>(a: seq<T>, b: seq<T>, x: T, c: seq<T>, d: seq<T>)
    ensures (a + b + [x]) + c + d == a + b + ([x] + c) + d
  {
  }

  /** The end of a left spine comes first. */
  lemma LeftmostFirst(sp: Ctx<RbNode>, s: Tree<RbNode>)
    requires s.Node? && s.left.Leaf? && AllLeft(sp)
    ensures Inorder(Plug(sp, s)) == [s.v] + Inorder(Plug(sp, s.right))
  {
    hide Plug, After;
    PlugInorder(sp, s.right);
    PlugInorder(sp, s);
    AllLeftBefore(sp);
    assert Inorder(s.left) == [];
    FrontJoin(s.v, Inorder(s.right), After(sp));
  }

  lemma InnerOrder(k: Ctx<RbNode>, t: Tree<RbNode>, sp: Ctx<RbNode>, s: Tree<RbNode>)
    requires t.Node? && s.Node? && s.left.Leaf? && Plug(sp, s) == t.right && AllLeft(sp)
    ensures Around(Compose(sp, InRight(t.left, s.v, t.c, k)), s.right)
         == Before(k) + Inorder(t.left) + Inorder(t.right) + After(k)
  {
    hide Plug, Compose;
    var base := InRight(t.left, s.v, t.c, k);
    PlugCompose(sp, base, s.right);
    PlugInorder(base, Plug(sp, s.right));
    LeftmostFirst(sp, s);
    assert Before(base) == Before(k) + Inorder(t.left) + [s.v] && After(base) == After(k);
    FiveJoin(Before(k), Inorder(t.left), s.v, Inorder(Plug(sp, s.right)), After(k));
  }

  /** rb_erase. */
  method Erase(node: RbNode, root: RbRoot, ghost k: Ctx<RbNode>, ghost t: Tree<RbNode>) returns (ghost tree: Tree<RbNode>)
    requires root.Mirrored() && At(k, t, root.mem) && RedBlack(Plug(k, t)) && t.Node? && t.v == node
    modifies root, root.mem.at.Keys
    ensures root.Mirrored() && root.mem.at.Keys == old(root.mem.at.Keys)
    ensures At(Top, tree, root.mem) && RedBlack(tree)
    ensures Inorder(tree) == Before(k) + Inorder(t.left) + Inorder(t.right) + After(k)
  {
    SubLinks(k, t, root.mem);
    UpLinks(k, t, root.mem);
    var child;
    if node.left == null {
      child := node.right;
    } else if node.right == null {
      child := node.left;
    } else {
      tree := EraseInner(node, root, k, t);
      return;
    }
    var parent, color := node.parent, node.color;
    ghost var s := OnlyChild(t);
    SpliceAt(k, t, root.mem);
    Splice(node, child, parent, root);
    ghost var h := OuterOk(k, t);
    tree := Rebalance(child, parent, color, root, k, s, h);
  }

  lemma OuterOk(k: Ctx<RbNode>, t: Tree<RbNode>) returns (h: nat)
    requires RedBlack(Plug(k, t)) && t.Node? && (t.left.Leaf? || t.right.Leaf?)
    ensures t.c == Black ==> h > 0 && ShortAt(k, OnlyChild(t), h - 1)
    ensures t.c == Red ==> RedBlack(Plug(k, OnlyChild(t)))
    ensures Around(k, OnlyChild(t)) == Before(k) + Inorder(t.left) + Inorder(t.right) + After(k)
  {
    h := UnplugRb(k, t);
    SplicedOk(k, t, h);
    PlugInorder(k, OnlyChild(t));
    var a, b, c, d := Before(k), Inorder(t.left), Inorder(t.right), After(k);
    assert a + b + c + d == a + Inorder(OnlyChild(t)) + d;
  }
}

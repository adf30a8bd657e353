/** rb_first, rb_last, rb_next and rb_prev: the tree read in order. */
module RbWalk {
  import opened RbTheory
  import opened RbTree
  import opened RbInsert
  import opened RbErase

  function HeadOr(s: seq<RbNode>): RbNode? {
    if s == [] then null else s[0]
  }

  function LastOr(s: seq<RbNode>): RbNode? {
    if s == [] then null else s[|s| - 1]
  }

  /** Goes left as far as possible. */
  method Leftmost(start: RbNode, root: RbRoot, ghost k0: Ctx<RbNode>, ghost t0: Tree<RbNode>) returns (n: RbNode)
    requires root.Mirrored() && At(k0, t0, root.mem) && t0.Node? && t0.v == start
    ensures n == HeadOr(Inorder(t0))
  {
    ghost var k, t := k0, t0;
    n := start;
    SubLinks(k, t, root.mem);
    while n.left != null
      invariant At(k, t, root.mem) && t.Node? && t.v == n && n.left == Ptr(t.left)
      invariant HeadOr(Inorder(t)) == HeadOr(Inorder(t0))
      decreases t
    {
      n := n.left;
      ZipLeft(k, t.v, t.c, t.right, t.left, root.mem);
      k, t := InLeft(k, t.v, t.c, t.right), t.left;
      SubLinks(k, t, root.mem);
    }
  }

  method Rightmost(start: RbNode, root: RbRoot, ghost k0: Ctx<RbNode>, ghost t0: Tree<RbNode>) returns (n: RbNode)
    requires root.Mirrored() && At(k0, t0, root.mem) && t0.Node? && t0.v == start
    ensures n == LastOr(Inorder(t0))
  {
    ghost var k, t := k0, t0;
    n := start;
    SubLinks(k, t, root.mem);
    while n.right != null
      invariant At(k, t, root.mem) && t.Node? && t.v == n && n.right == Ptr(t.right)
      invariant LastOr(Inorder(t)) == LastOr(Inorder(t0))
      decreases t
    {
      n := n.right;
      ZipRight(t.left, t.v, t.c, k, t.right, root.mem);
      k, t := InRight(t.left, t.v, t.c, k), t.right;
      SubLinks(k, t, root.mem);
    }
  }

  /** rb_first. */
  method First(root: RbRoot, ghost tree: Tree<RbNode>) returns (n: RbNode?)
    requires root.Mirrored() && At(Top, tree, root.mem)
    ensures n == HeadOr(Inorder(tree))
  {
    if root.node == null { return null; }
    n := Leftmost(root.node, root, Top, tree);
  }

  /** rb_last. */
  method Last(root: RbRoot, ghost tree: Tree<RbNode>) returns (n: RbNode?)
    requires root.Mirrored() && At(Top, tree, root.mem)
    ensures n == LastOr(Inorder(tree))
  {
    if root.node == null { return null; }
    n := Rightmost(root.node, root, Top, tree);
  }

  /** rb_next: down the right subtree if there is one, else up to the first ancestor that lies to the right. */
  method NextAt(start: RbNode, root: RbRoot, ghost k0: Ctx<RbNode>, ghost t0: Tree<RbNode>) returns (n: RbNode?)
    requires root.Mirrored() && At(k0, t0, root.mem) && t0.Node? && t0.v == start
    ensures n == HeadOr(Inorder(t0.right) + After(k0))
  {
    SubLinks(k0, t0, root.mem);
    if start.right != null {
      ZipRight(t0.left, t0.v, t0.c, k0, t0.right, root.mem);
      n := Leftmost(start.right, root, InRight(t0.left, t0.v, t0.c, k0), t0.right);
      return;
    }
    var node := start;
    ghost var k, t := k0, t0;
    UpLinks(k, t, root.mem);
    OneSide(k, t, root.mem);
    while node.parent != null && node == node.parent.right
      invariant At(k, t, root.mem) && t.Node? && t.v == node && node.parent == CtxPtr(k)
      invariant !k.Top? ==> k.v in root.mem.at && (k.v.right == node <==> k.InRight?)
      invariant After(k) == After(k0)
      decreases Depth(k)
    {
      node := node.parent;
      LiftAt(k, t, root.mem);
      k, t := k.up, Lift(k, t);
      UpLinks(k, t, root.mem);
      OneSide(k, t, root.mem);
    }
    n := node.parent;
  }

  /** rb_prev. */
  method PrevAt(start: RbNode, root: RbRoot, ghost k0: Ctx<RbNode>, ghost t0: Tree<RbNode>) returns (n: RbNode?)
    requires root.Mirrored() && At(k0, t0, root.mem) && t0.Node? && t0.v == start
    ensures n == LastOr(Before(k0) + Inorder(t0.left))
  {
    SubLinks(k0, t0, root.mem);
    if start.left != null {
      ZipLeft(k0, t0.v, t0.c, t0.right, t0.left, root.mem);
      n := Rightmost(start.left, root, InLeft(k0, t0.v, t0.c, t0.right), t0.left);
      return;
    }
    var node := start;
    ghost var k, t := k0, t0;
    UpLinks(k, t, root.mem);
    OneSide(k, t, root.mem);
    while node.parent != null && node == node.parent.left
      invariant At(k, t, root.mem) && t.Node? && t.v == node && node.parent == CtxPtr(k)
      invariant !k.Top? ==> k.v in root.mem.at && (k.v.left == node <==> k.InLeft?)
      invariant Before(k) == Before(k0)
      decreases Depth(k)
    {
      node := node.parent;
      LiftAt(k, t, root.mem);
      k, t := k.up, Lift(k, t);
      UpLinks(k, t, root.mem);
      OneSide(k, t, root.mem);
    }
    n := node.parent;
  }

  /** A node hangs on one side of its parent only. */
  lemma OneSide(k: Ctx<RbNode>, t: Tree<RbNode>, m: Mem)
    requires At(k, t, m) && t.Node?
    ensures !k.Top? ==> k.v in m.at && (m.at[k.v].left == t.v <==> k.InLeft?) && (m.at[k.v].right == t.v <==> k.InRight?)
  {
    if !k.Top? {
      UpLinks2(k, t, m);
      Sideways(k, t, m);
    }
  }

  /** rb_next on the tree as a whole: the entry that follows in order, or null after the last one. */
  method Next(node: RbNode, root: RbRoot, ghost tree: Tree<RbNode>, ghost i: nat) returns (n: RbNode?)
    requires root.Mirrored() && At(Top, tree, root.mem) && i < |Inorder(tree)| && Inorder(tree)[i] == node
    ensures n == if i + 1 < |Inorder(tree)| then Inorder(tree)[i + 1] else null
  {
    ghost var k, t := PlaceOf(tree, node, i, root.mem);
    n := NextAt(node, root, k, t);
  }

  method Prev(node: RbNode, root: RbRoot, ghost tree: Tree<RbNode>, ghost i: nat) returns (n: RbNode?)
    requires root.Mirrored() && At(Top, tree, root.mem) && i < |Inorder(tree)| && Inorder(tree)[i] == node
    ensures n == if i > 0 then Inorder(tree)[i - 1] else null
  {
    ghost var k, t := PlaceOf(tree, node, i, root.mem);
    n := PrevAt(node, root, k, t);
  }

  /** rb_first, then rb_next until it runs out: every entry once, in order. */
  method InOrder(root: RbRoot, ghost tree: Tree<RbNode>) returns (visited: seq<RbNode>)
    requires root.Mirrored() && At(Top, tree, root.mem)
    ensures visited == Inorder(tree)
    ensures forall i, j :: 0 <= i < j < |visited| ==> visited[i] != visited[j]
  {
    visited := [];
    var n := First(root, tree);
    while n != null
      invariant visited <= Inorder(tree)
      invariant n == if |visited| < |Inorder(tree)| then Inorder(tree)[|visited|] else null
      decreases |Inorder(tree)| - |visited|
    {
      var next := Next(n, root, tree, |visited|);
      visited := visited + [n];
      n := next;
    }
    NoRepeats(tree, null, root.mem);
  }

  lemma PlaceOf(tree: Tree<RbNode>, x: RbNode, i: nat, m: Mem) returns (k: Ctx<RbNode>, t: Tree<RbNode>)
    requires At(Top, tree, m) && i < |Inorder(tree)| && Inorder(tree)[i] == x
    ensures At(k, t, m) && t.Node? && t.v == x && Plug(k, t) == tree
    ensures Inorder(tree)[..i] == Before(k) + Inorder(t.left)
    ensures Inorder(tree)[i + 1..] == Inorder(t.right) + After(k)
  {
    ElemsInorder(tree, x);
    k, t := Locate(Top, tree, x);
    PlugAt(k, t, m);
    PlugInorder(k, t);
    NoRepeats(tree, null, m);
    var a, b := Before(k) + Inorder(t.left), Inorder(t.right) + After(k);
    assert Inorder(tree) == a + [x] + b by {
      Regroup(Before(k), Inorder(t.left), [x], Inorder(t.right), After(k));
    }
    SplitAt(Inorder(tree), a, x, b, i);
  }

  lemma SplitAt(s: seq<RbNode>, a: seq<RbNode>, x: RbNode, b: seq<RbNode>, i: nat)
    requires s == a + [x] + b && i < |s| && s[i] == x
    requires forall i, j :: 0 <= i < j < |s| ==> s[i] != s[j]
    ensures s[..i] == a && s[i + 1..] == b
  {
    assert s[|a|] == x;
  }

  /** A linked tree names every node once. */
  lemma {:induction false} NoRepeats(t: Tree<RbNode>, p: RbNode?, m: Mem)
    requires Linked(t, p, m)
    ensures forall i, j :: 0 <= i < j < |Inorder(t)| ==> Inorder(t)[i] != Inorder(t)[j]
  {
    if t.Node? {
      NoRepeats(t.left, t.v, m);
      NoRepeats(t.right, t.v, m);
      var a, b := Inorder(t.left), Inorder(t.right);
      forall i, j | 0 <= i < j < |a| + 1 + |b| ensures (a + [t.v] + b)[i] != (a + [t.v] + b)[j] {
        if i < |a| { ElemsInorder(t.left, a[i]); }
        if j > |a| { ElemsInorder(t.right, b[j - |a| - 1]); }
      }
    }
  }
}

/** The pointer code of base/rbtree.c. The nodes are objects whose links are rewritten in place;
    a `Mem` holds all links of a tree as one value, and the shape is stated on that value. */
module RbTree {
  import opened RbTheory

  type Byte = b: int | 0 <= b < 256
  type Key = seq<Byte>

  /** struct rb_node together with the entry that embeds it (`rb_entry`). */
  class RbNode {
    var parent: RbNode?
    var left: RbNode?
    var right: RbNode?
    var color: Color
    const key: Key

    constructor (key: Key)
      ensures this.key == key
    {
      this.key := key;
      parent, left, right, color := null, null, null, Red;
    }
  }

  datatype Cell = Cell(parent: RbNode?, left: RbNode?, right: RbNode?, c: Color)
  datatype Mem = Mem(root: RbNode?, at: map<RbNode, Cell>)

  /** struct rb_root. `mem` is the value of all links of the tree's nodes at this moment. */
  class RbRoot {
    var node: RbNode?
    ghost var mem: Mem

    constructor ()
      ensures Mirrored() && mem == Mem(null, map[])
    {
      node, mem := null, Mem(null, map[]);
    }

    ghost predicate Mirrored()
      reads this, mem.at.Keys
    {
      && node == mem.root
      && forall n :: n in mem.at ==>
           && n.parent == mem.at[n].parent && n.left == mem.at[n].left
           && n.right == mem.at[n].right && n.color == mem.at[n].c
    }

    // One write each; every longer operation is a sequence of these.

    method PutRoot(n: RbNode?)
      requires Mirrored()
      modifies this
      ensures Mirrored() && mem == old(mem).(root := n)
    {
      node := n;
      mem := mem.(root := n);
    }

    method PutParent(n: RbNode, v: RbNode?)
      requires Mirrored() && n in mem.at
      modifies `mem, n`parent
      ensures Mirrored() && mem == SetParent(old(mem), n, v)
    {
      n.parent := v;
      mem := SetParent(mem, n, v);
    }

    method PutLeft(n: RbNode, v: RbNode?)
      requires Mirrored() && n in mem.at
      modifies `mem, n`left
      ensures Mirrored() && mem == SetLeft(old(mem), n, v)
    {
      n.left := v;
      mem := SetLeft(mem, n, v);
    }

    method PutRight(n: RbNode, v: RbNode?)
      requires Mirrored() && n in mem.at
      modifies `mem, n`right
      ensures Mirrored() && mem == SetRight(old(mem), n, v)
    {
      n.right := v;
      mem := SetRight(mem, n, v);
    }

    method PutColor(n: RbNode, v: Color)
      requires Mirrored() && n in mem.at
      modifies `mem, n`color
      ensures Mirrored() && mem == SetColor(old(mem), n, v)
    {
      n.color := v;
      mem := SetColor(mem, n, v);
    }

    /** What stood at `n`, below `parent` or at the root, is now `to`. */
    method PutLink(parent: RbNode?, n: RbNode?, to: RbNode?)
      requires Mirrored() && Known(mem, parent)
      modifies this, mem.at.Keys
      ensures Mirrored() && mem == SetLink(old(mem), parent, n, to)
    {
      if parent != null {
        if parent.left == n {
          PutLeft(parent, to);
        } else {
          PutRight(parent, to);
        }
      } else {
        PutRoot(to);
      }
    }
  }

  ghost function SetParent(m: Mem, n: RbNode?, p: RbNode?): Mem {
    if n != null && n in m.at then m.(at := m.at[n := m.at[n].(parent := p)]) else m
  }

  ghost function SetLeft(m: Mem, n: RbNode?, p: RbNode?): Mem {
    if n != null && n in m.at then m.(at := m.at[n := m.at[n].(left := p)]) else m
  }

  ghost function SetRight(m: Mem, n: RbNode?, p: RbNode?): Mem {
    if n != null && n in m.at then m.(at := m.at[n := m.at[n].(right := p)]) else m
  }

  ghost function SetColor(m: Mem, n: RbNode?, c: Color): Mem {
    if n != null && n in m.at then m.(at := m.at[n := m.at[n].(c := c)]) else m
  }

  /** Redirects the link that held `n` below `parent`. */
  ghost function SetLink(m: Mem, parent: RbNode?, n: RbNode?, to: RbNode?): Mem {
    if parent == null then m.(root := to)
    else if parent in m.at && m.at[parent].left == n then SetLeft(m, parent, to)
    else SetRight(m, parent, to)
  }

  function Ptr(t: Tree<RbNode>): RbNode? {
    if t.Leaf? then null else t.v
  }

  function CtxPtr(k: Ctx<RbNode>): RbNode? {
    if k.Top? then null else k.v
  }

  /** The links below `p` draw exactly the tree `t`. */
  ghost predicate Linked(t: Tree<RbNode>, p: RbNode?, m: Mem) {
    match t
    case Leaf => true
    case Node(l, x, c, r) =>
      && x in m.at && m.at[x] == Cell(p, Ptr(l), Ptr(r), c)
      && x !in Elems(l) && x !in Elems(r) && Elems(l) !! Elems(r)
      && Linked(l, x, m) && Linked(r, x, m)
  }

  /** The links from the root down to the place draw the path `k`, and the link at the place is `n`. */
  ghost predicate LinkedCtx(k: Ctx<RbNode>, n: RbNode?, m: Mem) {
    match k
    case Top => m.root == n
    case InLeft(up, x, c, r) =>
      && x in m.at && m.at[x] == Cell(CtxPtr(up), n, Ptr(r), c)
      && x !in Elems(r) && x !in CtxElems(up) && Elems(r) !! CtxElems(up)
      && Linked(r, x, m) && LinkedCtx(up, x, m)
    case InRight(l, x, c, up) =>
      && x in m.at && m.at[x] == Cell(CtxPtr(up), Ptr(l), n, c)
      && x !in Elems(l) && x !in CtxElems(up) && Elems(l) !! CtxElems(up)
      && Linked(l, x, m) && LinkedCtx(up, x, m)
  }

  /** The subtree `t` stands at the place `k`: together they are all the links there are. */
  ghost predicate At(k: Ctx<RbNode>, t: Tree<RbNode>, m: Mem) {
    LinkedCtx(k, Ptr(t), m) && Linked(t, CtxPtr(k), m) && CtxElems(k) !! Elems(t)
  }

  ghost predicate Same(s: set<RbNode>, m: Mem, m2: Mem) {
    forall x :: x in s && x in m.at ==> x in m2.at && m2.at[x] == m.at[x]
  }

  lemma {:induction false} LinkedFrame(t: Tree<RbNode>, p: RbNode?, m: Mem, m2: Mem)
    requires Linked(t, p, m) && Same(Elems(t), m, m2)
    ensures Linked(t, p, m2)
  {
    if t.Node? {
      LinkedFrame(t.left, t.v, m, m2);
      LinkedFrame(t.right, t.v, m, m2);
    }
  }

  lemma {:induction false} LinkedCtxFrame(k: Ctx<RbNode>, n: RbNode?, m: Mem, m2: Mem)
    requires LinkedCtx(k, n, m) && m.root == m2.root && Same(CtxElems(k), m, m2)
    ensures LinkedCtx(k, n, m2)
    decreases k
  {
    match k
    case Top =>
    case InLeft(up, x, c, r) => LinkedFrame(r, x, m, m2); LinkedCtxFrame(up, x, m, m2);
    case InRight(l, x, c, up) => LinkedFrame(l, x, m, m2); LinkedCtxFrame(up, x, m, m2);
  }

  /** Only the topmost node of a subtree knows the parent. */
  lemma Reparent(t: Tree<RbNode>, p: RbNode?, q: RbNode?, m: Mem, m2: Mem)
    requires Linked(t, p, m) && Same(Elems(t) - {Ptr(t)}, m, m2)
    requires t.Node? && t.v in m.at ==> t.v in m2.at && m2.at[t.v] == m.at[t.v].(parent := q)
    ensures Linked(t, q, m2)
  {
    if t.Node? {
      LinkedFrame(t.left, t.v, m, m2);
      LinkedFrame(t.right, t.v, m, m2);
    }
  }

  /** Only the node right above the place knows what stands there. */
  lemma Relink(k: Ctx<RbNode>, n: RbNode?, to: RbNode?, m: Mem, m2: Mem)
    requires LinkedCtx(k, n, m)
    requires k.InRight? ==> Ptr(k.left) != n
    requires m2.root == (if k.Top? then to else m.root) && Same(CtxElems(k) - {CtxPtr(k)}, m, m2)
    requires !k.Top? && k.v in m.at ==>
               k.v in m2.at && m2.at[k.v] == if m.at[k.v].left == n then m.at[k.v].(left := to) else m.at[k.v].(right := to)
    ensures LinkedCtx(k, to, m2)
  {
    match k
    case Top =>
    case InLeft(up, x, c, r) => LinkedFrame(r, x, m, m2); LinkedCtxFrame(up, x, m, m2);
    case InRight(l, x, c, up) => LinkedFrame(l, x, m, m2); LinkedCtxFrame(up, x, m, m2);
  }

  /** `n` is null or one of the nodes. */
  ghost predicate Known(m: Mem, n: RbNode?) {
    n == null || n in m.at
  }

  ghost predicate CanRotateLeft(m: Mem, x: RbNode) {
    && x in m.at && m.at[x].right != null && m.at[x].right in m.at
    && var y, p := m.at[x].right, m.at[x].parent;
    var b := m.at[y].left;
    && Known(m, b) && Known(m, p)
    && x != y && x != b && x != p && y != b && y != p && (b == null || b != p)
  }

  ghost predicate CanRotateRight(m: Mem, x: RbNode) {
    && x in m.at && m.at[x].left != null && m.at[x].left in m.at
    && var y, p := m.at[x].left, m.at[x].parent;
    var b := m.at[y].right;
    && Known(m, b) && Known(m, p)
    && x != y && x != b && x != p && y != b && y != p && (b == null || b != p)
  }

  /** The memory after __rb_rotate_left at `x`: its right child `y` takes its place, and `y`'s left
      child moves over to `x`. */
  ghost function RotatedLeft(m: Mem, x: RbNode): Mem
    requires CanRotateLeft(m, x)
  {
    var y := m.at[x].right;
    var b := m.at[y].left;
    var p := m.at[x].parent;
    SetParent(SetLink(SetParent(SetLeft(SetParent(SetRight(m, x, b), b, x), y, x), y, p), p, x, y), x, y)
  }

  ghost function RotatedRight(m: Mem, x: RbNode): Mem
    requires CanRotateRight(m, x)
  {
    var y := m.at[x].left;
    var b := m.at[y].right;
    var p := m.at[x].parent;
    SetParent(SetLink(SetParent(SetRight(SetParent(SetLeft(m, x, b), b, x), y, x), y, p), p, x, y), x, y)
  }

  /** What a rotation at `x` writes besides `x` and the child `y` that rises: the link from the parent `p`
      (or the root) and the parent link of the inner grandchild `b`. */
  ghost predicate Turned(m: Mem, m2: Mem, x: RbNode, y: RbNode, b: RbNode?, p: RbNode?) {
    && m2.at.Keys == m.at.Keys
    && m2.root == (if p == null then y else m.root)
    && forall n :: n in m.at && n != x && n != y ==>
         m2.at[n] == if n == b then m.at[n].(parent := x)
                     else if n != p then m.at[n]
                     else if m.at[n].left == x then m.at[n].(left := y) else m.at[n].(right := y)
  }

  /** The nodes a rotation writes to stand apart from the subtrees it carries around. */
  ghost predicate Apart(k: Ctx<RbNode>, a: Tree<RbNode>, x: RbNode, b: Tree<RbNode>, y: RbNode, c: Tree<RbNode>) {
    && x !in Elems(a) && x !in Elems(b) && x !in Elems(c) && x !in CtxElems(k)
    && y !in Elems(a) && y !in Elems(b) && y !in Elems(c) && y !in CtxElems(k)
    && Ptr(b) !in Elems(a) && Ptr(b) !in Elems(c) && Ptr(b) !in CtxElems(k)
    && CtxPtr(k) !in Elems(a) && CtxPtr(k) !in Elems(b) && CtxPtr(k) !in Elems(c)
    && (k.InRight? ==> Ptr(k.left) != x) && Ptr(b) != x && Ptr(b) != y && CtxPtr(k) != x && CtxPtr(k) != y
    && (Ptr(b) != null ==> Ptr(b) != CtxPtr(k))
  }

  lemma TurnedSame(s: set<RbNode>, m: Mem, m2: Mem, x: RbNode, y: RbNode, b: RbNode?, p: RbNode?)
    requires Turned(m, m2, x, y, b, p) && x !in s && y !in s && b !in s && p !in s
    ensures Same(s, m, m2)
  {
  }

  /** The path and the three subtrees a rotation carries around stand afterwards. */
  lemma TurnedAround(k: Ctx<RbNode>, a: Tree<RbNode>, pa: RbNode, x: RbNode, b: Tree<RbNode>, y: RbNode,
                     c: Tree<RbNode>, pc: RbNode, m: Mem, m2: Mem)
    requires LinkedCtx(k, x, m) && Linked(a, pa, m) && Linked(b, y, m) && Linked(c, pc, m)
    requires Apart(k, a, x, b, y, c)
    requires Turned(m, m2, x, y, Ptr(b), CtxPtr(k))
    ensures LinkedCtx(k, y, m2) && Linked(a, pa, m2) && Linked(b, x, m2) && Linked(c, pc, m2)
  {
    hide Linked, LinkedCtx, Turned;
    TurnedAbove(k, x, y, Ptr(b), m, m2);
    TurnedApart(a, pa, x, y, Ptr(b), CtxPtr(k), m, m2);
    TurnedBetween(b, x, y, CtxPtr(k), m, m2);
    TurnedApart(c, pc, x, y, Ptr(b), CtxPtr(k), m, m2);
  }

  lemma TurnedApart(t: Tree<RbNode>, above: RbNode, x: RbNode, y: RbNode, b: RbNode?, p: RbNode?, m: Mem, m2: Mem)
    requires Linked(t, above, m) && Turned(m, m2, x, y, b, p)
    requires x !in Elems(t) && y !in Elems(t) && b !in Elems(t) && p !in Elems(t)
    ensures Linked(t, above, m2)
  {
    hide Linked;
    TurnedSame(Elems(t), m, m2, x, y, b, p);
    LinkedFrame(t, above, m, m2);
  }

  lemma TurnedBetween(b: Tree<RbNode>, x: RbNode, y: RbNode, p: RbNode?, m: Mem, m2: Mem)
    requires Linked(b, y, m) && Turned(m, m2, x, y, Ptr(b), p)
    requires x !in Elems(b) && y !in Elems(b) && p !in Elems(b) && (Ptr(b) != null ==> Ptr(b) != p) && Ptr(b) != x && Ptr(b) != y
    ensures Linked(b, x, m2)
  {
    TurnedSame(Elems(b) - {Ptr(b)}, m, m2, x, y, Ptr(b), p);
    hide Linked;
    Reparent(b, y, x, m, m2);
  }

  lemma TurnedAbove(k: Ctx<RbNode>, x: RbNode, y: RbNode, b: RbNode?, m: Mem, m2: Mem)
    requires LinkedCtx(k, x, m) && Turned(m, m2, x, y, b, CtxPtr(k))
    requires x !in CtxElems(k) && y !in CtxElems(k) && b !in CtxElems(k)
    requires (k.InRight? ==> Ptr(k.left) != x) && CtxPtr(k) != x && CtxPtr(k) != y && (b != null ==> b != CtxPtr(k))
    ensures LinkedCtx(k, y, m2)
  {
    TurnedSame(CtxElems(k) - {CtxPtr(k)}, m, m2, x, y, b, CtxPtr(k));
    hide LinkedCtx;
    Relink(k, x, y, m, m2);
  }

  lemma RotatedLeftCells(m: Mem, x: RbNode, y: RbNode, b: RbNode?, p: RbNode?)
    requires CanRotateLeft(m, x) && y == m.at[x].right && b == m.at[y].left && p == m.at[x].parent
    ensures Turned(m, RotatedLeft(m, x), x, y, b, p)
    ensures RotatedLeft(m, x).at[x] == m.at[x].(parent := y, right := b)
    ensures RotatedLeft(m, x).at[y] == m.at[y].(parent := p, left := x)
  {
  }

  lemma LeftRotationAt(k: Ctx<RbNode>, a: Tree<RbNode>, x: RbNode, cx: Color, b: Tree<RbNode>, y: RbNode, cy: Color, c: Tree<RbNode>, m: Mem, m2: Mem)
    requires At(k, Node(a, x, cx, Node(b, y, cy, c)), m) && x in m.at && y in m.at && Turned(m, m2, x, y, Ptr(b), CtxPtr(k))
    requires m2.at[x] == m.at[x].(parent := y, right := Ptr(b)) && m2.at[y] == m.at[y].(parent := CtxPtr(k), left := x)
    ensures At(k, Node(Node(a, x, cx, b), y, cy, c), m2)
  {
    assert Linked(Node(b, y, cy, c), x, m);
    TurnedAround(k, a, x, x, b, y, c, y, m, m2);
  }

  lemma RotateLeftAt(k: Ctx<RbNode>, a: Tree<RbNode>, x: RbNode, cx: Color, b: Tree<RbNode>, y: RbNode, cy: Color, c: Tree<RbNode>, m: Mem)
    requires At(k, Node(a, x, cx, Node(b, y, cy, c)), m)
    ensures CanRotateLeft(m, x) && At(k, Node(Node(a, x, cx, b), y, cy, c), RotatedLeft(m, x))
  {
    assert Linked(Node(b, y, cy, c), x, m);
    AtLinks(k, Node(a, x, cx, Node(b, y, cy, c)), m);
    RotatedLeftCells(m, x, y, Ptr(b), CtxPtr(k));
    LeftRotationAt(k, a, x, cx, b, y, cy, c, m, RotatedLeft(m, x));
  }

  lemma RotatedRightCells(m: Mem, x: RbNode, y: RbNode, b: RbNode?, p: RbNode?)
    requires CanRotateRight(m, x) && y == m.at[x].left && b == m.at[y].right && p == m.at[x].parent
    ensures Turned(m, RotatedRight(m, x), x, y, b, p)
    ensures RotatedRight(m, x).at[x] == m.at[x].(parent := y, left := b)
    ensures RotatedRight(m, x).at[y] == m.at[y].(parent := p, right := x)
  {
  }

  lemma RightRotationAt(k: Ctx<RbNode>, a: Tree<RbNode>, y: RbNode, cy: Color, b: Tree<RbNode>, x: RbNode, cx: Color, c: Tree<RbNode>, m: Mem, m2: Mem)
    requires At(k, Node(Node(a, y, cy, b), x, cx, c), m) && x in m.at && y in m.at && Turned(m, m2, x, y, Ptr(b), CtxPtr(k))
    requires m2.at[x] == m.at[x].(parent := y, left := Ptr(b)) && m2.at[y] == m.at[y].(parent := CtxPtr(k), right := x)
    ensures At(k, Node(a, y, cy, Node(b, x, cx, c)), m2)
  {
    assert Linked(Node(a, y, cy, b), x, m);
    TurnedAround(k, a, y, x, b, y, c, x, m, m2);
  }

  lemma RotateRightAt(k: Ctx<RbNode>, a: Tree<RbNode>, y: RbNode, cy: Color, b: Tree<RbNode>, x: RbNode, cx: Color, c: Tree<RbNode>, m: Mem)
    requires At(k, Node(Node(a, y, cy, b), x, cx, c), m)
    ensures CanRotateRight(m, x) && At(k, Node(a, y, cy, Node(b, x, cx, c)), RotatedRight(m, x))
  {
    assert Linked(Node(a, y, cy, b), x, m);
    AtLinks(k, Node(Node(a, y, cy, b), x, cx, c), m);
    RotatedRightCells(m, x, y, Ptr(b), CtxPtr(k));
    RightRotationAt(k, a, y, cy, b, x, cx, c, m, RotatedRight(m, x));
  }

  lemma AtLinks(k: Ctx<RbNode>, t: Tree<RbNode>, m: Mem)
    requires At(k, t, m)
    ensures Elems(t) <= m.at.Keys && CtxElems(k) <= m.at.Keys
    ensures CtxPtr(k) != null ==> CtxPtr(k) in CtxElems(k)
    ensures Ptr(t) != null ==> Ptr(t) in Elems(t)
  {
    LinkedKeys(t, CtxPtr(k), m);
    LinkedCtxKeys(k, Ptr(t), m);
  }

  lemma {:induction false} LinkedKeys(t: Tree<RbNode>, p: RbNode?, m: Mem)
    requires Linked(t, p, m)
    ensures Elems(t) <= m.at.Keys
  {
    if t.Node? { LinkedKeys(t.left, t.v, m); LinkedKeys(t.right, t.v, m); }
  }

  lemma {:induction false} LinkedCtxKeys(k: Ctx<RbNode>, n: RbNode?, m: Mem)
    requires LinkedCtx(k, n, m)
    ensures CtxElems(k) <= m.at.Keys
    decreases k
  {
    match k
    case Top =>
    case InLeft(up, x, c, r) => LinkedKeys(r, x, m); LinkedCtxKeys(up, x, m);
    case InRight(l, x, c, up) => LinkedKeys(l, x, m); LinkedCtxKeys(up, x, m);
  }

  method RotateLeft(node: RbNode, root: RbRoot)
    requires root.Mirrored() && CanRotateLeft(root.mem, node)
    modifies root, root.mem.at.Keys
    ensures root.Mirrored() && root.mem == RotatedLeft(old(root.mem), node)
  {
    var right := node.right;
    ghost var b, p := right.left, node.parent;
    root.PutRight(node, right.left);
    if node.right != null {
      root.PutParent(right.left, node);
    }
    root.PutLeft(right, node);
    assert node.parent == p;
    root.PutParent(right, node.parent);
    assert right.parent == p && Known(root.mem, p);
    root.PutLink(right.parent, node, right);
    root.PutParent(node, right);
  }

  method RotateRight(node: RbNode, root: RbRoot)
    requires root.Mirrored() && CanRotateRight(root.mem, node)
    modifies root, root.mem.at.Keys
    ensures root.Mirrored() && root.mem == RotatedRight(old(root.mem), node)
  {
    var left := node.left;
    ghost var b, p := left.right, node.parent;
    root.PutLeft(node, left.right);
    if node.left != null {
      root.PutParent(left.right, node);
    }
    root.PutRight(left, node);
    assert node.parent == p;
    root.PutParent(left, node.parent);
    assert left.parent == p && Known(root.mem, p);
    root.PutLink(left.parent, node, left);
    root.PutParent(node, left);
  }

  lemma ZipLeft(up: Ctx<RbNode>, x: RbNode, c: Color, r: Tree<RbNode>, t: Tree<RbNode>, m: Mem)
    ensures At(InLeft(up, x, c, r), t, m) <==> At(up, Node(t, x, c, r), m)
  {
  }

  lemma ZipRight(l: Tree<RbNode>, x: RbNode, c: Color, up: Ctx<RbNode>, t: Tree<RbNode>, m: Mem)
    ensures At(InRight(l, x, c, up), t, m) <==> At(up, Node(l, x, c, t), m)
  {
  }

  /** It does not matter which place the tree is looked at from. */
  lemma {:induction false} PlugAt(k: Ctx<RbNode>, t: Tree<RbNode>, m: Mem)
    ensures At(k, t, m) <==> At(Top, Plug(k, t), m)
    decreases k
  {
    match k
    case Top =>
    case InLeft(up, x, c, r) => ZipLeft(up, x, c, r, t, m); PlugAt(up, Node(t, x, c, r), m);
    case InRight(l, x, c, up) => ZipRight(l, x, c, up, t, m); PlugAt(up, Node(l, x, c, t), m);
  }

  lemma {:induction false} PaintLinked(t: Tree<RbNode>, p: RbNode?, x: RbNode, c: Color, m: Mem)
    requires Linked(t, p, m)
    ensures Linked(Paint(t, x, c), p, SetColor(m, x, c))
  {
    if t.Node? {
      if t.v == x {
        LinkedFrame(t.left, x, m, SetColor(m, x, c));
        LinkedFrame(t.right, x, m, SetColor(m, x, c));
      } else {
        PaintLinked(t.left, t.v, x, c, m);
        PaintLinked(t.right, t.v, x, c, m);
      }
    }
  }

  lemma PaintAt(k: Ctx<RbNode>, t: Tree<RbNode>, x: RbNode, c: Color, m: Mem)
    requires At(k, t, m) && x in Elems(t)
    ensures At(k, Paint(t, x, c), SetColor(m, x, c))
  {
    PaintLinked(t, CtxPtr(k), x, c, m);
    LinkedCtxFrame(k, Ptr(t), m, SetColor(m, x, c));
  }

  method PaintNode(n: RbNode, c: Color, root: RbRoot, ghost k: Ctx<RbNode>, ghost t: Tree<RbNode>)
    requires root.Mirrored() && At(k, t, root.mem) && n in Elems(t)
    modifies root, root.mem.at.Keys
    ensures root.Mirrored() && root.mem.at.Keys == old(root.mem.at.Keys)
    ensures At(k, Paint(t, n, c), root.mem)
  {
    AtLinks(k, t, root.mem);
    PaintAt(k, t, n, c, root.mem);
    root.PutColor(n, c);
  }

  method RotateLeftHere(node: RbNode, root: RbRoot, ghost k: Ctx<RbNode>, ghost a: Tree<RbNode>, ghost cx: Color,
                        ghost b: Tree<RbNode>, ghost y: RbNode, ghost cy: Color, ghost c: Tree<RbNode>)
    requires root.Mirrored() && At(k, Node(a, node, cx, Node(b, y, cy, c)), root.mem)
    modifies root, root.mem.at.Keys
    ensures root.Mirrored() && root.mem.at.Keys == old(root.mem.at.Keys)
    ensures At(k, Node(Node(a, node, cx, b), y, cy, c), root.mem)
  {
    hide At, CanRotateLeft;
    RotateLeftAt(k, a, node, cx, b, y, cy, c, root.mem);
    RotateLeft(node, root);
  }

  method RotateRightHere(node: RbNode, root: RbRoot, ghost k: Ctx<RbNode>, ghost a: Tree<RbNode>, ghost y: RbNode,
                         ghost cy: Color, ghost b: Tree<RbNode>, ghost cx: Color, ghost c: Tree<RbNode>)
    requires root.Mirrored() && At(k, Node(Node(a, y, cy, b), node, cx, c), root.mem)
    modifies root, root.mem.at.Keys
    ensures root.Mirrored() && root.mem.at.Keys == old(root.mem.at.Keys)
    ensures At(k, Node(a, y, cy, Node(b, node, cx, c)), root.mem)
  {
    hide At, CanRotateRight;
    RotateRightAt(k, a, y, cy, b, node, cx, c, root.mem);
    RotateRight(node, root);
  }
}

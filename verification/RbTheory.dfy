/** Red-black trees as values: the shape, the colours and the in-order sequence that the
    pointer code of base/rbtree.c keeps, with a zipper for "the place the code is working at". */
module RbTheory {

  datatype Color = Red | Black

  datatype Tree<V> = Leaf | Node(left: Tree<V>, v: V, c: Color, right: Tree<V>)

  /** The path from a place in the tree up to the root: `InLeft` means the place is the left
      subtree of `v`, whose right subtree is `right`. */
  datatype Ctx<V> =
    | Top
    | InLeft(up: Ctx<V>, v: V, c: Color, right: Tree<V>)
    | InRight(left: Tree<V>, v: V, c: Color, up: Ctx<V>)

  function Plug<V>(k: Ctx<V>, t: Tree<V>): (r: Tree<V>)
    ensures t.Node? ==> r.Node?
    ensures !k.Top? ==> r.Node?
  {
    match k
    case Top => t
    case InLeft(up, v, c, r) => Plug(up, Node(t, v, c, r))
    case InRight(l, v, c, up) => Plug(up, Node(l, v, c, t))
  }

  ghost function Elems<V>(t: Tree<V>): set<V> {
    match t
    case Leaf => {}
    case Node(l, v, _, r) => Elems(l) + {v} + Elems(r)
  }

  ghost function CtxElems<V>(k: Ctx<V>): set<V> {
    match k
    case Top => {}
    case InLeft(up, v, _, r) => CtxElems(up) + {v} + Elems(r)
    case InRight(l, v, _, up) => CtxElems(up) + {v} + Elems(l)
  }

  function Inorder<V>(t: Tree<V>): seq<V> {
    match t
    case Leaf => []
    case Node(l, v, _, r) => Inorder(l) + [v] + Inorder(r)
  }

  /** What precedes and what follows the place in the in-order sequence of the whole tree. */
  function Before<V>(k: Ctx<V>): seq<V> {
    match k
    case Top => []
    case InLeft(up, _, _, _) => Before(up)
    case InRight(l, v, _, up) => Before(up) + Inorder(l) + [v]
  }

  function After<V>(k: Ctx<V>): seq<V> {
    match k
    case Top => []
    case InLeft(up, v, _, r) => [v] + Inorder(r) + After(up)
    case InRight(_, _, _, up) => After(up)
  }

  predicate IsBlack<V>(t: Tree<V>) {
    t.Leaf? || t.c == Black
  }

  function Blacken<V>(t: Tree<V>): Tree<V> {
    if t.Leaf? then t else t.(c := Black)
  }

  /** No red node has a red child and every path down to a leaf meets exactly `h` black nodes. */
  predicate Rb<V>(t: Tree<V>, h: nat) {
    match t
    case Leaf => h == 0
    case Node(l, _, c, r) =>
      if c == Red then IsBlack(l) && IsBlack(r) && Rb(l, h) && Rb(r, h)
      else h > 0 && Rb(l, h - 1) && Rb(r, h - 1)
  }

  ghost predicate RedBlack<V>(t: Tree<V>) {
    IsBlack(t) && exists h: nat :: Rb(t, h)
  }

  /** The colour of the node right above the place. Above the root this reads as red, which
      is how "the root is black" and "no red node under a red one" become one rule. */
  function ParentColor<V>(k: Ctx<V>): Color {
    if k.Top? then Red else k.c
  }

  /** The path keeps every red-black rule once a subtree of black height `h` stands at the place,
      except possibly the rule between the place and the node right above it. */
  predicate RbCtx<V>(k: Ctx<V>, h: nat)
    decreases k, 0
  {
    match k
    case Top => true
    case InLeft(up, _, c, r) => Rb(r, h) && RbStep(up, c, r, h)
    case InRight(l, _, c, up) => Rb(l, h) && RbStep(up, c, l, h)
  }

  predicate RbStep<V>(up: Ctx<V>, c: Color, sibling: Tree<V>, h: nat)
    decreases up, 1
  {
    if c == Red then IsBlack(sibling) && ParentColor(up) == Black && RbCtx(up, h)
    else RbCtx(up, h + 1)
  }

  lemma Regroup<V>(a: seq<V>, b: seq<V>, c: seq<V>, d: seq<V>, e: seq<V>)
    ensures a + (b + c + d) + e == a + b + (c + d + e)
    ensures a + (b + c + d) + e == (a + b + c) + d + e
    ensures a + (b + c + d) + e == (a + b) + c + (d + e)
  {
  }

  lemma {:induction false} PlugInorder<V>(k: Ctx<V>, t: Tree<V>)
    ensures Inorder(Plug(k, t)) == Before(k) + Inorder(t) + After(k)
    decreases k
  {
    match k
    case Top =>
    case InLeft(up, v, c, r) =>
      PlugInorder(up, Node(t, v, c, r));
      Regroup(Before(up), Inorder(t), [v], Inorder(r), After(up));
    case InRight(l, v, c, up) =>
      PlugInorder(up, Node(l, v, c, t));
      Regroup(Before(up), Inorder(l), [v], Inorder(t), After(up));
  }

  /** `RbCtx`, one level unfolded. */
  lemma StepUp<V>(k: Ctx<V>, h: nat)
    requires RbCtx(k, h) && !k.Top?
    ensures k.InLeft? ==> Rb(k.right, h)
    ensures k.InRight? ==> Rb(k.left, h)
    ensures k.c == Red ==> !k.up.Top? && k.up.c == Black && RbCtx(k.up, h)
    ensures k.c == Red ==> IsBlack(if k.InLeft? then k.right else k.left)
    ensures k.c == Black ==> RbCtx(k.up, h + 1)
  {
    assert RbStep(k.up, k.c, if k.InLeft? then k.right else k.left, h);
  }

  lemma {:induction false} PlugElems<V>(k: Ctx<V>, t: Tree<V>)
    ensures Elems(Plug(k, t)) == CtxElems(k) + Elems(t)
    decreases k
  {
    match k
    case Top =>
    case InLeft(up, v, c, r) => PlugElems(up, Node(t, v, c, r));
    case InRight(l, v, c, up) => PlugElems(up, Node(l, v, c, t));
  }

  lemma {:induction false} ElemsInorder<V>(t: Tree<V>, x: V)
    ensures x in Elems(t) <==> x in Inorder(t)
  {
    match t
    case Leaf =>
    case Node(l, v, c, r) => ElemsInorder(l, x); ElemsInorder(r, x);
  }

  /** A legal path around a legal subtree is a legal red-black tree. */
  lemma {:induction false} PlugRb<V>(k: Ctx<V>, t: Tree<V>, h: nat)
    requires RbCtx(k, h) && Rb(t, h)
    requires ParentColor(k) == Red ==> IsBlack(t)
    ensures RedBlack(Plug(k, t))
    decreases k
  {
    match k
    case Top =>
    case InLeft(up, v, c, r) =>
      PlugRb(up, Node(t, v, c, r), if c == Red then h else h + 1);
    case InRight(l, v, c, up) =>
      PlugRb(up, Node(l, v, c, t), if c == Red then h else h + 1);
  }

  /** The converse: every place of a legal tree splits it into a legal path and a legal subtree. */
  lemma {:induction false} UnplugRb<V>(k: Ctx<V>, t: Tree<V>) returns (h: nat)
    requires RedBlack(Plug(k, t))
    ensures RbCtx(k, h) && Rb(t, h)
    ensures ParentColor(k) == Red ==> IsBlack(t)
    decreases k
  {
    match k
    case Top => h :| Rb(t, h);
    case InLeft(up, v, c, r) =>
      var g := UnplugRb(up, Node(t, v, c, r));
      h := if c == Red then g else g - 1;
    case InRight(l, v, c, up) =>
      var g := UnplugRb(up, Node(l, v, c, t));
      h := if c == Red then g else g - 1;
  }

  /** Every element of a tree stands at some place. */
  lemma {:induction false} Locate<V>(k0: Ctx<V>, t: Tree<V>, x: V) returns (k: Ctx<V>, s: Tree<V>)
    requires x in Elems(t)
    ensures s.Node? && s.v == x && Plug(k, s) == Plug(k0, t)
    decreases t
  {
    if x == t.v {
      k, s := k0, t;
    } else if x in Elems(t.left) {
      k, s := Locate(InLeft(k0, t.v, t.c, t.right), t.left, x);
    } else {
      k, s := Locate(InRight(t.left, t.v, t.c, k0), t.right, x);
    }
  }

  /** The tree with `x` painted in colour `c`; a tree without `x` is left as it is. */
  function Paint<V(==)>(t: Tree<V>, x: V, c: Color): (r: Tree<V>)
    ensures x !in Elems(t) ==> r == t
    ensures Inorder(r) == Inorder(t) && Elems(r) == Elems(t)
    ensures t.Node? <==> r.Node?
    ensures t.Node? ==> r.v == t.v
  {
    match t
    case Leaf => Leaf
    case Node(l, v, d, r) => if v == x then Node(l, v, c, r) else Node(Paint(l, x, c), v, d, Paint(r, x, c))
  }

  function Depth<V>(k: Ctx<V>): nat {
    match k
    case Top => 0
    case InLeft(up, _, _, _) => 1 + Depth(up)
    case InRight(_, _, _, up) => 1 + Depth(up)
  }

  ghost predicate TopDistinct<V>(t: Tree<V>) {
    t.Node? ==> t.v !in Elems(t.left) && t.v !in Elems(t.right) && Elems(t.left) !! Elems(t.right)
  }

  /** Painting the top of a tree or the top of one side touches that node only. */
  lemma PaintTop<V>(t: Tree<V>, c: Color)
    requires t.Node? && TopDistinct(t)
    ensures Paint(t, t.v, c) == t.(c := c) && TopDistinct(Paint(t, t.v, c))
    ensures t.left.Node? ==> Paint(t, t.left.v, c) == t.(left := t.left.(c := c)) && TopDistinct(Paint(t, t.left.v, c))
    ensures t.right.Node? ==> Paint(t, t.right.v, c) == t.(right := t.right.(c := c)) && TopDistinct(Paint(t, t.right.v, c))
  {
  }

  /** The place one level up holds `Lift(k, t)`. */
  function Lift<V>(k: Ctx<V>, t: Tree<V>): (r: Tree<V>)
    requires !k.Top?
    ensures r.Node? && r.v == k.v && r.c == k.c
    ensures Plug(k.up, r) == Plug(k, t)
  {
    match k
    case InLeft(_, v, c, r) => Node(t, v, c, r)
    case InRight(l, v, c, _) => Node(l, v, c, t)
  }

  lemma SameInorder<V>(k: Ctx<V>, t: Tree<V>, t2: Tree<V>)
    requires Inorder(t) == Inorder(t2)
    ensures Inorder(Plug(k, t)) == Inorder(Plug(k, t2))
  {
    PlugInorder(k, t);
    PlugInorder(k, t2);
  }

  /** Rotations do not touch the in-order sequence. */
  lemma TurnInorder<V>(a: Tree<V>, x: V, cx: Color, b: Tree<V>, y: V, cy: Color, c: Tree<V>, dx: Color, dy: Color)
    ensures Inorder(Node(a, x, cx, Node(b, y, cy, c))) == Inorder(Node(Node(a, x, dx, b), y, dy, c))
  {
    var s, t, u := Inorder(a), Inorder(b), Inorder(c);
    assert s + [x] + (t + [y] + u) == (s + [x] + t) + [y] + u;
  }

  /** The path `sp`, continued above its root by `base`. */
  function Compose<V>(sp: Ctx<V>, base: Ctx<V>): (k: Ctx<V>)
    ensures sp.Top? ==> k == base
    ensures !sp.Top? ==> !k.Top? && k.v == sp.v
  {
    match sp
    case Top => base
    case InLeft(up, v, c, r) => InLeft(Compose(up, base), v, c, r)
    case InRight(l, v, c, up) => InRight(l, v, c, Compose(up, base))
  }

  lemma {:induction false} PlugCompose<V>(sp: Ctx<V>, base: Ctx<V>, t: Tree<V>)
    ensures Plug(Compose(sp, base), t) == Plug(base, Plug(sp, t))
    decreases sp
  {
    match sp
    case Top =>
    case InLeft(up, v, c, r) => PlugCompose(up, base, Node(t, v, c, r));
    case InRight(l, v, c, up) => PlugCompose(up, base, Node(l, v, c, t));
  }

  /** A path that only ever went left. */
  predicate AllLeft<V>(sp: Ctx<V>) {
    sp.Top? || (sp.InLeft? && AllLeft(sp.up))
  }

  lemma {:induction false} AllLeftBefore<V>(sp: Ctx<V>)
    requires AllLeft(sp)
    ensures Before(sp) == []
    decreases sp
  {
    if sp.InLeft? { AllLeftBefore(sp.up); }
  }

  /** Who stands in a node does not matter to the red-black rules. */
  lemma {:induction false} RenameRb<V>(sp: Ctx<V>, k: Ctx<V>, l: Tree<V>, x: V, y: V, c: Color, h: nat)
    requires RbCtx(Compose(sp, InRight(l, x, c, k)), h)
    ensures RbCtx(Compose(sp, InRight(l, y, c, k)), h)
    ensures ParentColor(Compose(sp, InRight(l, y, c, k))) == ParentColor(Compose(sp, InRight(l, x, c, k)))
    decreases sp
  {
    var kx, ky := Compose(sp, InRight(l, x, c, k)), Compose(sp, InRight(l, y, c, k));
    StepUp(kx, h);
    if !sp.Top? {
      RenameRb(sp.up, k, l, x, y, c, if sp.c == Red then h else h + 1);
      assert RbStep(ky.up, ky.c, if ky.InLeft? then ky.right else ky.left, h);
    } else {
      assert RbStep(k, c, l, h);
    }
  }
}

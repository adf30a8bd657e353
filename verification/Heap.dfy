/** base/heap.h: a binary heap of nodes linked by pointers. The heap finds its last slot from the bits
    of its element count, and any member node can be taken out. */
module Heap {
  import opened HeapOrder

  class HeapNode<E> {
    var parent: HeapNode?<E>
    var left: HeapNode?<E>
    var right: HeapNode?<E>
    var entry: E

    constructor (entry: E)
      ensures this.entry == entry && parent == null && left == null && right == null
    {
      this.entry := entry;
      parent, left, right := null, null, null;
    }
  }

  datatype Cell<E> = Cell(parent: HeapNode?<E>, left: HeapNode?<E>, right: HeapNode?<E>, entry: E)
  datatype Mem<E> = Mem(root: HeapNode?<E>, at: map<HeapNode<E>, Cell<E>>)

  ghost function SetParent<E>(m: Mem<E>, n: HeapNode?<E>, p: HeapNode?<E>): Mem<E> {
    if n != null && n in m.at then m.(at := m.at[n := m.at[n].(parent := p)]) else m
  }

  ghost function SetLeft<E>(m: Mem<E>, n: HeapNode?<E>, p: HeapNode?<E>): Mem<E> {
    if n != null && n in m.at then m.(at := m.at[n := m.at[n].(left := p)]) else m
  }

  ghost function SetRight<E>(m: Mem<E>, n: HeapNode?<E>, p: HeapNode?<E>): Mem<E> {
    if n != null && n in m.at then m.(at := m.at[n := m.at[n].(right := p)]) else m
  }

  ghost function SetCell<E>(m: Mem<E>, n: HeapNode<E>, p: HeapNode?<E>, l: HeapNode?<E>, r: HeapNode?<E>): Mem<E> {
    if n in m.at then m.(at := m.at[n := Cell(p, l, r, m.at[n].entry)]) else m
  }

  /** The link to `n`, from its parent or from the root, now leads to `to`. */
  ghost function SetLink<E>(m: Mem<E>, parent: HeapNode?<E>, n: HeapNode?<E>, to: HeapNode?<E>): Mem<E> {
    if parent == null then m.(root := to)
    else if parent !in m.at then m
    else if m.at[parent].left == n then SetLeft(m, parent, to)
    else if m.at[parent].right == n then SetRight(m, parent, to)
    else m
  }

  /** Node `i` in level order, null past either end. */
  function Nth<E>(s: seq<HeapNode<E>>, i: int): HeapNode?<E> {
    if 0 <= i < |s| then s[i] else null
  }

  ghost predicate Distinct<E>(s: seq<HeapNode<E>>) {
    forall i, j :: 0 <= i < j < |s| ==> s[i] != s[j]
  }

  function Parent<E>(s: seq<HeapNode<E>>, i: int): HeapNode?<E> {
    if i <= 0 then null else Nth(s, Up(i))
  }

  ghost predicate WiredAt<E>(s: seq<HeapNode<E>>, m: Mem<E>, i: int)
    requires 0 <= i < |s|
  {
    && s[i] in m.at
    && m.at[s[i]] == Cell(Parent(s, i), Nth(s, 2 * i + 1), Nth(s, 2 * i + 2), m.at[s[i]].entry)
  }

  /** The links are those of the complete binary tree whose level order is `s`. */
  ghost predicate Wired<E>(s: seq<HeapNode<E>>, m: Mem<E>) {
    Distinct(s) && m.root == Nth(s, 0) && forall i {:trigger WiredAt(s, m, i)} :: 0 <= i < |s| ==> WiredAt(s, m, i)
  }

  /** The writes of heap_swap: first the nodes around the pair, then the pair and the sibling. */
  ghost function SwappedAround<E>(m: Mem<E>, parent: HeapNode<E>, child: HeapNode<E>): Mem<E>
    requires parent in m.at && child in m.at
  {
    var p, c := m.at[parent], m.at[child];
    SetParent(SetParent(SetLink(m, p.parent, parent, child), c.left, parent), c.right, parent)
  }

  ghost function SwappedPair<E>(m: Mem<E>, m1: Mem<E>, parent: HeapNode<E>, child: HeapNode<E>): Mem<E>
    requires parent in m.at && child in m.at
  {
    var p, c := m.at[parent], m.at[child];
    var sibling := if p.left == child then p.right else p.left;
    var m2 := if p.left == child then SetCell(m1, child, p.parent, parent, sibling) else SetCell(m1, child, p.parent, sibling, parent);
    SetCell(SetParent(m2, sibling, child), parent, child, c.left, c.right)
  }

  ghost function SwappedMem<E>(m: Mem<E>, parent: HeapNode<E>, child: HeapNode<E>): Mem<E>
    requires parent in m.at && child in m.at
  {
    SwappedPair(m, SwappedAround(m, parent, child), parent, child)
  }

  /** heap_swap as cells: parent and child trade places, and the four neighbours are told. */
  ghost predicate Exchanged<E>(m: Mem<E>, m2: Mem<E>, p: HeapNode<E>, c: HeapNode<E>, pp: HeapNode?<E>,
                               l: HeapNode?<E>, r: HeapNode?<E>, sibling: HeapNode?<E>)
    requires p in m.at && c in m.at
  {
    && m2.at.Keys == m.at.Keys
    && m2.root == (if pp == null then c else m.root)
    && m2.at[p] == Cell(c, l, r, m.at[p].entry)
    && m2.at[c] == (if m.at[p].left == c then Cell(pp, p, sibling, m.at[c].entry) else Cell(pp, sibling, p, m.at[c].entry))
    && forall n :: n in m.at && n != p && n != c ==>
         m2.at[n] == if n == l || n == r then m.at[n].(parent := p)
                     else if n == sibling then m.at[n].(parent := c)
                     else if n != pp then m.at[n]
                     else if m.at[n].left == p then m.at[n].(left := c) else m.at[n].(right := c)
  }

  ghost predicate CanSwap<E>(m: Mem<E>, p: HeapNode<E>, c: HeapNode<E>) {
    && p in m.at && c in m.at && p != c && (m.at[p].left == c || m.at[p].right == c)
    && var pp, l, r := m.at[p].parent, m.at[c].left, m.at[c].right;
    var sibling := if m.at[p].left == c then m.at[p].right else m.at[p].left;
    && (l != null ==> l in m.at && l != p && l != c && l != sibling && l != pp)
    && (r != null ==> r in m.at && r != p && r != c && r != sibling && r != pp && r != l)
    && (sibling != null ==> sibling in m.at && sibling != p && sibling != c && sibling != pp)
    && (pp != null ==> pp in m.at && pp != p && pp != c && (m.at[pp].left == p || m.at[pp].right == p))
  }

  lemma AroundOne<E>(m: Mem<E>, p: HeapNode<E>, c: HeapNode<E>, pp: HeapNode?<E>,
                     l: HeapNode?<E>, r: HeapNode?<E>, n: HeapNode<E>)
    requires CanSwap(m, p, c) && n in m.at && m.at[p].parent == pp && m.at[c].left == l && m.at[c].right == r
    ensures n in SwappedAround(m, p, c).at
    ensures SwappedAround(m, p, c).at[n] ==
              if n == l || n == r then m.at[n].(parent := p)
              else if n != pp then m.at[n]
              else if m.at[n].left == p then m.at[n].(left := c) else m.at[n].(right := c)
  {
  }

  lemma PairOne<E>(m: Mem<E>, m1: Mem<E>, p: HeapNode<E>, c: HeapNode<E>, l: HeapNode?<E>, r: HeapNode?<E>,
                   sibling: HeapNode?<E>, n: HeapNode<E>)
    requires CanSwap(m, p, c) && n in m1.at && p in m1.at && c in m1.at && m.at[c].left == l && m.at[c].right == r
    requires sibling == (if m.at[p].left == c then m.at[p].right else m.at[p].left)
    ensures n in SwappedPair(m, m1, p, c).at
    ensures SwappedPair(m, m1, p, c).at[n] ==
              if n == p then Cell(c, l, r, m1.at[p].entry)
              else if n == c then (if m.at[p].left == c then Cell(m.at[p].parent, p, sibling, m1.at[c].entry)
                                   else Cell(m.at[p].parent, sibling, p, m1.at[c].entry))
              else if n == sibling then m1.at[n].(parent := c)
              else m1.at[n]
  {
  }

  lemma SwapExchanges<E>(m: Mem<E>, p: HeapNode<E>, c: HeapNode<E>, pp: HeapNode?<E>,
                         l: HeapNode?<E>, r: HeapNode?<E>, sibling: HeapNode?<E>)
    requires CanSwap(m, p, c) && m.at[p].parent == pp && m.at[c].left == l && m.at[c].right == r
    requires sibling == (if m.at[p].left == c then m.at[p].right else m.at[p].left)
    ensures Exchanged(m, SwappedMem(m, p, c), p, c, pp, l, r, sibling)
    ensures SameEntries(m, SwappedMem(m, p, c))
  {
    var m1 := SwappedAround(m, p, c);
    AroundOne(m, p, c, pp, l, r, p);
    AroundOne(m, p, c, pp, l, r, c);
    SwapKeys(m, p, c);
    forall n | n in m.at
      ensures SwappedMem(m, p, c).at[n].entry == m.at[n].entry
      ensures n != p && n != c ==>
                SwappedMem(m, p, c).at[n] ==
                  if n == l || n == r then m.at[n].(parent := p)
                  else if n == sibling then m.at[n].(parent := c)
                  else if n != pp then m.at[n]
                  else if m.at[n].left == p then m.at[n].(left := c) else m.at[n].(right := c)
    {
      AroundOne(m, p, c, pp, l, r, n);
      PairOne(m, m1, p, c, l, r, sibling, n);
    }
    PairOne(m, m1, p, c, l, r, sibling, p);
    PairOne(m, m1, p, c, l, r, sibling, c);
  }

  lemma SwapKeys<E>(m: Mem<E>, p: HeapNode<E>, c: HeapNode<E>)
    requires p in m.at && c in m.at
    ensures SwappedMem(m, p, c).at.Keys == m.at.Keys && SwappedMem(m, p, c).root == if m.at[p].parent == null then c else m.root
  {
  }

  /** Both memories hold the same entries. */
  ghost predicate SameEntries<E>(m: Mem<E>, m2: Mem<E>) {
    m2.at.Keys == m.at.Keys && forall n :: n in m.at ==> m2.at[n].entry == m.at[n].entry
  }

  lemma SameIndex<E>(s: seq<HeapNode<E>>, i: nat, j: int)
    requires Distinct(s) && i < |s|
    ensures s[i] == Nth(s, j) <==> i == j
  {
  }

  /** The neighbours of a swap, by their places. */
  ghost predicate ExchangedAt<E>(s: seq<HeapNode<E>>, m: Mem<E>, m2: Mem<E>, c: nat)
    requires 0 < c < |s| && s[c] in m.at && s[Up(c)] in m.at
  {
    var p := Up(c);
    Exchanged(m, m2, s[p], s[c], Parent(s, p), Nth(s, 2 * c + 1), Nth(s, 2 * c + 2),
              if c == 2 * p + 1 then Nth(s, 2 * p + 2) else Nth(s, 2 * p + 1))
  }

  lemma OtherCell<E>(s: seq<HeapNode<E>>, m: Mem<E>, m2: Mem<E>, c: nat, i: nat)
    requires Distinct(s) && 0 < c < |s| && i < |s| && i != c && i != Up(c)
    requires WiredAt(s, m, c) && WiredAt(s, m, Up(c)) && WiredAt(s, m, i) && ExchangedAt(s, m, m2, c)
    ensures s[i] in m2.at
    ensures var p, x := Up(c), m.at[s[i]];
            m2.at[s[i]] == if i == 2 * c + 1 || i == 2 * c + 2 then x.(parent := s[p])
                           else if i > 0 && Up(i) == p then x.(parent := s[c])
                           else if p == 0 || i != Up(p) then x
                           else if p == 2 * i + 1 then x.(left := s[c]) else x.(right := s[c])
  {
    var p := Up(c);
    SameIndex(s, i, c);
    SameIndex(s, i, p);
    SameIndex(s, i, 2 * c + 1);
    SameIndex(s, i, 2 * c + 2);
    SameIndex(s, i, if c == 2 * p + 1 then 2 * p + 2 else 2 * p + 1);
    SameIndex(s, i, Up(p));
    SameIndex(s, p, 2 * i + 1);
  }

  lemma SwappedCell<E>(s: seq<HeapNode<E>>, m: Mem<E>, m2: Mem<E>, c: nat, i: nat)
    requires Distinct(s) && 0 < c < |s| && i < |s|
    requires WiredAt(s, m, c) && WiredAt(s, m, Up(c)) && WiredAt(s, m, i) && ExchangedAt(s, m, m2, c)
    ensures WiredAt(Swapped(s, Up(c), c), m2, i)
  {
    var p := Up(c);
    var t := Swapped(s, p, c);
    if i == c {
    } else if i == p {
      SameIndex(s, c, 2 * p + 1);
    } else {
      OtherCell(s, m, m2, c, i);
    }
  }

  /** All entries are as they were, and only members of `s` were written to. */
  ghost predicate Sifted<E>(s: multiset<HeapNode<E>>, m: Mem<E>, m2: Mem<E>) {
    m2.at.Keys == m.at.Keys &&
    forall n :: n in m.at ==> m2.at[n].entry == m.at[n].entry && (n !in s ==> m2.at[n] == m.at[n])
  }

  lemma SiftedTrans<E>(s: multiset<HeapNode<E>>, m: Mem<E>, m2: Mem<E>, m3: Mem<E>)
    requires Sifted(s, m, m2) && Sifted(s, m2, m3)
    ensures Sifted(s, m, m3)
  {
  }

  lemma SwapWired<E>(s: seq<HeapNode<E>>, m: Mem<E>, m2: Mem<E>, c: nat)
    requires Wired(s, m) && 0 < c < |s| && WiredAt(s, m, c) && WiredAt(s, m, Up(c)) && ExchangedAt(s, m, m2, c)
    ensures Wired(Swapped(s, Up(c), c), m2)
    ensures SameEntries(m, m2) ==> Sifted(multiset(s), m, m2)
  {
    var t := Swapped(s, Up(c), c);
    forall i | 0 <= i < |t| ensures WiredAt(t, m2, i) {
      assert WiredAt(s, m, i);
      SwappedCell(s, m, m2, c, i);
    }
  }

  // ---- heap_replace: `r` takes over the links of node `a`.

  ghost function ReplacedMem<E>(m: Mem<E>, a: HeapNode<E>, r: HeapNode<E>): Mem<E>
    requires a in m.at && r in m.at
  {
    var x := m.at[a];
    var m2 := SetParent(SetParent(SetLink(m, x.parent, a, r), x.left, r), x.right, r);
    SetCell(m2, r, x.parent, x.left, x.right)
  }

  ghost predicate TakenOver<E>(m: Mem<E>, m2: Mem<E>, a: HeapNode<E>, r: HeapNode<E>, pp: HeapNode?<E>,
                               l: HeapNode?<E>, rr: HeapNode?<E>)
    requires a in m.at && r in m.at
  {
    && m2.at.Keys == m.at.Keys
    && m2.root == (if pp == null then r else m.root)
    && m2.at[r] == Cell(pp, l, rr, m.at[r].entry)
    && forall n :: n in m.at && n != r ==>
         m2.at[n] == if n == l || n == rr then m.at[n].(parent := r)
                     else if n != pp then m.at[n]
                     else if m.at[n].left == a then m.at[n].(left := r) else m.at[n].(right := r)
  }

  lemma ReplaceTakesOver<E>(m: Mem<E>, a: HeapNode<E>, r: HeapNode<E>, pp: HeapNode?<E>, l: HeapNode?<E>, rr: HeapNode?<E>)
    requires a in m.at && r in m.at && a != r && m.at[a].parent == pp && m.at[a].left == l && m.at[a].right == rr
    requires l != null ==> l in m.at && l != r && l != pp
    requires rr != null ==> rr in m.at && rr != r && rr != pp && rr != l
    requires pp != null ==> pp in m.at && pp != a && pp != r && (m.at[pp].left == a || m.at[pp].right == a)
    ensures TakenOver(m, ReplacedMem(m, a, r), a, r, pp, l, rr)
  {
  }

  ghost predicate TakenOverAt<E>(s: seq<HeapNode<E>>, m: Mem<E>, m2: Mem<E>, k: nat, r: HeapNode<E>)
    requires k < |s| && s[k] in m.at && r in m.at
  {
    TakenOver(m, m2, s[k], r, Parent(s, k), Nth(s, 2 * k + 1), Nth(s, 2 * k + 2))
  }

  lemma ReplacedCell<E>(s: seq<HeapNode<E>>, m: Mem<E>, m2: Mem<E>, k: nat, r: HeapNode<E>, i: nat)
    requires Distinct(s) && k < |s| && i < |s| && r !in s && r in m.at && WiredAt(s, m, k) && WiredAt(s, m, i)
    requires TakenOverAt(s, m, m2, k, r)
    ensures WiredAt(s[k := r], m2, i)
  {
    if i != k {
      assert s[i] != r;
      SameIndex(s, i, 2 * k + 1);
      SameIndex(s, i, 2 * k + 2);
      SameIndex(s, i, Up(k));
      SameIndex(s, k, 2 * i + 1);
    }
  }

  lemma ReplaceWired<E>(s: seq<HeapNode<E>>, m: Mem<E>, m2: Mem<E>, k: nat, r: HeapNode<E>)
    requires Wired(s, m) && k < |s| && r !in s && r in m.at && WiredAt(s, m, k) && TakenOverAt(s, m, m2, k, r)
    ensures Wired(s[k := r], m2)
  {
    var t := s[k := r];
    forall i | 0 <= i < |t| ensures WiredAt(t, m2, i) {
      assert WiredAt(s, m, i);
      ReplacedCell(s, m, m2, k, r, i);
    }
  }

  // ---- The last slot.

  /** Hanging a node without children below slot `(n - 1) / 2`. */
  lemma AppendWired<E>(s: seq<HeapNode<E>>, m: Mem<E>, m2: Mem<E>, x: HeapNode<E>)
    requires Wired(s, m) && x !in s
    requires m2.root == if s == [] then x else m.root
    requires x in m2.at && m2.at[x] == Cell(Parent(s, |s|), null, null, m2.at[x].entry)
    requires forall n :: n in m.at && n != x ==>
               n in m2.at && m2.at[n] == if n != Parent(s, |s|) then m.at[n]
                                         else if |s| % 2 == 0 then m.at[n].(right := x) else m.at[n].(left := x)
    ensures Wired(s + [x], m2)
  {
    var t := s + [x];
    forall i | 0 <= i < |t| ensures WiredAt(t, m2, i) {
      if i < |s| {
        assert WiredAt(s, m, i);
        assert t[i] == s[i] && s[i] != x;
        SameIndex(s, i, Up(|s|));
      }
    }
  }

  /** Cutting the last node off its parent. */
  lemma CutWired<E>(s: seq<HeapNode<E>>, m: Mem<E>, m2: Mem<E>)
    requires Wired(s, m) && |s| > 1 && m2.root == m.root
    requires forall n :: n in m.at ==>
               n in m2.at && m2.at[n] == if n != Parent(s, |s| - 1) then m.at[n]
                                         else if |s| % 2 == 1 then m.at[n].(right := null) else m.at[n].(left := null)
    ensures Wired(s[..|s| - 1], m2)
  {
    var t := s[..|s| - 1];
    forall i | 0 <= i < |t| ensures WiredAt(t, m2, i) {
      assert WiredAt(s, m, i);
      assert t[i] == s[i];
      SameIndex(s, i, Up(|s| - 1));
    }
  }

  // ---- The entries in level order.

  ghost predicate Members<E>(s: seq<HeapNode<E>>, m: Mem<E>) {
    forall i :: 0 <= i < |s| ==> s[i] in m.at
  }

  ghost function Keys<E>(s: seq<HeapNode<E>>, m: Mem<E>): (e: seq<E>)
    requires Members(s, m)
    ensures |e| == |s| && forall i :: 0 <= i < |s| ==> e[i] == m.at[s[i]].entry
  {
    seq(|s|, i requires 0 <= i < |s| => m.at[s[i]].entry)
  }

  lemma WiredMembers<E>(s: seq<HeapNode<E>>, m: Mem<E>)
    requires Wired(s, m)
    ensures Members(s, m)
  {
    forall i | 0 <= i < |s| ensures s[i] in m.at { assert WiredAt(s, m, i); }
  }

  lemma KeysSwapped<E>(s: seq<HeapNode<E>>, m: Mem<E>, m2: Mem<E>, i: nat, j: nat)
    requires Members(s, m) && SameEntries(m, m2) && i < |s| && j < |s|
    ensures Members(Swapped(s, i, j), m2) && Keys(Swapped(s, i, j), m2) == Swapped(Keys(s, m), i, j)
  {
  }

  // ---- The path to slot `n`, counted from one, is given by the bits of `n` below its top bit.

  function Walk(idx: nat, path: nat, d: nat): nat
    decreases d
  {
    if d == 0 then idx else Walk(2 * idx + path % 2, path / 2, d - 1)
  }

  lemma {:induction false} WalkGrows(idx: nat, path: nat, d: nat)
    requires idx > 0
    ensures Walk(idx, path, d) >= idx
    ensures d > 0 ==> Walk(idx, path, d) >= 2 * idx + path % 2
    decreases d
  {
    if d > 0 { WalkGrows(2 * idx + path % 2, path / 2, d - 1); }
  }

  /** struct heap. */
  class Heap<E(!new)> {
    var root: HeapNode?<E>
    var nelts: nat
    const compare: (E, E) -> bool
    ghost var s: seq<HeapNode<E>>  // the member nodes in level order
    ghost var mem: Mem<E>

    /** heap_init. */
    constructor (compare: (E, E) -> bool)
      ensures Valid() && s == [] && mem.at == map[] && this.compare == compare
    {
      root, nelts, s, mem := null, 0, [], Mem(null, map[]);
      this.compare := compare;
    }

    ghost predicate Mirrored()
      reads this, mem.at.Keys
    {
      && root == mem.root
      && forall n :: n in mem.at ==>
           n.parent == mem.at[n].parent && n.left == mem.at[n].left && n.right == mem.at[n].right && n.entry == mem.at[n].entry
    }

    ghost predicate Shaped()
      reads this, mem.at.Keys
    {
      Mirrored() && Wired(s, mem) && Members(s, mem)
    }

    ghost predicate Valid()
      reads this, mem.at.Keys
    {
      Shaped() && nelts == |s| && Ordered(Keys(s, mem), compare)
    }

    method PutRoot(n: HeapNode?<E>)
      requires Mirrored()
      modifies `root, `mem
      ensures Mirrored() && mem == old(mem).(root := n)
    {
      root := n;
      mem := mem.(root := n);
    }

    method PutParent(n: HeapNode<E>, v: HeapNode?<E>)
      requires Mirrored() && n in mem.at
      modifies `mem, n`parent
      ensures Mirrored() && mem == SetParent(old(mem), n, v)
    {
      n.parent := v;
      mem := SetParent(mem, n, v);
    }

    method PutLeft(n: HeapNode<E>, v: HeapNode?<E>)
      requires Mirrored() && n in mem.at
      modifies `mem, n`left
      ensures Mirrored() && mem == SetLeft(old(mem), n, v)
    {
      n.left := v;
      mem := SetLeft(mem, n, v);
    }

    method PutRight(n: HeapNode<E>, v: HeapNode?<E>)
      requires Mirrored() && n in mem.at
      modifies `mem, n`right
      ensures Mirrored() && mem == SetRight(old(mem), n, v)
    {
      n.right := v;
      mem := SetRight(mem, n, v);
    }

    /** All three links of one node. */
    method PutCell(n: HeapNode<E>, p: HeapNode?<E>, l: HeapNode?<E>, r: HeapNode?<E>)
      requires Mirrored() && n in mem.at
      modifies `mem, n`parent, n`left, n`right
      ensures Mirrored() && mem == SetCell(old(mem), n, p, l, r)
    {
      n.parent, n.left, n.right := p, l, r;
      mem := SetCell(mem, n, p, l, r);
    }

    /** What stood at `n`, below `p` or at the root, is now `to`; a parent that links no `n` is left alone. */
    method PutLink(p: HeapNode?<E>, n: HeapNode<E>, to: HeapNode?<E>)
      requires Mirrored() && (p == null || p in mem.at)
      modifies `root, `mem, mem.at.Keys
      ensures Mirrored() && mem == SetLink(old(mem), p, n, to)
    {
      if p == null {
        PutRoot(to);
      } else if p.left == n {
        PutLeft(p, to);
      } else if p.right == n {
        PutRight(p, to);
      }
    }

    /** heap_swap. */
    method Swap(parent: HeapNode<E>, child: HeapNode<E>, ghost c: nat)
      requires Shaped() && 0 < c < |s| && s[c] == child && s[Up(c)] == parent
      modifies `root, `mem, `s, mem.at.Keys
      ensures Shaped() && s == Swapped(old(s), Up(c), c) && Sifted(multiset(old(s)), old(mem), mem)
      ensures Keys(s, mem) == Swapped(old(Keys(s, mem)), Up(c), c) && multiset(s) == multiset(old(s))
    {
      hide Wired, WiredAt, CanSwap, ExchangedAt, SwappedMem, Members, Keys, Sifted, SameEntries;
      SwapReady(s, mem, c);
      Exchange(parent, child);
      SwapWired(s, old(mem), mem, c);
      KeysSwapped(s, old(mem), mem, Up(c), c);
      s := Swapped(s, Up(c), c);
    }

    method ExchangeAround(parent: HeapNode<E>, child: HeapNode<E>)
      requires Mirrored() && CanSwap(mem, parent, child)
      modifies `root, `mem, mem.at.Keys
      ensures Mirrored() && mem == SwappedAround(old(mem), parent, child)
    {
      var lchild, rchild := child.left, child.right;
      PutLink(parent.parent, parent, child);
      if lchild != null { PutParent(lchild, parent); }
      if rchild != null { PutParent(rchild, parent); }
    }

    method Exchange(parent: HeapNode<E>, child: HeapNode<E>)
      requires Mirrored() && CanSwap(mem, parent, child)
      modifies `root, `mem, mem.at.Keys
      ensures Mirrored() && mem == SwappedMem(old(mem), parent, child)
    {
      var pparent, lchild, rchild := parent.parent, child.left, child.right;
      var leftmost, sibling := parent.left == child, if parent.left == child then parent.right else parent.left;
      ExchangeAround(parent, child);
      Seat(parent, child, pparent, leftmost, sibling);
      PutCell(parent, child, lchild, rchild);
    }

    /** The child in the parent's place, with the parent beside the sibling below it. */
    method Seat(parent: HeapNode<E>, child: HeapNode<E>, pparent: HeapNode?<E>, leftmost: bool, sibling: HeapNode?<E>)
      requires Mirrored() && parent in mem.at && child in mem.at && (sibling != null ==> sibling in mem.at)
      modifies `mem, mem.at.Keys
      ensures Mirrored() && mem.at.Keys == old(mem.at.Keys)
      ensures mem == SetParent(if leftmost then SetCell(old(mem), child, pparent, parent, sibling)
                               else SetCell(old(mem), child, pparent, sibling, parent), sibling, child)
    {
      if leftmost {
        PutCell(child, pparent, parent, sibling);
      } else {
        PutCell(child, pparent, sibling, parent);
      }
      if sibling != null { PutParent(sibling, child); }
    }

    /** Walks from the root to the parent of slot `n` (counted from one); `path` ends with the side to take there. */
    method LastParent(n0: nat) returns (parent: HeapNode?<E>, path: nat)
      requires Shaped() && 0 < n0 <= |s| + 1
      ensures n0 == 1 ==> parent == root && path == 0
      ensures n0 >= 2 ==> parent == Nth(s, Up(n0 - 1)) && path % 2 == n0 % 2
    {
      path := 0;
      var d, n := 0, n0;
      while n >= 2
        invariant 0 < n <= n0 && Walk(n, path, d) == n0 && (n0 == 1 ==> path == 0 && d == 0) && (d == 0 ==> n == n0)
      {
        path := 2 * path + n % 2;
        d, n := d + 1, n / 2;
        assert path / 2 * 2 + path % 2 == path;
      }
      parent := root;
      ghost var idx := 1;
      while d > 1
        invariant idx > 0 && Walk(idx, path, d) == n0 && (n0 >= 2 ==> d >= 1 && parent == Nth(s, idx - 1))
        invariant n0 == 1 ==> parent == root && path == 0 && d == 0
      {
        WalkGrows(idx, path, d);
        WalkGrows(2 * idx + path % 2, path / 2, d - 1);
        assert WiredAt(s, mem, idx - 1);
        parent := if path % 2 == 1 then parent.right else parent.left;
        idx := 2 * idx + path % 2;
        d, path := d - 1, path / 2;
      }
      if n0 >= 2 {
        assert Walk(idx, path, 1) == Walk(2 * idx + path % 2, path / 2, 0) == n0;
      }
    }

    /** heap_insert. */
    method Insert(node: HeapNode<E>)
      requires Valid() && StrictWeak(compare) && node !in s && node.left == null && node.right == null
      modifies this, mem.at.Keys, node
      ensures Valid() && multiset(s) == multiset(old(s)) + multiset{node}
      ensures mem.at.Keys == old(mem.at.Keys) + {node}
      ensures Kept(old(mem), mem) && mem.at[node].entry == old(node.entry)
    {
      Hang(node);
      SiftUp(node, |s| - 1);
    }

    /** The first half of heap_insert: the node becomes the last one. */
    method Hang(node: HeapNode<E>)
      requires Valid() && node !in s && node.left == null && node.right == null
      modifies this, mem.at.Keys, node
      ensures Shaped() && nelts == |s| && s == old(s) + [node] && mem.at.Keys == old(mem.at.Keys) + {node}
      ensures OrderedBut(Keys(s, mem), compare, |s| - 1)
      ensures Kept(old(mem), mem) && mem.at[node].entry == old(node.entry)
    {
      hide Wired, WiredAt, Ordered, StrictWeak, OrderedBut, Kept;
      nelts := nelts + 1;
      var parent, path := LastParent(nelts);
      OtherParity(path, |s|);
      NoRoot(s, mem);
      HangUnder(node, parent, path);
    }

    /** `parent` is the place for one more node, on the side that the last bit of `path` tells. */
    method HangUnder(node: HeapNode<E>, parent: HeapNode?<E>, path: nat)
      requires Shaped() && Ordered(Keys(s, mem), compare) && node !in s && node.left == null && node.right == null
      requires parent == Parent(s, |s|) && (parent != null ==> (path % 2 == 1) == (|s| % 2 == 0))
      modifies `root, `mem, `s, mem.at.Keys, node
      ensures Shaped() && s == old(s) + [node] && mem.at.Keys == old(mem.at.Keys) + {node}
      ensures OrderedBut(Keys(s, mem), compare, |s| - 1)
      ensures Kept(old(mem), mem) && mem.at[node].entry == old(node.entry)
    {
      hide Wired, WiredAt, Ordered, StrictWeak, OrderedBut, Kept;
      Appended(s, mem, parent, node, node.entry, compare);
      SideOf(mem, path % 2 == 1, |s| % 2 == 0, parent, node, node.entry);
      assert parent == null || parent in mem.at;
      hide HungMem;
      Attach(node, parent, path);
      s := s + [node];
    }

    method Attach(node: HeapNode<E>, parent: HeapNode?<E>, path: nat)
      requires Mirrored() && node.left == null && node.right == null && (parent == null || parent in mem.at)
      modifies `root, `mem, mem.at.Keys, node
      ensures Mirrored() && mem == HungMem(old(mem), path % 2 == 1, parent, node, old(node.entry))
    {
      Adopt(node, parent);
      if parent == null {
        PutRoot(node);
      } else if path % 2 == 1 {
        PutRight(parent, node);
      } else {
        PutLeft(parent, node);
      }
    }

    method Adopt(node: HeapNode<E>, parent: HeapNode?<E>)
      requires Mirrored() && node.left == null && node.right == null
      modifies `mem, node`parent
      ensures Mirrored() && mem == old(mem).(at := old(mem).at[node := Cell(parent, null, null, node.entry)])
    {
      node.parent := parent;
      mem := mem.(at := mem.at[node := Cell(parent, null, null, node.entry)]);
    }

    method SiftUp(node: HeapNode<E>, ghost i0: nat)
      requires Shaped() && nelts == |s| && StrictWeak(compare) && i0 < |s| && s[i0] == node
      requires OrderedBut(Keys(s, mem), compare, i0)
      modifies `root, `mem, `s, mem.at.Keys
      ensures Valid() && multiset(s) == multiset(old(s)) && Sifted(multiset(old(s)), old(mem), mem)
    {
      ghost var i: nat := i0;
      assert WiredAt(s, mem, i);
      while node.parent != null && compare(node.entry, node.parent.entry)
        invariant Shaped() && nelts == |s| && 0 <= i < |s| && s[i] == node && node.parent == Parent(s, i)
        invariant OrderedBut(Keys(s, mem), compare, i)
        invariant multiset(s) == multiset(old(s)) && Sifted(multiset(old(s)), old(mem), mem)
        decreases i
      {
        ghost var m := mem;
        i := StepUp(node, i);
        SiftedTrans(multiset(old(s)), old(mem), m, mem);
      }
      SiftUpDone(Keys(s, mem), compare, i);
    }

    method StepUp(node: HeapNode<E>, ghost i: nat) returns (ghost p: nat)
      requires Shaped() && StrictWeak(compare) && 0 < i < |s| && s[i] == node && node.parent == Parent(s, i)
      requires node.parent != null && compare(node.entry, node.parent.entry) && OrderedBut(Keys(s, mem), compare, i)
      modifies `root, `mem, `s, mem.at.Keys
      ensures Shaped() && p < i && |s| == |old(s)| && s[p] == node && node.parent == Parent(s, p)
      ensures OrderedBut(Keys(s, mem), compare, p)
      ensures multiset(s) == multiset(old(s)) && Sifted(multiset(old(s)), old(mem), mem)
    {
      SiftUpStep(Keys(s, mem), compare, i);
      Swap(node.parent, node, i);
      p := Up(i);
      assert WiredAt(s, mem, p);
    }

    /** The node sift down exchanges `v` with, or `v` when it is in place. */
    method PickChild(v: HeapNode<E>, ghost i: nat) returns (est: HeapNode<E>)
      requires Shaped() && i < |s| && s[i] == v
      ensures est == s[Smallest(Keys(s, mem), compare, i)]
    {
      assert WiredAt(s, mem, i);
      est := v;
      if v.left != null { est := if compare(est.entry, v.left.entry) then est else v.left; }
      if v.right != null { est := if compare(est.entry, v.right.entry) then est else v.right; }
    }

    method SiftDown(v: HeapNode<E>, ghost k: nat) returns (ghost i: nat)
      requires Shaped() && nelts == |s| && StrictWeak(compare) && k < |s| && s[k] == v
      requires OrderedDown(Keys(s, mem), compare, k, k)
      modifies `root, `mem, `s, mem.at.Keys
      ensures Shaped() && nelts == |s| && i < |s| && s[i] == v && OrderedBut(Keys(s, mem), compare, i)
      ensures multiset(s) == multiset(old(s)) && Sifted(multiset(old(s)), old(mem), mem)
    {
      i := k;
      var done := false;
      while !done
        invariant Shaped() && nelts == |s| == |old(s)| && k <= i < |s| && s[i] == v
        invariant if done then OrderedBut(Keys(s, mem), compare, i) else OrderedDown(Keys(s, mem), compare, i, k)
        invariant multiset(s) == multiset(old(s)) && Sifted(multiset(old(s)), old(mem), mem)
        decreases |s| - i, !done
      {
        ghost var m := mem;
        done, i := StepDown(v, i, k);
        SiftedTrans(multiset(s), old(mem), m, mem);
      }
    }

    /** One round of sift down. */
    method StepDown(v: HeapNode<E>, ghost i: nat, ghost k: nat) returns (done: bool, ghost c: nat)
      requires Shaped() && StrictWeak(compare) && k <= i < |s| && s[i] == v && OrderedDown(Keys(s, mem), compare, i, k)
      modifies `root, `mem, `s, mem.at.Keys
      ensures Shaped() && i <= c < |s| == |old(s)| && s[c] == v && (!done ==> i < c)
      ensures if done then OrderedBut(Keys(s, mem), compare, c) else OrderedDown(Keys(s, mem), compare, c, k)
      ensures multiset(s) == multiset(old(s)) && Sifted(multiset(old(s)), old(mem), mem)
    {
      var est := PickChild(v, i);
      c := Smallest(Keys(s, mem), compare, i);
      done := est == v;
      if done {
        SameIndex(s, c, i);
        SiftDownDone(Keys(s, mem), compare, i, k);
      } else {
        SiftDownStep(Keys(s, mem), compare, i, k);
        Swap(v, est, c);
      }
    }

    /** heap_replace. */
    method Replace(a: HeapNode<E>, r: HeapNode<E>)
      requires Mirrored() && CanReplace(mem, a, r)
      modifies `root, `mem, mem.at.Keys
      ensures Mirrored() && mem == ReplacedMem(old(mem), a, r)
    {
      PutLink(a.parent, a, r);
      if a.left != null { PutParent(a.left, r); }
      if a.right != null { PutParent(a.right, r); }
      PutCell(r, a.parent, a.left, a.right);
    }

    /** heap_remove: `k` is the place of `node`. */
    method Remove(node: HeapNode<E>, ghost k: nat)
      requires Valid() && StrictWeak(compare) && (nelts != 0 ==> k < |s| && s[k] == node)
      modifies this, mem.at.Keys
      ensures Valid() && mem.at.Keys == old(mem.at.Keys) && Kept(old(mem), mem)
      ensures old(nelts) == 0 ==> s == [] && mem == old(mem)
      ensures old(nelts) != 0 ==>
                && nelts == old(nelts) - 1 && multiset(s) == multiset(old(s)) - multiset{node}
                && node.parent == null && node.left == null && node.right == null && node !in s
    {
      hide Ordered, WiredAt;
      if nelts == 0 { return; }
      var parent, path := LastParent(nelts);
      nelts := nelts - 1;
      ghost var n, t, m := |s| - 1, s, mem;
      var last := CutLast(parent, path);
      if last == null {
        DropOnly(node, m);
        return;
      }
      RemoveFrom(node, last, k, m);
    }

    /** The rest of heap_remove, once the link to the last node is cut. */
    method RemoveFrom(node: HeapNode<E>, last: HeapNode<E>, ghost k: nat, ghost m: Mem<E>)
      requires Mirrored() && Wired(s, m) && Members(s, m) && Ordered(Keys(s, m), compare) && StrictWeak(compare)
      requires |s| > 1 && k < |s| && s[k] == node && s[|s| - 1] == last && mem == CutMem(m, s) && nelts == |s| - 1
      modifies `root, `mem, `s, mem.at.Keys
      ensures Valid() && SameEntries(m, mem) && multiset(s) == multiset(old(s)) - multiset{node} && node !in s
      ensures node.parent == null && node.left == null && node.right == null && |s| == |old(s)| - 1
    {
      hide Wired, WiredAt, Ordered, CutMem, Members, SameEntries;
      Places(s, m, k);
      // For the last node itself, now without links, both sift loops would stop at once.
      if last == node {
        DropLast(node, m);
      } else {
        RemoveInner(node, last, k, m);
      }
    }

    method RemoveInner(node: HeapNode<E>, last: HeapNode<E>, ghost k: nat, ghost m: Mem<E>)
      requires Mirrored() && Wired(s, m) && Members(s, m) && Ordered(Keys(s, m), compare) && StrictWeak(compare)
      requires k < |s| - 1 && s[k] == node && s[|s| - 1] == last && mem == CutMem(m, s) && nelts == |s| - 1
      modifies `root, `mem, `s, mem.at.Keys
      ensures Valid() && SameEntries(m, mem) && multiset(s) == multiset(old(s)) - multiset{node} && node !in s
      ensures node.parent == null && node.left == null && node.right == null && |s| == |old(s)| - 1
    {
      hide Wired, WiredAt, Ordered, StrictWeak, OrderedDown, OrderedBut;
      FillSlot(node, last, k, m);
      ghost var i := SiftDown(last, k);
      SiftUp(last, i);
      assert node !in multiset(s);
    }

    /** heap_dequeue. */
    method Dequeue()
      requires Valid() && StrictWeak(compare)
      modifies this, mem.at.Keys
      ensures Valid() && mem.at.Keys == old(mem.at.Keys) && Kept(old(mem), mem)
      ensures old(s) == [] ==> s == []
      ensures old(s) != [] ==>
                && old(root) != null && old(root) == old(s)[0] && nelts == old(nelts) - 1
                && multiset(s) == multiset(old(s)) - multiset{old(s)[0]}
                && old(root).parent == null && old(root).left == null && old(root).right == null && old(root) !in s
    {
      if root != null {
        Remove(root, 0);
      }
    }

    /** A node outside the heap may change its entry. */
    method PutEntry(node: HeapNode<E>, e: E)
      requires Valid() && node in mem.at && node !in s
      modifies `mem, node`entry
      ensures Valid() && s == old(s) && mem == old(mem).(at := old(mem).at[node := old(mem).at[node].(entry := e)])
    {
      EntryApart(s, mem, node, e);
      node.entry := e;
      mem := mem.(at := mem.at[node := mem.at[node].(entry := e)]);
    }

    /** heap_remove of the only node. */
    method DropOnly(node: HeapNode<E>, ghost m: Mem<E>)
      requires Mirrored() && Wired(s, m) && s == [node] && mem == CutMem(m, s) && nelts == 0
      modifies `root, `s, `mem
      ensures Valid() && s == [] && mem.at == m.at && node.parent == null && node.left == null && node.right == null
    {
      assert WiredAt(s, m, 0);
      assert mem.at == m.at;
      if root == node { PutRoot(null); }
      s := [];
    }

    /** heap_remove of the last node, once the link to it is cut. */
    method DropLast(node: HeapNode<E>, ghost m: Mem<E>)
      requires Mirrored() && Wired(s, m) && Members(s, m) && Ordered(Keys(s, m), compare)
      requires |s| > 1 && s[|s| - 1] == node && mem == CutMem(m, s) && nelts == |s| - 1
      modifies `mem, `s, mem.at.Keys
      ensures Valid() && SameEntries(m, mem) && multiset(s) == multiset(old(s)) - multiset{node} && node !in s
      ensures node.parent == null && node.left == null && node.right == null && |s| == |old(s)| - 1
    {
      LastGone(s, m, compare);
      assert node in m.at;
      PutCell(node, null, null, null);
      s := s[..|s| - 1];
    }

    /** Puts the last node in place of `node`. */
    method FillSlot(node: HeapNode<E>, last: HeapNode<E>, ghost k: nat, ghost m: Mem<E>)
      requires Mirrored() && Wired(s, m) && Members(s, m) && Ordered(Keys(s, m), compare) && StrictWeak(compare)
      requires k < |s| - 1 && s[k] == node && s[|s| - 1] == last && mem == CutMem(m, s)
      modifies `root, `mem, `s, mem.at.Keys
      ensures Shaped() && SameEntries(m, mem) && multiset(s) == multiset(old(s)) - multiset{node} && node !in s
      ensures node.parent == null && node.left == null && node.right == null && |s| == |old(s)| - 1
      ensures s[k] == last && OrderedDown(Keys(s, mem), compare, k, k)
    {
      hide Wired, WiredAt, Ordered, CutMem, StrictWeak, OrderedDown, CanReplace, MovedMem, SameEntries;
      ghost var u := s[..|s| - 1][k := last];
      FilledShape(s, m, k, u);
      FilledOrder(s, m, k, u, MovedMem(mem, node, last), compare);
      Move(node, last);
      s := u;
    }

    method Move(node: HeapNode<E>, last: HeapNode<E>)
      requires Mirrored() && CanReplace(mem, node, last)
      modifies `root, `mem, mem.at.Keys
      ensures Mirrored() && mem == MovedMem(old(mem), node, last)
      ensures node.parent == null && node.left == null && node.right == null
    {
      Replace(node, last);
      assert node in mem.at;
      PutCell(node, null, null, null);
    }

    /** The last node and the link to it, which is cut; null when the root is the only node. */
    method CutLast(parent: HeapNode?<E>, path: nat) returns (last: HeapNode?<E>)
      requires Mirrored() && Wired(s, mem) && 0 < |s|
      requires |s| == 1 ==> parent == root && path == 0
      requires |s| >= 2 ==> parent == Nth(s, Up(|s| - 1)) && path % 2 == |s| % 2
      modifies `mem, mem.at.Keys
      ensures Mirrored() && last == (if |s| == 1 then null else s[|s| - 1])
      ensures mem == CutMem(old(mem), s)
    {
      assert WiredAt(s, mem, 0) && (|s| >= 2 ==> WiredAt(s, mem, Up(|s| - 1)));
      if path % 2 == 1 {
        last := parent.right;
        PutRight(parent, null);
      } else {
        last := parent.left;
        PutLeft(parent, null);
      }
    }
  }

  ghost predicate CanReplace<E>(m: Mem<E>, a: HeapNode<E>, r: HeapNode<E>) {
    && a in m.at && r in m.at
    && var x := m.at[a];
    && (x.parent != null ==> x.parent in m.at && x.parent != a)
    && (x.left != null ==> x.left in m.at && x.left != a)
    && (x.right != null ==> x.right in m.at && x.right != a)
  }

  /** Nothing that was there lost its entry. */
  ghost predicate Kept<E>(m: Mem<E>, m2: Mem<E>) {
    forall n :: n in m.at ==> n in m2.at && m2.at[n].entry == m.at[n].entry
  }

  ghost function HungMem<E>(m: Mem<E>, right: bool, parent: HeapNode?<E>, x: HeapNode<E>, e: E): Mem<E> {
    var m1 := m.(at := m.at[x := Cell(parent, null, null, e)]);
    if parent == null then m1.(root := x) else if right then SetRight(m1, parent, x) else SetLeft(m1, parent, x)
  }

  lemma NoRoot<E>(s: seq<HeapNode<E>>, m: Mem<E>)
    requires Wired(s, m)
    ensures s == [] ==> m.root == null
  {
  }

  /** The side matters only under a parent. */
  lemma SideOf<E>(m: Mem<E>, a: bool, b: bool, parent: HeapNode?<E>, x: HeapNode<E>, e: E)
    requires parent != null ==> a == b
    ensures HungMem(m, a, parent, x, e) == HungMem(m, b, parent, x, e)
  {
  }

  lemma OtherParity(path: nat, n: nat)
    ensures path % 2 == (n + 1) % 2 ==> ((path % 2 == 1) == (n % 2 == 0))
  {
  }

  lemma Appended<E(!new)>(s: seq<HeapNode<E>>, m: Mem<E>, parent: HeapNode?<E>, x: HeapNode<E>, e: E, less: (E, E) -> bool)
    requires Wired(s, m) && Members(s, m) && x !in s && Ordered(Keys(s, m), less)
    requires parent == Parent(s, |s|) && (x in m.at ==> e == m.at[x].entry)
    ensures var m2 := HungMem(m, |s| % 2 == 0, parent, x, e);
            && m2.at.Keys == m.at.Keys + {x} && Kept(m, m2) && m2.at[x].entry == e
            && Wired(s + [x], m2) && Members(s + [x], m2) && OrderedBut(Keys(s + [x], m2), less, |s|)
  {
    var m2 := HungMem(m, |s| % 2 == 0, parent, x, e);
    AppendWired(s, m, m2, x);
    WiredMembers(s + [x], m2);
    AppendedBut(Keys(s, m), less, m2.at[x].entry);
    assert Keys(s + [x], m2) == Keys(s, m) + [m2.at[x].entry];
  }

  /** The memory after the link to the last node was cleared. */
  ghost function CutMem<E>(m: Mem<E>, s: seq<HeapNode<E>>): Mem<E>
    requires |s| > 0
  {
    if |s| == 1 then SetLeft(m, s[0], null)
    else if |s| % 2 == 1 then SetRight(m, s[Up(|s| - 1)], null)
    else SetLeft(m, s[Up(|s| - 1)], null)
  }

  lemma CutAll<E>(s: seq<HeapNode<E>>, m: Mem<E>)
    requires Wired(s, m) && |s| > 1
    ensures Wired(s[..|s| - 1], CutMem(m, s)) && SameEntries(m, CutMem(m, s))
    ensures forall i :: 0 <= i < |s| ==> s[i] in m.at
  {
    WiredMembers(s, m);
    CutWired(s, m, CutMem(m, s));
  }

  /** The links of a node outside `s` do not matter. */
  lemma Forgotten<E>(s: seq<HeapNode<E>>, m: Mem<E>, x: HeapNode<E>)
    requires Wired(s, m) && x !in s
    ensures Wired(s, SetCell(m, x, null, null, null)) && SameEntries(m, SetCell(m, x, null, null, null))
  {
    var m2 := SetCell(m, x, null, null, null);
    forall i | 0 <= i < |s| ensures WiredAt(s, m2, i) {
      assert WiredAt(s, m, i);
      assert s[i] != x;
    }
  }

  lemma EntryApart<E>(s: seq<HeapNode<E>>, m: Mem<E>, x: HeapNode<E>, e: E)
    requires Wired(s, m) && Members(s, m) && x in m.at && x !in s
    ensures var m2 := m.(at := m.at[x := m.at[x].(entry := e)]);
            Wired(s, m2) && Members(s, m2) && Keys(s, m2) == Keys(s, m)
  {
    var m2 := m.(at := m.at[x := m.at[x].(entry := e)]);
    forall i | 0 <= i < |s| ensures WiredAt(s, m2, i) {
      assert WiredAt(s, m, i);
      assert s[i] != x;
    }
  }

  lemma Places<E>(s: seq<HeapNode<E>>, m: Mem<E>, k: nat)
    requires Wired(s, m) && k < |s|
    ensures s[k] == s[|s| - 1] <==> k == |s| - 1
  {
    SameIndex(s, |s| - 1, k);
  }

  lemma LastGone<E(!new)>(s: seq<HeapNode<E>>, m: Mem<E>, less: (E, E) -> bool)
    requires Wired(s, m) && Members(s, m) && |s| > 1 && Ordered(Keys(s, m), less)
    ensures var n := |s| - 1;
            var m3 := SetCell(CutMem(m, s), s[n], null, null, null);
            && Wired(s[..n], m3) && Members(s[..n], m3) && SameEntries(m, m3) && Ordered(Keys(s[..n], m3), less)
            && multiset(s[..n]) == multiset(s) - multiset{s[n]} && s[n] !in s[..n]
  {
    var n := |s| - 1;
    var m1 := CutMem(m, s);
    CutAll(s, m);
    Forgotten(s[..n], m1, s[n]);
    WiredMembers(s[..n], SetCell(m1, s[n], null, null, null));
    PrefixOrdered(Keys(s, m), less, n);
    assert Keys(s[..n], SetCell(m1, s[n], null, null, null)) == Keys(s, m)[..n];
    assert s == s[..n] + [s[n]];
  }

  lemma ReplaceReady<E>(s: seq<HeapNode<E>>, m: Mem<E>, k: nat, r: HeapNode<E>)
    requires Wired(s, m) && k < |s| && r !in s && r in m.at
    ensures WiredAt(s, m, k) && CanReplace(m, s[k], r) && TakenOverAt(s, m, ReplacedMem(m, s[k], r), k, r)
    ensures SameEntries(m, ReplacedMem(m, s[k], r))
  {
    assert WiredAt(s, m, k);
    assert k > 0 ==> WiredAt(s, m, Up(k));
    assert 2 * k + 1 < |s| ==> WiredAt(s, m, 2 * k + 1);
    assert 2 * k + 2 < |s| ==> WiredAt(s, m, 2 * k + 2);
    SameIndex(s, k, 2 * Up(k) + 1);
    ReplaceTakesOver(m, s[k], r, Parent(s, k), Nth(s, 2 * k + 1), Nth(s, 2 * k + 2));
  }

  /** The memory after `r` took over the links of `a` and `a` lost its own. */
  ghost function MovedMem<E>(m: Mem<E>, a: HeapNode<E>, r: HeapNode<E>): Mem<E> {
    if CanReplace(m, a, r) then SetCell(ReplacedMem(m, a, r), a, null, null, null) else m
  }

  lemma FilledShape<E>(s: seq<HeapNode<E>>, m: Mem<E>, k: nat, u: seq<HeapNode<E>>)
    requires Wired(s, m) && Members(s, m) && k < |s| - 1 && u == s[..|s| - 1][k := s[|s| - 1]]
    ensures CanReplace(CutMem(m, s), s[k], s[|s| - 1])
    ensures Wired(u, MovedMem(CutMem(m, s), s[k], s[|s| - 1])) && Members(u, MovedMem(CutMem(m, s), s[k], s[|s| - 1]))
    ensures SameEntries(m, MovedMem(CutMem(m, s), s[k], s[|s| - 1]))
    ensures multiset(u) == multiset(s) - multiset{s[k]} && s[k] !in u
  {
    var n := |s| - 1;
    var t, m1 := s[..n], CutMem(m, s);
    CutAll(s, m);
    assert s[n] !in t && t[k] == s[k];
    ReplaceReady(t, m1, k, s[n]);
    var m2 := ReplacedMem(m1, s[k], s[n]);
    ReplaceWired(t, m1, m2, k, s[n]);
    Forgotten(u, m2, s[k]);
    WiredMembers(u, SetCell(m2, s[k], null, null, null));
    FilledBag(s, k);
  }

  lemma FilledBag<T>(s: seq<T>, k: nat)
    requires k < |s| - 1
    ensures multiset(s[..|s| - 1][k := s[|s| - 1]]) == multiset(s) - multiset{s[k]}
  {
    assert s == s[..|s| - 1] + [s[|s| - 1]];
  }

  lemma FilledOrder<E(!new)>(s: seq<HeapNode<E>>, m: Mem<E>, k: nat, u: seq<HeapNode<E>>, m3: Mem<E>, less: (E, E) -> bool)
    requires Members(s, m) && k < |s| - 1 && Ordered(Keys(s, m), less) && StrictWeak(less)
    requires u == s[..|s| - 1][k := s[|s| - 1]] && Members(u, m3) && SameEntries(m, m3)
    ensures OrderedDown(Keys(u, m3), less, k, k)
  {
    FilledKeys(Keys(s, m), less, k);
    assert Keys(u, m3) == Keys(s, m)[..|s| - 1][k := Keys(s, m)[|s| - 1]];
  }

  lemma FilledKeys<E(!new)>(e: seq<E>, less: (E, E) -> bool, k: nat)
    requires k < |e| - 1 && Ordered(e, less) && StrictWeak(less)
    ensures OrderedDown(e[..|e| - 1][k := e[|e| - 1]], less, k, k)
  {
    PrefixOrdered(e, less, |e| - 1);
    ReplacedDown(e[..|e| - 1], less, k, e[|e| - 1]);
  }

  lemma SwapReady<E>(s: seq<HeapNode<E>>, m: Mem<E>, c: nat)
    requires Wired(s, m) && 0 < c < |s|
    ensures WiredAt(s, m, c) && WiredAt(s, m, Up(c)) && CanSwap(m, s[Up(c)], s[c])
    ensures ExchangedAt(s, m, SwappedMem(m, s[Up(c)], s[c]), c) && SameEntries(m, SwappedMem(m, s[Up(c)], s[c]))
  {
    hide SwappedMem, Exchanged, SameEntries;
    var p := Up(c);
    var sib := if c == 2 * p + 1 then 2 * p + 2 else 2 * p + 1;
    assert WiredAt(s, m, c) && WiredAt(s, m, p);
    assert p > 0 ==> WiredAt(s, m, Up(p));
    assert sib < |s| ==> WiredAt(s, m, sib);
    assert 2 * c + 1 < |s| ==> WiredAt(s, m, 2 * c + 1);
    assert 2 * c + 2 < |s| ==> WiredAt(s, m, 2 * c + 2);
    SameIndex(s, c, 2 * p + 1);
    SwapExchanges(m, s[p], s[c], Parent(s, p), Nth(s, 2 * c + 1), Nth(s, 2 * c + 2), Nth(s, sib));
  }
}

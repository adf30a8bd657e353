/** event/rudp.c: the table of peers, a red-black tree keyed by the bytes of a socket address. */
module Rudp {
  import opened RbTheory
  import opened RbTree
  import opened RbInsert
  import opened RbErase
  import opened RbWalk

  /** memcmp over equally long keys: the sign of the first difference. */
  function Compare(a: Key, b: Key): (cmp: int)
    requires |a| == |b|
    ensures cmp == 0 <==> a == b
  {
    if a == [] then 0
    else if a[0] != b[0] then a[0] - b[0]
    else
      assert a == [a[0]] + a[1..] && b == [b[0]] + b[1..];
      Compare(a[1..], b[1..])
  }

  predicate Less(a: Key, b: Key) {
    |a| == |b| && Compare(a, b) < 0
  }

  lemma {:induction false} CompareSwap(a: Key, b: Key)
    requires |a| == |b|
    ensures Compare(a, b) == -Compare(b, a)
  {
    if a != [] && a[0] == b[0] { CompareSwap(a[1..], b[1..]); }
  }

  lemma {:induction false} LessTrans(a: Key, b: Key, c: Key)
    requires Less(a, b) && Less(b, c)
    ensures Less(a, c)
  {
    if a[0] == b[0] == c[0] { LessTrans(a[1..], b[1..], c[1..]); }
  }

  /** Strictly increasing keys, all `n` bytes long. */
  ghost predicate Sorted(s: seq<RbNode>, n: nat) {
    && (forall i :: 0 <= i < |s| ==> |s[i].key| == n)
    && forall i, j :: 0 <= i < j < |s| ==> Less(s[i].key, s[j].key)
  }

  /** The finite map an ordered sequence of entries stands for. */
  ghost function Entries(s: seq<RbNode>): map<Key, RbNode> {
    if s == [] then map[] else Entries(s[..|s| - 1])[s[|s| - 1].key := s[|s| - 1]]
  }

  lemma {:induction false} EntriesKeys(s: seq<RbNode>)
    ensures forall key :: key in Entries(s) <==> exists i :: 0 <= i < |s| && s[i].key == key
  {
    if s != [] {
      var u := s[..|s| - 1];
      EntriesKeys(u);
      forall key ensures key in Entries(s) <==> exists i :: 0 <= i < |s| && s[i].key == key {
        if key in Entries(u) {
          var i :| 0 <= i < |u| && u[i].key == key;
          assert s[i].key == key;
        }
        if i :| 0 <= i < |s| && s[i].key == key {
          assert i < |u| ==> u[i].key == key;
        }
      }
    }
  }

  lemma {:induction false} EntryAt(s: seq<RbNode>, n: nat, i: nat)
    requires Sorted(s, n) && i < |s|
    ensures s[i].key in Entries(s) && Entries(s)[s[i].key] == s[i]
  {
    if i < |s| - 1 { EntryAt(s[..|s| - 1], n, i); }
  }

  /** All of `s` is below `key`, or above it. */
  ghost predicate AllBelow(s: seq<RbNode>, key: Key) {
    forall i :: 0 <= i < |s| ==> Less(s[i].key, key)
  }

  ghost predicate AllAbove(s: seq<RbNode>, key: Key) {
    forall i :: 0 <= i < |s| ==> Less(key, s[i].key)
  }

  lemma InsertedSorted(a: seq<RbNode>, x: RbNode, b: seq<RbNode>, n: nat)
    requires Sorted(a + b, n) && |x.key| == n && AllBelow(a, x.key) && AllAbove(b, x.key)
    ensures Sorted(a + [x] + b, n)
  {
    var s, u := a + b, a + [x] + b;
    forall i | 0 <= i < |u| && i != |a| ensures u[i] == s[if i < |a| then i else i - 1] {}
    forall i, j | 0 <= i < j < |u| ensures Less(u[i].key, u[j].key) {
      if j == |a| { assert u[i] == a[i]; }
      if i == |a| { assert u[j] == b[j - |a| - 1]; }
    }
  }

  lemma InsertedEntries(a: seq<RbNode>, x: RbNode, b: seq<RbNode>, n: nat)
    requires Sorted(a + b, n) && |x.key| == n && AllBelow(a, x.key) && AllAbove(b, x.key)
    ensures Sorted(a + [x] + b, n) && x.key !in Entries(a + b)
    ensures Entries(a + [x] + b) == Entries(a + b)[x.key := x]
  {
    var s, u := a + b, a + [x] + b;
    InsertedSorted(a, x, b, n);
    NoSuchKey(a, b, x.key);
    forall key ensures key in Entries(u) <==> key in Entries(s) || key == x.key {
      SameKeys(a, x, b, key);
    }
    forall key | key in Entries(u) ensures Entries(u)[key] == Entries(s)[x.key := x][key] {
      SameEntry(a, x, b, n, key);
    }
  }

  lemma SameEntry(a: seq<RbNode>, x: RbNode, b: seq<RbNode>, n: nat, key: Key)
    requires Sorted(a + b, n) && Sorted(a + [x] + b, n) && key in Entries(a + [x] + b)
    ensures if key == x.key then Entries(a + [x] + b)[key] == x
            else key in Entries(a + b) && Entries(a + [x] + b)[key] == Entries(a + b)[key]
  {
    hide Sorted, Entries;
    var s, u := a + b, a + [x] + b;
    EntriesKeys(u);
    EntryAt(u, n, |a|);
    var i :| 0 <= i < |u| && u[i].key == key;
    EntryAt(u, n, i);
    if i < |a| {
      EntryAt(s, n, i);
    } else if i > |a| {
      EntryAt(s, n, i - 1);
    }
  }

  lemma NoSuchKey(a: seq<RbNode>, b: seq<RbNode>, key: Key)
    requires AllBelow(a, key) && AllAbove(b, key)
    ensures key !in Entries(a + b)
  {
    var s := a + b;
    EntriesKeys(s);
    forall i | 0 <= i < |s| ensures s[i].key != key {
      if i < |a| { assert s[i] == a[i]; } else { assert s[i] == b[i - |a|]; }
    }
  }

  lemma SameKeys(a: seq<RbNode>, x: RbNode, b: seq<RbNode>, key: Key)
    ensures key in Entries(a + [x] + b) <==> key in Entries(a + b) || key == x.key
  {
    var s, u := a + b, a + [x] + b;
    EntriesKeys(s);
    EntriesKeys(u);
    if i :| 0 <= i < |s| && s[i].key == key {
      assert u[if i < |a| then i else i + 1].key == key;
    }
    if i :| 0 <= i < |u| && u[i].key == key {
      if i != |a| { assert s[if i < |a| then i else i - 1].key == key; }
    }
    assert u[|a|].key == x.key;
  }

  lemma RemovedEntries(a: seq<RbNode>, x: RbNode, b: seq<RbNode>, n: nat)
    requires Sorted(a + [x] + b, n)
    ensures Sorted(a + b, n) && Entries(a + b) == Entries(a + [x] + b) - {x.key}
  {
    var s, u := a + b, a + [x] + b;
    forall i, j | 0 <= i < j < |s| ensures Less(s[i].key, s[j].key) {
      assert s[i] == u[if i < |a| then i else i + 1] && s[j] == u[if j < |a| then j else j + 1];
    }
    forall i | 0 <= i < |s| ensures |s[i].key| == n {
      assert s[i] == u[if i < |a| then i else i + 1];
    }
    forall i | 0 <= i < |a| ensures Less(a[i].key, x.key) { assert u[i] == a[i] && u[|a|] == x; }
    forall i | 0 <= i < |b| ensures Less(x.key, b[i].key) { assert u[|a| + 1 + i] == b[i] && u[|a|] == x; }
    InsertedEntries(a, x, b, n);
  }

  /** rudp_t. */
  class Table {
    const root: RbRoot
    const keyBytes: nat  // sizeof(sockaddr_u)
    ghost var tree: Tree<RbNode>

    /** rudp_init. */
    constructor (keyBytes: nat)
      ensures Valid() && Map() == map[] && this.keyBytes == keyBytes && fresh(root) && root.mem.at == map[]
    {
      root := new RbRoot();
      this.keyBytes := keyBytes;
      tree := Leaf;
      new;
      assert Rb(tree, 0);
    }

    ghost predicate Valid()
      reads this, root, root.mem.at.Keys
    {
      root.Mirrored() && At(Top, tree, root.mem) && RedBlack(tree) && Sorted(Inorder(tree), keyBytes)
    }

    ghost function Map(): map<Key, RbNode>
      reads this
    {
      Entries(Inorder(tree))
    }

    /** The search loop shared by rudp_insert, rudp_search and rudp_get. */
    method Descend(addr: Key) returns (n: RbNode?, parent: RbNode?, left: bool, ghost k: Ctx<RbNode>, ghost t: Tree<RbNode>)
      requires Valid() && |addr| == keyBytes
      ensures At(k, t, root.mem) && Plug(k, t) == tree && n == Ptr(t) && parent == CtxPtr(k)
      ensures n != null ==> n.key == addr
      ensures !k.Top? ==> (left <==> k.InLeft?)
      ensures AllBelow(Before(k), addr) && AllAbove(After(k), addr)
    {
      k, t := Top, tree;
      n, parent, left := root.node, null, true;
      while n != null
        invariant At(k, t, root.mem) && Plug(k, t) == tree && n == Ptr(t) && parent == CtxPtr(k)
        invariant !k.Top? ==> (left <==> k.InLeft?)
        invariant AllBelow(Before(k), addr) && AllAbove(After(k), addr)
        decreases t
      {
        SubLinks(k, t, root.mem);
        Around3(k, t, keyBytes);
        var cmp := Compare(addr, n.key);
        CompareSwap(addr, n.key);
        if cmp == 0 {
          return;
        }
        parent, left := n, cmp < 0;
        if cmp < 0 {
          SideAbove(k, t, addr, keyBytes);
          ZipLeft(k, t.v, t.c, t.right, t.left, root.mem);
          n := n.left;
          k, t := InLeft(k, t.v, t.c, t.right), t.left;
        } else {
          SideBelow(k, t, addr, keyBytes);
          ZipRight(t.left, t.v, t.c, k, t.right, root.mem);
          n := n.right;
          k, t := InRight(t.left, t.v, t.c, k), t.right;
        }
      }
    }

    /** rudp_search. */
    method Search(addr: Key) returns (e: RbNode?)
      requires Valid() && |addr| == keyBytes
      ensures e == if addr in Map() then Map()[addr] else null
    {
      var parent, left;
      ghost var k, t;
      e, parent, left, k, t := Descend(addr);
      FoundOrNot(k, t, addr, keyBytes);
    }

    /** rudp_insert; an entry whose key is taken is refused and nothing changes. */
    method Insert(entry: RbNode) returns (ok: bool)
      requires Valid() && |entry.key| == keyBytes
      modifies this, root, root.mem.at.Keys, entry
      ensures Valid() && ok == (entry.key !in old(Map()))
      ensures Map() == if ok then old(Map())[entry.key := entry] else old(Map())
      ensures !ok ==> tree == old(tree) && root.mem == old(root.mem)
    {
      var n, parent, left;
      ghost var k, t;
      n, parent, left, k, t := Descend(entry.key);
      FoundOrNot(k, t, entry.key, keyBytes);
      ok := n == null;
      if ok {
        Absent(Inorder(tree), entry);
        Hang(entry, parent, left, k);
        InsertedEntries(Before(k), entry, After(k), keyBytes);
      }
    }

    /** Links `entry` at the empty place `k` and rebalances. */
    method Hang(entry: RbNode, parent: RbNode?, left: bool, ghost k: Ctx<RbNode>)
      requires root.Mirrored() && At(k, Leaf, root.mem) && Plug(k, Leaf) == tree && RedBlack(tree)
      requires parent == CtxPtr(k) && (!k.Top? ==> (left <==> k.InLeft?)) && entry !in Inorder(tree)
      modifies this, root, root.mem.at.Keys, entry
      ensures root.Mirrored() && At(Top, tree, root.mem) && RedBlack(tree)
      ensures root.mem.at.Keys == old(root.mem.at.Keys) + {entry}
      ensures Inorder(old(tree)) == Before(k) + After(k) && Inorder(tree) == Before(k) + [entry] + After(k)
    {
      EmptyPlace(k, entry);
      LinkNode(entry, parent, left, root, k);
      tree := InsertColor(entry, root, k, Node(Leaf, entry, Red, Leaf), 0);
    }

    /** Erases the entry at the place `k`. */
    method EraseAt(e: RbNode, ghost k: Ctx<RbNode>, ghost t: Tree<RbNode>)
      requires Valid() && At(k, t, root.mem) && Plug(k, t) == tree && t.Node? && t.v == e
      modifies this, root, root.mem.at.Keys
      ensures Valid() && root.mem.at.Keys == old(root.mem.at.Keys) && |e.key| == keyBytes && Map() == old(Map()) - {e.key}
      ensures multiset(Inorder(tree)) == multiset(old(Inorder(tree))) - multiset{e}
      ensures |Inorder(tree)| < |old(Inorder(tree))| && root.node == Ptr(tree)
    {
      hide Linked, LinkedCtx, RedBlack, Sorted, Entries;
      TakenOut(k, t, keyBytes);
      tree := Erase(e, root, k, t);
      RootIs(tree, root.mem);
    }

    /** rudp_remove. */
    method Remove(addr: Key) returns (e: RbNode?)
      requires Valid() && |addr| == keyBytes
      modifies this, root, root.mem.at.Keys
      ensures Valid() && e == (if addr in old(Map()) then old(Map())[addr] else null)
      ensures Map() == old(Map()) - {addr}
    {
      var parent, left;
      ghost var k, t;
      e, parent, left, k, t := Descend(addr);
      FoundOrNot(k, t, addr, keyBytes);
      if e != null {
        EraseAt(e, k, t);
      }
    }

    /** rudp_get. The search compares all bytes of `addr`, but a new entry stores only the first `len` of
        them (SOCKADDR_LEN) over zeros; the order survives exactly when no key lies in between. */
    method Get(addr: Key, len: nat) returns (e: RbNode)
      requires Valid() && |addr| == keyBytes && len <= keyBytes
      modifies this, root, root.mem.at.Keys
      ensures root.Mirrored() && At(Top, tree, root.mem) && RedBlack(tree)
      ensures fresh(root.mem.at.Keys - old(root.mem.at.Keys))
      ensures addr in old(Map()) ==> Valid() && Map() == old(Map()) && e == Map()[addr]
      ensures addr !in old(Map()) ==> fresh(e) && e.key == Stored(addr, len)
      ensures addr !in old(Map()) ==> (Valid() <==> !Straddled(old(Map()), addr, len))
      ensures addr !in old(Map()) && Valid() ==> Map() == old(Map())[Stored(addr, len) := e]
      ensures Valid() && addr in Map() && Map() == old(Map())[addr := e] <==> addr in old(Map()) || Stored(addr, len) == addr
    {
      var n, parent, left;
      ghost var k, t;
      n, parent, left, k, t := Descend(addr);
      FoundOrNot(k, t, addr, keyBytes);
      if n != null {
        return n;
      }
      AtLinks(Top, tree, root.mem);
      e := new RbNode(Stored(addr, len));
      ElemsInorder(tree, e);
      Hang(e, parent, left, k);
      StoredOrder(Before(k), e, After(k), keyBytes, addr, len);
    }

    /** rudp_cleanup: takes the root out until nothing is left; every entry is freed exactly once. */
    method Cleanup() returns (freed: seq<RbNode>)
      requires Valid()
      modifies this, root, root.mem.at.Keys
      ensures Valid() && tree == Leaf && root.node == null
      ensures multiset(freed) == multiset(old(Inorder(tree)))
    {
      freed := [];
      ghost var all := multiset(Inorder(tree));
      RootIs(tree, root.mem);
      while root.node != null
        invariant Valid() && root.mem.at.Keys == old(root.mem.at.Keys) && root.node == Ptr(tree)
        invariant multiset(Inorder(tree)) == all - multiset(freed) && multiset(freed) <= all
        decreases |Inorder(tree)|
      {
        var n: RbNode := root.node;
        ghost var bag := multiset(Inorder(tree));
        TopIn(tree);
        EraseAt(n, Top, tree);
        BagStep(all, multiset(freed), bag, n);
        freed := freed + [n];
      }
    }
  }

  /** What memcpy of the first `len` bytes leaves in a zeroed address. */
  function Stored(addr: Key, len: nat): (k: Key)
    requires len <= |addr|
    ensures |k| == |addr|
    ensures k == addr <==> forall i :: len <= i < |addr| ==> addr[i] == 0
  {
    addr[..len] + seq(|addr| - len, i => 0)
  }

  /** Some key lies at or above the stored form of `addr` and below `addr` itself. */
  ghost predicate Straddled(m: map<Key, RbNode>, addr: Key, len: nat)
    requires len <= |addr|
  {
    exists key :: key in m && !Less(key, Stored(addr, len)) && Less(key, addr)
  }

  lemma {:induction false} StoredBelow(addr: Key, len: nat)
    requires len <= |addr|
    ensures Compare(Stored(addr, len), addr) <= 0
  {
    if addr != [] {
      var st := Stored(addr, len);
      if len > 0 {
        assert st[1..] == Stored(addr[1..], len - 1);
        StoredBelow(addr[1..], len - 1);
      } else if addr[0] == 0 {
        assert st[1..] == Stored(addr[1..], 0);
        StoredBelow(addr[1..], 0);
      }
    }
  }

  lemma StoredOrder(a: seq<RbNode>, e: RbNode, b: seq<RbNode>, n: nat, addr: Key, len: nat)
    requires Sorted(a + b, n) && |addr| == n && len <= n && e.key == Stored(addr, len)
    requires AllBelow(a, addr) && AllAbove(b, addr)
    ensures Sorted(a + [e] + b, n) <==> !Straddled(Entries(a + b), addr, len)
    ensures Sorted(a + [e] + b, n) ==> Entries(a + [e] + b) == Entries(a + b)[e.key := e]
  {
    var s := a + b;
    StoredBelow(addr, len);
    EntriesKeys(s);
    forall i | 0 <= i < |b| ensures Less(e.key, b[i].key) {
      if e.key != addr { LessTrans(e.key, addr, b[i].key); }
    }
    if AllBelow(a, e.key) {
      InsertedEntries(a, e, b, n);
      forall i | 0 <= i < |s| ensures Less(s[i].key, e.key) || !Less(s[i].key, addr) {
        CompareSwap(s[i].key, addr);
        if i < |a| { assert s[i] == a[i]; } else { assert s[i] == b[i - |a|]; }
      }
    } else {
      var i :| 0 <= i < |a| && !Less(a[i].key, e.key);
      assert s[i] == a[i] && a[i].key in Entries(s);
      var u := a + [e] + b;
      assert u[i] == a[i] && u[|a|] == e;
    }
  }

  /** An entry stored under less than `addr` is in the way of `addr` itself. */
  lemma StoredStraddles(m: map<Key, RbNode>, addr: Key, len: nat, e: RbNode)
    requires len <= |addr| && Stored(addr, len) != addr
    ensures Straddled(m[Stored(addr, len) := e], addr, len)
  {
    var st := Stored(addr, len);
    StoredBelow(addr, len);
    assert Compare(st, st) == 0 && st in m[st := e];
  }

  /** Getting one address twice always breaks the order when its bytes beyond `len` are not all zero. */
  method GetTwice(table: Table, addr: Key, len: nat) returns (first: RbNode, second: RbNode)
    requires table.Valid() && |addr| == table.keyBytes && len <= |addr| && addr !in table.Map()
    requires Stored(addr, len) != addr && !Straddled(table.Map(), addr, len)
    modifies table, table.root, table.root.mem.at.Keys
    ensures first != second && first.key == second.key == Stored(addr, len) && !table.Valid()
  {
    ghost var m := table.Map();
    first := table.Get(addr, len);
    StoredStraddles(m, addr, len, first);
    second := table.Get(addr, len);
  }

  /** With addresses of 28 bytes, of which an IPv4 one stores 16, a byte left over behind those 16 is enough. */
  method GetTwiceBreaks() returns (table: Table, first: RbNode, second: RbNode)
    ensures table.keyBytes == 28 && first != second && first.key == second.key && !table.Valid()
  {
    table := new Table(28);
    var addr: Key := seq(28, i => if i == 0 then 2 else if i == 27 then 1 else 0);
    assert Stored(addr, 16) != addr by { assert addr[27] == 1; }
    first, second := GetTwice(table, addr, 16);
  }

  lemma Absent(s: seq<RbNode>, e: RbNode)
    requires e.key !in Entries(s)
    ensures e !in s
  {
    EntriesKeys(s);
  }

  lemma EmptyPlace(k: Ctx<RbNode>, entry: RbNode)
    requires RedBlack(Plug(k, Leaf)) && entry !in Inorder(Plug(k, Leaf))
    ensures RedAt(k, Node(Leaf, entry, Red, Leaf), 0) && entry !in CtxElems(k)
    ensures Inorder(Plug(k, Leaf)) == Before(k) + After(k) && Inorder(Node(Leaf, entry, Red, Leaf)) == [entry]
  {
    PlugInorder(k, Leaf);
    PlugElems(k, Leaf);
    ElemsInorder(Plug(k, Leaf), entry);
    var h := UnplugRb(k, Leaf);
  }

  /** What taking out the entry at the place does to the sequence and to the map. */
  lemma TakenOut(k: Ctx<RbNode>, t: Tree<RbNode>, n: nat)
    requires t.Node? && Sorted(Inorder(Plug(k, t)), n)
    ensures var s, u := Inorder(Plug(k, t)), Before(k) + Inorder(t.left) + Inorder(t.right) + After(k);
            && Sorted(u, n) && Entries(u) == Entries(s) - {t.v.key} && |t.v.key| == n
            && multiset(u) == multiset(s) - multiset{t.v} && |u| < |s|
  {
    Around3(k, t, n);
    RemovedEntries(Before(k) + Inorder(t.left), t.v, Inorder(t.right) + After(k), n);
    Regroup4(Before(k), Inorder(t.left), Inorder(t.right), After(k));
    Bags(Before(k) + Inorder(t.left), t.v, Inorder(t.right) + After(k));
  }

  lemma Regroup4(a: seq<RbNode>, b: seq<RbNode>, c: seq<RbNode>, d: seq<RbNode>)
    ensures a + b + c + d == (a + b) + (c + d)
  {
  }

  lemma TopIn(t: Tree<RbNode>)
    requires t.Node?
    ensures t.v in multiset(Inorder(t))
  {
    assert t.v in Inorder(t);
  }

  lemma BagStep(all: multiset<RbNode>, gone: multiset<RbNode>, left: multiset<RbNode>, x: RbNode)
    requires gone <= all && left == all - gone && x in left
    ensures gone + multiset{x} <= all && left - multiset{x} == all - (gone + multiset{x})
  {
  }

  lemma Bags(a: seq<RbNode>, x: RbNode, b: seq<RbNode>)
    ensures multiset(a + b) == multiset(a + [x] + b) - multiset{x} && |a + b| < |a + [x] + b|
  {
  }

  lemma Thirds(a: seq<RbNode>, x: RbNode, b: seq<RbNode>, n: nat)
    requires Sorted(a + [x] + b, n)
    ensures |x.key| == n && AllBelow(a, x.key) && AllAbove(b, x.key)
  {
    var s := a + [x] + b;
    assert s[|a|] == x;
    forall i | 0 <= i < |a| ensures Less(a[i].key, x.key) { assert s[i] == a[i]; }
    forall i | 0 <= i < |b| ensures Less(x.key, b[i].key) { assert s[|a| + 1 + i] == b[i]; }
  }

  lemma BelowTrans(a: seq<RbNode>, x: RbNode, addr: Key)
    requires AllBelow(a, x.key) && Less(x.key, addr)
    ensures AllBelow(a + [x], addr)
  {
    forall i | 0 <= i < |a| ensures Less(a[i].key, addr) { LessTrans(a[i].key, x.key, addr); }
  }

  lemma AboveTrans(x: RbNode, b: seq<RbNode>, addr: Key)
    requires AllAbove(b, x.key) && Less(addr, x.key)
    ensures AllAbove([x] + b, addr)
  {
    forall i | 0 <= i < |b| ensures Less(addr, b[i].key) { LessTrans(addr, x.key, b[i].key); }
  }

  lemma Around3(k: Ctx<RbNode>, t: Tree<RbNode>, n: nat)
    requires t.Node? && Sorted(Inorder(Plug(k, t)), n)
    ensures |t.v.key| == n
    ensures AllBelow(Before(k) + Inorder(t.left), t.v.key) && AllAbove(Inorder(t.right) + After(k), t.v.key)
    ensures Inorder(Plug(k, t)) == (Before(k) + Inorder(t.left)) + [t.v] + (Inorder(t.right) + After(k))
  {
    PlugInorder(k, t);
    Regroup(Before(k), Inorder(t.left), [t.v], Inorder(t.right), After(k));
    Thirds(Before(k) + Inorder(t.left), t.v, Inorder(t.right) + After(k), n);
  }

  lemma SideAbove(k: Ctx<RbNode>, t: Tree<RbNode>, addr: Key, n: nat)
    requires t.Node? && Sorted(Inorder(Plug(k, t)), n) && Less(addr, t.v.key)
    ensures AllAbove(After(InLeft(k, t.v, t.c, t.right)), addr)
  {
    Around3(k, t, n);
    AboveTrans(t.v, Inorder(t.right) + After(k), addr);
    assert [t.v] + Inorder(t.right) + After(k) == [t.v] + (Inorder(t.right) + After(k));
  }

  lemma SideBelow(k: Ctx<RbNode>, t: Tree<RbNode>, addr: Key, n: nat)
    requires t.Node? && Sorted(Inorder(Plug(k, t)), n) && Less(t.v.key, addr)
    ensures AllBelow(Before(InRight(t.left, t.v, t.c, k)), addr)
  {
    Around3(k, t, n);
    BelowTrans(Before(k) + Inorder(t.left), t.v, addr);
  }

  lemma FoundOrNot(k: Ctx<RbNode>, t: Tree<RbNode>, addr: Key, n: nat)
    requires Sorted(Inorder(Plug(k, t)), n) && (t.Node? ==> t.v.key == addr)
    requires AllBelow(Before(k), addr) && AllAbove(After(k), addr)
    ensures var m := Entries(Inorder(Plug(k, t)));
            if t.Node? then addr in m && m[addr] == t.v else addr !in m
  {
    var s := Inorder(Plug(k, t));
    PlugInorder(k, t);
    if t.Node? {
      Around3(k, t, n);
      EntryAt(s, n, |Before(k) + Inorder(t.left)|);
    } else {
      assert s == Before(k) + After(k);
      NoSuchKey(Before(k), After(k), addr);
    }
  }
}

/** Heap order on the level order of a complete binary tree, as a matter of sequences. */
module HeapOrder {

  function Up(i: int): int { (i - 1) / 2 }

  /** What the comparison of a heap has to be: strict, with "neither is less" an equivalence. */
  ghost predicate StrictWeak<E(!new)>(less: (E, E) -> bool) {
    && (forall a, b :: less(a, b) ==> !less(b, a))
    && (forall a, b, c :: less(a, b) && less(b, c) ==> less(a, c))
    && (forall a, b, c :: !less(a, b) && !less(b, c) ==> !less(a, c))
  }

  /** Entry `i` is not less than the entry above it. */
  predicate Ok<E>(e: seq<E>, less: (E, E) -> bool, i: int)
    requires 0 < i < |e|
  {
    !less(e[i], e[Up(i)])
  }

  ghost predicate Ordered<E>(e: seq<E>, less: (E, E) -> bool) {
    forall i {:trigger Ok(e, less, i)} :: 0 < i < |e| ==> Ok(e, less, i)
  }

  function Swapped<E>(s: seq<E>, i: nat, j: nat): seq<E>
    requires i < |s| && j < |s|
  {
    s[i := s[j]][j := s[i]]
  }

  /** The entries below `i` are not less than the entry above `i`. */
  predicate SkipOk<E>(e: seq<E>, less: (E, E) -> bool, i: int)
    requires 0 <= i < |e|
  {
    i > 0 ==>
      && (2 * i + 1 < |e| ==> !less(e[2 * i + 1], e[Up(i)]))
      && (2 * i + 2 < |e| ==> !less(e[2 * i + 2], e[Up(i)]))
  }

  /** Ordered except that the entry at `i` may be too small. */
  ghost predicate OrderedBut<E>(e: seq<E>, less: (E, E) -> bool, i: int)
    requires 0 <= i < |e|
  {
    SkipOk(e, less, i) && forall j {:trigger Ok(e, less, j)} :: 0 < j < |e| && j != i ==> Ok(e, less, j)
  }

  /** Ordered except that the entry at `i` may be too large, and too small as well while `i == k`. */
  ghost predicate OrderedDown<E>(e: seq<E>, less: (E, E) -> bool, i: int, k: int)
    requires 0 <= i < |e|
  {
    && SkipOk(e, less, i)
    && forall j {:trigger Ok(e, less, j)} :: 0 < j < |e| && Up(j) != i && (j != i || i != k) ==> Ok(e, less, j)
  }

  /** One round of sift up. */
  lemma SiftUpStep<E(!new)>(e: seq<E>, less: (E, E) -> bool, i: nat)
    requires StrictWeak(less) && 0 < i < |e| && OrderedBut(e, less, i) && less(e[i], e[Up(i)])
    ensures OrderedBut(Swapped(e, Up(i), i), less, Up(i))
  {
    var p := Up(i);
    var t := Swapped(e, p, i);
    forall j | 0 < j < |t| && j != p ensures Ok(t, less, j) {
      if j != i { assert Ok(e, less, j); }
      if p > 0 { assert Ok(e, less, p); }
    }
    if p > 0 {
      assert Ok(e, less, p);
      if 2 * p + 1 < |e| && 2 * p + 1 != i { assert Ok(e, less, 2 * p + 1); }
      if 2 * p + 2 < |e| && 2 * p + 2 != i { assert Ok(e, less, 2 * p + 2); }
    }
  }

  lemma SiftUpDone<E(!new)>(e: seq<E>, less: (E, E) -> bool, i: nat)
    requires i < |e| && OrderedBut(e, less, i) && (i > 0 ==> !less(e[i], e[Up(i)]))
    ensures Ordered(e, less)
  {
    assert i > 0 ==> Ok(e, less, i);
  }

  /** The child that heap_remove compares its way to, or `i` itself. */
  function Smallest<E>(e: seq<E>, less: (E, E) -> bool, i: nat): (c: nat)
    requires i < |e|
    ensures c < |e| && (c == i || c == 2 * i + 1 || c == 2 * i + 2)
  {
    var c1 := if 2 * i + 1 < |e| && !less(e[i], e[2 * i + 1]) then 2 * i + 1 else i;
    if 2 * i + 2 < |e| && !less(e[c1], e[2 * i + 2]) then 2 * i + 2 else c1
  }

  /** One round of sift down; on a tie the entry moves down. */
  lemma SiftDownStep<E(!new)>(e: seq<E>, less: (E, E) -> bool, i: nat, k: nat)
    requires StrictWeak(less) && i < |e| && OrderedDown(e, less, i, k) && Smallest(e, less, i) != i && k <= i
    ensures OrderedDown(Swapped(e, i, Smallest(e, less, i)), less, Smallest(e, less, i), k)
  {
    var c := Smallest(e, less, i);
    var t := Swapped(e, i, c);
    var a, b := 2 * i + 1, 2 * i + 2;
    assert !less(e[i], e[c]);
    assert a < |e| && a != c ==> !less(e[a], e[c]);
    assert b < |e| && b != c ==> !less(e[b], e[c]);
    forall j | 0 < j < |t| && Up(j) != c ensures Ok(t, less, j) {
      if j != i && j != c && Up(j) != i { assert Ok(e, less, j); }
    }
    if 2 * c + 1 < |e| { assert Ok(e, less, 2 * c + 1); }
    if 2 * c + 2 < |e| { assert Ok(e, less, 2 * c + 2); }
  }

  lemma SiftDownDone<E(!new)>(e: seq<E>, less: (E, E) -> bool, i: nat, k: nat)
    requires StrictWeak(less) && i < |e| && OrderedDown(e, less, i, k) && Smallest(e, less, i) == i
    ensures OrderedBut(e, less, i) && (i != k && i > 0 ==> Ok(e, less, i))
  {
    forall j | 0 < j < |e| && j != i ensures Ok(e, less, j) {
      if Up(j) == i { assert j == 2 * i + 1 || j == 2 * i + 2; }
    }
  }

  /** Putting any entry in place of entry `k` spoils the order around `k` only. */
  lemma ReplacedDown<E(!new)>(e: seq<E>, less: (E, E) -> bool, k: nat, x: E)
    requires StrictWeak(less) && Ordered(e, less) && k < |e|
    ensures OrderedDown(e[k := x], less, k, k)
  {
    var t := e[k := x];
    forall j | 0 < j < |t| && Up(j) != k && j != k ensures Ok(t, less, j) {
      assert Ok(e, less, j);
    }
    if k > 0 {
      assert Ok(e, less, k);
      if 2 * k + 1 < |e| { assert Ok(e, less, 2 * k + 1); }
      if 2 * k + 2 < |e| { assert Ok(e, less, 2 * k + 2); }
    }
  }

  /** A new last entry can only be too small. */
  lemma AppendedBut<E(!new)>(e: seq<E>, less: (E, E) -> bool, x: E)
    requires Ordered(e, less)
    ensures OrderedBut(e + [x], less, |e|)
  {
    var t := e + [x];
    forall j | 0 < j < |t| && j != |e| ensures Ok(t, less, j) { assert Ok(e, less, j); }
  }

  lemma PrefixOrdered<E(!new)>(e: seq<E>, less: (E, E) -> bool, n: nat)
    requires Ordered(e, less) && n <= |e|
    ensures Ordered(e[..n], less)
  {
    forall j | 0 < j < n ensures Ok(e[..n], less, j) { assert Ok(e, less, j); }
  }

  /** The first entry is a minimum. */
  lemma {:induction false} RootIsMin<E(!new)>(e: seq<E>, less: (E, E) -> bool, i: nat)
    requires StrictWeak(less) && Ordered(e, less) && i < |e|
    ensures !less(e[i], e[0])
    decreases i
  {
    if i > 0 {
      assert Ok(e, less, i);
      RootIsMin(e, less, Up(i));
    }
  }
}

/** HRingBuf of base/hbuf.h: blocks are freed in the order in which they were allocated, and none is split at the
    end of the buffer. */
module RingBufs {
  /** A block that is in use. */
  datatype Block = Block(start: nat, len: nat) {
    function End(): nat { start + len }
  }

  /** The blocks lie one behind the other from `from` to `to`, each beginning inside the buffer. */
  predicate Contiguous(bs: seq<Block>, from: nat, to: nat, cap: nat) {
    if bs == [] then from == to
    else bs[0].start == from && (from < cap || cap == 0) && Contiguous(bs[1..], bs[0].End(), to, cap)
  }

  function Total(bs: seq<Block>): nat { if bs == [] then 0 else bs[0].len + Total(bs[1..]) }

  predicate Apart(a: Block, b: Block) { a.End() <= b.start || b.End() <= a.start }

  ghost predicate Disjoint(bs: seq<Block>) { forall i, j :: 0 <= i < j < |bs| ==> Apart(bs[i], bs[j]) }

  lemma {:induction false} ContiguousIn(bs: seq<Block>, from: nat, to: nat, cap: nat)
    requires Contiguous(bs, from, to, cap)
    ensures from <= to && Total(bs) == to - from && Disjoint(bs)
    ensures forall b :: b in bs ==> from <= b.start && b.End() <= to
  {
    if bs != [] {
      ContiguousIn(bs[1..], bs[0].End(), to, cap);
      forall i, j | 0 <= i < j < |bs| ensures Apart(bs[i], bs[j]) {
        assert bs[j] == bs[1..][j - 1];
        if i > 0 { assert Apart(bs[1..][i - 1], bs[1..][j - 1]); }
      }
      forall b | b in bs ensures from <= b.start && b.End() <= to {
        if b != bs[0] { assert b in bs[1..]; }
      }
    }
  }

  lemma {:induction false} ContiguousMore(bs: seq<Block>, from: nat, to: nat, len: nat, cap: nat)
    requires Contiguous(bs, from, to, cap) && (to < cap || cap == 0)
    ensures Contiguous(bs + [Block(to, len)], from, to + len, cap)
  {
    if bs == [] {
      assert [Block(to, len)][1..] == [];
    } else {
      ContiguousMore(bs[1..], bs[0].End(), to, len, cap);
      assert (bs + [Block(to, len)])[1..] == bs[1..] + [Block(to, len)];
    }
  }

  lemma {:induction false} TotalMore(bs: seq<Block>, cs: seq<Block>)
    ensures Total(bs + cs) == Total(bs) + Total(cs)
  {
    if bs == [] {
      assert bs + cs == cs;
    } else {
      TotalMore(bs[1..], cs);
      assert (bs + cs)[1..] == bs[1..] + cs;
    }
  }

  /** Blocks on the two sides of the gap do not meet. */
  lemma TwoSides(lo: seq<Block>, hi: seq<Block>, head: nat, edge: nat, tail: nat, cap: nat)
    requires Contiguous(lo, head, edge, cap) && Contiguous(hi, 0, tail, cap) && tail <= head && edge <= cap
    ensures Disjoint(lo + hi) && forall b :: b in lo + hi ==> b.End() <= cap
  {
    ContiguousIn(lo, head, edge, cap);
    ContiguousIn(hi, 0, tail, cap);
    forall i, j | 0 <= i < j < |lo + hi| ensures Apart((lo + hi)[i], (lo + hi)[j]) {
      if j < |lo| {
        assert Apart(lo[i], lo[j]);
      } else if i >= |lo| {
        assert Apart(hi[i - |lo|], hi[j - |lo|]);
      } else {
        assert lo[i] in lo && hi[j - |lo|] in hi;
      }
    }
  }

  /** Where the blocks in use lie: `lo` from `head` up to `edge`, then the gap, then `hi` from the front up to `tail`;
      or only `lo`, from `head` to `tail`. */
  ghost predicate Laid(lo: seq<Block>, hi: seq<Block>, wrapped: bool, edge: nat, head: nat, tail: nat, cap: nat) {
    && (head < cap || head == cap == 0) && (tail < cap || tail == cap == 0)
    && if wrapped then
         && tail <= head && edge <= cap && cap > 0
         && Contiguous(lo, head, edge, cap) && Contiguous(hi, 0, tail, cap)
         && (edge == cap || (hi != [] && hi[0].len > cap - edge))
       else hi == [] && Contiguous(lo, head, tail, cap)
  }

  /** All blocks in use lie inside the buffer, no two overlap, and the fields tell whether they wrap. */
  lemma LaidSound(lo: seq<Block>, hi: seq<Block>, wrapped: bool, edge: nat, head: nat, tail: nat, cap: nat)
    requires Laid(lo, hi, wrapped, edge, head, tail, cap)
    ensures Disjoint(lo + hi) && forall b :: b in lo + hi ==> b.End() <= cap
    ensures Total(lo + hi) <= cap && (Total(lo + hi) == 0 ==> head == tail)
    ensures wrapped <==> !(head < tail || Total(lo + hi) == 0)
  {
    hide Contiguous, Disjoint;
    TotalMore(lo, hi);
    if wrapped {
      TwoSides(lo, hi, head, edge, tail, cap);
      ContiguousIn(lo, head, edge, cap);
      ContiguousIn(hi, 0, tail, cap);
      if hi != [] { assert hi[0] in hi; }
    } else {
      assert lo + hi == lo;
      ContiguousIn(lo, head, tail, cap);
    }
  }

  lemma ContiguousLess(bs: seq<Block>, from: nat, to: nat, cap: nat)
    requires Contiguous(bs, from, to, cap) && bs != []
    ensures bs[0].start == from && from + bs[0].len <= to && Contiguous(bs[1..], from + bs[0].len, to, cap)
    ensures to == cap > 0 && from + bs[0].len == cap ==> bs[1..] == []
  {
    ContiguousIn(bs[1..], bs[0].End(), to, cap);
  }

  /** The oldest block goes, and blocks or the gap follow it. */
  lemma LaidLess(lo: seq<Block>, hi: seq<Block>, wrapped: bool, edge: nat, head: nat, tail: nat, cap: nat)
    requires Laid(lo, hi, wrapped, edge, head, tail, cap) && lo != []
    ensures lo[0].len <= cap - head
    ensures head + lo[0].len != cap ==> Laid(lo[1..], hi, wrapped, edge, head + lo[0].len, tail, cap)
  {
    ContiguousLess(lo, head, if wrapped then edge else tail, cap);
    hide Contiguous;
  }

  /** The oldest block goes, which ended at the end of the buffer. */
  lemma LaidTurns(lo: seq<Block>, hi: seq<Block>, wrapped: bool, edge: nat, head: nat, tail: nat, cap: nat)
    requires Laid(lo, hi, wrapped, edge, head, tail, cap) && lo != [] && head + lo[0].len == cap
    ensures Laid(hi + lo[1..], [], false, 0, 0, tail, cap) && lo[1..] + hi == hi + lo[1..]
  {
    hide Contiguous;
    ContiguousLess(lo, head, if wrapped then edge else tail, cap);
    var rest := lo[1..];
    if wrapped {
      assert rest == [];
      Unit(hi, rest);
    } else {
      assert cap == 0 && hi == [];
      Unit(rest, hi);
    }
  }

  lemma Unit(bs: seq<Block>, none: seq<Block>)
    requires none == []
    ensures bs + none == bs && none + bs == bs
  {
  }

  /** The oldest block goes, which was the first behind the gap. */
  lemma LaidJumps(lo: seq<Block>, hi: seq<Block>, wrapped: bool, edge: nat, head: nat, tail: nat, cap: nat)
    requires Laid(lo, hi, wrapped, edge, head, tail, cap) && lo == [] && hi != []
    ensures hi[0].len > cap - head && Laid(hi[1..], [], false, 0, hi[0].len, tail, cap)
  {
    EmptyMeets(lo, head, edge, tail, wrapped, cap);
    ContiguousLess(hi, 0, tail, cap);
    hide Contiguous;
  }

  lemma EmptyMeets(lo: seq<Block>, head: nat, edge: nat, tail: nat, wrapped: bool, cap: nat)
    requires lo == [] && Contiguous(lo, head, if wrapped then edge else tail, cap)
    ensures head == if wrapped then edge else tail
  {
  }

  class RingBuf {
    const cap: nat            // len
    var head: nat
    var tail: nat
    var size: nat
    ghost var lo: seq<Block>  // the blocks in use from `head` up
    ghost var hi: seq<Block>  // the blocks in use from the front, behind the gap
    ghost var wrapped: bool
    ghost var edge: nat       // where the gap begins

    ghost function Blocks(): seq<Block>
      reads this
    {
      lo + hi
    }

    ghost predicate Valid()
      reads this
    {
      size == Total(Blocks()) && Laid(lo, hi, wrapped, edge, head, tail, cap)
    }

    constructor (cap: nat)
      ensures Valid() && Blocks() == [] && this.cap == cap && head == tail == size == 0
    {
      this.cap := cap;
      head, tail, size := 0, 0, 0;
      lo, hi, wrapped, edge := [], [], false, 0;
    }

    /** The start of a new block, or -1 for NULL: exactly when neither piece of free room is long enough. */
    method Alloc(len: nat) returns (r: int)
      requires Valid()
      modifies this
      ensures Valid() && Disjoint(Blocks())
      ensures r == -1 <==> (if old(head) < old(tail) || old(size) == 0 then cap - old(tail) < len && old(head) < len
                            else old(head) - old(tail) < len)
      ensures r != -1 ==> 0 <= r && r + len <= cap && Blocks() == old(Blocks()) + [Block(r, len)]
      ensures head == old(head)
      ensures r != -1 ==> tail == (if r + len == cap then 0 else r + len) && size == old(size) + len
      ensures r == -1 ==> Blocks() == old(Blocks()) && tail == old(tail) && size == old(size)
    {
      hide Contiguous, Total, Disjoint;
      LaidSound(lo, hi, wrapped, edge, head, tail, cap);
      r := -1;
      if head < tail || size == 0 {
        if cap - tail >= len {
          r := AllocAtTail(len);
        } else if head >= len {
          r := AllocAtFront(len);
        }
      } else if head - tail >= len {
        r := AllocInGap(len);
      }
      LaidSound(lo, hi, wrapped, edge, head, tail, cap);
    }

    method AllocAtTail(len: nat) returns (r: nat)
      requires Valid() && !wrapped && cap - tail >= len
      modifies this
      ensures Valid() && r + len <= cap && Blocks() == old(Blocks()) + [Block(r, len)] && head == old(head)
      ensures tail == (if r + len == cap then 0 else r + len) && size == old(size) + len
    {
      ContiguousMore(lo, head, tail, len, cap);
      TotalMore(lo, [Block(tail, len)]);
      assert lo + hi == lo;
      r := tail;
      lo := lo + [Block(tail, len)];
      assert lo + hi == lo;
      tail := tail + len;
      if tail == cap {
        tail, wrapped, edge := 0, cap > 0, cap;
      }
      size := size + len;
    }

    method AllocAtFront(len: nat) returns (r: nat)
      requires Valid() && !wrapped && cap - tail < len <= head
      modifies this
      ensures Valid() && r + len <= cap && Blocks() == old(Blocks()) + [Block(r, len)] && head == old(head)
      ensures tail == (if r + len == cap then 0 else r + len) && size == old(size) + len
    {
      assert Contiguous([Block(0, len)], 0, len, cap);
      TotalMore(lo, [Block(0, len)]);
      assert lo + hi == lo;
      r := 0;
      hi, wrapped, edge := [Block(0, len)], true, tail;
      tail := len;
      size := size + len;
    }

    method AllocInGap(len: nat) returns (r: nat)
      requires Valid() && wrapped && head - tail >= len
      modifies this
      ensures Valid() && r + len <= cap && Blocks() == old(Blocks()) + [Block(r, len)] && head == old(head)
      ensures tail == (if r + len == cap then 0 else r + len) && size == old(size) + len
    {
      ContiguousMore(hi, 0, tail, len, cap);
      TotalMore(lo + hi, [Block(tail, len)]);
      assert lo + (hi + [Block(tail, len)]) == (lo + hi) + [Block(tail, len)];
      r := tail;
      hi := hi + [Block(tail, len)];
      tail := tail + len;
      size := size + len;
    }

    /** Frees the oldest block, whose length the caller repeats. */
    method Free(len: nat)
      requires Valid() && Blocks() != [] && Blocks()[0].len == len
      modifies this
      ensures Valid() && Disjoint(Blocks()) && Blocks() == old(Blocks()[1..])
      ensures tail == old(tail) && size == old(size) - len
      ensures head == if len > cap - old(head) then len else if old(head) + len == cap then 0 else old(head) + len
    {
      hide Contiguous, Disjoint, Laid;
      LaidSound(lo, hi, wrapped, edge, head, tail, cap);
      if lo != [] {
        LaidLess(lo, hi, wrapped, edge, head, tail, cap);
        if head + len == cap { LaidTurns(lo, hi, wrapped, edge, head, tail, cap); }
        assert (lo + hi)[1..] == lo[1..] + hi;
      } else {
        assert lo + hi == hi;
        LaidJumps(lo, hi, wrapped, edge, head, tail, cap);
      }
      size := size - len;
      if len <= cap - head {
        head := head + len;
        lo := lo[1..];
        if head == cap {
          head := 0;
          lo, hi, wrapped, edge := hi + lo, [], false, 0;
        }
      } else {
        head := len;
        lo, hi, wrapped, edge := hi[1..], [], false, 0;
      }
      assert lo + [] == lo;
      LaidSound(lo, hi, wrapped, edge, head, tail, cap);
    }
  }

  /** An empty buffer of ten bytes refuses a block of six when its two ends stand in the middle. */
  method EmptyYetFull() returns (r: int, b: RingBuf)
    ensures r == -1 && b.Valid() && b.Blocks() == [] && b.cap == 10
  {
    b := new RingBuf(10);
    var x := b.Alloc(5);
    assert b.Blocks() == [] + [Block(0, 5)];
    b.Free(5);
    r := b.Alloc(6);
  }
}

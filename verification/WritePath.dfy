/** The non-blocking write side of event/nio.c: what the kernel does not take waits in the write queue, and a close
    asked for meanwhile waits with it. Other threads may write and ask for a close between any two locked sections. */
module WritePath {
  import opened Framing
  import opened Queues

  const ERR_OVER_LIMIT: int := 1022
  const ETIMEDOUT: int := 110

  function Min(a: nat, b: nat): nat { if a < b then a else b }

  /** offset_buf_t: the bytes from `offset` on are unsent. */
  datatype OffsetBuf = OffsetBuf(base: Str, offset: nat) {
    predicate Live() { offset < |base| }
    function Unsent(): Str
      requires Live()
    {
      base[offset..]
    }
  }

  predicate AllLive(q: seq<OffsetBuf>) { forall b :: b in q ==> b.Live() }

  /** The unsent bytes of a queue, in order. */
  function Rest(q: seq<OffsetBuf>): Str
    requires AllLive(q)
  {
    if q == [] then [] else q[0].Unsent() + Rest(q[1..])
  }

  /** The answer of one call to the kernel: up to `n` bytes taken, EAGAIN or EINTR, or another error. */
  datatype Kernel = Took(n: nat) | Again | Failed(err: Errno)

  /** How the loop of nio_write ends: nothing left, blocked, or to be closed with an error code or after a zero. */
  datatype Outcome = Emptied | Blocked | Broken(err: int)

  datatype Result = Result(queue: seq<OffsetBuf>, sent: Str, outcome: Outcome)

  /** The next answer, EAGAIN when they run out. */
  function Next(ks: seq<Kernel>): Kernel { if ks == [] then Again else ks[0] }

  function Later(ks: seq<Kernel>): seq<Kernel> { if ks == [] then [] else ks[1..] }

  /** How much of `u` the kernel takes. */
  function Part(u: Str, k: Kernel): nat { if k.Took? then Min(k.n, |u|) else 0 }

  /** The queue after `n` bytes of its front. */
  function Advanced(q: seq<OffsetBuf>, n: nat): (r: seq<OffsetBuf>)
    requires AllLive(q) && q != [] && n <= |q[0].Unsent()|
    ensures AllLive(r)
  {
    if n == 0 then q
    else if n == |q[0].Unsent()| then q[1..]
    else [OffsetBuf(q[0].base, q[0].offset + n)] + q[1..]
  }

  lemma AdvancedRest(q: seq<OffsetBuf>, n: nat)
    requires AllLive(q) && q != [] && n <= |q[0].Unsent()|
    ensures q[0].Unsent()[..n] + Rest(Advanced(q, n)) == Rest(q)
  {
    var u := q[0].Unsent();
    assert q[0].Live() && u == u[..n] + u[n..];
    if n == 0 {
      assert u[..0] + Rest(q) == Rest(q);
    } else if n == |u| {
      assert u[..n] == u;
    } else {
      var f := OffsetBuf(q[0].base, q[0].offset + n);
      assert f.Unsent() == u[n..] && ([f] + q[1..])[1..] == q[1..];
      Regroup(u[..n], u[n..], Rest(q[1..]));
    }
  }

  /** How an answer ends the loop when it does not take the whole front. */
  function Verdict(k: Kernel): Outcome {
    match k
    case Again => Blocked
    case Failed(err) => Broken(err)
    case Took(n) => if n == 0 then Broken(0) else Blocked
  }

  function After(out: Str, r: Result): Result { r.(sent := out + r.sent) }

  /** What nio_write makes of a queue, given the kernel's answers. */
  function Drained(q: seq<OffsetBuf>, ks: seq<Kernel>): (r: Result)
    requires AllLive(q)
    ensures AllLive(r.queue)
    decreases |q|
  {
    if q == [] then Result([], [], Emptied)
    else
      var u, k := q[0].Unsent(), Next(ks);
      var n := Part(u, k);
      if n == |u| then After(u, Drained(q[1..], Later(ks))) else Result(Advanced(q, n), u[..n], Verdict(k))
  }

  /** Nothing is lost, doubled or reordered. */
  lemma {:induction false} DrainConserves(q: seq<OffsetBuf>, ks: seq<Kernel>)
    requires AllLive(q)
    ensures var r := Drained(q, ks);
            && r.sent + Rest(r.queue) == Rest(q)
            && (r.outcome.Emptied? <==> r.queue == [])
    decreases |q|
  {
    if q == [] {
    } else {
      var u, k := q[0].Unsent(), Next(ks);
      var n := Part(u, k);
      assert q[0].Live();
      if n == |u| {
        DrainConserves(q[1..], Later(ks));
        var r := Drained(q[1..], Later(ks));
        Regroup(u, r.sent, Rest(r.queue));
      } else {
        AdvancedRest(q, n);
      }
    }
  }

  /** The kernel takes every buffer whole. */
  ghost predicate TakesAll(q: seq<OffsetBuf>, ks: seq<Kernel>)
    requires AllLive(q)
  {
    |q| <= |ks| && forall i :: 0 <= i < |q| ==> ks[i].Took? && ks[i].n >= |q[i].Unsent()|
  }

  lemma TakesFirst(q: seq<OffsetBuf>, ks: seq<Kernel>)
    requires AllLive(q) && q != [] && ks != []
    ensures TakesAll(q, ks) <==> ks[0].Took? && ks[0].n >= |q[0].Unsent()| && TakesAll(q[1..], ks[1..])
  {
    if ks[0].Took? && ks[0].n >= |q[0].Unsent()| && TakesAll(q[1..], ks[1..]) {
      forall i | 0 <= i < |q| ensures ks[i].Took? && ks[i].n >= |q[i].Unsent()| {
        if i > 0 { assert ks[1..][i - 1].Took? && q[1..][i - 1] == q[i]; }
      }
    }
  }

  /** A kernel that takes all it is offered empties the queue, and no other does. */
  lemma {:induction false} DrainsAllIff(q: seq<OffsetBuf>, ks: seq<Kernel>)
    requires AllLive(q)
    ensures Drained(q, ks).outcome.Emptied? <==> TakesAll(q, ks)
    decreases |q|
  {
    if q != [] {
      assert q[0].Live() && |q[0].Unsent()| > 0;
    }
    if q != [] && ks != [] {
      hide TakesAll;
      TakesFirst(q, ks);
      DrainsAllIff(q[1..], ks[1..]);
    }
  }

  lemma Regroup(a: Str, b: Str, c: Str)
    ensures a + (b + c) == (a + b) + c
  {
  }

  lemma {:induction false} RestAppend(q: seq<OffsetBuf>, b: OffsetBuf)
    requires AllLive(q) && b.Live()
    ensures AllLive(q + [b]) && Rest(q + [b]) == Rest(q) + b.Unsent()
  {
    if q == [] {
      assert [b][1..] == [];
      assert b.Unsent() + [] == b.Unsent();
    } else {
      RestAppend(q[1..], b);
      assert (q + [b])[1..] == q[1..] + [b];
      Regroup(q[0].Unsent(), Rest(q[1..]), b.Unsent());
    }
  }

  /** errno after a failed call. */
  type Errno = e: int | e != 0 witness 1

  /** The bytes of a write that the kernel takes at once: only when nothing waits before them. */
  function Handed(idle: bool, len: nat, k: Kernel): nat { if idle && k.Took? then Min(k.n, len) else 0 }

  /** The socket failed, or it took nothing, which reads as a disconnect. */
  predicate Fails(idle: bool, len: nat, k: Kernel) { idle && (k.Failed? || (k.Took? && Min(k.n, len) == 0)) }

  /** What is left over would not fit. */
  predicate OverLimit(idle: bool, bufsize: nat, limit: nat, len: nat, k: Kernel) {
    Handed(idle, len, k) < len && bufsize + len - Handed(idle, len, k) > limit
  }

  predicate Rejected(idle: bool, bufsize: nat, limit: nat, len: nat, k: Kernel) {
    Fails(idle, len, k) || OverLimit(idle, bufsize, limit, len, k)
  }

  /** Some answer of the kernel refuses a write of which it has already sent a part, exactly for a write on an empty
      queue that is longer by two than the room. */
  lemma TearsIff(idle: bool, bufsize: nat, limit: nat, len: nat)
    ensures (exists k :: Rejected(idle, bufsize, limit, len, k) && Handed(idle, len, k) > 0)
            <==> idle && len >= 2 && bufsize + len >= limit + 2
  {
    if idle && len >= 2 && bufsize + len >= limit + 2 {
      assert Rejected(idle, bufsize, limit, len, Took(1)) && Handed(idle, len, Took(1)) > 0;
    }
  }

  /** Where the thread of the loop stands between the locked sections of hio_handle_events. */
  datatype Phase = Outside | Inside | Ended(emptied: bool)

  datatype Op =
    | Write(buf: Str, answer: Kernel)  // hio_write on any thread
    | Ready                            // hio_handle_events as far as nio_write
    | Drain(answers: seq<Kernel>)      // the locked section of nio_write
    | Finish                           // the end of nio_write
    | Close                            // hio_close on the thread of the loop
    | CloseElsewhere                   // hio_close on another thread
    | Posted                           // hio_close_event_cb
    | Timeout(late: bool)              // __close_timeout_cb, perhaps of a timer the io no longer knows

  class Io {
    const isStream: bool      // HIO_TYPE_SOCK_STREAM
    const limit: nat          // max_write_bufsize
    const queue: Queue<OffsetBuf>
    var bufsize: nat          // write_bufsize
    var wanted: bool          // HV_WRITE in events
    var close: bool
    var closed: bool
    var error: int
    var posted: nat           // close events that wait in the loop
    var armed: bool           // close_timer is alive
    var stray: nat            // close timers alive that close_timer no longer points to
    var phase: Phase
    var sent: Str             // what the kernel took
    ghost var accepted: Str   // what the writes that were not refused brought
    ghost var taken: Str      // the same, with what the kernel took of the refused ones
    ghost var dropped: Str    // what the queue held when it closed
    ghost var asked: nat      // how often a close was asked for
    ghost var requeued: nat   // how often bytes of another thread made a waiting close wait again
    ghost var fired: nat      // how many stray timers have fired

    ghost function Unsent(): Str
      requires queue.Valid() && AllLive(queue.Contents())
      reads queue, queue.ptr
    {
      Rest(queue.Contents())
    }

    /** The queue and its counters. */
    ghost predicate Counted()
      reads `bufsize, `closed, `dropped, `wanted, queue, queue.ptr
    {
      && queue.Valid() && AllLive(queue.Contents())
      && (!closed ==> bufsize == |Unsent()| <= limit && dropped == [])
      && (closed ==> queue.Contents() == [] && !wanted)
      && (!closed && queue.Contents() != [] ==> wanted)
    }

    /** Every byte is where it should be: sent, unsent, or dropped at the close, in the order of the writes. */
    ghost predicate Conserved()
      requires queue.Valid() && AllLive(queue.Contents())
      reads `sent, `dropped, `taken, `accepted, `error, queue, queue.ptr
    {
      sent + Unsent() + dropped == taken && (error == 0 ==> taken == accepted)
    }

    /** Nothing is dropped without an error or a second request; a close that waits is never forgotten, and has its
        timer. */
    ghost predicate Patient()
      requires queue.Valid()
      reads this, queue, queue.ptr
    {
      && posted + (if close then 1 else 0) + (if isStream && phase == Ended(false) then 1 else 0) <= asked
      && (phase != Outside ==> !closed)
      && (closed && error == 0 && asked <= 1 ==> dropped == [])
      && (close && !closed ==> queue.Contents() != [] || phase == Ended(true))
      && (!closed ==> (armed <==> close)) && stray + fired == requeued
    }

    ghost predicate Valid()
      reads this, queue, queue.ptr
    {
      Counted() && Conserved() && Patient()
    }

    constructor (isStream: bool, limit: nat)
      ensures Valid() && fresh(queue) && fresh(queue.ptr) && this.isStream == isStream && this.limit == limit
      ensures !closed && error == 0 && posted == asked == 0 && phase == Outside && sent == accepted == []
      ensures queue.Contents() == [] && bufsize == 0 && !close && !armed && stray == 0
    {
      this.isStream, this.limit := isStream, limit;
      queue := new Queue(4);
      bufsize, wanted, close, closed, error, posted, armed, stray := 0, false, false, false, 0, 0, false, 0;
      phase, sent, accepted, taken, dropped, asked, requeued, fired := Outside, [], [], [], [], 0, 0, 0;
    }

    /** What a write on an open io did to the state it found. */
    ghost predicate Wrote(idle: bool, buf: Str, k: Kernel, r: int, bufsize: nat, sent: Str, unsent: Str, accepted: Str,
                          error: int, posted: nat, asked: nat)
      requires queue.Valid() && AllLive(queue.Contents())
      reads this, queue, queue.ptr
    {
      var n, no := Handed(idle, |buf|, k), Rejected(idle, bufsize, limit, |buf|, k);
      && r == (if no then -1 else n)
      && this.sent == sent + buf[..n]
      && Unsent() == unsent + (if no then [] else buf[n..])
      && this.accepted == accepted + (if no then [] else buf)
      && this.error == (if Fails(idle, |buf|, k) then (if k.Failed? then k.err else error)
                        else if no then ERR_OVER_LIMIT else error)
      && this.posted == posted + (if no && isStream then 1 else 0)
      && this.asked == asked + (if no && isStream then 1 else 0)
    }

    /** hio_write. The result is -1 for a write on a closed io and for a refused one. */
    method Write(buf: Str, k: Kernel) returns (r: int)
      requires Valid()
      modifies this, queue, queue.ptr
      ensures Valid() && (queue.ptr == old(queue.ptr) || fresh(queue.ptr))
      ensures closed == old(closed) && close == old(close) && phase == old(phase) && dropped == old(dropped)
      ensures armed == old(armed) && stray == old(stray) && requeued == old(requeued) && fired == old(fired)
      ensures closed ==> r == -1 && sent == old(sent) && accepted == old(accepted) && error == old(error) && posted == old(posted) && asked == old(asked)
      ensures !closed ==>
        Wrote(old(queue.Contents()) == [], buf, k, r, old(bufsize), old(sent), old(Unsent()), old(accepted), old(error), old(posted), old(asked))
    {
      hide Conserved, Rest;
      if closed { return -1; }
      if queue.Empty() {
        r := TryWrite(buf, k);
      } else {
        r := WriteBehind(buf);
      }
    }

    /** hio_write on an empty queue. */
    method TryWrite(buf: Str, k: Kernel) returns (r: int)
      requires Valid() && !closed && queue.Contents() == []
      modifies `bufsize, `wanted, `error, `posted, `asked, `sent, `accepted, `taken, queue, queue.ptr
      ensures Valid() && (queue.ptr == old(queue.ptr) || fresh(queue.ptr))
      ensures Wrote(true, buf, k, r, old(bufsize), old(sent), old(Unsent()), old(accepted), old(error), old(posted), old(asked))
    {
      hide Rest, AllLive;
      NothingWaits(queue.Contents());
      Start(sent, taken, buf);
      var nwrite := Offer(buf, k);
      if nwrite < 0 { return -1; }
      if 0 < nwrite == |buf| {
        Whole(buf, nwrite);
        Complete(buf);
        return nwrite;
      }
      wanted := true;
      if nwrite < |buf| {
        r := Enqueue(buf, nwrite);
      } else {
        r := 0;
      }
    }

    /** The kernel took the whole of a write. */
    ghost method Complete(buf: Str)
      requires Counted() && Patient() && !closed && queue.Contents() == [] && Unsent() == []
      requires sent == taken + buf && (error == 0 ==> taken == accepted)
      modifies `accepted, `taken
      ensures Valid() && accepted == old(accepted) + buf
    {
      hide Rest, AllLive, Counted;
      WholeQueue();
      taken, accepted := taken + buf, accepted + buf;
      Start(sent, taken, []);
    }

    /** The kernel is asked: -1 when the write is refused at once. */
    method Offer(buf: Str, k: Kernel) returns (r: int)
      modifies `error, `posted, `asked, `sent, `taken
      ensures r == if Fails(true, |buf|, k) then -1 else Handed(true, |buf|, k)
      ensures Fails(true, |buf|, k) ==>
        && error == (if k.Failed? then k.err else old(error)) && sent == old(sent) && taken == old(taken)
        && posted == old(posted) + (if isStream then 1 else 0) && asked == old(asked) + (if isStream then 1 else 0)
      ensures !Fails(true, |buf|, k) ==>
        && error == old(error) && sent == old(sent) + buf[..r] && taken == old(taken) && posted == old(posted) && asked == old(asked)
    {
      Start(taken, taken, buf);
      match k {
        case Failed(err) =>
          error := err;
          Refuse(buf, 0);
          r := -1;
        case Again =>
          Start(sent, taken, buf);
          r := 0;
        case Took(n) =>
          r := Min(n, |buf|);
          if r == 0 {
            Refuse(buf, 0);
            return -1;
          }
          sent := sent + buf[..r];
      }
    }

    /** hio_write behind bytes that wait. */
    method WriteBehind(buf: Str) returns (r: int)
      requires Valid() && !closed && queue.Contents() != []
      modifies `bufsize, `error, `posted, `asked, `accepted, `taken, queue, queue.ptr
      ensures Valid() && (queue.ptr == old(queue.ptr) || fresh(queue.ptr))
      ensures Wrote(false, buf, Again, r, old(bufsize), sent, old(Unsent()), old(accepted), old(error), old(posted), old(asked))
    {
      hide Rest;
      if 0 < |buf| {
        r := Enqueue(buf, 0);
      } else {
        r := 0;
      }
    }

    /** What the kernel did not take waits at the end of the queue, unless it is too much. */
    method Enqueue(buf: Str, n: nat) returns (r: int)
      requires Counted() && Patient() && !closed && wanted && n < |buf|
      requires (n == 0 || Unsent() == []) && sent + Unsent() == taken + buf[..n] && (error == 0 ==> taken == accepted)
      modifies `bufsize, `error, `posted, `asked, `accepted, `taken, queue, queue.ptr
      ensures Valid() && (queue.ptr == old(queue.ptr) || fresh(queue.ptr))
      ensures var no := old(bufsize) + |buf| - n > limit;
              && r == (if no then -1 else n)
              && Unsent() == old(Unsent()) + (if no then [] else buf[n..])
              && accepted == old(accepted) + (if no then [] else buf)
              && error == (if no then ERR_OVER_LIMIT else old(error))
              && posted == old(posted) + (if no && isStream then 1 else 0)
              && asked == old(asked) + (if no && isStream then 1 else 0)
    {
      hide Rest, AllLive;
      Joins(sent, Unsent(), taken, buf, n);
      if bufsize + |buf| - n > limit {
        RefuseLong(buf, n);
        return -1;
      }
      Push(OffsetBuf(buf[n..], 0));
      taken, accepted := taken + buf, accepted + buf;
      r := n;
    }

    /** The end of a write that is over the limit. */
    method RefuseLong(buf: Str, ghost n: nat)
      requires Counted() && Patient() && !closed && n <= |buf| && sent + Unsent() + [] == taken + buf[..n]
      modifies `error, `posted, `asked, `taken
      ensures Valid() && error == ERR_OVER_LIMIT
      ensures posted == old(posted) + (if isStream then 1 else 0) && asked == old(asked) + (if isStream then 1 else 0)
    {
      hide Rest, AllLive, Counted;
      WholeQueue();
      error := ERR_OVER_LIMIT;
      Refuse(buf, n);
    }

    lemma WholeQueue()
      requires Counted()
      ensures queue.Valid() && AllLive(queue.Contents()) && (!closed ==> dropped == [])
    {
    }

    method Push(remain: OffsetBuf)
      requires Counted() && !closed && wanted && remain.Live() && bufsize + |remain.Unsent()| <= limit
      requires remain.offset == 0
      modifies `bufsize, queue, queue.ptr
      ensures Counted() && Unsent() == old(Unsent()) + remain.Unsent() && (queue.ptr == old(queue.ptr) || fresh(queue.ptr))
      ensures queue.Contents() != []
    {
      hide Rest;
      RestAppend(queue.Contents(), remain);
      queue.PushBack(remain);
      bufsize := bufsize + |remain.base|;
    }

    /** The end of a refused write, after `n` of its bytes. */
    method Refuse(buf: Str, ghost n: nat)
      requires n <= |buf|
      modifies `posted, `asked, `taken
      ensures taken == old(taken) + buf[..n]
      ensures posted == old(posted) + (if isStream then 1 else 0) && asked == old(asked) + (if isStream then 1 else 0)
    {
      taken := taken + buf[..n];
      if isStream { posted, asked := posted + 1, asked + 1; }
    }

    /** The locked section of nio_write. */
    method Drain(ks: seq<Kernel>)
      requires Valid() && phase == Inside
      modifies `bufsize, `error, `asked, `phase, `sent, queue, queue.ptr
      ensures Valid() && queue.ptr == old(queue.ptr)
      ensures var r := Drained(old(queue.Contents()), ks);
              && queue.Contents() == r.queue && sent == old(sent) + r.sent
              && phase == (match r.outcome case Emptied => Ended(true) case Blocked => Outside case Broken(_) => Ended(false))
              && error == (if r.outcome.Broken? && r.outcome.err != 0 then r.outcome.err else old(error))
              && asked == old(asked) + (if isStream && r.outcome.Broken? then 1 else 0)
    {
      hide Rest, Drained, AllLive;
      ghost var r := Drained(queue.Contents(), ks);
      DrainConserves(queue.Contents(), ks);
      Regroup(sent, r.sent, Rest(r.queue));
      SendAll(ks);
    }

    method SendAll(ks: seq<Kernel>)
      requires Counted() && !closed && phase == Inside
      modifies `bufsize, `error, `asked, `phase, `sent, queue, queue.ptr
      ensures Counted() && queue.ptr == old(queue.ptr)
      ensures var r := Drained(old(queue.Contents()), ks);
              && queue.Contents() == r.queue && sent == old(sent) + r.sent
              && phase == (match r.outcome case Emptied => Ended(true) case Blocked => Outside case Broken(_) => Ended(false))
              && error == (if r.outcome.Broken? && r.outcome.err != 0 then r.outcome.err else old(error))
              && asked == old(asked) + (if isStream && r.outcome.Broken? then 1 else 0)
    {
      hide Rest, Drained, AllLive, Advanced;
      ghost var q, was := queue.Contents(), sent;
      ghost var out: Str := [];
      var left := ks;
      Started(was, Drained(q, ks));
      while !queue.Empty()
        invariant Counted() && !closed && queue.ptr == old(queue.ptr) && phase == Inside
        invariant sent == was + out && Drained(q, ks) == After(out, Drained(queue.Contents(), left))
        invariant error == old(error) && asked == old(asked)
        decreases |queue.Contents()|
      {
        ghost var c := queue.Contents();
        DrainStep(c, left);
        var more := SendFront(Next(left));
        ghost var r := if more then Drained(queue.Contents(), Later(left)) else Drained(c, left);
        if !more {
          Chain(was, out, r.sent);
          return;
        }
        Chain(was, out, c[0].Unsent());
        Regroup(out, c[0].Unsent(), r.sent);
        out := out + c[0].Unsent();
        left := Later(left);
      }
      DrainedNone(queue.Contents(), left);
      Chain(was, out, []);
      phase := Ended(true);
    }

    /** One call of nio_write to the kernel, and what it does with the answer; `more` when it goes on. */
    method SendFront(k: Kernel) returns (more: bool)
      requires Counted() && !closed && queue.Contents() != [] && phase == Inside
      modifies `bufsize, `error, `asked, `phase, `sent, queue, queue.ptr
      ensures Counted() && queue.ptr == old(queue.ptr)
      ensures var u := old(queue.Contents())[0].Unsent();
              && queue.Contents() == Advanced(old(queue.Contents()), Part(u, k)) && sent == old(sent) + u[..Part(u, k)]
              && (more <==> Part(u, k) == |u|)
      ensures more ==> phase == Inside && error == old(error) && asked == old(asked)
      ensures !more ==> && phase == (if Verdict(k).Broken? then Ended(false) else Outside)
                        && error == (if k.Failed? then k.err else old(error))
                        && asked == old(asked) + (if isStream && Verdict(k).Broken? then 1 else 0)
    {
      hide Rest, AllLive;
      ghost var c := queue.Contents();
      var pbuf := queue.Front();
      FrontLive(c);
      var buf := pbuf.base[pbuf.offset..];
      match k {
        case Again =>
          phase := Outside;
          more := false;
        case Failed(err) =>
          error := err;
          Break();
          more := false;
        case Took(n) =>
          var nwrite := Min(n, |buf|);
          if nwrite == 0 {
            Break();
            return false;
          }
          more := TakeFront(buf, nwrite);
      }
    }

    /** The kernel took `nwrite` bytes of the front. */
    method TakeFront(buf: Str, nwrite: nat) returns (more: bool)
      requires Counted() && !closed && queue.Contents() != [] && phase == Inside
      requires buf == queue.Contents()[0].Unsent() && 0 < nwrite <= |buf|
      modifies `bufsize, `phase, `sent, queue, queue.ptr
      ensures Counted() && queue.ptr == old(queue.ptr) && queue.Contents() == Advanced(old(queue.Contents()), nwrite)
      ensures sent == old(sent) + buf[..nwrite] && more == (nwrite == |buf|) && phase == if more then Inside else Outside
    {
      hide Rest;
      var pbuf := queue.Front();
      AdvancedRest(queue.Contents(), nwrite);
      bufsize := bufsize - nwrite;
      sent := sent + buf[..nwrite];
      if nwrite == |buf| {
        queue.PopFront();
        return true;
      }
      queue.SetFront(OffsetBuf(pbuf.base, pbuf.offset + nwrite));
      phase := Outside;
      more := false;
    }

    /** hio_close on the thread of the loop: later when bytes wait, at once after an error or when it waits already. */
    method CloseNow()
      requires Counted() && Conserved() && phase == Outside && (close && error == 0 ==> asked >= 2)
      modifies `wanted, `close, `closed, `armed, `stray, `dropped, queue
      ensures Counted() && Conserved() && (queue.ptr == old(queue.ptr) || fresh(queue.ptr))
      ensures old(closed) ==> closed && dropped == old(dropped) && close == old(close) && armed == old(armed) && stray == old(stray)
      ensures !old(closed) ==> var later := old(queue.Contents()) != [] && error == 0 && !old(close);
        if later then !closed && close && armed && queue.Contents() == old(queue.Contents())
                      && stray == old(stray) + (if old(armed) then 1 else 0)
        else closed && dropped == old(Unsent()) && close == old(close) && !armed && stray == old(stray)
    {
      hide Rest, AllLive;
      if closed { return; }
      if !queue.Empty() && error == 0 && !close {
        close := true;
        if armed { stray := stray + 1; }
        armed := true;
        return;
      }
      closed := true;
      dropped := Unsent();
      Start(sent, sent + dropped, []);
      Done();
      NothingWaits(queue.Contents());
      armed := false;
    }

    /** hio_done, as far as it concerns writing. */
    method Done()
      requires queue.Valid()
      modifies `wanted, queue
      ensures queue.Valid() && queue.Contents() == [] && !wanted && fresh(queue.ptr)
    {
      wanted := false;
      while !queue.Empty()
        invariant queue.Valid() && queue.ptr == old(queue.ptr)
        modifies queue
        decreases |queue.Contents()|
      {
        queue.PopFront();
      }
      queue.Cleanup();
    }

    method Break()
      modifies `phase, `asked
      ensures phase == Ended(false) && asked == old(asked) + (if isStream then 1 else 0)
    {
      phase := Ended(false);
      if isStream { asked := asked + 1; }
    }

    /** hio_handle_events as far as nio_write: an empty queue needs no more write events. */
    method Ready()
      requires Valid() && phase == Outside && wanted
      modifies `wanted, `phase
      ensures Valid() && phase == Inside && (wanted <==> queue.Contents() != [])
    {
      hide Rest;
      if queue.Empty() { wanted := false; }
      phase := Inside;
    }

    /** The end of nio_write, after the lock: a close that waited happens, and a broken stream is closed. */
    method Finish()
      requires Valid() && phase.Ended?
      modifies this, queue
      ensures Valid() && (queue.ptr == old(queue.ptr) || fresh(queue.ptr)) && phase == Outside
      ensures sent == old(sent) && accepted == old(accepted) && error == old(error)
      ensures closed <==> var idle := old(queue.Contents()) == [];
                          if old(phase) == Ended(true) then old(close) && (idle || error != 0)
                          else isStream && (idle || error != 0 || old(close))
      ensures dropped == if closed then old(Unsent()) else []
      ensures !closed && (if old(phase) == Ended(true) then old(close) else isStream) ==> close && armed
      ensures stray == old(stray) + (if old(WaitsAgain()) then 1 else 0)
    {
      hide Rest, AllLive, Conserved;
      NothingWaitsIff(queue.Contents());
      if phase.emptied {
        if close { CloseWaiting(); } else { phase := Outside; }
      } else {
        phase := Outside;
        if isStream { CloseNow(); }
      }
    }

    /** A close waits for the end of nio_write, and another thread has written since the queue was empty. */
    ghost predicate WaitsAgain()
      requires queue.Valid()
      reads this, queue, queue.ptr
    {
      phase == Ended(true) && close && queue.Contents() != [] && error == 0
    }

    /** The close that waited for nio_write; another thread may have written meanwhile. */
    method CloseWaiting()
      requires Valid() && phase == Ended(true) && close
      modifies this, queue
      ensures Valid() && (queue.ptr == old(queue.ptr) || fresh(queue.ptr)) && phase == Outside
      ensures sent == old(sent) && accepted == old(accepted) && error == old(error)
      ensures closed <==> old(queue.Contents()) == [] || error != 0
      ensures dropped == if closed then old(Unsent()) else []
      ensures stray == old(stray) + (if old(WaitsAgain()) then 1 else 0)
      ensures !closed ==> close && armed && queue.Contents() == old(queue.Contents())
    {
      hide Rest, AllLive, Conserved;
      NothingWaitsIff(queue.Contents());
      phase := Outside;
      close := false;
      if !queue.Empty() && error == 0 { requeued := requeued + 1; }
      CloseNow();
    }

    /** hio_close on the thread of the loop. */
    method Close()
      requires Valid() && phase == Outside
      modifies this, queue
      ensures Valid() && (queue.ptr == old(queue.ptr) || fresh(queue.ptr)) && phase == Outside
      ensures sent == old(sent) && accepted == old(accepted) && error == old(error)
      ensures !old(closed) ==> (closed <==> old(queue.Contents()) == [] || error != 0 || old(close))
      ensures !old(closed) ==> asked == old(asked) + 1 && dropped == if closed then old(Unsent()) else []
      ensures !closed ==> close && armed && queue.Contents() == old(queue.Contents()) && bufsize == old(bufsize)
      ensures stray == old(stray) && (!closed ==> wanted == old(wanted))
    {
      hide Rest, AllLive;
      NothingWaitsIff(queue.Contents());
      if closed { return; }
      asked := asked + 1;
      CloseNow();
    }

    /** hio_close on another thread: the loop is asked for it. */
    method CloseElsewhere()
      requires Valid()
      modifies `posted, `asked
      ensures Valid() && posted == old(posted) + (if closed then 0 else 1) && asked == old(asked) + (if closed then 0 else 1)
    {
      hide Rest, AllLive;
      if closed { return; }
      posted, asked := posted + 1, asked + 1;
    }

    /** hio_close_event_cb. */
    method Posted()
      requires Valid() && phase == Outside && posted > 0
      modifies this, queue
      ensures Valid() && (queue.ptr == old(queue.ptr) || fresh(queue.ptr)) && phase == Outside
      ensures sent == old(sent) && accepted == old(accepted) && error == old(error) && asked == old(asked)
      ensures posted == old(posted) - 1 && stray == old(stray)
      ensures !old(closed) ==> (closed <==> old(queue.Contents()) == [] || error != 0 || old(close))
    {
      hide Rest, AllLive;
      NothingWaitsIff(queue.Contents());
      posted := posted - 1;
      CloseNow();
    }

    /** __close_timeout_cb, of close_timer or of a timer that it no longer points to. */
    method Timeout(late: bool)
      requires Valid() && phase == Outside && if late then stray > 0 else armed
      modifies this, queue
      ensures Valid() && (queue.ptr == old(queue.ptr) || fresh(queue.ptr)) && phase == Outside
      ensures sent == old(sent) && accepted == old(accepted) && error == ETIMEDOUT && closed
      ensures !old(closed) ==> dropped == old(Unsent())
      ensures stray == old(stray) - if late then 1 else 0
    {
      hide Rest, AllLive, Counted;
      WholeQueue();
      if late { stray, fired := stray - 1, fired + 1; } else { armed := false; }
      error := ETIMEDOUT;
      asked := asked + 1;
      CloseNow();
    }

    /** hio_handle_events when no other thread comes between: a close that waits happens exactly when the kernel
        takes everything, or the stream breaks. */
    method HandleEvents(ks: seq<Kernel>)
      requires Valid() && phase == Outside && wanted
      modifies this, queue, queue.ptr
      ensures Valid() && (queue.ptr == old(queue.ptr) || fresh(queue.ptr)) && phase == Outside
      ensures var r := Drained(old(queue.Contents()), ks);
              && sent == old(sent) + r.sent
              && (old(close) ==> (closed <==> TakesAll(old(queue.Contents()), ks) || (isStream && r.outcome.Broken?)))
              && (old(close) && TakesAll(old(queue.Contents()), ks) ==> sent == old(sent) + old(Unsent()) && dropped == [])
    {
      hide Rest, AllLive, Drained, TakesAll, Conserved;
      DrainsAllIff(queue.Contents(), ks);
      DrainConserves(queue.Contents(), ks);
      Ready();
      Drain(ks);
      NothingWaitsIff(queue.Contents());
      if phase.Ended? { Finish(); }
    }

    /** One step of any thread; what cannot happen now is skipped. */
    method Step(op: Op) returns (r: int)
      requires Valid()
      modifies this, queue, queue.ptr
      ensures Valid() && (queue.ptr == old(queue.ptr) || fresh(queue.ptr))
      ensures accepted == old(accepted) + if op.Write? && r >= 0 then op.buf else []
      ensures stray > old(stray) <==> op.Finish? && old(WaitsAgain())
    {
      hide Rest, AllLive, Counted, Conserved, Patient;
      Chain(accepted, [], []);
      r := 0;
      match op
      case Write(buf, k) => r := Write(buf, k);
      case Ready => if phase == Outside && wanted { Ready(); }
      case Drain(ks) => if phase == Inside { Drain(ks); }
      case Finish => if phase.Ended? { Finish(); }
      case Close => if phase == Outside { Close(); }
      case CloseElsewhere => CloseElsewhere();
      case Posted => if phase == Outside && posted > 0 { Posted(); }
      case Timeout(late) => if phase == Outside && (if late then stray > 0 else armed) { Timeout(late); }
    }

    /** Any run: whatever was accepted is sent, waits, or was dropped by a close, in order; and with no error and
        at most one request the io closes only after everything accepted was sent. */
    method Run(ops: seq<Op>) returns (rs: seq<int>)
      requires Valid()
      modifies this, queue, queue.ptr
      ensures Valid() && (queue.ptr == old(queue.ptr) || fresh(queue.ptr))
      ensures |rs| == |ops| && accepted == old(accepted) + Accepted(ops, rs)
      ensures error == 0 ==> sent + Unsent() + dropped == accepted
      ensures error == 0 && asked <= 1 && closed ==> sent == accepted
      ensures stray + fired == requeued
      ensures !closed ==> bufsize == |Unsent()| <= limit && (Unsent() != [] ==> wanted)
    {
      hide Rest, AllLive, Counted, Conserved, Patient;
      rs := [];
      for i := 0 to |ops|
        invariant Valid() && (queue.ptr == old(queue.ptr) || fresh(queue.ptr))
        invariant |rs| == i && accepted == old(accepted) + Accepted(ops[..i], rs)
      {
        var r := Step(ops[i]);
        AcceptedMore(ops[..i], rs, ops[i], r);
        assert ops[..i] + [ops[i]] == ops[..i + 1];
        rs := rs + [r];
      }
      assert ops[..|ops|] == ops;
      Settled();
    }

    lemma Settled()
      requires Valid()
      ensures error == 0 ==> sent + Unsent() + dropped == accepted
      ensures error == 0 && asked <= 1 && closed ==> sent == accepted
      ensures stray + fired == requeued
      ensures !closed ==> bufsize == |Unsent()| <= limit && (Unsent() != [] ==> wanted)
    {
      hide Rest;
      if queue.Contents() == [] {
        NothingWaits(queue.Contents());
        Start(sent, sent, []);
      }
    }
  }

  /** A write that is refused for its length after the kernel took its first byte, and the next write: the peer
      gets a byte that no accepted write brought. */
  method TornWrite() returns (rs: seq<int>, sent: Str)
    ensures rs == [-1, 1] && sent == [1, 9]
  {
    hide Rest, AllLive, Io.Conserved, Io.Patient;
    var io := new Io(true, 1);
    NothingWaits(io.queue.Contents());
    var r := io.Write([1, 2, 3], Took(1));
    assert Handed(true, 3, Took(1)) == 1;
    FewBuffers(io.queue.Contents());
    var r' := io.Write([9], Took(1));
    assert Handed(true, 1, Took(1)) == 1;
    rs, sent := [r, r'], io.sent;
  }

  /** Unless the kernel reports an error, a write is taken for a disconnect exactly when it is empty and nothing waits. */
  lemma EmptyFailsIff(idle: bool, len: nat, k: Kernel)
    requires k.Again? || (k.Took? && k.n > 0)
    ensures Fails(idle, len, k) <==> idle && len == 0 && k.Took?
  {
  }

  /** An empty write on an open stream with nothing waiting: the connection ends, though nothing failed. */
  method EmptyWrite(io: Io, n: nat) returns (r: int)
    requires io.Valid() && io.isStream && !io.closed && io.phase == Outside && io.queue.Contents() == []
    modifies io, io.queue, io.queue.ptr
    ensures r == -1 && io.closed && io.error == old(io.error) && io.sent == old(io.sent)
  {
    r := io.Write([], Took(n));
    FewBuffers(io.queue.Contents());
    io.Posted();
  }

  /** A write of another thread that comes between the end of nio_write and its hio_close makes a second close timer,
      and the first outlives the io. */
  method StrayTimer() returns (io: Io)
    ensures io.closed && io.stray == 1
  {
    hide Rest, AllLive, Io.Conserved, Io.Patient;
    io := CloseLater();
    io.Ready();
    SendOne(io);
    CrossingWrite(io);
    NotEmpty(io.queue.Contents());
    io.Ready();
    SendOne(io);
    io.Finish();
  }

  method CloseLater() returns (io: Io)
    ensures io.Valid() && fresh(io) && fresh(io.queue) && fresh(io.queue.ptr) && io.limit == 2 && io.error == 0
    ensures !io.closed && io.close && io.armed && io.stray == 0 && io.phase == Outside && io.wanted && |io.Unsent()| == 1
  {
    hide Rest, AllLive, Io.Conserved, Io.Patient;
    io := new Io(true, 2);
    NothingWaits(io.queue.Contents());
    var r := io.Write([1], Again);
    NotEmpty(io.queue.Contents());
    io.Close();
  }

  method CrossingWrite(io: Io)
    requires io.Valid() && io.phase == Ended(true) && io.queue.Contents() == [] && io.error == 0 && io.bufsize == 0 && io.limit == 2
    requires !io.closed && io.close && io.armed
    modifies io, io.queue, io.queue.ptr
    ensures io.Valid() && (io.queue.ptr == old(io.queue.ptr) || fresh(io.queue.ptr)) && io.error == 0
    ensures !io.closed && io.close && io.stray == old(io.stray) + 1 && io.phase == Outside && io.wanted && |io.Unsent()| == 1
  {
    hide Rest, AllLive, Io.Conserved, Io.Patient;
    NothingWaits(io.queue.Contents());
    var r := io.Write([2], Again);
    NotEmpty(io.queue.Contents());
    io.CloseWaiting();
    NotEmpty(io.queue.Contents());
  }

  /** The kernel takes the one byte that waits. */
  method SendOne(io: Io)
    requires io.Valid() && io.phase == Inside && |io.Unsent()| == 1
    modifies io`bufsize, io`error, io`asked, io`phase, io`sent, io.queue, io.queue.ptr
    ensures io.Valid() && io.phase == Ended(true) && io.queue.Contents() == [] && io.error == old(io.error) && io.bufsize == 0
    ensures io.queue.ptr == old(io.queue.ptr)
  {
    ghost var q := io.queue.Contents();
    FewBuffers(q);
    DrainsAllIff(q, [Took(1)]);
    DrainConserves(q, [Took(1)]);
    io.Drain([Took(1)]);
  }

  lemma FewBuffers(q: seq<OffsetBuf>)
    requires AllLive(q)
    ensures |q| <= |Rest(q)|
    ensures forall i :: 0 <= i < |q| ==> |q[i].Unsent()| <= |Rest(q)|
  {
    if q != [] {
      FewBuffers(q[1..]);
      assert q[0].Live();
      forall i | 0 <= i < |q| ensures |q[i].Unsent()| <= |Rest(q)| {
        if i > 0 { assert q[i] == q[1..][i - 1]; }
      }
    }
  }

  lemma NotEmpty(q: seq<OffsetBuf>)
    requires AllLive(q) && Rest(q) != []
    ensures q != []
  {
  }

  /** The bytes of the writes with a result that is not negative. */
  function Accepted(ops: seq<Op>, rs: seq<int>): Str
    requires |ops| == |rs|
  {
    if ops == [] then []
    else Accepted(ops[..|ops| - 1], rs[..|rs| - 1]) + (if ops[|ops| - 1].Write? && rs[|rs| - 1] >= 0 then ops[|ops| - 1].buf else [])
  }

  lemma AcceptedMore(ops: seq<Op>, rs: seq<int>, op: Op, r: int)
    requires |ops| == |rs|
    ensures Accepted(ops + [op], rs + [r]) == Accepted(ops, rs) + (if op.Write? && r >= 0 then op.buf else [])
  {
    assert (ops + [op])[..|ops|] == ops && (rs + [r])[..|rs|] == rs;
  }

  lemma DrainedNone(q: seq<OffsetBuf>, ks: seq<Kernel>)
    requires q == []
    ensures Rest(q) == [] && Drained(q, ks) == Result([], [], Emptied)
  {
  }

  /** nio_write goes on with the next buffer, or ends. */
  lemma DrainStep(q: seq<OffsetBuf>, ks: seq<Kernel>)
    requires AllLive(q) && q != []
    ensures q[0].Live()
    ensures var u, k := q[0].Unsent(), Next(ks);
            && |u| > 0
            && Advanced(q, |u|) == q[1..] && u[..|u|] == u
            && Drained(q, ks) == if Part(u, k) == |u| then After(u, Drained(q[1..], Later(ks)))
                                 else Result(Advanced(q, Part(u, k)), u[..Part(u, k)], Verdict(k))
  {
    assert q[0].Live();
  }

  lemma FrontLive(q: seq<OffsetBuf>)
    requires AllLive(q) && q != []
    ensures q[0].Live()
  {
  }

  lemma Started(was: Str, r: Result)
    ensures After([], r) == r && was + [] == was
  {
    assert [] + r.sent == r.sent;
  }

  lemma Chain(was: Str, out: Str, u: Str)
    ensures was + (out + u) == (was + out) + u && was + [] == was && out + [] == out
  {
  }

  lemma NothingWaitsIff(q: seq<OffsetBuf>)
    ensures q == [] ==> AllLive(q) && Rest(q) == []
  {
  }

  lemma NothingWaits(q: seq<OffsetBuf>)
    requires q == []
    ensures AllLive(q) && Rest(q) == []
  {
  }

  /** The rest of a write goes behind what waits. */
  lemma Joins(sent: Str, unsent: Str, taken: Str, buf: Str, n: nat)
    requires n <= |buf| && sent + unsent == taken + buf[..n]
    ensures sent + (unsent + buf[n..]) + [] == taken + buf && sent + unsent + [] == taken + buf[..n]
  {
    Regroup(sent, unsent, buf[n..]);
    Regroup(taken, buf[..n], buf[n..]);
    assert buf == buf[..n] + buf[n..];
  }

  lemma Start(sent: Str, taken: Str, buf: Str)
    ensures sent + [] == sent && taken + [] == taken && taken + buf[..0] == taken && sent + buf[..0] == sent && buf[0..] == buf
  {
  }

  lemma Whole(buf: Str, n: nat)
    requires n == |buf|
    ensures buf[..n] == buf && buf[n..] == []
  {
  }
}

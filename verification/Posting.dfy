/** Posting to a loop from other threads: hloop_post_event and eventfd_read_cb in event/hloop.c, and the second
    queue on top of them in evpp/EventLoop.h. Posters and the reader interleave in steps; what a mutex guards is
    one step, but the write to the event fd is a step of its own, because the reader sees it without the mutex. */
module Posting {
  type Tid = nat

  /** A post is named by its thread and its number among the posts of that thread. */
  datatype Name = Name(t: Tid, n: nat)

  /** An event of custom_events: posted by hloop_post_event, or by EventLoop::postEvent for a functor. */
  datatype Event = Direct(name: Name) | Shim(name: Name)

  /** Where a poster stands. */
  datatype Pc =
    | Idle
    | Queued(ev: Event)   // the functor is in customEvents
    | Locked(ev: Event)   // custom_events_mutex is held
    | Written(ev: Event)  // the event fd was written

  datatype Reader =
    | Waiting
    | Looping(left: nat)                // iterations of eventfd_read_cb to go
    | Calling(ev: Event, left: nat)     // onCustomEvent or a direct callback is about to run
    | Done                              // the queue was found empty too early, and the loop was left

  datatype State = State(
    pcs: map<Tid, Pc>,
    started: map<Tid, nat>,       // posts begun by each thread
    counter: nat,                 // the event fd, or the bytes in the pipe
    customEvents: seq<Name>,      // EventLoop::customEvents, functors by name
    queue: seq<Event>,            // hloop custom_events
    reader: Reader,
    functors: seq<Name>,          // functors in the order they entered customEvents
    sent: seq<Event>,             // events in the order they entered custom_events
    ran: seq<Event>,              // what ran: Direct for an event, Shim for a functor
    failed: nat)                  // functors whose write to the event fd failed

  datatype Step =
    | PushFunctor(t: Tid)         // postEvent up to the end of its first critical section
    | Lock(t: Tid)                // hloop_post_event takes the mutex, for a functor or directly
    | Write(t: Tid, ok: bool)     // the write; when it fails the mutex is released and the event dropped
    | Push(t: Tid)                // the event enters custom_events, and the mutex is released
    | Read(n: nat)                // the reader takes the whole counter, or some of the bytes in the pipe
    | Take                        // one iteration up to the callback
    | Call                        // the callback

  function PcOf(s: State, t: Tid): Pc { if t in s.pcs then s.pcs[t] else Idle }

  function StartedBy(s: State, t: Tid): nat { if t in s.started then s.started[t] else 0 }

  predicate Holds(pc: Pc) { pc.Locked? || pc.Written? }

  predicate Free(s: State) { forall t :: t in s.pcs ==> !Holds(s.pcs[t]) }

  predicate Enabled(s: State, a: Step) {
    match a
    case PushFunctor(t) => PcOf(s, t).Idle?
    case Lock(t) => Free(s) && (PcOf(s, t).Idle? || PcOf(s, t).Queued?)
    case Write(t, ok) => PcOf(s, t).Locked?
    case Push(t) => PcOf(s, t).Written?
    case Read(n) => s.reader.Waiting? && 0 < n <= s.counter
    case Take => s.reader.Looping? && Free(s)
    case Call => s.reader.Calling? && (s.reader.ev.Shim? ==> s.customEvents != [])
  }

  function Apply(s: State, a: Step): State
    requires Enabled(s, a)
  {
    match a
    case PushFunctor(t) =>
      var name := Name(t, StartedBy(s, t));
      s.(pcs := s.pcs[t := Queued(Shim(name))], started := s.started[t := name.n + 1],
         customEvents := s.customEvents + [name], functors := s.functors + [name])
    case Lock(t) =>
      if PcOf(s, t).Queued? then s.(pcs := s.pcs[t := Locked(PcOf(s, t).ev)])
      else
        var name := Name(t, StartedBy(s, t));
        s.(pcs := s.pcs[t := Locked(Direct(name))], started := s.started[t := name.n + 1])
    case Write(t, ok) =>
      if ok then s.(pcs := s.pcs[t := Written(PcOf(s, t).ev)], counter := s.counter + 1)
      else s.(pcs := s.pcs[t := Idle], failed := s.failed + if PcOf(s, t).ev.Shim? then 1 else 0)
    case Push(t) =>
      s.(pcs := s.pcs[t := Idle], queue := s.queue + [PcOf(s, t).ev], sent := s.sent + [PcOf(s, t).ev])
    case Read(n) => s.(counter := s.counter - n, reader := Looping(n))
    case Take =>
      if s.reader.left == 0 then s.(reader := Waiting)
      else if s.queue == [] then s.(reader := Done)
      else s.(queue := s.queue[1..], reader := Calling(s.queue[0], s.reader.left - 1))
    case Call =>
      var s1 := s.(reader := Looping(s.reader.left));
      if s.reader.ev.Direct? then s1.(ran := s.ran + [s.reader.ev])
      else s1.(customEvents := s.customEvents[1..], ran := s.ran + [Shim(s.customEvents[0])])
  }

  const START := State(map[], map[], 0, [], [], Waiting, [], [], [], 0)

  // ---- what every step keeps ----

  function Shims(q: seq<Event>): nat {
    if q == [] then 0 else Shims(q[..|q| - 1]) + if q[|q| - 1].Shim? then 1 else 0
  }

  /** What runs when the events of `q` are taken: a direct event itself, and for the n-th shim the n-th functor. */
  function Ran(q: seq<Event>, functors: seq<Name>): seq<Event>
    requires Shims(q) <= |functors|
  {
    if q == [] then []
    else
      var r := q[..|q| - 1];
      Ran(r, functors) + [if q[|q| - 1].Shim? then Shim(functors[Shims(r)]) else q[|q| - 1]]
  }

  function Left(r: Reader): nat { if r.Looping? || r.Calling? then r.left else 0 }

  function InHand(r: Reader): nat { if r.Calling? then 1 else 0 }

  ghost predicate SomeWritten(s: State) { exists t :: t in s.pcs && s.pcs[t].Written? }

  /** Threads whose functor is in customEvents and whose event is still to be posted. */
  ghost function Between(pcs: map<Tid, Pc>): set<Tid> {
    set t | t in pcs && !pcs[t].Idle? && pcs[t].ev.Shim?
  }

  /** One thread holds the mutex, and a thread under way posts the last event it began. */
  ghost predicate Threads(s: State) {
    && (forall t, u :: t in s.pcs && u in s.pcs && Holds(s.pcs[t]) && Holds(s.pcs[u]) ==> t == u)
    && (forall t :: t in s.pcs && !s.pcs[t].Idle? ==> StartedBy(s, t) > 0 && s.pcs[t].ev.name == Name(t, StartedBy(s, t) - 1))
    && (forall t :: t in s.pcs && s.pcs[t].Queued? ==> s.pcs[t].ev.Shim?)
  }

  /** Between a poster's write and its push, and only then, there is one wakeup more than there are events. */
  ghost predicate Wakeups(s: State) {
    !s.reader.Done? && s.counter + Left(s.reader) == |s.queue| + if SomeWritten(s) then 1 else 0
  }

  /** custom_events is first in, first out. */
  ghost predicate InLine(s: State) {
    && |s.ran| + InHand(s.reader) + |s.queue| == |s.sent|
    && s.queue == s.sent[|s.ran| + InHand(s.reader)..]
    && (s.reader.Calling? ==> s.reader.ev == s.sent[|s.ran|])
  }

  /** Every functor was sent for, or its thread is between the two queues, or its write failed. */
  ghost predicate Matched(s: State) {
    |s.functors| == Shims(s.sent) + |Between(s.pcs)| + s.failed
  }

  /** customEvents is first in, first out: each shim that ran took the functor of its own number. */
  ghost predicate Paired(s: State) {
    && |s.ran| <= |s.sent| && Shims(s.sent[..|s.ran|]) <= |s.functors|
    && s.ran == Ran(s.sent[..|s.ran|], s.functors)
    && s.customEvents == s.functors[Shims(s.sent[..|s.ran|])..]
  }

  /** Of one thread, what came later has a higher number. */
  ghost predicate InTurn(q: seq<Name>) {
    forall i, j :: 0 <= i < j < |q| && q[i].t == q[j].t ==> q[i].n < q[j].n
  }

  function Names(q: seq<Event>): seq<Name> { seq(|q|, i requires 0 <= i < |q| => q[i].name) }

  ghost predicate Ordered(s: State) {
    && InTurn(s.functors) && InTurn(Names(s.sent))
    && (forall i :: 0 <= i < |s.functors| ==> s.functors[i].n < StartedBy(s, s.functors[i].t))
    && (forall i :: 0 <= i < |s.sent| ==> s.sent[i].name.n < Posted(s, s.sent[i].name.t))
  }

  /** Posts of a thread that are over. */
  function Posted(s: State, t: Tid): int { StartedBy(s, t) - if PcOf(s, t).Idle? then 0 else 1 }

  ghost predicate Inv(s: State) { Threads(s) && Wakeups(s) && InLine(s) && Matched(s) && Paired(s) && Ordered(s) }

  lemma StartInv()
    ensures Inv(START)
  {
    hide Threads, Wakeups, InLine, Matched, Paired, Ordered;
    StartFifo(START);
    StartThreads(START);
  }

  lemma StartThreads(s: State)
    requires s == START
    ensures Threads(s) && Wakeups(s)
  {
    assert !SomeWritten(s);
  }

  lemma StartFifo(s: State)
    requires s == START
    ensures InLine(s) && Matched(s) && Paired(s) && Ordered(s)
  {
    assert s.sent[..0] == [] && Between(s.pcs) == {};
    assert Names(s.sent) == [];
  }

  // ---- the reader never finds a queue empty ----

  /** eventfd_read_cb never leaves its loop early, and onCustomEvent never takes from an empty queue. */
  lemma NeverEmpty(s: State)
    requires Inv(s)
    ensures Free(s) && s.reader.Looping? && s.reader.left > 0 ==> s.queue != []
    ensures s.reader.Calling? && s.reader.ev.Shim? ==> s.customEvents != []
  {
    hide Threads, Ordered, Ran;
    if s.reader.Calling? && s.reader.ev.Shim? {
      hide Wakeups;
      var k := |s.ran|;
      ShimsPrefix(s.sent, k, k + 1);
      ShimsPrefix(s.sent, k + 1, |s.sent|);
      assert s.sent[..k + 1][..k] == s.sent[..k] && s.sent[..|s.sent|] == s.sent;
    }
  }

  lemma {:induction false} ShimsPrefix(q: seq<Event>, i: nat, j: nat)
    requires i <= j <= |q|
    ensures Shims(q[..i]) <= Shims(q[..j])
    decreases j
  {
    if i < j {
      ShimsPrefix(q, i, j - 1);
      assert q[..j][..j - 1] == q[..j - 1];
    }
  }

  // ---- steps ----

  lemma BetweenPut(pcs: map<Tid, Pc>, t: Tid, pc: Pc)
    ensures |Between(pcs[t := pc])| == |Between(pcs)| - (if t in Between(pcs) then 1 else 0) + if !pc.Idle? && pc.ev.Shim? then 1 else 0
  {
    var a, b := Between(pcs), Between(pcs[t := pc]);
    forall u | u != t ensures u in a <==> u in b {
      assert u in pcs <==> u in pcs[t := pc];
    }
    assert a - {t} == b - {t};
    Splits(a, t);
    Splits(b, t);
  }

  lemma Splits(a: set<Tid>, t: Tid)
    ensures |a| == |a - {t}| + if t in a then 1 else 0
  {
    if t in a { assert a == (a - {t}) + {t}; } else { assert a == a - {t}; }
  }

  lemma ThreadsKept(s: State, a: Step)
    requires Inv(s) && Enabled(s, a)
    ensures Threads(Apply(s, a))
  {
    hide Wakeups, InLine, Matched, Paired, Ordered;
    if a.Read? || a.Take? || a.Call? { return; }
    var s2 := Apply(s, a);
    ThreadMoves(s, s2, a.t);
  }

  /** One thread moves on, and takes the mutex only if no other has it. */
  lemma ThreadMoves(s: State, s2: State, t: Tid)
    requires Threads(s) && s2.pcs == s.pcs[t := PcOf(s2, t)] && (forall u :: u != t ==> StartedBy(s2, u) == StartedBy(s, u))
    requires Holds(PcOf(s2, t)) && !Holds(PcOf(s, t)) ==> Free(s)
    requires var pc := PcOf(s2, t);
             && (!pc.Idle? ==> StartedBy(s2, t) > 0 && pc.ev.name == Name(t, StartedBy(s2, t) - 1))
             && (pc.Queued? ==> pc.ev.Shim?)
    ensures Threads(s2)
  {
    forall u | u in s2.pcs && u != t ensures u in s.pcs && s2.pcs[u] == s.pcs[u] {}
  }

  lemma WakeupsKept(s: State, a: Step)
    requires Inv(s) && Enabled(s, a)
    ensures Wakeups(Apply(s, a))
  {
    NeverEmpty(s);
    hide InLine, Matched, Paired, Ordered, Threads, Wakeups, Apply;
    match a
    case PushFunctor(t) => PosterWakes(s, a, t);
    case Lock(t) => PosterWakes(s, a, t);
    case Write(t, ok) => WriteWakes(s, t, ok);
    case Push(t) => PushWakes(s, t);
    case _ => ReaderWakes(s, a);
  }

  lemma PosterWakes(s: State, a: Step, t: Tid)
    requires Threads(s) && Wakeups(s) && Enabled(s, a) && (a == PushFunctor(t) || a == Lock(t))
    ensures Wakeups(Apply(s, a))
  {
    SomeSame(s, Apply(s, a), t);
  }

  lemma ReaderWakes(s: State, a: Step)
    requires Threads(s) && Wakeups(s) && Enabled(s, a) && (a.Read? || a.Take? || a.Call?)
    requires Free(s) && s.reader.Looping? && s.reader.left > 0 ==> s.queue != []
    ensures Wakeups(Apply(s, a))
  {
    if a.Take? { assert !SomeWritten(s); }
  }

  lemma WriteWakes(s: State, t: Tid, ok: bool)
    requires Threads(s) && Wakeups(s) && Enabled(s, Write(t, ok))
    ensures Wakeups(Apply(s, Write(t, ok)))
  {
    assert !SomeWritten(s);
    if ok { assert Apply(s, Write(t, ok)).pcs[t].Written?; } else { assert !SomeWritten(Apply(s, Write(t, ok))); }
  }

  lemma PushWakes(s: State, t: Tid)
    requires Threads(s) && Wakeups(s) && Enabled(s, Push(t))
    ensures Wakeups(Apply(s, Push(t)))
  {
    assert s.pcs[t].Written? && !SomeWritten(Apply(s, Push(t)));
  }

  lemma SomeSame(s: State, s2: State, t: Tid)
    requires s2.pcs == s.pcs[t := PcOf(s2, t)] && !PcOf(s, t).Written? && !PcOf(s2, t).Written?
    ensures SomeWritten(s) <==> SomeWritten(s2)
  {
    if SomeWritten(s) {
      var u :| u in s.pcs && s.pcs[u].Written?;
      assert s2.pcs[u].Written?;
    }
    if SomeWritten(s2) {
      var u :| u in s2.pcs && s2.pcs[u].Written?;
      assert s.pcs[u].Written?;
    }
  }

  lemma {:induction false} RanMore(q: seq<Event>, functors: seq<Name>, more: seq<Name>)
    requires Shims(q) <= |functors|
    ensures Ran(q, functors + more) == Ran(q, functors)
    decreases |q|
  {
    if q != [] { RanMore(q[..|q| - 1], functors, more); }
  }

  lemma RanOne(q: seq<Event>, k: nat, functors: seq<Name>)
    requires k < |q| && Shims(q[..k + 1]) <= |functors|
    ensures Shims(q[..k + 1]) == Shims(q[..k]) + if q[k].Shim? then 1 else 0
    ensures Ran(q[..k + 1], functors) == Ran(q[..k], functors) + [if q[k].Shim? then Shim(functors[Shims(q[..k])]) else q[k]]
  {
    assert q[..k + 1][..k] == q[..k];
  }

  lemma MatchedKept(s: State, a: Step)
    requires Inv(s) && Enabled(s, a)
    ensures Matched(Apply(s, a))
  {
    hide Threads, Wakeups, InLine, Paired, Ordered, Between, Shims;
    match a
    case PushFunctor(t) => MatchedPost(s, a, t);
    case Lock(t) => MatchedPost(s, a, t);
    case Write(t, ok) => MatchedPost(s, a, t);
    case Push(t) => MatchedPost(s, a, t);
    case _ =>
  }

  lemma MatchedPost(s: State, a: Step, t: Tid)
    requires Matched(s) && Enabled(s, a) && (a == PushFunctor(t) || a == Lock(t) || (a.Write? && a.t == t) || a == Push(t))
    ensures Matched(Apply(s, a))
  {
    hide Between, Shims, Free;
    BetweenPut(s.pcs, t, PcOf(Apply(s, a), t));
    BetweenHas(s.pcs, t);
    ShimsMore(s.sent, PcOf(s, t));
  }

  lemma ShimsMore(q: seq<Event>, pc: Pc)
    ensures !pc.Idle? ==> Shims(q + [pc.ev]) == Shims(q) + if pc.ev.Shim? then 1 else 0
  {
    if !pc.Idle? { assert (q + [pc.ev])[..|q|] == q; }
  }

  lemma InLineKept(s: State, a: Step)
    requires Inv(s) && Enabled(s, a)
    ensures InLine(Apply(s, a))
  {
    hide Wakeups, Matched, Paired, Ordered, Threads, InLine, Apply;
    NeverEmpty(s);
    match a
    case Push(t) => InLinePush(s, t);
    case Take => InLineTake(s);
    case Call => InLineCall(s);
    case _ => InLineOther(s, a);
  }

  lemma InLineOther(s: State, a: Step)
    requires InLine(s) && Enabled(s, a) && !a.Push? && !a.Take? && !a.Call?
    ensures InLine(Apply(s, a))
  {
    hide InLine;
    InLineSame(s, Apply(s, a));
  }

  lemma InLineSame(s: State, s2: State)
    requires InLine(s) && s2.ran == s.ran && s2.queue == s.queue && s2.sent == s.sent
    requires s2.reader == s.reader || (!s.reader.Calling? && !s2.reader.Calling?)
    ensures InLine(s2)
  {
  }

  lemma InLinePush(s: State, t: Tid)
    requires InLine(s) && Enabled(s, Push(t))
    ensures InLine(Apply(s, Push(t)))
  {
  }

  lemma InLineTake(s: State)
    requires InLine(s) && Enabled(s, Take) && (s.reader.left > 0 ==> s.queue != [])
    ensures InLine(Apply(s, Take))
  {
  }

  lemma InLineCall(s: State)
    requires InLine(s) && Enabled(s, Call)
    ensures InLine(Apply(s, Call))
  {
    var s2 := Apply(s, Call);
    assert |s2.ran| == |s.ran| + 1 && s2.queue == s.queue && s2.sent == s.sent;
  }

  lemma PairedKept(s: State, a: Step)
    requires Inv(s) && Enabled(s, a)
    ensures Paired(Apply(s, a))
  {
    hide Wakeups, Matched, Ordered, Threads, Ran, Shims;
    var s2, k := Apply(s, a), |s.ran|;
    NeverEmpty(s);
    match a
    case PushFunctor(t) => RanMore(s.sent[..k], s.functors, [Name(t, StartedBy(s, t))]);
    case Push(t) => assert s2.sent[..k] == s.sent[..k];
    case Call => CallPairs(s);
    case _ =>
  }

  lemma CallPairs(s: State)
    requires Inv(s) && Enabled(s, Call)
    ensures Paired(Apply(s, Call))
  {
    hide Wakeups, Threads, Ordered, Between;
    var k := |s.ran|;
    ShimsPrefix(s.sent, k + 1, |s.sent|);
    assert s.sent[..|s.sent|] == s.sent;
    RanOne(s.sent, k, s.functors);
  }

  lemma BetweenHas(pcs: map<Tid, Pc>, t: Tid)
    ensures t in Between(pcs) <==> t in pcs && !pcs[t].Idle? && pcs[t].ev.Shim?
  {
  }

  lemma OrderedKept(s: State, a: Step)
    requires Inv(s) && Enabled(s, a)
    ensures Ordered(Apply(s, a))
  {
    hide Wakeups, InLine, Matched, Paired;
    match a
    case PushFunctor(t) => OrderedFunctor(s, t);
    case Push(t) => OrderedPush(s, t);
    case Lock(t) => OrderedSame(s, Apply(s, a));
    case Write(t, ok) => OrderedSame(s, Apply(s, a));
    case _ =>
  }

  lemma OrderedSame(s: State, s2: State)
    requires Ordered(s) && s2.functors == s.functors && s2.sent == s.sent
    requires forall t :: StartedBy(s, t) <= StartedBy(s2, t) && Posted(s, t) <= Posted(s2, t)
    ensures Ordered(s2)
  {
    hide InTurn;
  }

  lemma OrderedFunctor(s: State, t: Tid)
    requires Ordered(s) && Enabled(s, PushFunctor(t))
    ensures Ordered(Apply(s, PushFunctor(t)))
  {
    hide Names;
  }

  lemma OrderedPush(s: State, t: Tid)
    requires Ordered(s) && Threads(s) && Enabled(s, Push(t))
    ensures Ordered(Apply(s, Push(t)))
  {
    NamesAppend(s.sent, PcOf(s, t).ev);
    hide InTurn, Names;
  }

  lemma NamesAppend(q: seq<Event>, e: Event)
    requires InTurn(Names(q)) && forall i :: 0 <= i < |q| && q[i].name.t == e.name.t ==> q[i].name.n < e.name.n
    ensures InTurn(Names(q + [e]))
  {
    assert Names(q + [e]) == Names(q) + [e.name];
  }

  /** Every step of every thread keeps the invariant. */
  lemma StepKeeps(s: State, a: Step)
    requires Inv(s) && Enabled(s, a)
    ensures Inv(Apply(s, a))
  {
    ThreadsKept(s, a);
    WakeupsKept(s, a);
    InLineKept(s, a);
    MatchedKept(s, a);
    PairedKept(s, a);
    OrderedKept(s, a);
  }

  // ---- runs ----

  /** A schedule that every thread can follow step by step. */
  ghost predicate Feasible(s: State, run: seq<Step>)
    decreases |run|
  {
    run != [] ==> Enabled(s, run[0]) && Feasible(Apply(s, run[0]), run[1..])
  }

  ghost function After(s: State, run: seq<Step>): State
    requires Feasible(s, run)
    decreases |run|
  {
    if run == [] then s else After(Apply(s, run[0]), run[1..])
  }

  lemma {:induction false} RunKeeps(s: State, run: seq<Step>)
    requires Inv(s) && Feasible(s, run)
    ensures Inv(After(s, run))
    decreases |run|
  {
    if run != [] {
      StepKeeps(s, run[0]);
      RunKeeps(Apply(s, run[0]), run[1..]);
    }
  }

  lemma ReachedInv(run: seq<Step>)
    requires Feasible(START, run)
    ensures Inv(After(START, run))
  {
    StartInv();
    hide Inv;
    RunKeeps(START, run);
  }

  lemma AwakeNow(s: State)
    requires Inv(s)
    ensures Free(s) && s.queue != [] ==> s.counter > 0 || Left(s.reader) > 0
    ensures !s.reader.Done?
  {
    if Free(s) && s.queue != [] { assert !SomeWritten(s); }
  }

  /** No wakeup is lost: while an event waits and no poster is at work on it, the reader has been or will be woken. */
  lemma Awake(run: seq<Step>)
    requires Feasible(START, run)
    ensures var s := After(START, run);
            (Free(s) && s.queue != [] ==> s.counter > 0 || Left(s.reader) > 0) && !s.reader.Done?
  {
    hide *;
    ReachedInv(run);
    AwakeNow(After(START, run));
  }

  /** No thread is under way, and the reader has nothing to read. */
  predicate Quiet(s: State) {
    (forall t :: t in s.pcs ==> s.pcs[t].Idle?) && s.reader == Waiting && s.counter == 0
  }

  function FunctorsOf(q: seq<Event>): seq<Name> {
    if q == [] then []
    else FunctorsOf(q[..|q| - 1]) + if q[|q| - 1].Shim? then [q[|q| - 1].name] else []
  }

  function DirectsOf(q: seq<Event>): seq<Name> {
    if q == [] then []
    else DirectsOf(q[..|q| - 1]) + if q[|q| - 1].Direct? then [q[|q| - 1].name] else []
  }

  /** Functors run in the order in which they were queued, and direct events in the order in which they were sent. */
  lemma {:induction false} RanSplit(q: seq<Event>, functors: seq<Name>)
    requires Shims(q) <= |functors|
    ensures FunctorsOf(Ran(q, functors)) == functors[..Shims(q)]
    ensures DirectsOf(Ran(q, functors)) == DirectsOf(q)
    decreases |q|
  {
    if q != [] {
      var r := q[..|q| - 1];
      RanSplit(r, functors);
      var e := if q[|q| - 1].Shim? then Shim(functors[Shims(r)]) else q[|q| - 1];
      assert (Ran(r, functors) + [e])[..|r|] == Ran(r, functors) by { RanLength(r, functors); }
      RanLength(r, functors);
    }
  }

  lemma {:induction false} RanLength(q: seq<Event>, functors: seq<Name>)
    requires Shims(q) <= |functors|
    ensures |Ran(q, functors)| == |q|
    decreases |q|
  {
    if q != [] { RanLength(q[..|q| - 1], functors); }
  }

  /** What has run is a beginning of what was posted, in order, and of each thread in its own order. */
  ghost predicate InOrder(s: State) {
    && FunctorsOf(s.ran) <= s.functors && InTurn(s.functors) && InTurn(FunctorsOf(s.ran))
    && |s.ran| <= |s.sent| && DirectsOf(s.ran) == DirectsOf(s.sent[..|s.ran|]) && InTurn(Names(s.sent))
  }

  lemma OrderNow(s: State)
    requires Inv(s)
    ensures InOrder(s)
  {
    RanSplit(s.sent[..|s.ran|], s.functors);
    hide Ran, Shims, FunctorsOf, DirectsOf, Names, Wakeups, Threads, Matched;
  }

  lemma RunsInOrder(run: seq<Step>)
    requires Feasible(START, run)
    ensures InOrder(After(START, run))
  {
    hide *;
    ReachedInv(run);
    OrderNow(After(START, run));
  }

  /** Every event that was sent has run, and all functors but the last ones, as many as writes failed. */
  ghost predicate Finished(s: State) {
    && s.queue == [] && DirectsOf(s.ran) == DirectsOf(s.sent)
    && s.failed <= |s.functors| && FunctorsOf(s.ran) == s.functors[..|s.functors| - s.failed]
    && s.customEvents == s.functors[|s.functors| - s.failed..]
  }

  lemma FinishedNow(s: State)
    requires Inv(s) && Quiet(s)
    ensures Finished(s) && (FunctorsOf(s.ran) == s.functors <==> s.failed == 0)
  {
    assert !SomeWritten(s) && Between(s.pcs) == {};
    assert s.sent[..|s.ran|] == s.sent;
    RanSplit(s.sent, s.functors);
  }

  /** Once all is quiet, everything has run, and every functor has if and only if no write to the event fd failed. */
  lemma AllRun(run: seq<Step>)
    requires Feasible(START, run) && Quiet(After(START, run))
    ensures var s := After(START, run); Finished(s) && (FunctorsOf(s.ran) == s.functors <==> s.failed == 0)
  {
    hide *;
    ReachedInv(run);
    FinishedNow(After(START, run));
  }

  // ---- the order of all posts together ----

  /** What ran is what was sent exactly when each shim that was sent met its own functor. */
  lemma {:induction false} RanIsSentIff(q: seq<Event>, functors: seq<Name>)
    requires Shims(q) <= |functors|
    ensures Ran(q, functors) == q <==> FunctorsOf(q) == functors[..Shims(q)]
    decreases |q|
  {
    if q != [] {
      var n := |q| - 1;
      var r := q[..n];
      RanIsSentIff(r, functors);
      RanLength(r, functors);
      ShimsLength(r);
      var e := if q[n].Shim? then Shim(functors[Shims(r)]) else q[n];
      SameLast(Ran(r, functors), r, e, q[n]);
      assert q == r + [q[n]];
      if q[n].Shim? {
        assert functors[..Shims(q)] == functors[..Shims(r)] + [functors[Shims(r)]];
        SameLast(FunctorsOf(r), functors[..Shims(r)], q[n].name, functors[Shims(r)]);
      } else {
        assert FunctorsOf(r) + [] == FunctorsOf(r);
      }
    }
  }

  lemma SameLast<T>(a: seq<T>, b: seq<T>, x: T, y: T)
    requires |a| == |b|
    ensures a + [x] == b + [y] <==> a == b && x == y
  {
    if a + [x] == b + [y] {
      assert (a + [x])[..|a|] == a && (b + [y])[..|b|] == b && (a + [x])[|a|] == x && (b + [y])[|b|] == y;
    }
  }

  lemma {:induction false} ShimsLength(q: seq<Event>)
    ensures |FunctorsOf(q)| == Shims(q)
    decreases |q|
  {
    if q != [] { ShimsLength(q[..|q| - 1]); }
  }

  /** The functors whose events came to custom_events so far are the first that were queued, in the same order: no
      poster overtook another between the two queues, and no write failed in between. */
  ghost predicate NoneOvertook(s: State) {
    |s.ran| <= |s.sent|
    && Shims(s.sent[..|s.ran|]) <= |s.functors|
    && FunctorsOf(s.sent[..|s.ran|]) == s.functors[..Shims(s.sent[..|s.ran|])]
  }

  lemma SentOrderNow(s: State)
    requires Inv(s)
    ensures |s.ran| <= |s.sent| && (s.ran == s.sent[..|s.ran|] <==> NoneOvertook(s))
    ensures NoneOvertook(s) ==> InTurn(Names(s.ran))
    ensures Quiet(s) ==> |s.ran| == |s.sent|
  {
    var q := s.sent[..|s.ran|];
    RanIsSentIff(q, s.functors);
    assert Names(q) == Names(s.sent)[..|q|];
    if Quiet(s) { assert !SomeWritten(s); }
  }

  /** Direct events and functors run in the order in which they were sent exactly when no poster overtook another;
      each thread's posts of both kinds then run in its own order. */
  lemma SentOrderIff(run: seq<Step>)
    requires Feasible(START, run)
    ensures var s := After(START, run);
            && |s.ran| <= |s.sent| && (s.ran == s.sent[..|s.ran|] <==> NoneOvertook(s))
            && (NoneOvertook(s) ==> InTurn(Names(s.ran)))
            && (Quiet(s) ==> |s.ran| == |s.sent|)
  {
    hide *;
    ReachedInv(run);
    SentOrderNow(After(START, run));
  }

  lemma OneMore(s: State, a: Step, run: seq<Step>)
    requires Enabled(s, a) && Feasible(Apply(s, a), run)
    ensures Feasible(s, [a] + run) && After(s, [a] + run) == After(Apply(s, a), run)
  {
    assert ([a] + run)[1..] == run;
  }

  lemma Joined(s: State, a: seq<Step>, b: seq<Step>)
    requires Feasible(s, a) && Feasible(After(s, a), b)
    ensures Feasible(s, a + b) && After(s, a + b) == After(After(s, a), b)
    decreases |a|
  {
    if a == [] {
      assert a + b == b;
    } else {
      Joined(Apply(s, a[0]), a[1..], b);
      assert (a + b)[1..] == a[1..] + b;
    }
  }

  lemma NoStep(s: State)
    ensures Feasible(s, []) && After(s, []) == s
  {
  }

  lemma Three(s: State, a: Step, b: Step, c: Step)
    requires Enabled(s, a) && Enabled(Apply(s, a), b) && Enabled(Apply(Apply(s, a), b), c)
    ensures Feasible(s, [a, b, c]) && After(s, [a, b, c]) == Apply(Apply(Apply(s, a), b), c)
  {
    hide Feasible, After, Apply, Enabled;
    var s1, s2 := Apply(s, a), Apply(Apply(s, a), b);
    NoStep(Apply(s2, c));
    OneMore(s2, c, []);
    assert [c] + [] == [c];
    OneMore(s1, b, [c]);
    assert [b] + [c] == [b, c];
    OneMore(s, a, [b, c]);
    assert [a] + [b, c] == [a, b, c];
  }

  /** A poster goes undisturbed from the mutex to the end of its post. */
  lemma PostAlone(s: State, t: Tid)
    requires Free(s) && (PcOf(s, t).Idle? || PcOf(s, t).Queued?)
    ensures var e := PcOf(Apply(s, Lock(t)), t).ev;
            && Feasible(s, [Lock(t), Write(t, true), Push(t)])
            && After(s, [Lock(t), Write(t, true), Push(t)])
            == Apply(s, Lock(t)).(pcs := s.pcs[t := Idle], counter := s.counter + 1, queue := s.queue + [e], sent := s.sent + [e])
  {
    hide Feasible, After;
    Three(s, Lock(t), Write(t, true), Push(t));
  }

  /** The reader goes once around its loop. */
  lemma Around(s: State)
    requires Free(s) && s.reader.Looping? && s.reader.left > 0 && s.queue != [] && (s.queue[0].Shim? ==> s.customEvents != [])
    ensures Feasible(s, [Take, Call])
    ensures var s2, e := After(s, [Take, Call]), s.queue[0];
            s2 == s.(queue := s.queue[1..], reader := Looping(s.reader.left - 1),
                     customEvents := if e.Shim? then s.customEvents[1..] else s.customEvents,
                     ran := s.ran + [if e.Shim? then Shim(s.customEvents[0]) else e])
  {
    OneMore(Apply(s, Take), Call, []);
    OneMore(s, Take, [Call]);
    assert [Take] + [Call] == [Take, Call];
  }

  // ---- every run can be brought to rest ----

  ghost function Busy(pcs: map<Tid, Pc>): set<Tid> { set t | t in pcs && !pcs[t].Idle? }

  lemma BusyLess(s: State, t: Tid, s2: State)
    requires t in s.pcs && !s.pcs[t].Idle? && s2.pcs == s.pcs[t := Idle]
    ensures |Busy(s2.pcs)| < |Busy(s.pcs)|
  {
    assert Busy(s2.pcs) == Busy(s.pcs) - {t};
  }

  /** A continuation of `s` without a new post and without a failed write. */
  ghost predicate Goes(s: State, run: seq<Step>) {
    Feasible(s, run) && After(s, run).started == s.started && After(s, run).failed == s.failed
  }

  lemma GoesOn(s: State, a: seq<Step>, b: seq<Step>)
    requires Goes(s, a) && Goes(After(s, a), b)
    ensures Goes(s, a + b) && After(s, a + b) == After(After(s, a), b)
  {
    hide Feasible, After;
    Joined(s, a, b);
  }

  lemma One(s: State, a: Step)
    requires Enabled(s, a)
    ensures Feasible(s, [a]) && After(s, [a]) == Apply(s, a)
  {
    NoStep(Apply(s, a));
    OneMore(s, a, []);
    assert [a] + [] == [a];
  }

  /** The thread that is furthest on finishes its post. */
  lemma FinishPost(s: State, t: Tid) returns (run: seq<Step>)
    requires t in s.pcs && !s.pcs[t].Idle? && (Holds(s.pcs[t]) || Free(s))
    ensures Goes(s, run) && After(s, run).pcs == s.pcs[t := Idle]
  {
    match s.pcs[t]
    case Written(_) =>
      run := [Push(t)];
      One(s, Push(t));
    case Locked(_) =>
      run := [Write(t, true), Push(t)];
      var s1 := Apply(s, Write(t, true));
      One(s1, Push(t));
      OneMore(s, Write(t, true), [Push(t)]);
      assert [Write(t, true)] + [Push(t)] == run;
    case Queued(_) =>
      run := [Lock(t), Write(t, true), Push(t)];
      Three(s, Lock(t), Write(t, true), Push(t));
  }

  lemma {:induction false} FinishPosts(s: State) returns (run: seq<Step>)
    ensures Goes(s, run) && forall t :: t in After(s, run).pcs ==> After(s, run).pcs[t].Idle?
    decreases |Busy(s.pcs)|
  {
    if Busy(s.pcs) == {} {
      NoStep(s);
      forall t | t in s.pcs ensures s.pcs[t].Idle? {
        assert t !in Busy(s.pcs);
      }
      return [];
    }
    var t: Tid :| t in Busy(s.pcs);
    if u: Tid :| u in s.pcs && Holds(s.pcs[u]) { t := u; }
    var first := FinishPost(s, t);
    var s2 := After(s, first);
    BusyLess(s, t, s2);
    var rest := FinishPosts(s2);
    GoesOn(s, first, rest);
    run := first + rest;
  }

  function Work(s: State): nat {
    4 * s.counter + match s.reader case Looping(l) => 2 * l + 1 case Calling(_, l) => 2 * l + 2 case _ => 0
  }

  /** With no thread under way the reader takes what there is. */
  lemma {:induction false} FinishReads(s: State) returns (run: seq<Step>)
    requires Inv(s) && forall t :: t in s.pcs ==> s.pcs[t].Idle?
    ensures Goes(s, run) && Quiet(After(s, run))
    decreases Work(s)
  {
    hide Inv, Enabled, Apply, Work, Feasible, After;
    if Quiet(s) {
      NoStep(s);
      return [];
    }
    var a := ReaderStep(s);
    StepKeeps(s, a);
    var rest := FinishReads(Apply(s, a));
    One(s, a);
    GoesOn(s, [a], rest);
    run := [a] + rest;
  }

  lemma ReaderStep(s: State) returns (a: Step)
    requires Inv(s) && !Quiet(s) && forall t :: t in s.pcs ==> s.pcs[t].Idle?
    ensures Enabled(s, a) && Work(Apply(s, a)) < Work(s)
    ensures var u := Apply(s, a); u.pcs == s.pcs && u.started == s.started && u.failed == s.failed
  {
    hide Inv, Work, Apply;
    NeverEmpty(s);
    AwakeNow(s);
    assert Free(s);
    a := match s.reader case Looping(_) => Take case Calling(_, _) => Call case _ => Read(s.counter);
    WorkLess(s, a);
  }

  lemma WorkLess(s: State, a: Step)
    requires Enabled(s, a) && (a == Take || a == Call || a == Read(s.counter))
    requires a == Take && s.reader.left > 0 ==> s.queue != []
    ensures var u := Apply(s, a); Work(u) < Work(s) && u.pcs == s.pcs && u.started == s.started && u.failed == s.failed
  {
    hide Free;
  }

  /** From every state that a run can reach, some schedule without a new post brings everything to rest. */
  lemma CanRest(run: seq<Step>) returns (more: seq<Step>)
    requires Feasible(START, run)
    ensures Goes(After(START, run), more) && Quiet(After(After(START, run), more))
  {
    hide Inv;
    ReachedInv(run);
    var s := After(START, run);
    var posts := FinishPosts(s);
    RunKeeps(s, posts);
    var rest := FinishReads(After(s, posts));
    GoesOn(s, posts, rest);
    more := posts + rest;
  }

  /** Thread 1 queued a functor, and then thread 2 did. */
  const BOTH_QUEUED := State(map[1 := Queued(Shim(Name(1, 0))), 2 := Queued(Shim(Name(2, 0)))], map[1 := 1, 2 := 1], 0,
                             [Name(1, 0), Name(2, 0)], [], Waiting, [Name(1, 0), Name(2, 0)], [], [], 0)

  /** Thread 2 overtook thread 1 on the way to custom_events. */
  const OVERTAKEN := BOTH_QUEUED.(pcs := map[1 := Queued(Shim(Name(1, 0))), 2 := Idle], counter := 1,
                                  queue := [Shim(Name(2, 0))], sent := [Shim(Name(2, 0))])

  /** Thread 2 posted a direct event, too. */
  const POSTED_TWICE := OVERTAKEN.(started := map[1 := 1, 2 := 2], counter := 2,
                                   queue := [Shim(Name(2, 0)), Direct(Name(2, 1))], sent := [Shim(Name(2, 0)), Direct(Name(2, 1))])

  const ALL_POSTED := POSTED_TWICE.(pcs := map[1 := Idle, 2 := Idle], counter := 3,
                                    queue := [Shim(Name(2, 0)), Direct(Name(2, 1)), Shim(Name(1, 0))],
                                    sent := [Shim(Name(2, 0)), Direct(Name(2, 1)), Shim(Name(1, 0))])

  const POST1: seq<Step> := [Lock(1), Write(1, true), Push(1)]
  const POST2: seq<Step> := [Lock(2), Write(2, true), Push(2)]

  lemma BothQueued() returns (run: seq<Step>)
    ensures Feasible(START, run) && After(START, run) == BOTH_QUEUED
  {
    var s1 := Apply(START, PushFunctor(1));
    OneMore(s1, PushFunctor(2), []);
    OneMore(START, PushFunctor(1), [PushFunctor(2)]);
    run := [PushFunctor(1)] + [PushFunctor(2)];
  }

  lemma Overtakes()
    ensures Feasible(BOTH_QUEUED, POST2) && After(BOTH_QUEUED, POST2) == OVERTAKEN
  {
    PostAlone(BOTH_QUEUED, 2);
  }

  lemma PostsAgain()
    ensures Feasible(OVERTAKEN, POST2) && After(OVERTAKEN, POST2) == POSTED_TWICE
  {
    PostAlone(OVERTAKEN, 2);
  }

  lemma PostsLast()
    ensures Feasible(POSTED_TWICE, POST1) && After(POSTED_TWICE, POST1) == ALL_POSTED
  {
    PostAlone(POSTED_TWICE, 1);
  }

  lemma Overtaken() returns (run: seq<Step>)
    ensures Feasible(START, run) && After(START, run) == ALL_POSTED
  {
    hide Feasible, After, POST1, POST2, BOTH_QUEUED, OVERTAKEN, POSTED_TWICE, ALL_POSTED;
    var run1 := BothQueued();
    Overtakes();
    PostsAgain();
    PostsLast();
    Joined(START, run1, POST2);
    Joined(START, run1 + POST2, POST2);
    Joined(START, run1 + POST2 + POST2, POST1);
    run := run1 + POST2 + POST2 + POST1;
  }

  /** Everything was taken; thread 1's functor ran first, because it was queued first. */
  const ALL_RUN := ALL_POSTED.(counter := 0, queue := [], customEvents := [],
                               ran := [Shim(Name(1, 0)), Direct(Name(2, 1)), Shim(Name(2, 0))])

  const READING := ALL_POSTED.(counter := 0, reader := Looping(3))

  const RAN_ONE := READING.(reader := Looping(2), queue := [Direct(Name(2, 1)), Shim(Name(1, 0))],
                            customEvents := [Name(2, 0)], ran := [Shim(Name(1, 0))])

  const RAN_TWO := RAN_ONE.(reader := Looping(1), queue := [Shim(Name(1, 0))], ran := [Shim(Name(1, 0)), Direct(Name(2, 1))])

  const ROUND: seq<Step> := [Take, Call]

  lemma Reads()
    ensures Feasible(ALL_POSTED, [Read(3)]) && After(ALL_POSTED, [Read(3)]) == READING
  {
    OneMore(ALL_POSTED, Read(3), []);
  }

  lemma RunsOne()
    ensures Feasible(READING, ROUND) && After(READING, ROUND) == RAN_ONE
  {
    Around(READING);
  }

  lemma RunsTwo()
    ensures Feasible(RAN_ONE, ROUND) && After(RAN_ONE, ROUND) == RAN_TWO
  {
    Around(RAN_ONE);
  }

  lemma RunsThree()
    ensures Feasible(RAN_TWO, ROUND + [Take]) && After(RAN_TWO, ROUND + [Take]) == ALL_RUN
  {
    Around(RAN_TWO);
    OneMore(After(RAN_TWO, ROUND), Take, []);
    Joined(RAN_TWO, ROUND, [Take]);
  }

  lemma ReadsAll() returns (run: seq<Step>)
    ensures Feasible(ALL_POSTED, run) && After(ALL_POSTED, run) == ALL_RUN
  {
    hide Feasible, After, ROUND, ALL_POSTED, READING, RAN_ONE, RAN_TWO, ALL_RUN;
    Reads();
    RunsOne();
    RunsTwo();
    RunsThree();
    Joined(ALL_POSTED, [Read(3)], ROUND);
    Joined(ALL_POSTED, [Read(3)] + ROUND, ROUND);
    Joined(ALL_POSTED, [Read(3)] + ROUND + ROUND, ROUND + [Take]);
    run := [Read(3)] + ROUND + ROUND + (ROUND + [Take]);
  }

  /** The order of one thread does not carry over from one kind of post to the other: thread 2 sent its direct
      event after its functor, but the functor runs last. */
  lemma CrossingOrder() returns (run: seq<Step>)
    ensures Feasible(START, run) && Quiet(After(START, run))
    ensures After(START, run).sent == [Shim(Name(2, 0)), Direct(Name(2, 1)), Shim(Name(1, 0))]
    ensures After(START, run).ran == [Shim(Name(1, 0)), Direct(Name(2, 1)), Shim(Name(2, 0))]
  {
    hide Feasible, After;
    var posts := Overtaken();
    var taking := ReadsAll();
    Joined(START, posts, taking);
    run := posts + taking;
  }
}

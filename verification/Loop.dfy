/** event/hloop.c: one event loop with its timers, idles, pending lists and delayed deletion. */
module Loop {
  import opened LoopTheory
  import TimerHeap

  class HLoop {
    var events: map<Id, Event>
    var nextId: Id
    var pendings: seq<seq<Id>>
    var npendings: nat
    var idles: seq<Id>
    var nidles: int
    const timers: TimerHeap.Timers
    const realtimers: TimerHeap.Timers
    var ntimers: int
    var nactives: int
    /** The whole loop as a value, the heaps and what happened so far included. */
    ghost var s: State

    constructor ()
      ensures Ready() && Valid(s) && fresh(timers.repr) && fresh(realtimers.repr)
      ensures s == State(map[], 0, seq(LEVELS, _ => []), 0, [], 0, map[], map[], 0, 0, History(map[], multiset{}, [], {}))
    {
      timers := new TimerHeap.Timers();
      realtimers := new TimerHeap.Timers();
      events, nextId, pendings, npendings := map[], 0, seq(LEVELS, _ => []), 0;
      idles, nidles, ntimers, nactives := [], 0, 0, 0;
      s := State(map[], 0, seq(LEVELS, _ => []), 0, [], 0, map[], map[], 0, 0, History(map[], multiset{}, [], {}));
      new;
      FreshValid(s);
    }

    ghost predicate Mirrored()
      reads this
    {
      && events == s.events && nextId == s.nextId && pendings == s.pendings && npendings == s.npendings
      && idles == s.idles && nidles == s.nidles && ntimers == s.ntimers && nactives == s.nactives
    }

    /** The two heaps share nothing with each other or with the loop. */
    ghost predicate Apart()
      reads this, timers, timers.repr, realtimers, realtimers.repr
    {
      && timers.Valid() && realtimers.Valid() && timers in timers.repr && realtimers in realtimers.repr
      && this !in timers.repr && this !in realtimers.repr && timers.repr !! realtimers.repr
    }

    /** The fields and the heaps say what `s` says. */
    ghost predicate Ready()
      reads this, timers, timers.repr, realtimers, realtimers.repr
    {
      Mirrored() && Apart() && timers.due == s.timers && realtimers.due == s.realtimers
    }

    /** EVENT_INACTIVE. */
    method EventInactive(id: Id)
      requires Mirrored() && id in events
      modifies `events, `nactives, `s
      ensures Mirrored() && s == Inactive(old(s), id)
    {
      if events[id].active {
        events := events[id := events[id].(active := false)];
        nactives := nactives - 1;
      }
      s := Inactive(s, id);
    }

    /** EVENT_PENDING. */
    method EventPending(id: Id)
      requires Mirrored() && id in events && |pendings| == LEVELS
      modifies `events, `npendings, `pendings, `s
      ensures Mirrored() && s == Pend(old(s), id)
    {
      if !events[id].pending {
        events := events[id := events[id].(pending := true)];
        npendings := npendings + 1;
        var l := Level(events[id].priority);
        pendings := pendings[l := [id] + pendings[l]];
      }
      s := Pend(s, id);
    }

    /** EVENT_DEL. */
    method EventDelete(id: Id)
      requires Mirrored() && id in events
      modifies `events, `nactives, `s
      ensures Mirrored() && s == EventDel(old(s), id)
    {
      ghost var s0 := s;
      EventInactive(id);
      if !events[id].pending {
        events := events - {id};
      }
      s := EventDel(s0, id);
    }

    /** __hidle_del. */
    method IdleUnlink(id: Id)
      requires Mirrored() && id in events && events[id].kind.Idle?
      modifies `events, `idles, `nidles, `s
      ensures Mirrored() && s == Unlink(old(s), id)
    {
      s := Unlink(s, id);
      if events[id].destroy { return; }
      events := events[id := events[id].(destroy := true)];
      idles := Without(idles, id);
      nidles := nidles - 1;
    }

    /** hidle_del. */
    method IdleDel(id: Id)
      requires Mirrored() && id in events && events[id].kind.Idle?
      modifies `events, `nactives, `idles, `nidles, `s
      ensures Mirrored() && s == Delete(old(s), id) && s.timers == old(s.timers) && s.realtimers == old(s.realtimers)
    {
      if !events[id].active { return; }
      IdleUnlink(id);
      EventDelete(id);
      s := s.(past := s.past.(deleted := s.past.deleted + {id}));
    }

    /** Allocation and EVENT_ADD. */
    method EventAdd(e: Event) returns (id: Id)
      requires Mirrored() && e.active
      modifies `events, `nextId, `nactives, `s
      ensures Mirrored() && id == old(nextId) && s == Made(old(s), e)
    {
      id := nextId;
      events := events[id := e];
      nextId := nextId + 1;
      nactives := nactives + 1;
      s := Made(s, e);
    }

    /** hidle_add. */
    method IdleAdd(repeat: nat, cb: bool)
      requires Mirrored()
      modifies `events, `nextId, `nactives, `idles, `nidles, `s
      ensures Mirrored() && s == WithIdle(old(s), repeat, cb)
    {
      var id := EventAdd(NewEvent(Idle, LOWEST, cb, repeat));
      idles := [id] + idles;
      nidles := nidles + 1;
      s := s.(idles := idles, nidles := nidles);
    }

    /** __htimer_del. */
    method TimerUnlink(id: Id)
      requires Ready() && Shaped(s) && id in events && !events[id].kind.Idle?
      modifies this, timers.repr, realtimers.repr
      ensures Ready() && s == Unlink(old(s), id) && timers.repr == old(timers.repr) && realtimers.repr == old(realtimers.repr)
    {
      hide TimerHeap.Timers.Valid;
      if events[id].destroy { return; }
      assert Placed(s, id);
      if events[id].kind.Timeout? {
        timers.Del(id);
      } else {
        realtimers.Del(id);
      }
      MarkTimer(id);
    }

    method MarkTimer(id: Id)
      requires Mirrored() && id in events && !events[id].kind.Idle? && !events[id].destroy
      modifies `ntimers, `events, `s
      ensures Mirrored() && s == Unlink(old(s), id)
    {
      ntimers := ntimers - 1;
      events := events[id := events[id].(destroy := true)];
      s := Unlink(s, id);
    }

    /** htimer_del. */
    method TimerDel(id: Id)
      requires Ready() && Shaped(s) && id in events && !events[id].kind.Idle?
      modifies this, timers.repr, realtimers.repr
      ensures Ready() && s == Delete(old(s), id) && timers.repr == old(timers.repr) && realtimers.repr == old(realtimers.repr)
    {
      hide TimerHeap.Timers.Valid, Unlink, EventDel, Shaped;
      if !events[id].active { return; }
      TimerUnlink(id);
      EventDelete(id);
      s := s.(past := s.past.(deleted := s.past.deleted + {id}));
    }

    /** htimer_add. */
    method TimerAdd(now: nat, ms: nat, repeat: nat, cb: bool)
      requires Ready() && Shaped(s) && nextId !in events
      modifies this, timers.repr
      ensures Ready() && s == WithTimeout(old(s), now, ms, repeat, cb)
      ensures fresh(timers.repr - old(timers.repr)) && realtimers.repr == old(realtimers.repr)
    {
      hide TimerHeap.Timers.Valid;
      if ms == 0 { return; }
      timers.Add(nextId, FirstDeadline(now, ms));
      var id := EventAdd(NewEvent(Timeout(ms), HIGHEST, cb, repeat));
      ntimers := ntimers + 1;
      s := s.(timers := timers.due, ntimers := ntimers);
    }

    /** htimer_add_period. */
    method PeriodAdd(cron: Cron, next: nat, repeat: nat, cb: bool)
      requires Ready() && Shaped(s) && nextId !in events
      modifies this, realtimers.repr
      ensures Ready() && s == WithPeriod(old(s), cron, next, repeat, cb)
      ensures fresh(realtimers.repr - old(realtimers.repr)) && timers.repr == old(timers.repr)
    {
      hide TimerHeap.Timers.Valid;
      if !Acceptable(cron) { return; }
      realtimers.Add(nextId, next);
      var id := EventAdd(NewEvent(Period(cron), HIGH, cb, repeat));
      ntimers := ntimers + 1;
      s := s.(realtimers := realtimers.due, ntimers := ntimers);
    }

    method Perform(op: Op)
      requires Ready() && Shaped(s) && forall id :: id in s.events ==> id < s.nextId
      modifies this, timers.repr, realtimers.repr
      ensures Ready() && s == Apply(old(s), op)
      ensures fresh(timers.repr - old(timers.repr)) && fresh(realtimers.repr - old(realtimers.repr))
    {
      hide TimerHeap.Timers.Valid, Shaped, WithTimeout, WithPeriod, Delete, Rearm;
      match op
      case AddTimeout(now, ms, repeat, cb) => TimerAdd(now, ms, repeat, cb);
      case AddPeriod(cron, next, repeat, cb) => PeriodAdd(cron, next, repeat, cb);
      case AddIdle(repeat, cb) => IdleAdd(repeat, cb);
      case Del(id) =>
        if id in events {
          if events[id].kind.Idle? { IdleDel(id); } else { TimerDel(id); }
        }
      case SetPriority(id, p) =>
        if id in events {
          events := events[id := events[id].(priority := p)];
          s := Put(s, id, s.events[id].(priority := p));
        }
      case Reset(id, now, ms) =>
        if id in events && !events[id].pending { TimerReset(id, now, ms); }
    }

    /** A callback, as the list of what it does to the loop. */
    method Callback(script: seq<Op>, ghost current: set<Id>)
      requires Ready() && Sound(s, current) && Settled(s)
      modifies this, timers.repr, realtimers.repr
      ensures (forall id :: id in old(s.events) ==> id < old(s.nextId)) && Ready() && s == ApplyAll(old(s), script)
      ensures fresh(timers.repr - old(timers.repr)) && fresh(realtimers.repr - old(realtimers.repr))
    {
      hide TimerHeap.Timers.Valid, Apply, Accounted, Placed;
      SoundIds(s, current);
      for i := 0 to |script|
        invariant Ready() && Sound(s, current) && Settled(s) && (forall id :: id in s.events ==> id < s.nextId)
        invariant ApplyAll(old(s), script) == ApplyAll(s, script[i..])
        invariant fresh(timers.repr - old(timers.repr)) && fresh(realtimers.repr - old(realtimers.repr))
      {
        ApplyKeeps(s, script[i], current);
        assert script[i..][0] == script[i] && script[i..][1..] == script[i + 1..];
        Perform(script[i]);
        SoundIds(s, current);
      }
    }

    /** One linked event of hloop_process_pendings. */
    method VisitEvent(id: Id, script: seq<Op>) returns (ran: bool)
      requires Ready() && Sound(s, {}) && Settled(s) && id in events && events[id].pending
      modifies this, timers.repr, realtimers.repr
      ensures ran == (old(events)[id].active && old(events)[id].cb)
      ensures (forall x :: x in old(s.events) ==> x < old(s.nextId)) && Ready() && s == Visit(old(s), id, script)
      ensures fresh(timers.repr - old(timers.repr)) && fresh(realtimers.repr - old(realtimers.repr))
    {
      hide TimerHeap.Timers.Valid, Accounted, Placed, Unpend, ApplyAll, Shaped, Counted, Known;
      SoundIds(s, {});
      ran := events[id].active && events[id].cb;
      if ran {
        CalledKeeps(s, id);
        s := Called(s, id);
        Callback(script, {id});
      }
      Release(id);
    }

    method Release(id: Id)
      requires Mirrored() && id in events
      modifies `events, `nactives, `s
      ensures Mirrored() && s == Unpend(old(s), id) && s.timers == old(s.timers) && s.realtimers == old(s.realtimers)
    {
      events := events[id := events[id].(pending := false)];
      s := Put(s, id, s.events[id].(pending := false));
      // Now the event can be freed if it is marked.
      if events[id].destroy {
        EventDelete(id);
      }
    }

    /** hloop_process_pendings; the n-th callback that runs does what the n-th script says. */
    method ProcessPendings(scripts: seq<seq<Op>>) returns (ncbs: nat)
      requires Ready() && Valid(s)
      modifies this, timers.repr, realtimers.repr
      ensures Ready() && Valid(s) && Walkable(old(s), Order(old(s.pendings)))
      ensures s == if old(npendings) == 0 then old(s) else Emptied(Walk(old(s), Order(old(s.pendings)), scripts))
      ensures s.past.log == old(s.past.log) + Due(old(s.events), Order(old(s.pendings)), {}, scripts)
      ensures ncbs == |Due(old(s.events), Order(old(s.pendings)), {}, scripts)|
      ensures fresh(timers.repr - old(timers.repr)) && fresh(realtimers.repr - old(realtimers.repr))
    {
      assert |pendings| == LEVELS;
      hide TimerHeap.Timers.Valid, Accounted, Placed, Order, Walk, Due, Shaped, Counted, Known, Settled;
      ncbs := 0;
      RoundKeeps(s, scripts);
      if npendings == 0 { NoRound(s, scripts); return; }
      ncbs := SweepLists(scripts);
    }

    /** The outer loop of hloop_process_pendings: from the highest priority down. */
    method SweepLists(scripts: seq<seq<Op>>) returns (ncbs: nat)
      requires Ready() && Sound(s, {}) && Settled(s) && |pendings| == LEVELS && Walkable(s, Order(s.pendings))
      modifies this, timers.repr, realtimers.repr
      ensures Ready() && s == Emptied(Walk(old(s), Order(old(s.pendings)), scripts))
      ensures |s.past.log| == |old(s.past.log)| + ncbs
      ensures fresh(timers.repr - old(timers.repr)) && fresh(realtimers.repr - old(realtimers.repr))
    {
      hide TimerHeap.Timers.Valid, Accounted, Placed, Sound, Settled, Walk, Visit;
      ncbs := 0;
      ghost var s0, lists := s, pendings;
      var rest := scripts;
      var i := LEVELS;
      WalkLists(s, Order(lists), scripts, lists);
      assert lists[..LEVELS] == lists && s0.(pendings := s.pendings) == s0;
      while i > 0
        invariant 0 <= i <= LEVELS
        invariant Ready() && Sound(s, {}) && Settled(s) && Half(s, lists, i)
        invariant Walkable(s, Order(lists[..i]))
        invariant Walk(s0, Order(lists), scripts).(pendings := s.pendings) == Walk(s, Order(lists[..i]), rest)
        invariant |s.past.log| == |s0.past.log| + ncbs
        invariant fresh(timers.repr - old(timers.repr)) && fresh(realtimers.repr - old(realtimers.repr))
      {
        i := i - 1;
        assert lists[..i + 1][..i] == lists[..i] && lists[..i + 1][i] == lists[i];
        var n;
        n, rest := ProcessList(i, Order(lists[..i]), rest);
        ncbs := ncbs + n;
      }
      assert lists[..0] == [];
      WalkNothing(s, rest);
      npendings := 0;
      s := s.(npendings := 0);
      assert s.pendings == seq(LEVELS, _ => []);
    }

    /** The events of one priority; `below` is what the other lists hold. */
    method ProcessList(i: nat, ghost below: seq<Id>, scripts: seq<seq<Op>>) returns (n: nat, rest: seq<seq<Op>>)
      requires Ready() && Sound(s, {}) && Settled(s) && i < LEVELS == |pendings| && Walkable(s, pendings[i] + below)
      modifies this, timers.repr, realtimers.repr
      ensures Ready() && Sound(s, {}) && Settled(s) && s.pendings == old(s.pendings)[i := []] && Walkable(s, below)
      ensures Walk(old(s), old(pendings)[i] + below, scripts).(pendings := s.pendings) == Walk(s, below, rest)
      ensures |s.past.log| == |old(s.past.log)| + n
      ensures fresh(timers.repr - old(timers.repr)) && fresh(realtimers.repr - old(realtimers.repr))
    {
      hide TimerHeap.Timers.Valid, Accounted, Placed, Sound, Settled, Walk, Visit;
      n, rest := 0, scripts;
      var list, j := pendings[i], 0;
      assert list[0..] == list;
      while j < |list|
        invariant 0 <= j <= |list|
        invariant Ready() && Sound(s, {}) && Settled(s) && s.pendings == old(s.pendings) && Walkable(s, list[j..] + below)
        invariant Walk(old(s), list + below, scripts) == Walk(s, list[j..] + below, rest)
        invariant |s.past.log| == |old(s.past.log)| + n
        invariant fresh(timers.repr - old(timers.repr)) && fresh(realtimers.repr - old(realtimers.repr))
      {
        ghost var todo := list[j..] + below;
        assert todo[0] == list[j] && todo[1..] == list[j + 1..] + below;
        if events[list[j]].pending {
          WalkStep(s, todo, rest);
          VisitKeeps(s, list[j], Script(rest));
          assert Walkable(s, [list[j]]);
          VisitLogs(s, list[j], Script(rest));
          var ran := VisitEvent(list[j], Script(rest));
          if ran { n, rest := n + 1, Rest(rest); }
        }
        j := j + 1;
      }
      assert list[j..] + below == below;
      WalkLists(s, below, rest, pendings[i := []]);
      pendings := pendings[i := []];
      SoundLists(s, pendings);
      s := s.(pendings := pendings);
    }

    /** Counts the repeat down, and records that the event came due. */
    method Tick(id: Id)
      requires Mirrored() && id in events
      modifies `events, `s
      ensures Mirrored() && s == Ticked(old(s), id)
    {
      var e := events[id];
      if e.repeat != INFINITE {
        // On 32 bits, one less than nothing is INFINITE.
        events := events[id := e.(repeat := if e.repeat == 0 then INFINITE else e.repeat - 1)];
      }
      s := Ticked(s, id);
    }

    /** The deadline a due timer is put back with. */
    method NextDeadline(id: Id, deadline: nat, t: nat, cron: Id -> nat) returns (next: nat)
      requires Mirrored() && id in events && (events[id].kind.Timeout? ==> events[id].kind.ms > 0)
      ensures next == if events[id].kind.Timeout? then Later(deadline, events[id].kind.ms * 1000, t) else cron(id)
    {
      next := deadline;
      match events[id].kind
      case Timeout(ms) =>
        while next <= t
          invariant Later(deadline, ms * 1000, t) == Later(next, ms * 1000, t)
          decreases t - next
        {
          next := next + ms * 1000;
        }
      case _ => next := cron(id);
    }

    /** One round of __hloop_process_timers: the root of a heap came due. */
    method FireRoot(period: bool, id: Id, deadline: nat, t: nat, cron: Id -> nat)
      requires Ready() && Valid(s) && id in HeapOf(s, period) && deadline == HeapOf(s, period)[id] <= t
      requires (if period then realtimers else timers).heap.root != null
      requires (if period then realtimers else timers).heap.root.entry == TimerHeap.Slot(deadline, id)
      modifies this, timers.repr, realtimers.repr
      ensures Ready() && id in old(s).events && |old(s).pendings| == LEVELS && s == Fire(old(s), id, NextOf(old(s), id, t, cron))
      ensures timers.repr == old(timers.repr) && realtimers.repr == old(realtimers.repr)
    {
      hide TimerHeap.Timers.Valid, Accounted, Shaped, Counted, Valid, Placed, Later, Pend, Kept, Ticked, NextOf;
      DueTimer(s, period, id, t, cron);
      Tick(id);
      KeepTimer(period, id, deadline, t, cron);
      EventPending(id);
    }

    method KeepTimer(period: bool, id: Id, deadline: nat, t: nat, cron: Id -> nat)
      requires Ready() && Shaped(s) && id in events && events[id].kind.Timeout? != period && !events[id].kind.Idle?
      requires events[id].kind.Timeout? ==> events[id].kind.ms > 0
      requires var root := (if period then realtimers else timers).heap.root; root != null && root.entry.id == id
      modifies this, timers.repr, realtimers.repr
      ensures Ready() && timers.repr == old(timers.repr) && realtimers.repr == old(realtimers.repr)
      ensures s == Kept(old(s), id, if old(events)[id].kind.Timeout? then Later(deadline, old(events)[id].kind.ms * 1000, t) else cron(id))
    {
      hide TimerHeap.Timers.Valid, Shaped, Later, Unlink;
      if events[id].repeat == 0 {
        // Just marked and taken out of the heap; it is freed after its last callback.
        TimerUnlink(id);
      } else {
        var next := NextDeadline(id, deadline, t, cron);
        Readd(period, id, next);
      }
    }

    /** heap_dequeue and heap_insert with the next deadline. */
    method Readd(period: bool, id: Id, next: nat)
      requires Ready() && id in events && events[id].repeat != 0 && events[id].kind.Timeout? != period && !events[id].kind.Idle?
      requires var root := (if period then realtimers else timers).heap.root; root != null && root.entry.id == id
      modifies this, timers.repr, realtimers.repr
      ensures Ready() && s == Kept(old(s), id, next)
      ensures timers.repr == old(timers.repr) && realtimers.repr == old(realtimers.repr)
    {
      hide TimerHeap.Timers.Valid;
      if period {
        realtimers.Requeue(realtimers.heap.root, next);
        s := s.(realtimers := realtimers.due);
      } else {
        timers.Requeue(timers.heap.root, next);
        s := s.(timers := timers.due);
      }
    }

    /** __hloop_process_timers: every timer due on entry comes due once, in turn, and no other. */
    method ProcessHeap(period: bool, t: nat, cron: Id -> nat) returns (ntimers: nat, ghost order: seq<Id>)
      requires Ready() && Valid(s) && forall id: Id :: cron(id) > t
      modifies this, timers.repr, realtimers.repr
      ensures Ready() && Valid(s) && InRound(old(s), s, period, order, t, cron) && ntimers == |order|
      ensures forall id :: id in order <==> id in DueSet(old(s), period, t)
      ensures forall id :: id in HeapOf(s, period) ==> HeapOf(s, period)[id] > t && id in HeapOf(old(s), period)
      ensures forall id :: id in HeapOf(old(s), period) ==> Moved(old(s), s, period, t, cron, id)
      ensures timers.repr == old(timers.repr) && realtimers.repr == old(realtimers.repr)
    {
      hide TimerHeap.Timers.Valid, Sound, Linked, Settled, Fire, FireAll, InTurn, InRound, NextOf, Moved;
      ntimers, order := 0, [];
      RoundStart(s, period, t, cron);
      while true
        invariant Ready() && Valid(s) && InRound(old(s), s, period, order, t, cron) && ntimers == |order|
        invariant timers.repr == old(timers.repr) && realtimers.repr == old(realtimers.repr)
        decreases DueSet(old(s), period, t) - (set id | id in order)
      {
        var heap := if period then realtimers else timers;
        var first := heap.First();
        if first == null || first.entry.deadline > t { break; }
        var id := first.entry.id;
        RoundStep(old(s), s, period, order, t, cron, id);
        FireValid(s, id, NextOf(s, id, t, cron));
        FireRoot(period, id, first.entry.deadline, t, cron);
        Shrinks(DueSet(old(s), period, t), order, id);
        order := order + [id];
        ntimers := ntimers + 1;
      }
      RoundDone(old(s), s, period, order, t, cron);
      RoundMoves(old(s), s, period, order, t, cron);
    }

    /** hloop_process_idles: every idle comes due once, in list order. */
    method ProcessIdles() returns (n: nat)
      requires Ready() && Valid(s)
      modifies this
      ensures Ready() && Valid(s) && n == |old(idles)| && (forall id :: id in old(idles) ==> id in old(s).events)
      ensures s == FireAll(old(s), old(idles), Zeros(old(s)))
    {
      hide TimerHeap.Timers.Valid, Sound, Linked, Settled, Fire, FireAll;
      n := 0;
      var nodes := idles;
      ghost var zero := Zeros(s);
      IdlesStart(s, zero);
      while n < |nodes|
        invariant 0 <= n <= |nodes| && Ready() && Valid(s) && s == FireAll(old(s), nodes[..n], zero)
        invariant timers.due == old(timers.due) && realtimers.due == old(realtimers.due)
      {
        var id := nodes[n];
        IdlesStep(old(s), s, n, zero);
        FireValid(s, id, 0);
        FireNode(id);
        n := n + 1;
      }
      assert nodes[..n] == nodes;
    }

    method FireNode(id: Id)
      requires Mirrored() && id in events && events[id].kind.Idle? && |pendings| == LEVELS
      modifies this
      ensures Mirrored() && s == Fire(old(s), id, 0) && s.timers == old(s.timers) && s.realtimers == old(s.realtimers)
    {
      Tick(id);
      if events[id].repeat == 0 {
        // Just marked and taken out of the list; it is freed after its last callback.
        IdleUnlink(id);
      }
      EventPending(id);
    }

    /** hloop_process_events once the poller returned: timers, idles when nothing else is pending, then callbacks.
        Callbacks run in descending priority. */
    method ProcessEvents(hrtime: nat, realtime: nat, cron: Id -> nat, scripts: seq<seq<Op>>)
      returns (ncbs: nat, ghost g: Gathering, ghost ran: seq<Id>)
      requires Ready() && Valid(s) && Pending(s.events) == {} && forall id: Id :: cron(id) > hrtime && cron(id) > realtime
      modifies this, timers.repr, realtimers.repr
      ensures Ready() && Valid(s) && Pending(s.events) == {} && Silent(old(s), s)
      ensures Gathered(old(s), g, hrtime, realtime, cron) && Leveled(g.mid) && Walkable(g.mid, Order(g.mid.pendings))
      ensures var due := DueSet(old(s), false, hrtime) + DueSet(old(s), true, realtime);
              forall x :: x in Pending(g.mid.events) <==> x in due || (due == {} && x in old(s.idles))
      ensures ran == Due(g.mid.events, Order(g.mid.pendings), {}, scripts) && ncbs == |ran|
      ensures s.past.log == old(s.past.log) + ran && Descending(g.mid.events, ran)
      ensures s == Emptied(Walk(g.mid, Order(g.mid.pendings), scripts))
      ensures fresh(timers.repr - old(timers.repr)) && fresh(realtimers.repr - old(realtimers.repr))
    {
      hide TimerHeap.Timers.Valid, Sound, Linked, Settled, DueSet, Due, Order, Walk, Gathered, Descending, Leveled;
      g := Gather(hrtime, realtime, cron);
      GatheredLeveled(old(s), g, hrtime, realtime, cron);
      GatheredPending(old(s), g, hrtime, realtime, cron);
      CallsDescend(s, scripts);
      RoundKeeps(s, scripts);
      RoundSilent(s, scripts);
      if npendings == 0 { QuietEmptied(s, scripts); }
      ran := Due(s.events, Order(s.pendings), {}, scripts);
      ncbs := ProcessPendings(scripts);
    }

    method Gather(hrtime: nat, realtime: nat, cron: Id -> nat) returns (ghost g: Gathering)
      requires Ready() && Valid(s) && forall id: Id :: cron(id) > hrtime && cron(id) > realtime
      modifies this, timers.repr, realtimers.repr
      ensures Ready() && Valid(s) && s.past.log == old(s.past.log) && s.past.deleted == old(s.past.deleted)
      ensures Gathered(old(s), g, hrtime, realtime, cron) && g.mid == s
      ensures timers.repr == old(timers.repr) && realtimers.repr == old(realtimers.repr)
    {
      hide TimerHeap.Timers.Valid, Sound, Linked, Settled, FireAll, DueSet, InRound;
      ghost var order1, order2 := [], [];
      ghost var s1 := s;
      if ntimers != 0 {
        var n;
        n, order1, s1, order2 := ProcessTimers(hrtime, realtime, cron);
      } else {
        NoTimers(s);
        RoundStart(s, false, hrtime, cron);
        RoundStart(s, true, realtime, cron);
      }
      ghost var s2 := s;
      IdlesStart(s, Zeros(s));
      FireAllSilent(s, s.idles, Zeros(s));
      if npendings == 0 && nidles != 0 {
        var n := ProcessIdles();
      } else {
        NoIdles(s);
      }
      g := Gathering(order1, s1, order2, s2, s);
    }

    /** hloop_process_timers. */
    method ProcessTimers(hrtime: nat, realtime: nat, cron: Id -> nat)
      returns (n: nat, ghost order1: seq<Id>, ghost s1: State, ghost order2: seq<Id>)
      requires Ready() && Valid(s) && forall id: Id :: cron(id) > hrtime && cron(id) > realtime
      modifies this, timers.repr, realtimers.repr
      ensures Ready() && Valid(s) && s.past.log == old(s.past.log) && s.past.deleted == old(s.past.deleted)
      ensures InRound(old(s), s1, false, order1, hrtime, cron) && (forall id :: id in order1 <==> id in DueSet(old(s), false, hrtime))
      ensures InRound(s1, s, true, order2, realtime, cron) && (forall id :: id in order2 <==> id in DueSet(old(s), true, realtime))
      ensures n == |order1| + |order2|
      ensures timers.repr == old(timers.repr) && realtimers.repr == old(realtimers.repr)
    {
      hide TimerHeap.Timers.Valid, Sound, Linked, Settled, InRound, DueSet, Moved;
      n, order1 := ProcessHeap(false, hrtime, cron);
      s1 := s;
      RoundEffect(old(s), s1, false, order1, hrtime, cron);
      RoundOther(old(s), s1, false, order1, hrtime, cron, realtime);
      var m;
      m, order2 := ProcessHeap(true, realtime, cron);
      RoundEffect(s1, s, true, order2, realtime, cron);
      n := n + m;
    }

    /** htimer_reset. */
    method TimerReset(id: Id, now: nat, ms: nat)
      requires Ready() && Shaped(s) && id in events
      modifies this, timers.repr, realtimers.repr
      ensures Ready() && s == Rearm(old(s), id, now, ms)
      ensures fresh(timers.repr - old(timers.repr)) && realtimers.repr == old(realtimers.repr)
    {
      hide Shaped, TimerHeap.Timers.Valid;
      var e := events[id];
      if !e.kind.Timeout? { return; }
      InHeap(s, id);
      var period := if ms > 0 then ms else e.kind.ms;
      Rehang(id, e.destroy, FirstDeadline(now, period));
      hide Rearm;
      Renew(id, now, ms);
    }

    /** The fields of htimer_reset, and EVENT_RESET. */
    method Renew(id: Id, now: nat, ms: nat)
      requires Mirrored() && id in events && events[id].kind.Timeout?
      modifies `events, `ntimers, `nactives, `s
      ensures Mirrored() && s == Rearm(old(s), id, now, ms)
      ensures s.timers == old(s.timers)[id := FirstDeadline(now, if ms > 0 then ms else old(events)[id].kind.ms)]
      ensures s.realtimers == old(s.realtimers)
    {
      var e := events[id];
      if e.destroy { ntimers := ntimers + 1; }
      if !e.active { nactives := nactives + 1; }
      var period := if ms > 0 then ms else e.kind.ms;
      events := events[id := Event(Timeout(period), e.priority, e.cb, if e.repeat == 0 then 1 else e.repeat, true, false, false)];
      s := Rearm(s, id, now, ms);
    }

    /** heap_remove of a timer that is in the heap, and heap_insert. */
    method Rehang(id: Id, destroyed: bool, deadline: nat)
      requires Apart() && (destroyed <==> id !in timers.due)
      modifies timers.repr
      ensures Apart() && timers.due == old(timers.due)[id := deadline] && realtimers.due == old(realtimers.due)
      ensures fresh(timers.repr - old(timers.repr)) && realtimers.repr == old(realtimers.repr)
    {
      hide TimerHeap.Timers.Valid;
      ghost var due := timers.due;
      if !destroyed { timers.Del(id); }
      timers.Add(id, deadline);
      TimerHeap.Readded(due, id, deadline);
    }

    /** The start of the callback of `id`. */
    ghost method Enter(id: Id)
      requires Ready()
      modifies `s
      ensures Ready() && s == Called(old(s), id)
    {
      hide TimerHeap.Timers.Valid;
      s := Called(s, id);
    }

    /** htimer_reset, then htimer_del. */
    method ResetDelete(id: Id, now: nat)
      requires Ready() && Shaped(s) && Counted(s) && id in s.events && s.events[id].kind.Timeout?
      modifies this, timers.repr, realtimers.repr
      ensures Ready() && s == Delete(Rearm(old(s), id, now, 0), id)
    {
      hide TimerHeap.Timers.Valid, Shaped, Counted, Rearm, Delete;
      ResetShape(s, id, now, 0);
      TimerReset(id, now, 0);
      TimerDel(id);
    }

    /** A whole run: whatever the program and its callbacks do, an event that was deleted before it is never
        called, and an event with a finite repeat is called no more often than that. */
    method Run(turns: seq<Turn>)
      requires Ready() && Valid(s) && Pending(s.events) == {}
      requires forall i, id: Id :: 0 <= i < |turns| ==> turns[i].cron(id) > turns[i].hrtime && turns[i].cron(id) > turns[i].realtime
      modifies this, timers.repr, realtimers.repr
      ensures Ready() && Valid(s) && Silent(old(s), s)
      ensures forall id: Id :: id < s.nextId ==>
                id in s.past.quota && (0 < s.past.quota[id] < INFINITE ==> Runs(s, id) <= s.past.quota[id])
    {
      hide TimerHeap.Timers.Valid, Sound, Linked, Settled, ApplyAll, Gathered, Leveled, Descending, Walk, Due;
      for i := 0 to |turns|
        invariant Ready() && Valid(s) && Pending(s.events) == {} && Silent(old(s), s)
        invariant fresh(timers.repr - old(timers.repr)) && fresh(realtimers.repr - old(realtimers.repr))
      {
        ghost var s0 := s;
        OpsValid(s, turns[i].ops);
        Callback(turns[i].ops, {});
        SilentTrans(old(s), s0, s);
        ghost var s1 := s;
        var ncbs;
        ghost var g;
        ghost var ran;
        ncbs, g, ran := ProcessEvents(turns[i].hrtime, turns[i].realtime, turns[i].cron, turns[i].scripts);
        SilentTrans(old(s), s1, s);
      }
      forall id: Id | id < s.nextId
        ensures id in s.past.quota && (0 < s.past.quota[id] < INFINITE ==> Runs(s, id) <= s.past.quota[id])
      {
        RunsAtMost(s, id);
      }
    }
  }

  /** A loop whose one timer has just come due. */
  method OneDue(cron: Id -> nat) returns (loop: HLoop)
    requires forall id: Id :: cron(id) > 10000
    ensures fresh(loop) && fresh(loop.timers.repr) && fresh(loop.realtimers.repr)
    ensures loop.Ready() && Valid(loop.s) && Order(loop.s.pendings) == [0]
    ensures 0 in loop.s.events && loop.s.events[0] == Event(Timeout(10), HIGHEST, true, INFINITE, true, true, false)
  {
    hide TimerHeap.Timers.Valid, Linked, Settled, Sound, InRound, Order, Moved;
    loop := new HLoop();
    ghost var s0 := loop.s;
    FreshValid(s0);
    loop.TimerAdd(0, 10, INFINITE, true);
    ghost var s1 := loop.s;
    AddedValid(s0, 0, 10, INFINITE, true);
    var n;
    ghost var order;
    n, order := loop.ProcessHeap(false, 10000, cron);
    OneTimerDue(s1, loop.s, order, 10000, cron);
  }

  /** A program may reset a timer in the timer's own callback and then delete it: the pending list that the loop
      is walking then links memory that was freed. */
  method ResetAndDelete(cron: Id -> nat) returns (loop: HLoop)
    requires forall id: Id :: cron(id) > 10000
    ensures loop.Ready() && Order(loop.s.pendings) == [0] && 0 !in loop.s.events && Dangling(loop.s, Order(loop.s.pendings))
  {
    hide HLoop.Ready, Valid, Order, Shaped, Counted, Rearm, Delete, Pending, Called;
    loop := OneDue(cron);
    // The callback of timer 0.
    EnterFirst(loop.s);
    loop.Enter(0);
    ResetThenDelete(loop.s, [0], 0, 10000, 0);
    loop.ResetDelete(0, 10000);
  }

  /** The lists of level `i` and up are cleared. */
  ghost predicate Half(s: State, lists: seq<seq<Id>>, i: nat) {
    |s.pendings| == |lists| == LEVELS && forall l :: 0 <= l < LEVELS ==> s.pendings[l] == if l < i then lists[l] else []
  }
}

/** The events of a loop as values: event/hloop.c and the macros of event/hevent.h, with what they keep. */
module LoopTheory {
  type Id = nat
  const INFINITE: nat := 0xFFFF_FFFF
  const LEVELS: nat := 11

  type Priority = p: int | -5 <= p <= 5
  const HIGHEST: Priority := 5
  const HIGH: Priority := 3
  const LOWEST: Priority := -5

  datatype Cron = Cron(minute: int, hour: int, day: int, week: int, month: int)
  datatype Kind = Timeout(ms: nat) | Period(cron: Cron) | Idle
  datatype Event = Event(kind: Kind, priority: Priority, cb: bool, repeat: nat,
                         active: bool, pending: bool, destroy: bool)

  /** What happened so far: the repeat each event was added with, how often it came due, which callbacks
      ran in which order, and the events the program deleted. */
  datatype History = History(quota: map<Id, nat>, due: multiset<Id>, log: seq<Id>, deleted: set<Id>)

  /** An event that is not in `events` has been freed, or was never made. */
  datatype State = State(events: map<Id, Event>, nextId: Id,
                         pendings: seq<seq<Id>>, npendings: nat,
                         idles: seq<Id>, nidles: int,
                         timers: map<Id, nat>, realtimers: map<Id, nat>, ntimers: int,
                         nactives: int, past: History)

  // ---- the steps ----

  function Level(p: Priority): (i: nat)
    ensures i < LEVELS
  {
    p + 5
  }

  function Put(s: State, id: Id, e: Event): State {
    s.(events := s.events[id := e])
  }

  /** EVENT_INACTIVE. */
  function Inactive(s: State, id: Id): State
    requires id in s.events
  {
    if s.events[id].active then Put(s, id, s.events[id].(active := false)).(nactives := s.nactives - 1) else s
  }

  /** EVENT_PENDING. */
  function Pend(s: State, id: Id): (t: State)
    requires id in s.events && |s.pendings| == LEVELS
    ensures |t.pendings| == LEVELS && t.events == s.events[id := s.events[id].(pending := true)] && t.past == s.past
    ensures t.timers == s.timers && t.realtimers == s.realtimers
  {
    if s.events[id].pending then s
    else
      var l := Level(s.events[id].priority);
      Put(s, id, s.events[id].(pending := true))
      .(npendings := s.npendings + 1, pendings := s.pendings[l := [id] + s.pendings[l]])
  }

  /** EVENT_DEL: the memory goes back unless a pending list still links the event. */
  function EventDel(s: State, id: Id): (t: State)
    requires id in s.events
    ensures t.nextId == s.nextId && t.events.Keys <= s.events.Keys && t.past == s.past
    ensures t.timers == s.timers && t.realtimers == s.realtimers && t.pendings == s.pendings
    ensures forall x :: x in s.events && (x != id || s.events[id].pending) ==>
              x in t.events && t.events[x] == s.events[x].(active := x != id && s.events[x].active)
  {
    var s1 := Inactive(s, id);
    if s1.events[id].pending then s1 else s1.(events := s1.events - {id})
  }

  function Without(q: seq<Id>, id: Id): (r: seq<Id>)
    ensures forall x :: x in r <==> x in q && x != id
    ensures |r| <= |q|
  {
    if q == [] then [] else (if q[0] == id then [] else [q[0]]) + Without(q[1..], id)
  }

  /** __htimer_del and __hidle_del: out of the heap or the list, and marked. */
  function Unlink(s: State, id: Id): (t: State)
    requires id in s.events
    ensures t.nextId == s.nextId && t.events == s.events[id := s.events[id].(destroy := true)] && t.past == s.past && t.pendings == s.pendings
  {
    var e := s.events[id];
    if e.destroy then s
    else
      var s1 := Put(s, id, e.(destroy := true));
      match e.kind
      case Timeout(_) => s1.(timers := s1.timers - {id}, ntimers := s1.ntimers - 1)
      case Period(_) => s1.(realtimers := s1.realtimers - {id}, ntimers := s1.ntimers - 1)
      case Idle => s1.(idles := Without(s1.idles, id), nidles := s1.nidles - 1)
  }

  /** htimer_del and hidle_del. */
  function Delete(s: State, id: Id): (t: State)
    requires id in s.events
    ensures t.nextId == s.nextId && t.events.Keys <= s.events.Keys && t.pendings == s.pendings
    ensures forall x :: x in s.events && s.events[x].pending ==> x in t.events && t.events[x].pending
  {
    if s.events[id].active then
      EventDel(Unlink(s, id), id).(past := s.past.(deleted := s.past.deleted + {id}))
    else s
  }

  function Made(s: State, e: Event): State {
    Put(s, s.nextId, e).(nextId := s.nextId + 1, nactives := s.nactives + 1,
                         past := s.past.(quota := s.past.quota[s.nextId := e.repeat]))
  }

  function NewEvent(kind: Kind, priority: Priority, cb: bool, repeat: nat): Event {
    Event(kind, priority, cb, repeat, true, false, false)
  }

  /** The first deadline of a timer, in microseconds; long ones are rounded down to a tenth of a second. */
  function FirstDeadline(now: nat, ms: nat): nat {
    var d := now + ms * 1000;
    if ms >= 1000 && ms % 100 == 0 then d / 100000 * 100000 else d
  }

  /** htimer_add. */
  function WithTimeout(s: State, now: nat, ms: nat, repeat: nat, cb: bool): State {
    if ms == 0 then s
    else Made(s, NewEvent(Timeout(ms), HIGHEST, cb, repeat))
         .(timers := s.timers[s.nextId := FirstDeadline(now, ms)], ntimers := s.ntimers + 1)
  }

  predicate Acceptable(c: Cron) {
    c.minute <= 59 && c.hour <= 23 && c.day <= 31 && c.week <= 6 && c.month <= 12
  }

  /** htimer_add_period; `next` stands for cron_next_timeout. */
  function WithPeriod(s: State, cron: Cron, next: nat, repeat: nat, cb: bool): State {
    if !Acceptable(cron) then s
    else Made(s, NewEvent(Period(cron), HIGH, cb, repeat))
         .(realtimers := s.realtimers[s.nextId := next], ntimers := s.ntimers + 1)
  }

  /** hidle_add. */
  function WithIdle(s: State, repeat: nat, cb: bool): State {
    Made(s, NewEvent(Idle, LOWEST, cb, repeat)).(idles := [s.nextId] + s.idles, nidles := s.nidles + 1)
  }

  /** One repeat less, on 32 bits, unless it is INFINITE. */
  function Dec(repeat: nat): nat {
    if repeat == INFINITE then repeat else if repeat == 0 then INFINITE else repeat - 1
  }

  /** The repeat of an event that came due: counted down, and its due time recorded. */
  function Ticked(s: State, id: Id): State
    requires id in s.events
  {
    Put(s, id, s.events[id].(repeat := Dec(s.events[id].repeat))).(past := s.past.(due := s.past.due + multiset{id}))
  }

  /** `x` has in `t` the place and deadline it had in `s`. */
  predicate SameTimer(s: State, t: State, x: Id) {
    && (x in t.timers <==> x in s.timers) && (x in s.timers ==> t.timers[x] == s.timers[x])
    && (x in t.realtimers <==> x in s.realtimers) && (x in s.realtimers ==> t.realtimers[x] == s.realtimers[x])
  }

  /** Unlinked when the repeats are used up, else put back with deadline `next`. */
  function Kept(s: State, id: Id, next: nat): (t: State)
    requires id in s.events
    ensures t.past == s.past && t.pendings == s.pendings && t.npendings == s.npendings && t.nextId == s.nextId
    ensures t.events == s.events[id := s.events[id].(destroy := s.events[id].destroy || s.events[id].repeat == 0)]
    ensures forall x :: x != id ==> SameTimer(s, t, x)
  {
    var e := s.events[id];
    if e.repeat == 0 then Unlink(s, id)
    else if e.kind.Timeout? then s.(timers := s.timers[id := next])
    else if e.kind.Period? then s.(realtimers := s.realtimers[id := next])
    else s
  }

  /** What coming due does to the event itself. */
  function Fired(e: Event): Event {
    e.(repeat := Dec(e.repeat), pending := true, destroy := e.destroy || Dec(e.repeat) == 0)
  }

  /** An event comes due. */
  function Fire(s: State, id: Id, next: nat): (t: State)
    requires id in s.events && |s.pendings| == LEVELS
    ensures |t.pendings| == LEVELS && t.events == s.events[id := Fired(s.events[id])]
  {
    Pend(Kept(Ticked(s, id), id, next), id)
  }

  // ---- what every step keeps ----

  ghost function Actives(events: map<Id, Event>): set<Id> {
    set id | id in events && events[id].active
  }

  ghost function Pending(events: map<Id, Event>): set<Id> {
    set id | id in events && events[id].pending
  }

  /** A timer is in its heap, and an idle in the list, exactly while it is not marked. */
  ghost predicate Placed(s: State, id: Id)
    requires id in s.events
  {
    var e := s.events[id];
    && id < s.nextId
    && (!e.active ==> e.destroy)
    && (e.kind.Timeout? ==> e.kind.ms > 0)
    && (id in s.timers <==> e.kind.Timeout? && !e.destroy)
    && (id in s.realtimers <==> e.kind.Period? && !e.destroy)
    && (id in s.idles <==> e.kind.Idle? && !e.destroy)
  }

  function Runs(s: State, id: Id): nat { multiset(s.past.log)[id] }

  /** An event with a finite repeat comes due no more often than that, a callback runs only for an event that
      came due, and a deleted event is inactive for good. */
  ghost predicate Accounted(s: State, id: Id, current: set<Id>) {
    && id in s.past.quota
    && Runs(s, id) + (if id in s.events && s.events[id].pending && id !in current then 1 else 0) <= s.past.due[id]
    && (0 < s.past.quota[id] < INFINITE ==>
          && s.past.due[id] <= s.past.quota[id]
          && (id in s.events && !s.events[id].destroy ==>
                s.events[id].repeat > 0 && s.events[id].repeat + s.past.due[id] == s.past.quota[id]))
    && (id in s.past.deleted && id in s.events ==> !s.events[id].active)
  }

  ghost predicate Distinct(q: seq<Id>) {
    forall i, j :: 0 <= i < j < |q| ==> q[i] != q[j]
  }

  /** Every event is where its flags say, and the heaps and the list hold nothing but events. */
  ghost predicate Shaped(s: State) {
    && |s.pendings| == LEVELS
    && (forall id :: id in s.events ==> Placed(s, id))
    && s.timers.Keys <= s.events.Keys && s.realtimers.Keys <= s.events.Keys
    && (forall id :: id in s.idles ==> id in s.events) && Distinct(s.idles)
  }

  /** The counters of the loop are the true counts. */
  ghost predicate Counted(s: State) {
    s.nactives == |Actives(s.events)| && s.ntimers == |s.timers| + |s.realtimers| && s.nidles == |s.idles|
  }

  ghost predicate Known(h: History, nextId: Id) {
    && (forall id :: id in h.deleted ==> id < nextId) && (forall id :: id in h.quota ==> id < nextId)
    && (forall id :: id in h.due ==> id < nextId) && (forall id :: id in h.log ==> id < nextId)
  }

  /** Holds between any two steps; `current` is the event whose callback runs. */
  ghost predicate Sound(s: State, current: set<Id>) {
    && Shaped(s) && Counted(s) && Known(s.past, s.nextId)
    && forall id: Id :: id < s.nextId ==> Accounted(s, id, current)
  }

  /** Highest priority first, and within one priority the event that came last. */
  function Order(lists: seq<seq<Id>>): seq<Id> {
    if lists == [] then [] else lists[|lists| - 1] + Order(lists[..|lists| - 1])
  }

  /** The pending lists link every pending event, once, and nothing else. */
  ghost predicate Linked(s: State) {
    multiset(Order(s.pendings)) == multiset(Pending(s.events)) && s.npendings == |Order(s.pendings)|
  }

  /** A marked event that nothing links any more has been freed. */
  ghost predicate Settled(s: State) {
    forall id :: id in s.events && s.events[id].destroy ==> s.events[id].pending
  }

  /** Between two operations of the loop. */
  ghost predicate Valid(s: State) {
    Sound(s, {}) && Linked(s) && Settled(s)
  }

  // ---- lemmas ----

  lemma ActivesPut(events: map<Id, Event>, id: Id, e: Event)
    requires id in events
    ensures |Actives(events[id := e])|
         == |Actives(events)| + (if e.active then 1 else 0) - (if events[id].active then 1 else 0)
  {
    var a, b := Actives(events), Actives(events[id := e]);
    forall x | x != id ensures x in a <==> x in b {
      assert x in events[id := e] <==> x in events;
    }
    assert a - {id} == b - {id};
    WithAndWithout(a, id);
    WithAndWithout(b, id);
  }

  lemma WithAndWithout(a: set<Id>, id: Id)
    ensures |a| == |a - {id}| + if id in a then 1 else 0
  {
    if id in a { assert a == (a - {id}) + {id}; } else { assert a == a - {id}; }
  }

  lemma ActivesNew(events: map<Id, Event>, id: Id, e: Event)
    requires id !in events && e.active
    ensures |Actives(events[id := e])| == |Actives(events)| + 1
  {
    assert Actives(events[id := e]) == Actives(events) + {id};
  }

  lemma ActivesGone(events: map<Id, Event>, id: Id)
    requires id in events && !events[id].active
    ensures Actives(events - {id}) == Actives(events)
  {
  }

  lemma WithoutDistinct(q: seq<Id>, id: Id)
    requires Distinct(q)
    ensures Distinct(Without(q, id)) && |Without(q, id)| == |q| - (if id in q then 1 else 0)
  {
    if q != [] {
      var rest, r := q[1..], Without(q[1..], id);
      assert forall i, j :: 0 <= i < j < |rest| ==> rest[i] == q[i + 1] && rest[j] == q[j + 1];
      WithoutDistinct(rest, id);
      assert q[0] !in rest;
      DistinctCons(if q[0] == id then [] else [q[0]], r);
    }
  }

  lemma DistinctCons(h: seq<Id>, r: seq<Id>)
    requires |h| <= 1 && Distinct(r) && forall x :: x in h ==> x !in r
    ensures Distinct(h + r)
  {
    if h != [] { assert h[0] in h; }
  }

  /** The bookkeeping part of Sound, which no change of links touches. */
  lemma SameAccounts(s: State, t: State, current: set<Id>)
    requires Sound(s, current) && t.past == s.past && t.nextId == s.nextId
    requires forall x :: x in t.events ==> x in s.events
    requires forall x :: x in t.events ==> (t.events[x].active ==> s.events[x].active) && (s.events[x].destroy ==> t.events[x].destroy)
    requires forall x :: x in t.events ==> t.events[x].pending == s.events[x].pending && t.events[x].repeat == s.events[x].repeat
    ensures forall x: Id :: x < t.nextId ==> Accounted(t, x, current)
  {
    forall x: Id | x < t.nextId ensures Accounted(t, x, current) { assert Accounted(s, x, current); }
  }

  lemma UnlinkShape(s: State, id: Id)
    requires Shaped(s) && id in s.events
    ensures Shaped(Unlink(s, id)) && Unlink(s, id).events == s.events[id := s.events[id].(destroy := true)]
  {
    var t := Unlink(s, id);
    WithoutDistinct(s.idles, id);
    assert Placed(s, id);
    forall x | x in t.events ensures Placed(t, x) { assert Placed(s, x); }
  }

  lemma UnlinkCount(s: State, id: Id)
    requires Shaped(s) && Counted(s) && id in s.events
    ensures Counted(Unlink(s, id))
  {
    var e := s.events[id];
    ActivesPut(s.events, id, e.(destroy := true));
    WithoutDistinct(s.idles, id);
    assert Placed(s, id);
    Fewer(s.timers, id);
    Fewer(s.realtimers, id);
  }

  lemma Fewer(m: map<Id, nat>, id: Id)
    ensures |m - {id}| == |m| - if id in m then 1 else 0
  {
    assert (m - {id}).Keys == m.Keys - {id};
  }

  lemma More(m: map<Id, nat>, id: Id, v: nat)
    ensures |m[id := v]| == |m| + if id in m then 0 else 1
  {
    assert m[id := v].Keys == m.Keys + {id};
    assert |m.Keys| == |m|;
  }

  lemma UnlinkKeeps(s: State, id: Id, current: set<Id>)
    requires Sound(s, current) && id in s.events
    ensures Sound(Unlink(s, id), current) && Unlink(s, id).events == s.events[id := s.events[id].(destroy := true)]
  {
    hide Shaped, Counted, Accounted, Unlink;
    UnlinkShape(s, id);
    UnlinkCount(s, id);
    SameAccounts(s, Unlink(s, id), current);
  }

  lemma EventDelKeeps(s: State, id: Id, current: set<Id>)
    requires Sound(s, current) && id in s.events && s.events[id].destroy
    ensures Sound(EventDel(s, id), current)
  {
    var e := s.events[id];
    var s1, t := Inactive(s, id), EventDel(s, id);
    ActivesPut(s.events, id, e.(active := false));
    ActivesGone(s1.events, id);
    assert Placed(s, id);
    forall x | x in t.events ensures Placed(t, x) { assert Placed(s, x); }
    SameAccounts(s, t, current);
  }

  lemma DeletedKnown(s: State, id: Id, current: set<Id>)
    requires Sound(s, current) && id < s.nextId && (id in s.events ==> !s.events[id].active)
    ensures Sound(s.(past := s.past.(deleted := s.past.deleted + {id})), current)
  {
    var t := s.(past := s.past.(deleted := s.past.deleted + {id}));
    forall x | x in t.events ensures Placed(t, x) { assert Placed(s, x); }
    forall x: Id | x < t.nextId ensures Accounted(t, x, current) { assert Accounted(s, x, current); }
  }

  lemma DeleteKeeps(s: State, id: Id, current: set<Id>)
    requires Sound(s, current) && id in s.events
    ensures Sound(Delete(s, id), current)
  {
    if s.events[id].active {
      assert Placed(s, id);
      UnlinkKeeps(s, id, current);
      EventDelKeeps(Unlink(s, id), id, current);
      DeletedKnown(EventDel(Unlink(s, id), id), id, current);
    }
  }

  lemma DeleteSettles(s: State, id: Id)
    requires Shaped(s) && id in s.events
    ensures Pending(Delete(s, id).events) == Pending(s.events) && (Settled(s) ==> Settled(Delete(s, id)))
  {
    UnlinkShape(s, id);
  }

  lemma MadeShape(s: State, t: State, e: Event)
    requires Shaped(s) && e.active && !e.pending && !e.destroy && (e.kind.Timeout? ==> e.kind.ms > 0)
    requires |t.pendings| == LEVELS && t.events == s.events[s.nextId := e] && t.nextId == s.nextId + 1
    requires if e.kind.Timeout? then t.timers.Keys == s.timers.Keys + {s.nextId} else t.timers == s.timers
    requires if e.kind.Period? then t.realtimers.Keys == s.realtimers.Keys + {s.nextId} else t.realtimers == s.realtimers
    requires t.idles == (if e.kind.Idle? then [s.nextId] else []) + s.idles
    ensures s.nextId !in s.events && Shaped(t) && Pending(t.events) == Pending(s.events) && (Settled(s) ==> Settled(t))
  {
    var id := s.nextId;
    assert forall x :: x in s.events ==> Placed(s, x);
    DistinctCons(if e.kind.Idle? then [id] else [], s.idles);
    forall x | x in t.events ensures Placed(t, x) { if x != id { assert Placed(s, x); } }
  }

  lemma MadeAccounts(s: State, t: State, e: Event, current: set<Id>)
    requires Sound(s, current) && s.nextId !in s.events && e.active && !e.pending && !e.destroy
    requires t.events == s.events[s.nextId := e] && t.past == Made(s, e).past && t.nextId == s.nextId + 1
    ensures Known(t.past, t.nextId) && forall x: Id :: x < t.nextId ==> Accounted(t, x, current)
  {
    assert s.nextId !in s.past.log && s.nextId !in s.past.due && s.nextId !in s.past.deleted;
    assert s.nextId !in multiset(s.past.log);
    forall x: Id | x < t.nextId ensures Accounted(t, x, current) { if x < s.nextId { assert Accounted(s, x, current); } }
  }

  /** `t` is `s` with the new event `e`, in the heap or list of its kind. */
  ghost predicate Extends(s: State, t: State, e: Event) {
    && e.active && !e.pending && !e.destroy && (e.kind.Timeout? ==> e.kind.ms > 0)
    && t.events == s.events[s.nextId := e] && t.nextId == s.nextId + 1 && t.pendings == s.pendings && t.npendings == s.npendings
    && t.past == Made(s, e).past && t.nactives == s.nactives + 1
    && match e.kind
       case Timeout(_) => s.nextId in t.timers && t.timers == s.timers[s.nextId := t.timers[s.nextId]] && t.realtimers == s.realtimers
                          && t.idles == s.idles && t.ntimers == s.ntimers + 1 && t.nidles == s.nidles
       case Period(_) => t.timers == s.timers && s.nextId in t.realtimers && t.realtimers == s.realtimers[s.nextId := t.realtimers[s.nextId]]
                         && t.idles == s.idles && t.ntimers == s.ntimers + 1 && t.nidles == s.nidles
       case Idle => t.timers == s.timers && t.realtimers == s.realtimers
                    && t.idles == [s.nextId] + s.idles && t.ntimers == s.ntimers && t.nidles == s.nidles + 1
  }

  lemma ExtendsShape(s: State, t: State, e: Event)
    requires Shaped(s) && Extends(s, t, e)
    ensures s.nextId !in s.events && Shaped(t) && Pending(t.events) == Pending(s.events) && (Settled(s) ==> Settled(t))
  {
    assert [] + s.idles == s.idles;
    MadeShape(s, t, e);
  }

  lemma ExtendsKeeps(s: State, t: State, e: Event, current: set<Id>)
    requires Sound(s, current) && Extends(s, t, e)
    ensures Sound(t, current) && Pending(t.events) == Pending(s.events) && (Settled(s) ==> Settled(t))
  {
    ExtendsShape(s, t, e);
    MadeAccounts(s, t, e, current);
    ExtendsCount(s, t, e);
  }

  lemma ExtendsCount(s: State, t: State, e: Event)
    requires Shaped(s) && Counted(s) && Extends(s, t, e) && s.nextId !in s.events
    ensures Counted(t)
  {
    var id := s.nextId;
    ActivesNew(s.events, id, e);
    match e.kind
    case Timeout(_) => More(s.timers, id, t.timers[id]); assert t.timers == s.timers[id := t.timers[id]];
    case Period(_) => More(s.realtimers, id, t.realtimers[id]); assert t.realtimers == s.realtimers[id := t.realtimers[id]];
    case Idle =>
  }

  lemma AddKeeps(s: State, op: Op, current: set<Id>)
    requires Sound(s, current) && (op.AddTimeout? || op.AddPeriod? || op.AddIdle?)
    ensures Sound(Apply(s, op), current) && Pending(Apply(s, op).events) == Pending(s.events)
    ensures Settled(s) ==> Settled(Apply(s, op))
  {
    var t := Apply(s, op);
    if t != s {
      var e := t.events[s.nextId];
      assert op.AddTimeout? ==> t.timers == s.timers[s.nextId := t.timers[s.nextId]];
      assert op.AddPeriod? ==> t.realtimers == s.realtimers[s.nextId := t.realtimers[s.nextId]];
      assert Extends(s, t, e);
      ExtendsKeeps(s, t, e, current);
    }
  }

  // ---- htimer_reset ----

  /** htimer_reset at `now`: `ms` is 0 to keep the period. The quota becomes what it is armed for from now on. */
  function Rearm(s: State, id: Id, now: nat, ms: nat): (t: State)
    requires id in s.events
    ensures t.nextId == s.nextId && t.pendings == s.pendings && t.npendings == s.npendings && t.events.Keys == s.events.Keys
    ensures forall x :: x in s.events && x != id ==> t.events[x] == s.events[x]
    ensures t.past.log == s.past.log && t.past.deleted == s.past.deleted && t.events[id].kind.Timeout? == s.events[id].kind.Timeout?
  {
    var e := s.events[id];
    if !e.kind.Timeout? then s
    else
      var period := if ms > 0 then ms else e.kind.ms;
      var repeat := if e.repeat == 0 then 1 else e.repeat;
      Put(s, id, Event(Timeout(period), e.priority, e.cb, repeat, true, false, false))
      .(timers := s.timers[id := FirstDeadline(now, period)],
        ntimers := s.ntimers + (if e.destroy then 1 else 0),
        nactives := s.nactives + (if e.active then 0 else 1),
        past := s.past.(quota := s.past.quota[id := if repeat == INFINITE then INFINITE else s.past.due[id] + repeat]))
  }

  lemma ResetShape(s: State, id: Id, now: nat, ms: nat)
    requires Shaped(s) && Counted(s) && id in s.events
    ensures Shaped(Rearm(s, id, now, ms)) && Counted(Rearm(s, id, now, ms))
  {
    if s.events[id].kind.Timeout? {
      var t := Rearm(s, id, now, ms);
      assert Placed(s, id);
      ActivesPut(s.events, id, t.events[id]);
      More(s.timers, id, t.timers[id]);
      forall x | x in t.events ensures Placed(t, x) { assert Placed(s, x); }
    }
  }

  lemma ResetAccounts(s: State, id: Id, now: nat, ms: nat, current: set<Id>, after: set<Id>)
    requires Sound(s, current) && id in s.events && s.events[id].kind.Timeout? && id !in s.past.deleted
    requires current <= {id} + after
    ensures Sound(Rearm(s, id, now, ms), after)
  {
    var t := Rearm(s, id, now, ms);
    assert Placed(s, id);
    ResetShape(s, id, now, ms);
    hide Shaped, Counted, Accounted, Rearm;
    forall x: Id | x < t.nextId ensures Accounted(t, x, after) { ResetAccount(s, id, now, ms, current, after, x); }
  }

  lemma ResetAccount(s: State, id: Id, now: nat, ms: nat, current: set<Id>, after: set<Id>, x: Id)
    requires Sound(s, current) && id in s.events && s.events[id].kind.Timeout? && id !in s.past.deleted
    requires current <= {id} + after && x < s.nextId
    ensures Accounted(Rearm(s, id, now, ms), x, after)
  {
    assert Placed(s, id) && Accounted(s, x, current);
    hide Shaped, Counted;
  }

  /** On a timer that nothing links, htimer_reset keeps everything. */
  lemma ResetKeeps(s: State, id: Id, now: nat, ms: nat, current: set<Id>)
    requires Sound(s, current) && Settled(s) && id in s.events && !s.events[id].pending
    ensures Sound(Rearm(s, id, now, ms), current)
    ensures Pending(Rearm(s, id, now, ms).events) == Pending(s.events) && Settled(Rearm(s, id, now, ms))
  {
    if s.events[id].kind.Timeout? {
      assert Placed(s, id) && Accounted(s, id, current);
      ResetAccounts(s, id, now, ms, current, current);
    }
  }

  // ---- callbacks ----

  /** What a callback may do to the loop; anything else it does is not the loop's business. */
  datatype Op =
    | AddTimeout(now: nat, ms: nat, repeat: nat, cb: bool)
    | AddPeriod(cron: Cron, next: nat, repeat: nat, cb: bool)
    | AddIdle(repeat: nat, cb: bool)
    | Del(id: Id)
    | SetPriority(id: Id, priority: Priority)
    | Reset(id: Id, now: nat, ms: nat)

  /** An operation on an event that no longer exists is a mistake of the program, and left out; so is a reset of a
      timer that a pending list still links, for which see ResetThenDelete. */
  function Apply(s: State, op: Op): (t: State)
    requires forall id :: id in s.events ==> id < s.nextId
    ensures t.pendings == s.pendings && forall id :: id in t.events ==> id < t.nextId
    ensures forall id :: id in s.events && s.events[id].pending ==> id in t.events && t.events[id].pending
  {
    match op
    case AddTimeout(now, ms, repeat, cb) => WithTimeout(s, now, ms, repeat, cb)
    case AddPeriod(cron, next, repeat, cb) => WithPeriod(s, cron, next, repeat, cb)
    case AddIdle(repeat, cb) => WithIdle(s, repeat, cb)
    case Del(id) => if id in s.events then Delete(s, id) else s
    case SetPriority(id, p) => if id in s.events then Put(s, id, s.events[id].(priority := p)) else s
    case Reset(id, now, ms) => if id in s.events && !s.events[id].pending then Rearm(s, id, now, ms) else s
  }

  lemma PriorityKeeps(s: State, id: Id, p: Priority, current: set<Id>)
    requires Sound(s, current) && id in s.events
    ensures Sound(Put(s, id, s.events[id].(priority := p)), current)
    ensures var t := Put(s, id, s.events[id].(priority := p)); Pending(t.events) == Pending(s.events) && (Settled(s) ==> Settled(t))
  {
    var t := Put(s, id, s.events[id].(priority := p));
    ActivesPut(s.events, id, s.events[id].(priority := p));
    forall x | x in s.events ensures Placed(t, x) { assert Placed(s, x); }
    SameAccounts(s, t, current);
  }

  lemma ApplyKeeps(s: State, op: Op, current: set<Id>)
    requires Sound(s, current) && Settled(s)
    ensures Sound(Apply(s, op), current) && Pending(Apply(s, op).events) == Pending(s.events) && Settled(Apply(s, op))
  {
    hide Shaped, Counted, Known, Accounted, Settled, Pending, Delete, Rearm;
    match op
    case Del(id) => if id in s.events { DeleteKeeps(s, id, current); DeleteSettles(s, id); }
    case SetPriority(id, p) => if id in s.events { PriorityKeeps(s, id, p, current); }
    case Reset(id, now, ms) => if id in s.events && !s.events[id].pending { ResetKeeps(s, id, now, ms, current); }
    case _ => AddKeeps(s, op, current);
  }

  function ApplyAll(s: State, ops: seq<Op>): (t: State)
    requires forall id :: id in s.events ==> id < s.nextId
    ensures t.pendings == s.pendings && forall id :: id in t.events ==> id < t.nextId
    ensures forall id :: id in s.events && s.events[id].pending ==> id in t.events && t.events[id].pending
    decreases |ops|
  {
    if ops == [] then s else ApplyAll(Apply(s, ops[0]), ops[1..])
  }

  lemma {:induction false} ApplyAllKeeps(s: State, ops: seq<Op>, current: set<Id>)
    requires Sound(s, current) && Settled(s)
    ensures forall id :: id in s.events ==> id < s.nextId
    ensures Sound(ApplyAll(s, ops), current) && Pending(ApplyAll(s, ops).events) == Pending(s.events)
    ensures Settled(ApplyAll(s, ops))
    decreases |ops|
  {
    assert forall id :: id in s.events ==> Placed(s, id);
    if ops != [] {
      ApplyKeeps(s, ops[0], current);
      ApplyAllKeeps(Apply(s, ops[0]), ops[1..], current);
    }
  }

  /** The start of a callback. */
  function Called(s: State, id: Id): State {
    s.(past := s.past.(log := s.past.log + [id]))
  }

  /** The end of a visit: the event is linked no more, and freed if it is marked. */
  function Unpend(s: State, id: Id): State
    requires id in s.events
  {
    var s1 := Put(s, id, s.events[id].(pending := false));
    if s1.events[id].destroy then EventDel(s1, id) else s1
  }

  /** What hloop_process_pendings does with one linked event; `script` is what the callback does. */
  function Visit(s: State, id: Id, script: seq<Op>): (t: State)
    requires (forall x :: x in s.events ==> x < s.nextId) && id in s.events && s.events[id].pending
    ensures t.pendings == s.pendings && forall x :: x in t.events ==> x < t.nextId
    ensures forall x :: x in s.events && s.events[x].pending && x != id ==> x in t.events && t.events[x].pending
  {
    Unpend(if s.events[id].active && s.events[id].cb then ApplyAll(Called(s, id), script) else s, id)
  }

  lemma CalledKeeps(s: State, id: Id)
    requires Sound(s, {}) && id in s.events && s.events[id].pending
    ensures Sound(Called(s, id), {id}) && (Settled(s) ==> Settled(Called(s, id)))
  {
    var t := Called(s, id);
    assert Placed(s, id);
    forall x | x in t.events ensures Placed(t, x) { assert Placed(s, x); }
    forall x: Id | x < t.nextId ensures Accounted(t, x, {id}) { assert Accounted(s, x, {}); }
  }

  lemma UnlinkedKeeps(s: State, id: Id, current: set<Id>)
    requires Sound(s, current) && id in s.events && current <= {id}
    ensures Sound(Put(s, id, s.events[id].(pending := false)), {})
  {
    var t := Put(s, id, s.events[id].(pending := false));
    ActivesPut(s.events, id, t.events[id]);
    forall x | x in t.events ensures Placed(t, x) { assert Placed(s, x); }
    forall x: Id | x < t.nextId ensures Accounted(t, x, {}) { assert Accounted(s, x, current); }
  }

  lemma UnpendKeeps(s: State, id: Id, current: set<Id>)
    requires Sound(s, current) && id in s.events && current <= {id}
    ensures Sound(Unpend(s, id), {})
  {
    UnlinkedKeeps(s, id, current);
    var t := Put(s, id, s.events[id].(pending := false));
    if t.events[id].destroy { EventDelKeeps(t, id, {}); }
  }

  lemma UnpendSettles(s: State, id: Id)
    requires id in s.events
    ensures Pending(Unpend(s, id).events) == Pending(s.events) - {id} && (Settled(s) ==> Settled(Unpend(s, id)))
  {
  }

  lemma VisitKeeps(s: State, id: Id, script: seq<Op>)
    requires Sound(s, {}) && Settled(s) && id in s.events && s.events[id].pending
    ensures forall x :: x in s.events ==> x < s.nextId
    ensures Sound(Visit(s, id, script), {}) && Pending(Visit(s, id, script).events) == Pending(s.events) - {id}
    ensures Settled(Visit(s, id, script))
  {
    assert forall x :: x in s.events ==> Placed(s, x);
    if s.events[id].active && s.events[id].cb {
      CalledKeeps(s, id);
      ApplyAllKeeps(Called(s, id), script, {id});
      UnpendKeeps(ApplyAll(Called(s, id), script), id, {id});
      UnpendSettles(ApplyAll(Called(s, id), script), id);
    } else {
      UnpendKeeps(s, id, {});
      UnpendSettles(s, id);
    }
  }

  function Script(scripts: seq<seq<Op>>): seq<Op> {
    if scripts == [] then [] else scripts[0]
  }

  function Rest(scripts: seq<seq<Op>>): seq<seq<Op>> {
    if scripts == [] then [] else scripts[1..]
  }

  ghost predicate Walkable(s: State, order: seq<Id>) {
    && (forall x :: x in s.events ==> x < s.nextId)
    && Distinct(order) && forall x :: x in order ==> x in s.events && s.events[x].pending
  }

  predicate Runnable(e: Event) { e.active && e.cb }

  function Remaining(s: State, id: Id, scripts: seq<seq<Op>>): seq<seq<Op>>
    requires id in s.events
  {
    if Runnable(s.events[id]) then Rest(scripts) else scripts
  }

  /** The lists walked in order; the n-th callback that runs does what the n-th script says. */
  ghost function Walk(s: State, order: seq<Id>, scripts: seq<seq<Op>>): State
    requires Walkable(s, order)
    decreases |order|
  {
    if order == [] then s
    else
      var t := Visit(s, order[0], Script(scripts));
      assert Walkable(t, order[1..]) by { Onward(s, order, Script(scripts)); }
      Walk(t, order[1..], Remaining(s, order[0], scripts))
  }

  lemma Onward(s: State, order: seq<Id>, script: seq<Op>)
    requires Walkable(s, order) && order != []
    ensures Walkable(Visit(s, order[0], script), order[1..])
  {
    var rest := order[1..];
    assert forall i :: 0 <= i < |rest| ==> rest[i] == order[i + 1];
  }

  /** After the walk nothing is pending, everything marked is gone, and the rest is as it should be. */
  lemma {:induction false} WalkKeeps(s: State, order: seq<Id>, scripts: seq<seq<Op>>)
    requires Sound(s, {}) && Settled(s) && Walkable(s, order)
    ensures Sound(Walk(s, order, scripts), {}) && Settled(Walk(s, order, scripts))
    ensures forall x :: x in Pending(Walk(s, order, scripts).events) <==> x in Pending(s.events) && x !in order
    decreases |order|
  {
    if order != [] {
      hide Visit, Sound, Settled, Walkable, Pending;
      var id, t := order[0], Visit(s, order[0], Script(scripts));
      VisitKeeps(s, id, Script(scripts));
      Onward(s, order, Script(scripts));
      WalkKeeps(t, order[1..], Remaining(s, id, scripts));
      FirstAndRest(order);
    }
  }

  lemma FirstAndRest(q: seq<Id>)
    requires q != []
    ensures forall x :: x in q <==> x == q[0] || x in q[1..]
  {
    assert q == [q[0]] + q[1..];
  }

  ghost function Deleted(script: seq<Op>): set<Id> {
    set op | op in script && op.Del? :: op.id
  }

  /** The callbacks that ought to run: in list order, those with a callback that are active
      and that no callback before them deleted. */
  ghost function Due(events: map<Id, Event>, order: seq<Id>, gone: set<Id>, scripts: seq<seq<Op>>): seq<Id>
    requires forall x :: x in order ==> x in events
  {
    if order == [] then []
    else if Runnable(events[order[0]]) && order[0] !in gone then
      [order[0]] + Due(events, order[1..], gone + Deleted(Script(scripts)), Rest(scripts))
    else Due(events, order[1..], gone, scripts)
  }

  lemma ApplyFlags(s: State, op: Op, x: Id)
    requires (forall id :: id in s.events ==> id < s.nextId) && x in s.events && s.events[x].pending
    ensures var t := Apply(s, op);
            && t.past.log == s.past.log && t.events[x].cb == s.events[x].cb
            && t.events[x].active == (s.events[x].active && op != Del(x))
  {
    match op
    case Del(id) => if id in s.events { DeleteFlags(s, id, x); }
    case _ =>
  }

  lemma DeleteFlags(s: State, id: Id, x: Id)
    requires id in s.events && x in s.events && s.events[x].pending
    ensures Delete(s, id).past.log == s.past.log && Delete(s, id).events[x].cb == s.events[x].cb
    ensures Delete(s, id).events[x].active == (s.events[x].active && id != x)
  {
    var u := Unlink(s, id);
    assert u.events == s.events[id := s.events[id].(destroy := true)];
  }

  lemma DeletedMore(ops: seq<Op>, x: Id)
    requires ops != []
    ensures x in Deleted(ops) <==> ops[0] == Del(x) || x in Deleted(ops[1..])
  {
    assert ops == [ops[0]] + ops[1..];
    if x in Deleted(ops) {
      var op :| op in ops && op.Del? && op.id == x;
      assert op == Del(x);
    }
    if ops[0] == Del(x) || x in Deleted(ops[1..]) { assert Del(x) in ops; }
  }

  lemma {:induction false} ApplyAllFlags(s: State, ops: seq<Op>, x: Id)
    requires (forall id :: id in s.events ==> id < s.nextId) && x in s.events && s.events[x].pending
    ensures var t := ApplyAll(s, ops);
            && t.past.log == s.past.log && t.events[x].cb == s.events[x].cb
            && t.events[x].active == (s.events[x].active && x !in Deleted(ops))
    decreases |ops|
  {
    if ops != [] {
      ApplyFlags(s, ops[0], x);
      DeletedMore(ops, x);
      ApplyAllFlags(Apply(s, ops[0]), ops[1..], x);
    }
  }

  lemma VisitFlags(s: State, id: Id, script: seq<Op>, x: Id)
    requires Walkable(s, [id]) && x in s.events && s.events[x].pending
    ensures var t := Visit(s, id, script);
            && t.past.log == s.past.log + (if Runnable(s.events[id]) then [id] else [])
            && (x != id ==> t.events[x].cb == s.events[x].cb
                            && t.events[x].active == (s.events[x].active && !(Runnable(s.events[id]) && x in Deleted(script))))
  {
    if Runnable(s.events[id]) {
      ApplyAllFlags(Called(s, id), script, x);
      UnpendFlags(ApplyAll(Called(s, id), script), id, x);
    } else {
      UnpendFlags(s, id, x);
    }
  }

  lemma UnpendFlags(s: State, id: Id, x: Id)
    requires id in s.events && x in s.events
    ensures Unpend(s, id).past == s.past
    ensures x != id ==> x in Unpend(s, id).events && Unpend(s, id).events[x] == s.events[x]
  {
  }

  /** The events yet to be visited have the callbacks they had, and are active unless in `gone`. */
  ghost predicate Foreseen(s: State, order: seq<Id>, events: map<Id, Event>, gone: set<Id>) {
    forall x :: x in order ==>
      && x in events && x in s.events && s.events[x].cb == events[x].cb
      && s.events[x].active == (events[x].active && x !in gone)
  }

  ghost function Gone(s: State, id: Id, gone: set<Id>, script: seq<Op>): set<Id>
    requires id in s.events
  {
    if Runnable(s.events[id]) then gone + Deleted(script) else gone
  }

  lemma StillForeseen(s: State, order: seq<Id>, events: map<Id, Event>, gone: set<Id>, script: seq<Op>)
    requires Walkable(s, order) && order != [] && Foreseen(s, order, events, gone)
    ensures Foreseen(Visit(s, order[0], script), order[1..], events, Gone(s, order[0], gone, script))
  {
    var id, rest := order[0], order[1..];
    assert forall i :: 0 <= i < |rest| ==> rest[i] == order[i + 1];
    assert Walkable(s, [id]);
    forall x | x in rest
      ensures x in Visit(s, id, script).events && Visit(s, id, script).events[x].cb == events[x].cb
      ensures Visit(s, id, script).events[x].active == (events[x].active && x !in Gone(s, id, gone, script))
    {
      VisitFlags(s, id, script, x);
    }
  }

  lemma WalkStep(s: State, order: seq<Id>, scripts: seq<seq<Op>>)
    requires Walkable(s, order) && order != []
    ensures Walkable(Visit(s, order[0], Script(scripts)), order[1..])
    ensures Walk(s, order, scripts)
         == Walk(Visit(s, order[0], Script(scripts)), order[1..], Remaining(s, order[0], scripts))
  {
    Onward(s, order, Script(scripts));
  }

  lemma DueStep(s: State, order: seq<Id>, events: map<Id, Event>, gone: set<Id>, scripts: seq<seq<Op>>)
    requires Foreseen(s, order, events, gone) && order != []
    ensures forall x :: x in order[1..] ==> x in events
    ensures Due(events, order, gone, scripts)
         == (if Runnable(s.events[order[0]]) then [order[0]] else [])
            + Due(events, order[1..], Gone(s, order[0], gone, Script(scripts)), Remaining(s, order[0], scripts))
  {
    assert order[0] in order;
    assert forall x :: x in order[1..] ==> x in order;
    assert Runnable(s.events[order[0]]) == (Runnable(events[order[0]]) && order[0] !in gone);
  }

  lemma VisitLogs(s: State, id: Id, script: seq<Op>)
    requires Walkable(s, [id])
    ensures Visit(s, id, script).past.log == s.past.log + (if Runnable(s.events[id]) then [id] else [])
  {
    assert id in [id];
    VisitFlags(s, id, script, id);
  }

  /** The callbacks that do run are the ones that ought to. */
  lemma {:induction false} WalkRuns(s: State, order: seq<Id>, events: map<Id, Event>, gone: set<Id>, scripts: seq<seq<Op>>)
    requires Walkable(s, order) && Foreseen(s, order, events, gone)
    ensures Walk(s, order, scripts).past.log == s.past.log + Due(events, order, gone, scripts)
    decreases |order|
  {
    if order != [] {
      var id, script := order[0], Script(scripts);
      WalkStep(s, order, scripts);
      DueStep(s, order, events, gone, scripts);
      StillForeseen(s, order, events, gone, script);
      assert Walkable(s, [id]);
      VisitLogs(s, id, script);
      var t, gone2, scripts2 := Visit(s, id, script), Gone(s, id, gone, script), Remaining(s, id, scripts);
      WalkRuns(t, order[1..], events, gone2, scripts2);
      Regroup(s.past.log, if Runnable(s.events[id]) then [id] else [], Due(events, order[1..], gone2, scripts2));
    }
  }

  lemma Regroup(a: seq<Id>, b: seq<Id>, c: seq<Id>)
    ensures (a + b) + c == a + (b + c)
  {
  }

  // ---- coming due ----

  /** EVENT_PENDING, for an event that just came due. */
  lemma PendKeeps(s: State, id: Id)
    requires Sound(s, {}) && id in s.events
    requires s.events[id].pending || Runs(s, id) < s.past.due[id]
    ensures Sound(Pend(s, id), {}) && Pending(Pend(s, id).events) == Pending(s.events) + {id}
  {
    var t := Pend(s, id);
    PendPlaces(s, id);
    hide Placed;
    forall x: Id | x < t.nextId ensures Accounted(t, x, {}) { assert Accounted(s, x, {}); }
  }

  lemma PendPlaces(s: State, id: Id)
    requires Shaped(s) && Counted(s) && id in s.events
    ensures Shaped(Pend(s, id)) && Counted(Pend(s, id))
  {
    var t := Pend(s, id);
    ActivesPut(s.events, id, s.events[id].(pending := true));
    forall x | x in t.events ensures Placed(t, x) { assert Placed(s, x); }
  }

  lemma {:induction false} OrderPut(lists: seq<seq<Id>>, l: nat, id: Id)
    requires l < |lists|
    ensures multiset(Order(lists[l := [id] + lists[l]])) == multiset(Order(lists)) + multiset{id}
    ensures |Order(lists[l := [id] + lists[l]])| == |Order(lists)| + 1
  {
    var n, u := |lists| - 1, lists[l := [id] + lists[l]];
    if l == n {
      assert u[..n] == lists[..n];
    } else {
      OrderPut(lists[..n], l, id);
      assert u[..n] == lists[..n][l := [id] + lists[..n][l]];
    }
  }

  lemma PendLinks(s: State, id: Id)
    requires Linked(s) && id in s.events && |s.pendings| == LEVELS
    ensures Linked(Pend(s, id))
  {
    if !s.events[id].pending {
      OrderPut(s.pendings, Level(s.events[id].priority), id);
      assert Pending(Pend(s, id).events) == Pending(s.events) + {id};
    }
  }

  lemma LinkedDistinct(s: State)
    requires Linked(s)
    ensures Distinct(Order(s.pendings)) && forall x :: x in Order(s.pendings) <==> x in Pending(s.events)
  {
    var o := Order(s.pendings);
    forall x ensures x in o <==> x in Pending(s.events) { assert x in o <==> x in multiset(o); }
    forall i, j | 0 <= i < j < |o| ensures o[i] != o[j] {
      assert multiset(o)[o[i]] <= 1;
      if o[i] == o[j] { OccursTwice(o, i, j); }
    }
  }

  lemma OccursTwice(q: seq<Id>, i: nat, j: nat)
    requires i < j < |q| && q[i] == q[j]
    ensures multiset(q)[q[i]] >= 2
  {
    assert q == q[..j] + [q[j]] + q[j + 1..];
    assert q[..j][i] == q[i];
  }

  lemma TickAccounts(s: State, id: Id, u: State, x: Id)
    requires id in s.events && !s.events[id].destroy && Accounted(s, x, {})
    requires u.past == s.past.(due := s.past.due + multiset{id})
    requires u.events == s.events[id := s.events[id].(repeat := Dec(s.events[id].repeat), destroy := Dec(s.events[id].repeat) == 0)]
    ensures Accounted(u, x, {})
  {
  }

  lemma TickShape(s: State, id: Id)
    requires Shaped(s) && Counted(s) && id in s.events
    ensures Shaped(Ticked(s, id)) && Counted(Ticked(s, id))
  {
    var u := Ticked(s, id);
    ActivesPut(s.events, id, u.events[id]);
    forall x | x in u.events ensures Placed(u, x) { assert Placed(s, x); }
  }

  /** A live timer gets another deadline. */
  lemma PutBack(s: State, id: Id, next: nat)
    requires Shaped(s) && Counted(s) && id in s.events && !s.events[id].destroy && s.events[id].repeat != 0
    ensures Shaped(Kept(s, id, next)) && Counted(Kept(s, id, next))
  {
    var t := Kept(s, id, next);
    assert Placed(s, id);
    More(s.timers, id, next);
    More(s.realtimers, id, next);
    forall x | x in t.events ensures Placed(t, x) { assert Placed(s, x); }
  }

  lemma KeptShape(s: State, id: Id, next: nat)
    requires Shaped(s) && Counted(s) && id in s.events && !s.events[id].destroy
    ensures Shaped(Kept(s, id, next)) && Counted(Kept(s, id, next))
  {
    if s.events[id].repeat == 0 {
      UnlinkShape(s, id);
      UnlinkCount(s, id);
    } else {
      PutBack(s, id, next);
    }
  }

  lemma KnownMore(h: History, n: Id, id: Id)
    requires Known(h, n) && id < n
    ensures Known(h.(due := h.due + multiset{id}), n)
  {
  }

  lemma TickedFlags(s: State, id: Id)
    requires id in s.events
    ensures id in Ticked(s, id).events && Ticked(s, id).events[id].destroy == s.events[id].destroy
  {
  }

  lemma TickedKeeps(s: State, id: Id, next: nat)
    requires Sound(s, {}) && id in s.events && !s.events[id].destroy
    ensures Sound(Kept(Ticked(s, id), id, next), {})
  {
    var u := Kept(Ticked(s, id), id, next);
    hide Shaped, Counted, Placed, Unlink, Ticked, Kept, Accounted, SameTimer, Known;
    SoundIds(s, {});
    TickShape(s, id);
    TickedFlags(s, id);
    KeptShape(Ticked(s, id), id, next);
    KnownMore(s.past, s.nextId, id);
    KeptIs(s, id, next);
    TickedAccounts(s, id, u);
  }

  lemma KeptIs(s: State, id: Id, next: nat)
    requires id in s.events && !s.events[id].destroy
    ensures var u, repeat := Kept(Ticked(s, id), id, next), Dec(s.events[id].repeat);
            && u.past == s.past.(due := s.past.due + multiset{id}) && u.nextId == s.nextId
            && u.events == s.events[id := s.events[id].(repeat := repeat, destroy := repeat == 0)]
  {
  }

  lemma TickedAccounts(s: State, id: Id, u: State)
    requires id in s.events && !s.events[id].destroy && forall x: Id :: x < s.nextId ==> Accounted(s, x, {})
    requires u.past == s.past.(due := s.past.due + multiset{id}) && u.nextId == s.nextId
    requires u.events == s.events[id := s.events[id].(repeat := Dec(s.events[id].repeat), destroy := Dec(s.events[id].repeat) == 0)]
    ensures forall x: Id :: x < u.nextId ==> Accounted(u, x, {})
  {
    hide Accounted, Dec;
    forall x: Id | x < u.nextId ensures Accounted(u, x, {}) {
      TickAccounts(s, id, u, x);
    }
  }

  lemma FireKeeps(s: State, id: Id, next: nat)
    requires Sound(s, {}) && id in s.events && !s.events[id].destroy
    ensures Sound(Fire(s, id, next), {})
  {
    var u := Kept(Ticked(s, id), id, next);
    assert Placed(s, id) && Accounted(s, id, {});
    TickedKeeps(s, id, next);
    PendKeeps(u, id);
  }

  lemma FireLinks(s: State, id: Id, next: nat)
    requires Linked(s) && |s.pendings| == LEVELS && id in s.events && !s.events[id].destroy
    ensures Linked(Fire(s, id, next)) && (Settled(s) ==> Settled(Fire(s, id, next)))
  {
    var u := Kept(Ticked(s, id), id, next);
    assert Pending(u.events) == Pending(s.events);
    PendLinks(u, id);
  }

  /** Events coming due one after the other; `next` has the deadlines they are put back with. */
  function FireAll(s: State, order: seq<Id>, next: map<Id, nat>): (t: State)
    requires |s.pendings| == LEVELS && forall x :: x in order ==> x in s.events && x in next
    ensures |t.pendings| == LEVELS && t.events.Keys == s.events.Keys
    decreases |order|
  {
    if order == [] then s
    else
      var n := |order| - 1;
      Fire(FireAll(s, order[..n], next), order[n], next[order[n]])
  }

  lemma FireOne(s: State, id: Id, next: nat, x: Id)
    requires id in s.events && |s.pendings| == LEVELS
    ensures Fire(s, id, next).past.due == s.past.due + multiset{id}
    ensures x != id ==> SameTimer(s, Fire(s, id, next), x)
    ensures s.events[id].kind.Timeout? && id in Fire(s, id, next).timers && !s.events[id].destroy ==> Fire(s, id, next).timers[id] == next
    ensures s.events[id].kind.Period? && id in Fire(s, id, next).realtimers && !s.events[id].destroy ==> Fire(s, id, next).realtimers[id] == next
  {
  }

  /** Each event of `order` came due once, and no other: what became of the events and the heaps. */
  ghost predicate FiredAt(s: State, t: State, order: seq<Id>, next: map<Id, nat>, x: Id)
    requires x in s.events && x in t.events && (x in order ==> x in next)
  {
    && t.events[x] == (if x in order then Fired(s.events[x]) else s.events[x])
    && t.past.due[x] == s.past.due[x] + (if x in order then 1 else 0)
    && (x !in order ==> SameTimer(s, t, x))
    && (x in order && s.events[x].kind.Timeout? && x in t.timers ==> t.timers[x] == next[x])
    && (x in order && s.events[x].kind.Period? && x in t.realtimers ==> t.realtimers[x] == next[x])
  }

  lemma {:induction false} FiredEach(s: State, order: seq<Id>, next: map<Id, nat>, x: Id)
    requires |s.pendings| == LEVELS && Distinct(order)
    requires forall y :: y in order ==> y in s.events && y in next && !s.events[y].destroy
    requires x in s.events
    ensures FiredAt(s, FireAll(s, order, next), order, next, x)
    decreases |order|
  {
    if order != [] {
      hide Distinct, FireAll, Fire, PushedOn, SameTimer, Fired, Level;
      var n := |order| - 1;
      FrontDistinct(order, n);
      FireTop(s, order, next, 0);
      var u, id := FireAll(s, order[..n], next), order[n];
      FiredEach(s, order[..n], next, x);
      FiredEach(s, order[..n], next, id);
      LastIn(order, n, x);
      FireOne(u, id, next[id], x);
      FireEvents(u, id, next[id], x);
      SameTimerTrans(s, u, Fire(u, id, next[id]), x);
    } else {
      FiredNone(s, next, x);
    }
  }

  lemma LastIn(q: seq<Id>, n: nat, x: Id)
    requires n + 1 == |q|
    ensures x in q <==> x in q[..n] || x == q[n]
  {
    assert q == q[..n] + [q[n]];
  }

  lemma FiredNone(s: State, next: map<Id, nat>, x: Id)
    requires |s.pendings| == LEVELS && x in s.events
    ensures FiredAt(s, FireAll(s, [], next), [], next, x)
  {
  }

  lemma FireEvents(s: State, id: Id, next: nat, x: Id)
    requires id in s.events && |s.pendings| == LEVELS && x in s.events
    ensures x in Fire(s, id, next).events
    ensures Fire(s, id, next).events[x] == if x == id then Fired(s.events[id]) else s.events[x]
  {
  }

  lemma SameTimerTrans(s: State, t: State, u: State, x: Id)
    ensures SameTimer(s, t, x) && SameTimer(t, u, x) ==> SameTimer(s, u, x)
  {
  }

  // ---- what the steps mean ----

  /** Everything of a higher priority is ahead of everything of a lower one. */
  lemma {:induction false} HigherFirst(lists: seq<seq<Id>>, l: nat)
    requires l <= |lists|
    ensures Order(lists) == Order(lists[l..]) + Order(lists[..l])
    decreases |lists|
  {
    if l < |lists| {
      var n := |lists| - 1;
      HigherFirst(lists[..n], l);
      assert lists[..n][l..] == lists[l..][..n - l];
      assert lists[..n][..l] == lists[..l];
      Regroup(lists[n], Order(lists[..n][l..]), Order(lists[..l]));
    } else {
      assert lists[..l] == lists && lists[l..] == [];
    }
  }

  /** The events of `order` that EVENT_PENDING puts on list `l`, the last one in front. */
  function PushedOn(events: map<Id, Event>, order: seq<Id>, l: nat): seq<Id>
    requires forall x :: x in order ==> x in events
    decreases |order|
  {
    if order == [] then []
    else
      var n := |order| - 1;
      (if !events[order[n]].pending && Level(events[order[n]].priority) == l then [order[n]] else [])
      + PushedOn(events, order[..n], l)
  }

  lemma FirePushes(s: State, id: Id, next: nat, l: nat)
    requires id in s.events && |s.pendings| == LEVELS && l < LEVELS
    ensures Fire(s, id, next).pendings[l]
         == (if !s.events[id].pending && Level(s.events[id].priority) == l then [id] else []) + s.pendings[l]
  {
  }

  /** Each list is pushed in reverse: of the events of one priority, the one that came due last runs first. */
  lemma {:induction false} LastDueFirst(s: State, order: seq<Id>, next: map<Id, nat>, l: nat)
    requires |s.pendings| == LEVELS && Distinct(order) && l < LEVELS
    requires forall y :: y in order ==> y in s.events && y in next && !s.events[y].destroy
    ensures FireAll(s, order, next).pendings[l] == PushedOn(s.events, order, l) + s.pendings[l]
    decreases |order|
  {
    if order != [] {
      hide FireAll, PushedOn, Fire, Distinct, Level;
      var n := |order| - 1;
      FrontDistinct(order, n);
      var u, id := FireAll(s, order[..n], next), order[n];
      LastDueFirst(s, order[..n], next, l);
      Untouched(s, order[..n], next, id);
      FireTop(s, order, next, l);
      FirePushes(u, id, next[id], l);
      Regroup(if !s.events[id].pending && Level(s.events[id].priority) == l then [id] else [],
              PushedOn(s.events, order[..n], l), s.pendings[l]);
    } else {
      PushedNone(s, next, l);
    }
  }

  lemma FrontDistinct(q: seq<Id>, n: nat)
    requires Distinct(q) && n + 1 == |q|
    ensures Distinct(q[..n]) && q[n] !in q[..n] && q[n] in q && forall x :: x in q[..n] ==> x in q
  {
  }

  lemma FireTop(s: State, order: seq<Id>, next: map<Id, nat>, l: nat)
    requires |s.pendings| == LEVELS && order != [] && forall x :: x in order ==> x in s.events && x in next
    ensures var n := |order| - 1;
            && (forall x :: x in order[..n] ==> x in order) && order[n] in order
            && FireAll(s, order, next) == Fire(FireAll(s, order[..n], next), order[n], next[order[n]])
            && PushedOn(s.events, order, l) ==
                 (if !s.events[order[n]].pending && Level(s.events[order[n]].priority) == l then [order[n]] else [])
                 + PushedOn(s.events, order[..n], l)
  {
  }

  lemma PushedNone(s: State, next: map<Id, nat>, l: nat)
    requires |s.pendings| == LEVELS && l < LEVELS
    ensures FireAll(s, [], next) == s && PushedOn(s.events, [], l) == []
  {
  }

  /** In one round an event is called at most once, in list order, and only if it is linked. */
  lemma {:induction false} DueOnce(events: map<Id, Event>, order: seq<Id>, gone: set<Id>, scripts: seq<seq<Op>>)
    requires Distinct(order) && forall x :: x in order ==> x in events
    ensures Distinct(Due(events, order, gone, scripts))
    ensures forall x :: x in Due(events, order, gone, scripts) ==> x in order && Runnable(events[x]) && x !in gone
  {
    if order != [] {
      var rest := order[1..];
      assert order == [order[0]] + rest;
      assert forall i :: 0 <= i < |rest| ==> rest[i] == order[i + 1];
      if Runnable(events[order[0]]) && order[0] !in gone {
        DueOnce(events, rest, gone + Deleted(Script(scripts)), Rest(scripts));
        DistinctCons([order[0]], Due(events, rest, gone + Deleted(Script(scripts)), Rest(scripts)));
      } else {
        DueOnce(events, rest, gone, scripts);
      }
    }
  }

  /** Some callback among the first `k` deletes `x`. */
  predicate DeletedBy(scripts: seq<seq<Op>>, k: nat, x: Id) {
    exists j :: 0 <= j < k && j < |scripts| && Del(x) in scripts[j]
  }

  /** An event of the lists is called unless it cannot be, or a callback that ran before its turn deleted it. */
  lemma {:induction false} DueUnlessDeleted(events: map<Id, Event>, order: seq<Id>, gone: set<Id>, scripts: seq<seq<Op>>, i: nat)
    requires Distinct(order) && i < |order| && forall x :: x in order ==> x in events
    ensures forall x :: x in order[..i] ==> x in events
    ensures order[i] in Due(events, order, gone, scripts) <==>
              Runnable(events[order[i]]) && order[i] !in gone
              && !DeletedBy(scripts, |Due(events, order[..i], gone, scripts)|, order[i])
    decreases |order|
  {
    var x, rest := order[i], order[1..];
    FirstAndRest(order);
    RestDistinct(order);
    forall y | y in order[..i] ensures y in events { assert y in order; }
    if i == 0 {
      DueFirst(events, order, gone, scripts);
    } else {
      TailPlace(order, i);
      DueRest(events, order, gone, scripts);
      DueRest(events, order[..i], gone, scripts);
      hide Due, DeletedBy, Distinct;
      if Runnable(events[order[0]]) && order[0] !in gone {
        DueUnlessDeleted(events, rest, gone + Deleted(Script(scripts)), Rest(scripts), i - 1);
        DeletedSplit(scripts, |Due(events, rest[..i - 1], gone + Deleted(Script(scripts)), Rest(scripts))|, x);
      } else {
        DueUnlessDeleted(events, rest, gone, scripts, i - 1);
      }
    }
  }

  lemma RestDistinct(q: seq<Id>)
    requires Distinct(q) && q != []
    ensures Distinct(q[1..]) && q[0] !in q[1..] && forall i :: 0 < i < |q| ==> q[i] != q[0]
  {
  }

  lemma TailPlace(q: seq<Id>, i: nat)
    requires 0 < i < |q|
    ensures q[..i][1..] == q[1..][..i - 1] && q[..i][0] == q[0] && q[1..][i - 1] == q[i] && q[..i] != []
  {
  }

  lemma DueRest(events: map<Id, Event>, order: seq<Id>, gone: set<Id>, scripts: seq<seq<Op>>)
    requires order != [] && forall x :: x in order ==> x in events
    ensures (forall x :: x in order[1..] ==> x in events)
    ensures Due(events, order, gone, scripts) ==
              if Runnable(events[order[0]]) && order[0] !in gone then
                [order[0]] + Due(events, order[1..], gone + Deleted(Script(scripts)), Rest(scripts))
              else Due(events, order[1..], gone, scripts)
  {
  }

  /** The first event of the lists is called unless it cannot be. */
  lemma DueFirst(events: map<Id, Event>, order: seq<Id>, gone: set<Id>, scripts: seq<seq<Op>>)
    requires Distinct(order) && order != [] && forall x :: x in order ==> x in events
    ensures order[0] in Due(events, order, gone, scripts) <==> Runnable(events[order[0]]) && order[0] !in gone
    ensures order[..0] == [] && Due(events, order[..0], gone, scripts) == [] && !DeletedBy(scripts, 0, order[0])
  {
    RestDistinct(order);
    DueRest(events, order, gone, scripts);
    DueOnce(events, order[1..], gone, scripts);
  }

  lemma DeletedSplit(scripts: seq<seq<Op>>, k: nat, x: Id)
    ensures DeletedBy(scripts, k + 1, x) <==> x in Deleted(Script(scripts)) || DeletedBy(Rest(scripts), k, x)
  {
    var s, r := Script(scripts), Rest(scripts);
    if DeletedBy(scripts, k + 1, x) {
      var j :| 0 <= j < k + 1 && j < |scripts| && Del(x) in scripts[j];
      if j == 0 { assert Del(x) in s; } else { assert Del(x) in r[j - 1]; }
    }
    if x in Deleted(s) {
      var op :| op in s && op.Del? && op.id == x;
      assert Del(x) in scripts[0];
    }
    if DeletedBy(r, k, x) {
      var j :| 0 <= j < k && j < |r| && Del(x) in r[j];
      assert Del(x) in scripts[j + 1];
    }
  }

  /** A deleted event is not called again, and a finite repeat bounds the calls over the whole run. */
  lemma DeletedNeverRuns(s: State, order: seq<Id>, scripts: seq<seq<Op>>, id: Id)
    requires Sound(s, {}) && Walkable(s, order) && id in s.past.deleted
    ensures Runs(Walk(s, order, scripts), id) == Runs(s, id)
  {
    assert Foreseen(s, order, s.events, {});
    WalkRuns(s, order, s.events, {}, scripts);
    DueOnce(s.events, order, {}, scripts);
    assert Accounted(s, id, {});
    var due := Due(s.events, order, {}, scripts);
    assert id !in due;
    assert id !in multiset(due);
  }

  lemma RunsAtMost(s: State, id: Id)
    requires Sound(s, {}) && id < s.nextId
    ensures id in s.past.quota && Runs(s, id) <= s.past.due[id]
    ensures 0 < s.past.quota[id] < INFINITE ==> Runs(s, id) <= s.past.quota[id]
  {
    assert Accounted(s, id, {});
  }

  // ---- deadlines ----

  /** Whole steps are added until the deadline lies after `t`. */
  function Later(d: nat, step: nat, t: nat): nat
    requires step > 0
    decreases t - d
  {
    if d > t then d else Later(d + step, step, t)
  }

  /** The least deadline after `t` that is a whole number of periods later. */
  lemma {:induction false} LaterIsLeast(d: nat, step: nat, t: nat) returns (k: nat)
    requires step > 0 && d <= t
    ensures k > 0 && Later(d, step, t) == d + k * step
    ensures d + (k - 1) * step <= t < d + k * step
    decreases t - d
  {
    if d + step <= t {
      var j := LaterIsLeast(d + step, step, t);
      k := j + 1;
      assert k * step == j * step + step;
    } else {
      k := 1;
    }
  }

  /** The deadlines that due timers are put back with; `cron` stands for cron_next_timeout. */
  function NextOf(s: State, id: Id, t: nat, cron: Id -> nat): nat
    requires id in s.events
  {
    var k := s.events[id].kind;
    if k.Timeout? && k.ms > 0 && id in s.timers then Later(s.timers[id], k.ms * 1000, t) else cron(id)
  }

  ghost function Nexts(s: State, t: nat, cron: Id -> nat): map<Id, nat> {
    map id | id in s.events :: NextOf(s, id, t, cron)
  }

  function HeapOf(s: State, period: bool): map<Id, nat> {
    if period then s.realtimers else s.timers
  }

  // ---- clearing the lists as they are walked ----

  lemma ApplyLists(s: State, op: Op, p: seq<seq<Id>>)
    requires forall id :: id in s.events ==> id < s.nextId
    ensures Apply(s.(pendings := p), op) == Apply(s, op).(pendings := p)
  {
    match op
    case Del(id) => if id in s.events { DeleteLists(s, id, p); }
    case Reset(id, now, ms) => if id in s.events { RearmLists(s, id, now, ms, p); }
    case _ =>
  }

  lemma RearmLists(s: State, id: Id, now: nat, ms: nat, p: seq<seq<Id>>)
    requires id in s.events
    ensures Rearm(s.(pendings := p), id, now, ms) == Rearm(s, id, now, ms).(pendings := p)
  {
  }

  lemma DeleteLists(s: State, id: Id, p: seq<seq<Id>>)
    requires id in s.events
    ensures Delete(s.(pendings := p), id) == Delete(s, id).(pendings := p)
  {
    var u, v := Unlink(s, id), Unlink(s.(pendings := p), id);
    assert v == u.(pendings := p);
  }

  lemma {:induction false} ApplyAllLists(s: State, ops: seq<Op>, p: seq<seq<Id>>)
    requires forall id :: id in s.events ==> id < s.nextId
    ensures ApplyAll(s.(pendings := p), ops) == ApplyAll(s, ops).(pendings := p)
    decreases |ops|
  {
    if ops != [] {
      ApplyLists(s, ops[0], p);
      ApplyAllLists(Apply(s, ops[0]), ops[1..], p);
    }
  }

  lemma VisitLists(s: State, id: Id, script: seq<Op>, p: seq<seq<Id>>)
    requires (forall x :: x in s.events ==> x < s.nextId) && id in s.events && s.events[id].pending
    ensures Visit(s.(pendings := p), id, script) == Visit(s, id, script).(pendings := p)
  {
    ApplyAllLists(Called(s, id), script, p);
  }

  /** The walk neither reads nor writes the lists themselves. */
  lemma {:induction false} WalkLists(s: State, order: seq<Id>, scripts: seq<seq<Op>>, p: seq<seq<Id>>)
    requires Walkable(s, order)
    ensures Walkable(s.(pendings := p), order)
    ensures Walk(s.(pendings := p), order, scripts) == Walk(s, order, scripts).(pendings := p)
    decreases |order|
  {
    if order != [] {
      WalkStep(s, order, scripts);
      WalkStep(s.(pendings := p), order, scripts);
      VisitLists(s, order[0], Script(scripts), p);
      WalkLists(Visit(s, order[0], Script(scripts)), order[1..], Remaining(s, order[0], scripts), p);
    }
  }

  function Emptied(s: State): State {
    s.(pendings := seq(LEVELS, _ => []), npendings := 0)
  }

  lemma {:induction false} NothingListed(lists: seq<seq<Id>>)
    requires forall i :: 0 <= i < |lists| ==> lists[i] == []
    ensures Order(lists) == []
  {
    if lists != [] { NothingListed(lists[..|lists| - 1]); }
  }

  /** hloop_process_pendings as a whole. */
  lemma RoundKeeps(s: State, scripts: seq<seq<Op>>)
    requires Valid(s)
    ensures Walkable(s, Order(s.pendings)) && Valid(Emptied(Walk(s, Order(s.pendings), scripts)))
    ensures Pending(Walk(s, Order(s.pendings), scripts).events) == {}
    ensures Walk(s, Order(s.pendings), scripts).past.log == s.past.log + Due(s.events, Order(s.pendings), {}, scripts)
  {
    assert forall id :: id in s.events ==> Placed(s, id);
    LinkedDistinct(s);
    var order := Order(s.pendings);
    WalkKeeps(s, order, scripts);
    WalkRuns(s, order, s.events, {}, scripts);
    var t := Walk(s, order, scripts);
    assert Pending(t.events) == {};
    EmptiedKeeps(t);
  }

  lemma EmptiedKeeps(t: State)
    requires Sound(t, {}) && Settled(t) && Pending(t.events) == {}
    ensures Valid(Emptied(t))
  {
    var u := Emptied(t);
    NothingListed(u.pendings);
    forall x | x in u.events ensures Placed(u, x) { assert Placed(t, x); }
    forall x: Id | x < u.nextId ensures Accounted(u, x, {}) { assert Accounted(t, x, {}); }
  }

  lemma SoundIds(s: State, current: set<Id>)
    requires Sound(s, current)
    ensures forall id :: id in s.events ==> id < s.nextId
  {
    assert forall id :: id in s.events ==> Placed(s, id);
  }

  /** With nothing pending there is nothing to walk. */
  lemma NoRound(s: State, scripts: seq<seq<Op>>)
    requires Valid(s) && s.npendings == 0
    ensures Order(s.pendings) == [] && Due(s.events, Order(s.pendings), {}, scripts) == []
  {
  }

  lemma SoundLists(s: State, p: seq<seq<Id>>)
    requires Sound(s, {}) && |p| == LEVELS
    ensures Sound(s.(pendings := p), {}) && (Settled(s) ==> Settled(s.(pendings := p)))
  {
    var t := s.(pendings := p);
    forall x | x in t.events ensures Placed(t, x) { assert Placed(s, x); }
    forall x: Id | x < t.nextId ensures Accounted(t, x, {}) { assert Accounted(s, x, {}); }
  }

  lemma WalkNothing(s: State, scripts: seq<seq<Op>>)
    requires Walkable(s, Order([]))
    ensures Walk(s, Order([]), scripts) == s
  {
  }

  lemma DueTimer(s: State, period: bool, id: Id, t: nat, cron: Id -> nat)
    requires Valid(s) && id in HeapOf(s, period)
    ensures id in s.events && |s.pendings| == LEVELS && Shaped(Ticked(s, id)) && !s.events[id].destroy
    ensures var k := s.events[id].kind;
            k.Timeout? != period && !k.Idle? && (k.Timeout? ==> k.ms > 0)
            && NextOf(s, id, t, cron) == if k.Timeout? then Later(HeapOf(s, period)[id], k.ms * 1000, t) else cron(id)
    ensures Ticked(s, id).pendings == s.pendings && Ticked(s, id).timers == s.timers && Ticked(s, id).realtimers == s.realtimers
    ensures Ticked(s, id).events == s.events[id := s.events[id].(repeat := Dec(s.events[id].repeat))]
  {
    assert Placed(s, id);
    TickShape(s, id);
  }

  // ---- one round of timers ----

  ghost function DueSet(s: State, period: bool, t: nat): set<Id> {
    set id | id in HeapOf(s, period) && HeapOf(s, period)[id] <= t
  }

  /** Earlier deadlines come due first. */
  ghost predicate InTurn(due: map<Id, nat>, order: seq<Id>) {
    && (forall id :: id in order ==> id in due)
    && forall i, j :: 0 <= i < j < |order| ==> due[order[i]] <= due[order[j]]
  }

  /** `s` is `s0` after the events of `order` came due, in turn, with no earlier one left. */
  ghost predicate InRound(s0: State, s: State, period: bool, order: seq<Id>, t: nat, cron: Id -> nat) {
    && |s0.pendings| == LEVELS && Distinct(order) && InTurn(HeapOf(s0, period), order)
    && (forall id :: id in order ==> id in DueSet(s0, period, t) && id in s0.events && !s0.events[id].destroy)
    && (forall x, y :: x in order && y in HeapOf(s0, period) && y !in order ==> HeapOf(s0, period)[x] <= HeapOf(s0, period)[y])
    && s == FireAll(s0, order, Nexts(s0, t, cron))
  }

  lemma NextIsLater(s: State, period: bool, id: Id, t: nat, cron: Id -> nat)
    requires Valid(s) && id in DueSet(s, period, t) && cron(id) > t
    ensures id in s.events && !s.events[id].destroy && NextOf(s, id, t, cron) > t
  {
    assert Placed(s, id);
    DueTimer(s, period, id, t, cron);
    if s.events[id].kind.Timeout? {
      var k := LaterIsLeast(s.timers[id], s.events[id].kind.ms * 1000, t);
    }
  }

  /** A timer that already came due in this round is in its heap with a later deadline, if at all;
      the others are as they were. */
  lemma RoundHeap(s0: State, s: State, period: bool, order: seq<Id>, t: nat, cron: Id -> nat, x: Id)
    requires Valid(s0) && InRound(s0, s, period, order, t, cron) && (forall id: Id :: cron(id) > t) && x in s0.events
    ensures x in s.events && (x in order && x in HeapOf(s, period) ==> HeapOf(s, period)[x] > t)
    ensures x !in order ==> SameTimer(s0, s, x) && s.events[x] == s0.events[x]
  {
    FiredEach(s0, order, Nexts(s0, t, cron), x);
    if x in order {
      NextIsLater(s0, period, x, t, cron);
      DueTimer(s0, period, x, t, cron);
    }
  }

  lemma RoundPick(s0: State, s: State, period: bool, order: seq<Id>, t: nat, cron: Id -> nat, id: Id)
    requires Valid(s0) && Valid(s) && InRound(s0, s, period, order, t, cron) && forall x: Id :: cron(x) > t
    requires id in HeapOf(s, period) && HeapOf(s, period)[id] <= t
    ensures id in s.events && |s.pendings| == LEVELS && id !in order && id in DueSet(s0, period, t) && id in s0.events
    ensures HeapOf(s0, period)[id] == HeapOf(s, period)[id] && NextOf(s, id, t, cron) == NextOf(s0, id, t, cron)
    ensures !s0.events[id].destroy && !s.events[id].destroy
  {
    hide Accounted, Sound, Linked, Settled, Placed, Fire, NextOf, Valid;
    DueTimer(s, period, id, t, cron);
    RoundHeap(s0, s, period, order, t, cron, id);
    NextIsLater(s0, period, id, t, cron);
    RoundNext(s0, s, period, order, t, cron, id);
  }

  lemma RoundTurn(h: map<Id, nat>, order: seq<Id>, id: Id)
    requires Distinct(order) && InTurn(h, order) && id !in order && id in h
    requires forall x, y :: x in order && y in h && y !in order ==> h[x] <= h[y]
    requires forall y :: y in h && y !in order ==> h[id] <= h[y]
    ensures Distinct(order + [id]) && InTurn(h, order + [id])
    ensures forall x, y :: x in order + [id] && y in h && y !in order + [id] ==> h[x] <= h[y]
  {
    var o := order + [id];
    forall i, j | 0 <= i < j < |o| ensures h[o[i]] <= h[o[j]] { assert i < |order| ==> order[i] in order; }
  }

  /** A timer that has not come due in this round is as it was. */
  lemma RoundSame(s0: State, s: State, period: bool, order: seq<Id>, t: nat, cron: Id -> nat, x: Id)
    requires InRound(s0, s, period, order, t, cron) && x in s0.events && x !in order
    ensures SameTimer(s0, s, x) && x in s.events && s.events[x] == s0.events[x]
  {
    FiredEach(s0, order, Nexts(s0, t, cron), x);
  }

  lemma HeapEvents(s: State, period: bool)
    requires Valid(s)
    ensures forall id :: id in HeapOf(s, period) ==> id in s.events
  {
  }

  lemma RoundLeast(s0: State, s: State, period: bool, order: seq<Id>, t: nat, cron: Id -> nat, d: nat)
    requires InRound(s0, s, period, order, t, cron) && HeapOf(s0, period).Keys <= s0.events.Keys
    requires forall x :: x in HeapOf(s, period) ==> d <= HeapOf(s, period)[x]
    ensures forall y :: y in HeapOf(s0, period) && y !in order ==> d <= HeapOf(s0, period)[y]
  {
    forall y | y in HeapOf(s0, period) && y !in order ensures d <= HeapOf(s0, period)[y] {
      RoundSame(s0, s, period, order, t, cron, y);
      hide InRound;
      assert y in HeapOf(s, period) && HeapOf(s, period)[y] == HeapOf(s0, period)[y];
    }
  }

  /** The next timer to come due: the one with the least deadline. */
  lemma RoundStep(s0: State, s: State, period: bool, order: seq<Id>, t: nat, cron: Id -> nat, id: Id)
    requires Valid(s0) && Valid(s) && InRound(s0, s, period, order, t, cron) && forall x: Id :: cron(x) > t
    requires id in HeapOf(s, period) && HeapOf(s, period)[id] <= t
    requires forall x :: x in HeapOf(s, period) ==> HeapOf(s, period)[id] <= HeapOf(s, period)[x]
    ensures id in s.events && !s.events[id].destroy && |s.pendings| == LEVELS && id !in order && id in DueSet(s0, period, t)
    ensures InRound(s0, Fire(s, id, NextOf(s, id, t, cron)), period, order + [id], t, cron)
  {
    hide Valid, Fire, NextOf, FireAll, Distinct, InTurn;
    HeapEvents(s0, period);
    RoundPick(s0, s, period, order, t, cron, id);
    RoundLeast(s0, s, period, order, t, cron, HeapOf(s, period)[id]);
    RoundTurn(HeapOf(s0, period), order, id);
    RoundFire(s0, s, order, t, cron, id);
  }

  lemma RoundFire(s0: State, s: State, order: seq<Id>, t: nat, cron: Id -> nat, id: Id)
    requires |s0.pendings| == LEVELS && id in s0.events && forall x :: x in order ==> x in s0.events
    requires s == FireAll(s0, order, Nexts(s0, t, cron))
    ensures FireAll(s0, order + [id], Nexts(s0, t, cron)) == Fire(s, id, NextOf(s0, id, t, cron))
  {
    FireAllLast(s0, order, id, Nexts(s0, t, cron));
  }

  lemma RoundNext(s0: State, s: State, period: bool, order: seq<Id>, t: nat, cron: Id -> nat, id: Id)
    requires id in s0.events && id in s.events && s.events[id] == s0.events[id] && SameTimer(s0, s, id)
    ensures NextOf(s, id, t, cron) == NextOf(s0, id, t, cron)
  {
  }

  lemma RoundDoneAt(s0: State, s: State, period: bool, order: seq<Id>, t: nat, cron: Id -> nat, id: Id)
    requires InRound(s0, s, period, order, t, cron) && id in s0.events && id in DueSet(s0, period, t)
    requires id in HeapOf(s, period) ==> HeapOf(s, period)[id] > t
    ensures id in order
  {
    if id !in order { RoundSame(s0, s, period, order, t, cron, id); }
  }

  /** The round ends when nothing in the heap is due. */
  lemma RoundDone(s0: State, s: State, period: bool, order: seq<Id>, t: nat, cron: Id -> nat)
    requires Valid(s0) && InRound(s0, s, period, order, t, cron)
    requires forall x :: x in HeapOf(s, period) ==> HeapOf(s, period)[x] > t
    ensures forall id :: id in order <==> id in DueSet(s0, period, t)
  {
    HeapEvents(s0, period);
    assert forall id :: id in order ==> id in DueSet(s0, period, t);
    hide Valid, InRound;
    forall id | id in DueSet(s0, period, t) ensures id in order {
      RoundDoneAt(s0, s, period, order, t, cron, id);
    }
  }

  lemma RoundStart(s: State, period: bool, t: nat, cron: Id -> nat)
    requires Valid(s)
    ensures InRound(s, s, period, [], t, cron)
  {
  }

  lemma FireValid(s: State, id: Id, next: nat)
    requires Valid(s) && id in s.events && !s.events[id].destroy
    ensures |s.pendings| == LEVELS && Valid(Fire(s, id, next))
  {
    FireKeeps(s, id, next);
    FireLinks(s, id, next);
  }

  // ---- one round of idles ----

  lemma IdlesStart(s: State, zero: map<Id, nat>)
    requires Valid(s) && zero == Zeros(s)
    ensures |s.pendings| == LEVELS && (forall id :: id in s.idles ==> id in s.events && id in zero)
    ensures s == FireAll(s, s.idles[..0], zero)
  {
  }

  lemma IdleAt(s: State, n: nat)
    requires Valid(s) && n < |s.idles|
    ensures Distinct(s.idles[..n]) && s.idles[n] !in s.idles[..n]
    ensures forall y :: y in s.idles ==> y in s.events && s.events[y].kind.Idle? && !s.events[y].destroy
  {
    assert forall y :: y in s.idles ==> Placed(s, y);
  }

  lemma FireAllLast(s: State, order: seq<Id>, id: Id, next: map<Id, nat>)
    requires |s.pendings| == LEVELS && (forall x :: x in order ==> x in s.events && x in next) && id in s.events && id in next
    ensures FireAll(s, order + [id], next) == Fire(FireAll(s, order, next), id, next[id])
  {
    assert (order + [id])[..|order|] == order;
  }

  lemma IdlesStep(s0: State, s: State, n: nat, zero: map<Id, nat>)
    requires Valid(s0) && n < |s0.idles| && zero == Zeros(s0)
    requires |s0.pendings| == LEVELS && (forall id :: id in s0.idles ==> id in s0.events && id in zero)
    requires s == FireAll(s0, s0.idles[..n], zero)
    ensures s0.idles[n] in s.events && s.events[s0.idles[n]] == s0.events[s0.idles[n]] && |s.pendings| == LEVELS
    ensures s.events[s0.idles[n]].kind.Idle? && !s.events[s0.idles[n]].destroy
    ensures FireAll(s0, s0.idles[..n + 1], zero) == Fire(s, s0.idles[n], 0)
  {
    var id, done := s0.idles[n], s0.idles[..n];
    hide Valid, Fire, FireAll, Distinct, Zeros;
    IdleAt(s0, n);
    LastOf(s0.idles, n);
    ZeroAt(s0, zero, id);
    FireAllLast(s0, done, id, zero);
    Untouched(s0, done, zero, id);
  }

  lemma LastOf(q: seq<Id>, n: nat)
    requires n < |q|
    ensures q[..n + 1] == q[..n] + [q[n]] && q[n] in q && forall x :: x in q[..n] ==> x in q
  {
  }

  lemma ZeroAt(s: State, zero: map<Id, nat>, id: Id)
    requires zero == Zeros(s) && id in s.events
    ensures zero[id] == 0
  {
  }

  lemma Untouched(s: State, order: seq<Id>, next: map<Id, nat>, x: Id)
    requires |s.pendings| == LEVELS && Distinct(order) && x in s.events && x !in order
    requires forall y :: y in order ==> y in s.events && y in next && !s.events[y].destroy
    ensures FireAll(s, order, next).events[x] == s.events[x]
  {
    FiredEach(s, order, next, x);
  }

  // ---- whole runs ----

  /** From `s` on, no event that was deleted by then has been called. */
  ghost predicate Silent(s: State, t: State) {
    forall id :: id in s.past.deleted ==> id in t.past.deleted && Runs(t, id) == Runs(s, id)
  }

  lemma SilentTrans(s: State, t: State, u: State)
    requires Silent(s, t) && Silent(t, u)
    ensures Silent(s, u)
  {
  }

  lemma {:induction false} FireAllSilent(s: State, order: seq<Id>, next: map<Id, nat>)
    requires |s.pendings| == LEVELS && forall x :: x in order ==> x in s.events && x in next
    ensures FireAll(s, order, next).past.log == s.past.log && FireAll(s, order, next).past.deleted == s.past.deleted
    decreases |order|
  {
    if order != [] {
      FireAllSilent(s, order[..|order| - 1], next);
    }
  }

  lemma {:induction false} ApplyAllSilent(s: State, ops: seq<Op>)
    requires forall id :: id in s.events ==> id < s.nextId
    ensures ApplyAll(s, ops).past.log == s.past.log && s.past.deleted <= ApplyAll(s, ops).past.deleted
    decreases |ops|
  {
    if ops != [] {
      ApplySilent(s, ops[0]);
      ApplyAllSilent(Apply(s, ops[0]), ops[1..]);
    }
  }

  lemma ApplySilent(s: State, op: Op)
    requires forall id :: id in s.events ==> id < s.nextId
    ensures Apply(s, op).past.log == s.past.log && s.past.deleted <= Apply(s, op).past.deleted
  {
    hide Unlink, EventDel;
  }

  lemma {:induction false} WalkDeletes(s: State, order: seq<Id>, scripts: seq<seq<Op>>)
    requires Walkable(s, order)
    ensures s.past.deleted <= Walk(s, order, scripts).past.deleted
    decreases |order|
  {
    if order != [] {
      WalkStep(s, order, scripts);
      ApplyAllSilent(Called(s, order[0]), Script(scripts));
      WalkDeletes(Visit(s, order[0], Script(scripts)), order[1..], Remaining(s, order[0], scripts));
    }
  }

  lemma RoundSilent(s: State, scripts: seq<seq<Op>>)
    requires Valid(s) && Walkable(s, Order(s.pendings))
    ensures Silent(s, Emptied(Walk(s, Order(s.pendings), scripts)))
  {
    WalkDeletes(s, Order(s.pendings), scripts);
    forall id | id in s.past.deleted ensures Runs(Walk(s, Order(s.pendings), scripts), id) == Runs(s, id) {
      DeletedNeverRuns(s, Order(s.pendings), scripts, id);
    }
  }

  /** One turn of a run: what the program does to the loop first, the two clocks, and what the callbacks do. */
  datatype Turn = Turn(ops: seq<Op>, hrtime: nat, realtime: nat, cron: Id -> nat, scripts: seq<seq<Op>>)

  // ---- htimer_reset of a timer that is still linked ----

  /** One round of the inner loop of hloop_process_pendings: an event that is not marked pending is passed over. */
  function Step(s: State, id: Id, script: seq<Op>): State
    requires (forall x :: x in s.events ==> x < s.nextId) && id in s.events
  {
    if s.events[id].pending then Visit(s, id, script) else s
  }

  /** A reset costs a timer the callback it was due exactly when a list links it and it would have been called. */
  lemma ResetLosesCallback(s: State, id: Id, now: nat, ms: nat, script: seq<Op>)
    requires (forall x :: x in s.events ==> x < s.nextId) && id in s.events && s.events[id].kind.Timeout?
    ensures Step(Rearm(s, id, now, ms), id, script).past.log == s.past.log
    ensures Step(s, id, script).past.log != s.past.log <==> s.events[id].pending && Runnable(s.events[id])
  {
    if s.events[id].pending {
      assert Walkable(s, [id]);
      VisitLogs(s, id, script);
    }
  }

  /** The pending lists, which link the events of `order`, link one that has been freed. */
  ghost predicate Dangling(s: State, order: seq<Id>) {
    exists x :: x in order && x !in s.events
  }

  /** Deleting alone never frees an event that a list links; deleting after a reset does so exactly when the timer
      was linked, in its own callback too: the loop then goes on with memory that is not its own. */
  lemma ResetThenDelete(s: State, order: seq<Id>, id: Id, now: nat, ms: nat)
    requires id in s.events && s.events[id].kind.Timeout? && (forall x :: x in order <==> x in Pending(s.events))
    ensures !Dangling(Delete(s, id), order)
    ensures Dangling(Delete(Rearm(s, id, now, ms), id), order) <==> s.events[id].pending
  {
    var t := Delete(Rearm(s, id, now, ms), id);
    assert id !in t.events && forall x :: x in s.events && x != id ==> x in t.events;
    assert s.events[id].pending ==> id in order;
  }

  lemma RearmArms(s: State, id: Id, now: nat, ms: nat)
    requires id in s.events && s.events[id].kind.Timeout?
    ensures var t := Rearm(s, id, now, ms);
            && !t.events[id].destroy && id in t.timers && id in t.past.quota && t.past.due == s.past.due
            && (t.past.quota[id] == INFINITE || t.past.quota[id] > t.past.due[id])
            && Pending(t.events) == Pending(s.events) - {id} && (Settled(s) ==> Settled(t))
  {
  }

  lemma NotDeleted(s: State, id: Id)
    requires Sound(s, {id}) && id in s.events && s.events[id].active
    ensures id !in s.past.deleted
  {
    assert Placed(s, id) && Accounted(s, id, {id});
  }

  /** A timer that its own callback arms again, and does not delete, is as good as new when the loop is done with it. */
  lemma ResetInOwnCallback(s: State, id: Id, now: nat, ms: nat)
    requires Sound(s, {id}) && id in s.events && s.events[id].kind.Timeout? && s.events[id].active
    ensures var t := Unpend(Rearm(s, id, now, ms), id);
            && Sound(t, {}) && Pending(t.events) == Pending(s.events) - {id} && (Settled(s) ==> Settled(t))
            && id in t.events && id in t.timers && id in t.past.quota
            && (t.past.quota[id] == INFINITE || t.past.quota[id] > t.past.due[id])
  {
    hide Sound, Settled, Pending, Rearm, Unpend;
    NotDeleted(s, id);
    RearmArms(s, id, now, ms);
    ResetAccounts(s, id, now, ms, {id}, {});
    var t := Rearm(s, id, now, ms);
    UnpendKeeps(t, id, {});
    UnpendSettles(t, id);
    UnpendArmed(t, id);
  }

  lemma UnpendArmed(s: State, id: Id)
    requires id in s.events && !s.events[id].destroy
    ensures var t := Unpend(s, id); id in t.events && t.timers == s.timers && t.past == s.past
  {
  }

  lemma Shrinks(due: set<Id>, order: seq<Id>, id: Id)
    requires id in due && id !in order
    ensures due - (set x | x in order + [id]) < due - (set x | x in order)
  {
    var a, b := due - (set x | x in order), due - (set x | x in order + [id]);
    assert id in a && id !in b;
    assert forall x :: x in b ==> x in a;
  }

  /** What a round of timers leaves behind: what was due is pending, and so is what was. */
  lemma RoundEffect(s: State, t: State, period: bool, order: seq<Id>, now: nat, cron: Id -> nat)
    requires Valid(s) && InRound(s, t, period, order, now, cron)
    requires forall id :: id in order <==> id in DueSet(s, period, now)
    ensures forall id :: id in DueSet(s, period, now) ==> id in t.events && t.events[id].pending
    ensures forall id :: id in s.events && s.events[id].pending ==> id in t.events && t.events[id].pending
    ensures t.past.log == s.past.log && t.past.deleted == s.past.deleted
  {
    HeapEvents(s, period);
    hide Valid, FireAll;
    FireAllSilent(s, order, Nexts(s, now, cron));
    forall id | id in s.events ensures id in t.events && (id in order || s.events[id].pending ==> t.events[id].pending) {
      FiredEach(s, order, Nexts(s, now, cron), id);
    }
  }

  lemma HeapsApart(s: State, id: Id)
    requires Valid(s)
    ensures !(id in s.timers && id in s.realtimers)
  {
    if id in s.timers { assert Placed(s, id); }
  }

  /** A round of one heap leaves the other alone. */
  lemma RoundOther(s: State, t: State, period: bool, order: seq<Id>, now: nat, cron: Id -> nat, other: nat)
    requires Valid(s) && Valid(t) && InRound(s, t, period, order, now, cron)
    ensures DueSet(s, !period, other) == DueSet(t, !period, other)
  {
    hide DueSet, Valid, InRound;
    var a, b := DueSet(s, !period, other), DueSet(t, !period, other);
    forall id ensures id in a <==> id in b {
      OtherTimer(s, t, period, order, now, cron, other, id);
    }
  }

  lemma OtherTimer(s: State, t: State, period: bool, order: seq<Id>, now: nat, cron: Id -> nat, other: nat, id: Id)
    requires Valid(s) && Valid(t) && InRound(s, t, period, order, now, cron)
    ensures id in DueSet(s, !period, other) <==> id in DueSet(t, !period, other)
  {
    HeapEvents(s, !period);
    HeapEvents(t, !period);
    HeapsApart(s, id);
    assert t.events.Keys == s.events.Keys;
    if id in s.events && id in order {
      OtherKind(s, t, period, order, now, cron, id);
    }
    hide Valid, FireAll;
    if id in s.events && id !in order {
      RoundSame(s, t, period, order, now, cron, id);
    }
  }

  lemma OtherKind(s: State, t: State, period: bool, order: seq<Id>, now: nat, cron: Id -> nat, id: Id)
    requires Valid(s) && Valid(t) && InRound(s, t, period, order, now, cron) && id in order && id in s.events && id in t.events
    ensures id !in HeapOf(s, !period) && id !in HeapOf(t, !period)
  {
    assert Placed(s, id) && Placed(t, id);
    FiredEach(s, order, Nexts(s, now, cron), id);
  }

  lemma {:induction false} FireAllPending(s: State, order: seq<Id>, next: map<Id, nat>)
    requires |s.pendings| == LEVELS && forall x :: x in order ==> x in s.events && x in next
    ensures forall id :: id in s.events && s.events[id].pending ==> FireAll(s, order, next).events[id].pending
    decreases |order|
  {
    if order != [] {
      FireAllPending(s, order[..|order| - 1], next);
    }
  }

  lemma NoTimers(s: State)
    requires Valid(s)
    ensures s.ntimers == 0 ==> forall t :: DueSet(s, false, t) == {} && DueSet(s, true, t) == {}
  {
  }

  /** What the program does between turns keeps everything too. */
  lemma OpsValid(s: State, ops: seq<Op>)
    requires Valid(s)
    ensures forall id :: id in s.events ==> id < s.nextId
    ensures Valid(ApplyAll(s, ops)) && Silent(s, ApplyAll(s, ops)) && Pending(ApplyAll(s, ops).events) == Pending(s.events)
  {
    ApplyAllKeeps(s, ops, {});
    ApplyAllSilent(s, ops);
    ApplyAllCount(s, ops);
  }

  lemma {:induction false} ApplyAllCount(s: State, ops: seq<Op>)
    requires forall id :: id in s.events ==> id < s.nextId
    ensures ApplyAll(s, ops).npendings == s.npendings
    decreases |ops|
  {
    if ops != [] {
      ApplyCount(s, ops[0]);
      ApplyAllCount(Apply(s, ops[0]), ops[1..]);
    }
  }

  lemma ApplyCount(s: State, op: Op)
    requires forall id :: id in s.events ==> id < s.nextId
    ensures Apply(s, op).npendings == s.npendings
  {
  }

  lemma InHeap(s: State, id: Id)
    requires Shaped(s) && id in s.events && s.events[id].kind.Timeout?
    ensures id in s.timers <==> !s.events[id].destroy
  {
    assert Placed(s, id);
  }

  // ---- one turn ----

  /** Each list holds events of its own priority. */
  ghost predicate Leveled(s: State) {
    |s.pendings| == LEVELS
    && forall l, x :: 0 <= l < LEVELS && x in s.pendings[l] ==> x in s.events && Level(s.events[x].priority) == l
  }

  /** No event of `q` has a higher priority than one before it. */
  ghost predicate Descending(events: map<Id, Event>, q: seq<Id>) {
    && (forall x :: x in q ==> x in events)
    && forall i, j :: 0 <= i < j < |q| ==> events[q[i]].priority >= events[q[j]].priority
  }

  lemma FireLeveled(s: State, id: Id, next: nat)
    requires Leveled(s) && id in s.events
    ensures Leveled(Fire(s, id, next))
  {
    var t := Fire(s, id, next);
    forall l, x | 0 <= l < LEVELS && x in t.pendings[l] ensures x in t.events && Level(t.events[x].priority) == l {
      FirePushes(s, id, next, l);
    }
  }

  lemma {:induction false} FireAllLeveled(s: State, order: seq<Id>, next: map<Id, nat>)
    requires Leveled(s) && forall x :: x in order ==> x in s.events && x in next
    ensures Leveled(FireAll(s, order, next))
    decreases |order|
  {
    if order != [] {
      var n := |order| - 1;
      FireAllLeveled(s, order[..n], next);
      hide Leveled;
      FireLeveled(FireAll(s, order[..n], next), order[n], next[order[n]]);
    }
  }

  lemma {:induction false} OrderEmpty(lists: seq<seq<Id>>, l: nat)
    requires Order(lists) == [] && l < |lists|
    ensures lists[l] == []
    decreases |lists|
  {
    if l < |lists| - 1 { OrderEmpty(lists[..|lists| - 1], l); }
  }

  lemma QuietLeveled(s: State)
    requires Valid(s) && Pending(s.events) == {}
    ensures Order(s.pendings) == [] && Leveled(s)
  {
    var o := Order(s.pendings);
    assert multiset(o) == multiset{} && |multiset(o)| == |o|;
    forall l | 0 <= l < LEVELS ensures s.pendings[l] == [] { OrderEmpty(s.pendings, l); }
  }

  /** Lists of their own priorities are walked from the highest priority down. */
  lemma {:induction false} LeveledDescends(events: map<Id, Event>, lists: seq<seq<Id>>)
    requires forall l, x :: 0 <= l < |lists| && x in lists[l] ==> x in events && Level(events[x].priority) == l
    ensures Descending(events, Order(lists)) && forall x :: x in Order(lists) ==> x in events && Level(events[x].priority) < |lists|
    decreases |lists|
  {
    if lists != [] {
      var n := |lists| - 1;
      LeveledDescends(events, lists[..n]);
      var h, r := lists[n], Order(lists[..n]);
      forall x | x in h ensures x in events && Level(events[x].priority) == n {}
      DescendingAppend(events, h, r, n);
    }
  }

  lemma DescendingAppend(events: map<Id, Event>, h: seq<Id>, r: seq<Id>, n: nat)
    requires Descending(events, r) && (forall x :: x in h ==> x in events && Level(events[x].priority) == n)
    requires forall x :: x in r ==> x in events && Level(events[x].priority) < n
    ensures Descending(events, h + r)
  {
    var q := h + r;
    forall i, j | 0 <= i < j < |q| ensures events[q[i]].priority >= events[q[j]].priority {
      assert i < |h| ==> q[i] in h;
      assert i >= |h| ==> q[i] == r[i - |h|] && q[j] == r[j - |h|];
      assert j < |h| ==> q[j] in h;
      assert j >= |h| ==> q[j] in r;
    }
  }

  /** What is called keeps the order of what is linked. */
  lemma {:induction false} DueDescends(events: map<Id, Event>, order: seq<Id>, gone: set<Id>, scripts: seq<seq<Op>>)
    requires Distinct(order) && Descending(events, order)
    ensures Descending(events, Due(events, order, gone, scripts))
    decreases |order|
  {
    if order != [] {
      hide Deleted, Script, Rest, Runnable;
      var rest := order[1..];
      FirstAndRest(order);
      assert forall i :: 0 <= i < |rest| ==> rest[i] == order[i + 1];
      if Runnable(events[order[0]]) && order[0] !in gone {
        var due := Due(events, rest, gone + Deleted(Script(scripts)), Rest(scripts));
        DueDescends(events, rest, gone + Deleted(Script(scripts)), Rest(scripts));
        DueOnce(events, rest, gone + Deleted(Script(scripts)), Rest(scripts));
        forall x | x in due ensures events[order[0]].priority >= events[x].priority {
          var i :| 0 <= i < |rest| && rest[i] == x;
        }
      } else {
        DueDescends(events, rest, gone, scripts);
      }
    }
  }

  /** A turn up to its callbacks: the loop after the timeouts, after the period timers, and after the idles. */
  datatype Gathering = Gathering(order1: seq<Id>, s1: State, order2: seq<Id>, s2: State, mid: State)

  ghost function Zeros(s: State): map<Id, nat> {
    map id | id in s.events :: 0
  }

  /** Every timer due by its clock came due, in turn, and every idle if nothing else is pending by then; no other event. */
  ghost predicate Gathered(s: State, g: Gathering, hrtime: nat, realtime: nat, cron: Id -> nat) {
    && InRound(s, g.s1, false, g.order1, hrtime, cron) && (forall id :: id in g.order1 <==> id in DueSet(s, false, hrtime))
    && InRound(g.s1, g.s2, true, g.order2, realtime, cron) && (forall id :: id in g.order2 <==> id in DueSet(s, true, realtime))
    && Idled(g.s2, g.mid)
  }

  ghost predicate Idled(s: State, t: State) {
    if s.npendings == 0 then
      |s.pendings| == LEVELS && (forall id :: id in s.idles ==> id in s.events) && t == FireAll(s, s.idles, Zeros(s))
    else t == s
  }

  /** After a turn that left nothing pending, the lists hold what came due, each event with its own priority. */
  lemma GatheredLeveled(s: State, g: Gathering, hrtime: nat, realtime: nat, cron: Id -> nat)
    requires Valid(s) && Pending(s.events) == {} && Gathered(s, g, hrtime, realtime, cron)
    ensures Leveled(g.mid)
  {
    QuietLeveled(s);
    hide Valid, Leveled, InTurn, Distinct, FireAll;
    FireAllLeveled(s, g.order1, Nexts(s, hrtime, cron));
    assert g.s1.events.Keys == s.events.Keys;
    FireAllLeveled(g.s1, g.order2, Nexts(g.s1, realtime, cron));
    if g.s2.npendings == 0 { FireAllLeveled(g.s2, g.s2.idles, Zeros(g.s2)); }
  }

  lemma {:induction false} FireAllPends(s: State, order: seq<Id>, next: map<Id, nat>)
    requires |s.pendings| == LEVELS && forall x :: x in order ==> x in s.events && x in next
    ensures forall x :: x in Pending(FireAll(s, order, next).events) <==> x in Pending(s.events) || x in order
    decreases |order|
  {
    if order != [] {
      var n := |order| - 1;
      FireAllPends(s, order[..n], next);
      assert order == order[..n] + [order[n]];
    }
  }

  /** Events that come due leave a valid loop valid. */
  lemma {:induction false} FireAllValid(s: State, order: seq<Id>, next: map<Id, nat>)
    requires Valid(s) && |s.pendings| == LEVELS && Distinct(order)
    requires forall x :: x in order ==> x in s.events && x in next && !s.events[x].destroy
    ensures Valid(FireAll(s, order, next))
    decreases |order|
  {
    hide Valid, Distinct, Fire, FireAll;
    if order == [] {
      FireNone(s, next);
    } else {
      var n := |order| - 1;
      FrontDistinct(order, n);
      FireAllValid(s, order[..n], next);
      Untouched(s, order[..n], next, order[n]);
      FireTop(s, order, next, 0);
      FireValid(FireAll(s, order[..n], next), order[n], next[order[n]]);
    }
  }

  /** What is pending before the callbacks: the timers that were due, or the idles when no timer was. */
  lemma GatheredPending(s: State, g: Gathering, hrtime: nat, realtime: nat, cron: Id -> nat)
    requires Valid(s) && Pending(s.events) == {} && Gathered(s, g, hrtime, realtime, cron)
    ensures var due := DueSet(s, false, hrtime) + DueSet(s, true, realtime);
            forall x :: x in Pending(g.mid.events) <==> x in due || (due == {} && x in s.idles)
  {
    hide Valid, InTurn, Distinct, FireAll, Pending, DueSet;
    var next1, next2 := Nexts(s, hrtime, cron), Nexts(g.s1, realtime, cron);
    FireAllPends(s, g.order1, next1);
    FireAllValid(s, g.order1, next1);
    assert g.s1.events.Keys == s.events.Keys;
    FireAllPends(g.s1, g.order2, next2);
    FireAllValid(g.s1, g.order2, next2);
    PendingNow(g.s2, g.mid);
    if g.order1 == [] && g.order2 == [] {
      FireNone(s, next1);
      FireNone(g.s1, next2);
    } else {
      var x := if g.order1 != [] then g.order1[0] else g.order2[0];
      assert x in g.order1 || x in g.order2;
    }
  }

  lemma PendingNow(s: State, t: State)
    requires Valid(s) && Idled(s, t)
    ensures forall x :: x in Pending(t.events) <==> x in Pending(s.events) || (Pending(s.events) == {} && x in s.idles)
  {
    NonePending(s);
    hide Valid, FireAll, Pending;
    if s.npendings == 0 { FireAllPends(s, s.idles, Zeros(s)); }
  }

  lemma NonePending(s: State)
    requires Linked(s)
    ensures s.npendings == 0 <==> Pending(s.events) == {}
  {
    LinkedDistinct(s);
    if Order(s.pendings) != [] { assert Order(s.pendings)[0] in Pending(s.events); }
  }

  lemma CallsDescend(s: State, scripts: seq<seq<Op>>)
    requires Valid(s) && Leveled(s)
    ensures (forall x :: x in Order(s.pendings) ==> x in s.events)
    ensures Descending(s.events, Due(s.events, Order(s.pendings), {}, scripts))
  {
    LinkedDistinct(s);
    hide Valid, Due, Order;
    LeveledDescends(s.events, s.pendings);
    DueDescends(s.events, Order(s.pendings), {}, scripts);
  }

  lemma QuietEmptied(s: State, scripts: seq<seq<Op>>)
    requires Valid(s) && s.npendings == 0
    ensures Order(s.pendings) == [] && Pending(s.events) == {} && Walkable(s, Order(s.pendings))
    ensures s == Emptied(Walk(s, Order(s.pendings), scripts))
  {
    NonePending(s);
    QuietLeveled(s);
    forall l | 0 <= l < LEVELS ensures s.pendings[l] == [] { OrderEmpty(s.pendings, l); }
    assert s.pendings == seq(LEVELS, _ => []);
    SoundIds(s, {});
  }

  lemma NoIdles(s: State)
    requires Valid(s) && !(s.npendings == 0 && s.nidles != 0)
    ensures Idled(s, s)
  {
    if s.npendings == 0 { assert s.idles == []; }
  }

  lemma FreshValid(s: State)
    requires s == State(map[], 0, seq(LEVELS, _ => []), 0, [], 0, map[], map[], 0, 0, History(map[], multiset{}, [], {}))
    ensures Valid(s)
  {
    NothingListed(s.pendings);
    assert Actives(s.events) == {} && Pending(s.events) == {};
  }

  /** `r` is the first whole number of steps after `d` that lies after `t`. */
  ghost predicate FirstAfter(d: nat, step: nat, t: nat, r: nat) {
    exists k: nat {:trigger k * step} :: k > 0 && r == d + k * step && d + (k - 1) * step <= t < r
  }

  /** What a round does to one timer of the heap: nothing before its deadline; at it, the timer leaves when its
      repeats are used up, else it gets the next deadline on its grid, or the one cron says. */
  ghost predicate Moved(s: State, t: State, period: bool, now: nat, cron: Id -> nat, id: Id) {
    && id in HeapOf(s, period) && id in s.events && id in t.events
    && var d := HeapOf(s, period)[id];
    if d > now then id in HeapOf(t, period) && HeapOf(t, period)[id] == d && t.events[id] == s.events[id]
    else
      && t.events[id] == Fired(s.events[id])
      && (id in HeapOf(t, period) <==> Dec(s.events[id].repeat) != 0)
      && (id in HeapOf(t, period) ==>
            match s.events[id].kind
            case Timeout(ms) => FirstAfter(d, ms * 1000, now, HeapOf(t, period)[id])
            case _ => HeapOf(t, period)[id] == cron(id))
  }

  lemma RoundMoves(s: State, t: State, period: bool, order: seq<Id>, now: nat, cron: Id -> nat)
    requires Valid(s) && Valid(t) && InRound(s, t, period, order, now, cron)
    requires forall id :: id in order <==> id in DueSet(s, period, now)
    ensures forall id :: id in HeapOf(t, period) ==> id in HeapOf(s, period)
    ensures forall id :: id in HeapOf(s, period) ==> Moved(s, t, period, now, cron, id)
  {
    hide Moved, InRound, Valid;
    forall id | id in HeapOf(t, period) ensures id in HeapOf(s, period) { SameHeap(s, t, period, order, now, cron, id); }
    forall id | id in HeapOf(s, period) ensures Moved(s, t, period, now, cron, id) {
      if id in DueSet(s, period, now) {
        DueMoves(s, t, period, order, now, cron, id);
      } else {
        HeapEvents(s, period);
        RoundSame(s, t, period, order, now, cron, id);
        StillThere(s, t, period, now, cron, id);
      }
    }
  }

  lemma StillThere(s: State, t: State, period: bool, now: nat, cron: Id -> nat, id: Id)
    requires id in HeapOf(s, period) && id in s.events && id in t.events && t.events[id] == s.events[id]
    requires SameTimer(s, t, id) && id !in DueSet(s, period, now)
    ensures Moved(s, t, period, now, cron, id)
  {
  }

  lemma SameHeap(s: State, t: State, period: bool, order: seq<Id>, now: nat, cron: Id -> nat, id: Id)
    requires Valid(s) && Valid(t) && InRound(s, t, period, order, now, cron) && id in HeapOf(t, period)
    ensures id in HeapOf(s, period)
  {
    HeapEvents(t, period);
    hide Valid;
    if id !in order {
      hide FireAll;
      assert t.events.Keys == s.events.Keys;
      RoundSame(s, t, period, order, now, cron, id);
    }
  }

  lemma DueMoves(s: State, t: State, period: bool, order: seq<Id>, now: nat, cron: Id -> nat, id: Id)
    requires Valid(s) && Valid(t) && InRound(s, t, period, order, now, cron) && id in order && id in DueSet(s, period, now)
    ensures Moved(s, t, period, now, cron, id)
  {
    assert t.events.Keys == s.events.Keys;
    TimerPlaced(t, id);
    hide Valid, FireAll, Moved, HeapOf, NextOf;
    DueTimer(s, period, id, now, cron);
    FiredEach(s, order, Nexts(s, now, cron), id);
    MovedOn(s, t, period, now, cron, id);
  }

  lemma TimerPlaced(s: State, id: Id)
    requires Valid(s) && id in s.events
    ensures s.events[id].kind.Timeout? ==> (id in s.timers <==> !s.events[id].destroy)
    ensures s.events[id].kind.Period? ==> (id in s.realtimers <==> !s.events[id].destroy)
  {
    assert Placed(s, id);
  }

  lemma MovedOn(s: State, t: State, period: bool, now: nat, cron: Id -> nat, id: Id)
    requires id in DueSet(s, period, now) && id in s.events && id in t.events && t.events[id] == Fired(s.events[id])
    requires var k := s.events[id].kind; k.Timeout? != period && !k.Idle? && (k.Timeout? ==> k.ms > 0) && !s.events[id].destroy
    requires id in HeapOf(t, period) <==> !t.events[id].destroy
    requires s.events[id].kind.Timeout? && id in HeapOf(t, period) ==>
               HeapOf(t, period)[id] == Later(HeapOf(s, period)[id], s.events[id].kind.ms * 1000, now)
    requires !s.events[id].kind.Timeout? && id in HeapOf(t, period) ==> HeapOf(t, period)[id] == cron(id)
    ensures Moved(s, t, period, now, cron, id)
  {
    var k := s.events[id].kind;
    if k.Timeout? {
      FirstLater(HeapOf(s, period)[id], k.ms * 1000, now);
    }
  }

  lemma FirstLater(d: nat, step: nat, t: nat)
    requires step > 0 && d <= t
    ensures FirstAfter(d, step, t, Later(d, step, t))
  {
    var n := LaterIsLeast(d, step, t);
    assert Later(d, step, t) == d + n * step;
  }

  /** A loop with one timer, which came due: the only list that is not empty links it. */
  lemma OneTimerDue(s: State, t: State, order: seq<Id>, now: nat, cron: Id -> nat)
    requires s.events.Keys == {0} && s.pendings == seq(LEVELS, _ => []) && !s.events[0].pending && !s.events[0].destroy
    requires s.events[0].kind.Timeout? && s.events[0].priority == HIGHEST
    requires InRound(s, t, false, order, now, cron) && (forall id :: id in order <==> id == 0)
    ensures 0 in t.events && t.events[0] == Fired(s.events[0]) && t.pendings[LEVELS - 1] == [0]
    ensures Order(t.pendings) == [0]
  {
    OnlyZero(order);
    hide Fire, FireAll, Order;
    FireAllLast(s, [], 0, Nexts(s, now, cron));
    FireNone(s, Nexts(s, now, cron));
    assert [] + [0] == order;
    forall l | 0 <= l < LEVELS ensures t.pendings[l] == if l == LEVELS - 1 then [0] else [] {
      FirePushes(s, 0, NextOf(s, 0, now, cron), l);
    }
    OrderOne(t.pendings);
  }

  lemma FireNone(s: State, next: map<Id, nat>)
    requires |s.pendings| == LEVELS
    ensures FireAll(s, [], next) == s
  {
  }

  lemma OnlyZero(order: seq<Id>)
    requires Distinct(order) && forall id :: id in order <==> id == 0
    ensures order == [0]
  {
    assert 0 in order;
    forall i | 0 <= i < |order| ensures order[i] == 0 { assert order[i] in order; }
    hide Distinct;
    if |order| > 1 { NotDistinct(order); }
  }

  lemma NotDistinct(q: seq<Id>)
    requires |q| > 1 && q[0] == q[1]
    ensures !Distinct(q)
  {
  }

  lemma OrderOne(lists: seq<seq<Id>>)
    requires |lists| == LEVELS && forall l :: 0 <= l < LEVELS ==> lists[l] == if l == LEVELS - 1 then [0] else []
    ensures Order(lists) == [0]
  {
    NothingListed(lists[..LEVELS - 1]);
  }

  lemma EnterFirst(s: State)
    requires Valid(s) && Order(s.pendings) == [0] && 0 in s.events && s.events[0].pending
    ensures var t := Called(s, 0);
            && Shaped(t) && Counted(t) && t.pendings == s.pendings && t.events == s.events
            && forall x :: x in [0] <==> x in Pending(t.events)
  {
    CalledKeeps(s, 0);
    LinkedDistinct(s);
  }

  lemma AddedValid(s: State, now: nat, ms: nat, repeat: nat, cb: bool)
    requires Valid(s) && ms > 0
    ensures Valid(WithTimeout(s, now, ms, repeat, cb))
  {
    OpsValid(s, [AddTimeout(now, ms, repeat, cb)]);
    assert ApplyAll(s, [AddTimeout(now, ms, repeat, cb)]) == WithTimeout(s, now, ms, repeat, cb);
  }
}

/** The timer queue of the media server: one map by id, one ordered by (timeout, id). */
module TimerQueue {

  type Id = x: int | 0 <= x < 0x1_0000_0000
  type Key = (int, Id)
  type Interval = x: int | x >= 1 witness 1

  predicate Before(a: Key, b: Key) { a.0 < b.0 || (a.0 == b.0 && a.1 < b.1) }

  ghost predicate FirstOf(keys: set<Key>, k: Key) {
    k in keys && forall j :: j in keys && j != k ==> Before(k, j)
  }

  /** The first key of an ordered map. */
  lemma {:induction false} FirstExists(keys: set<Key>) returns (k: Key)
    requires keys != {}
    ensures FirstOf(keys, k)
  {
    var x :| x in keys;
    k := x;
    if keys != {x} {
      var y := FirstExists(keys - {x});
      k := if Before(y, x) then y else x;
      forall j | j in keys && j != k ensures Before(k, j) {
        if j != x && j != y { assert Before(y, j); }
      }
    }
  }

  /** The interval is raised to 1, so every timer has one of at least 1. */
  class Timer {
    const interval: Interval
    var nextTimeout: int

    constructor (ms: nat)
      ensures interval == if ms == 0 then 1 else ms
    {
      interval := if ms == 0 then 1 else ms;
      nextTimeout := 0;
    }

    method SetNextTimeout(now: int)
      modifies this`nextTimeout
      ensures nextTimeout == now + interval
    {
      nextTimeout := now + interval;
    }
  }

  // ----- the events, as values -----

  /** Each event with the interval of its timer. */
  ghost function Pending(events: map<Key, Timer>): map<Key, Interval> {
    map k | k in events :: events[k].interval
  }

  ghost function EventIds(keys: set<Key>): set<Id> { set k | k in keys :: k.1 }

  ghost function DueKeys(keys: set<Key>, now: int): set<Key> { set k | k in keys && k.0 <= now }

  /** One event fires: it is filed again under its next timeout, unless an event is there already, or dropped. */
  ghost function FireStep(p: map<Key, Interval>, key: Key, now: int, flag: bool): map<Key, Interval>
    requires key in p
  {
    var rest, next := p - {key}, (now + p[key], key.1);
    if flag && next !in rest then rest[next := p[key]] else rest
  }

  /** The keys under which the fired events whose callback answered true are filed again. */
  ghost function Again(p: map<Key, Interval>, done: set<Key>, now: int, callback: Key -> bool): set<Key> {
    set d | d in done && d in p && callback(d) :: (now + p[d], d.1)
  }

  /** The events once those in `done` have fired at `now`. */
  ghost function After(p: map<Key, Interval>, done: set<Key>, now: int, callback: Key -> bool): map<Key, Interval> {
    map k | k in (p.Keys - done) + Again(p, done, now, callback) ::
      if k in p && k !in done then p[k] else if k.0 > now then k.0 - now else 1
  }

  /** An insertion that leaves an existing event alone. */
  ghost function Filed(p: map<Key, Interval>, key: Key, interval: Interval): map<Key, Interval> {
    if key in p then p else p[key := interval]
  }

  /** The ids whose timer a callback has removed. */
  ghost function Removed(done: set<Key>, callback: Key -> bool): set<Id> {
    set d | d in done && !callback(d) :: d.1
  }

  ghost function Keys(fired: seq<Key>): set<Key> { set k | k in fired }

  /** Strictly increasing: in particular no event occurs twice. */
  ghost predicate Ordered(fired: seq<Key>) {
    forall a, b :: 0 <= a < b < |fired| ==> Before(fired[a], fired[b])
  }

  /** Due events have fired in order, and before every other one. */
  ghost predicate Progress(p: map<Key, Interval>, fired: seq<Key>, now: int) {
    && Ordered(fired) && Keys(fired) <= DueKeys(p.Keys, now)
    && (forall k, j :: k in p && k !in fired && j in fired ==> Before(j, k))
  }

  lemma Start(p: map<Key, Interval>, now: int, callback: Key -> bool)
    ensures Progress(p, [], now) && After(p, Keys([]), now, callback) == p && Removed(Keys([]), callback) == {}
  {
  }

  /** The first due event has not fired yet, comes after all that have, and firing it makes progress. */
  lemma ProgressStep(p: map<Key, Interval>, fired: seq<Key>, now: int, callback: Key -> bool, key: Key)
    requires Progress(p, fired, now) && FirstOf(After(p, Keys(fired), now, callback).Keys, key) && key.0 <= now
    ensures Progress(p, fired + [key], now)
    ensures key in DueKeys(p.Keys, now) - Keys(fired) && Keys(fired + [key]) == Keys(fired) + {key}
    ensures FireStep(After(p, Keys(fired), now, callback), key, now, callback(key))
         == After(p, Keys(fired + [key]), now, callback)
    ensures Removed(Keys(fired + [key]), callback) == Removed(Keys(fired), callback) + (if callback(key) then {} else {key.1})
  {
    var done := Keys(fired);
    var cur := After(p, done, now, callback);
    assert key in p && key !in done;
    assert Keys(fired + [key]) == done + {key};
    AgainStep(p, done, now, callback, key);
    AfterStep(p, done, now, callback, key);
    forall k, j | k in p && k !in fired + [key] && j in fired + [key] ensures Before(j, k) {
      assert k !in done && k in cur;
    }
    assert Ordered(fired + [key]);
  }

  lemma AgainStep(p: map<Key, Interval>, done: set<Key>, now: int, callback: Key -> bool, key: Key)
    requires key in p && key !in done
    ensures Again(p, done + {key}, now, callback)
         == Again(p, done, now, callback) + (if callback(key) then {(now + p[key], key.1)} else {})
    ensures forall k :: k in Again(p, done, now, callback) ==> k.0 > now
  {
    var more := if callback(key) then {(now + p[key], key.1)} else {};
    forall k | k in Again(p, done, now, callback) + more ensures k in Again(p, done + {key}, now, callback) {
      if k in more {
        assert key in done + {key};
      } else {
        var d :| d in done && d in p && callback(d) && k == (now + p[d], d.1);
        assert d in done + {key};
      }
    }
  }

  lemma AfterStep(p: map<Key, Interval>, done: set<Key>, now: int, callback: Key -> bool, key: Key)
    requires key in p && key !in done && key.0 <= now
    ensures key in After(p, done, now, callback)
    ensures FireStep(After(p, done, now, callback), key, now, callback(key)) == After(p, done + {key}, now, callback)
  {
    hide Again;
    AgainStep(p, done, now, callback, key);
    var cur, next := After(p, done, now, callback), After(p, done + {key}, now, callback);
    var step := FireStep(cur, key, now, callback(key));
    assert cur[key] == p[key];
    assert step.Keys == next.Keys;
    forall k | k in step ensures step[k] == next[k] {
    }
  }

  // ----- the queue -----

  /** A live timer, as a value. */
  datatype Entry = Entry(next: int, interval: Interval)

  function NewEntry(ms: nat, now: int): Entry {
    var interval := if ms == 0 then 1 else ms;
    Entry(now + interval, interval)
  }

  /** The key of each live timer, with its interval. */
  ghost function Keyed(live: map<Id, Entry>): map<Key, Interval> {
    map k | k in (set i | i in live :: (live[i].next, i)) :: live[k.1].interval
  }

  /** The live timers after a call at `now`: a due one is rescheduled or removed, the others are as before. */
  ghost function LiveAfter(live: map<Id, Entry>, now: int, callback: Key -> bool): map<Id, Entry> {
    map i | i in live && (live[i].next <= now ==> callback((live[i].next, i))) ::
      if live[i].next <= now then Entry(now + live[i].interval, live[i].interval) else live[i]
  }

  lemma KeyedAt(live: map<Id, Entry>, k: Key)
    ensures k in Keyed(live) <==> k.1 in live && live[k.1].next == k.0
    ensures k in Keyed(live) ==> Keyed(live)[k] == live[k.1].interval
  {
    if k.1 in live && live[k.1].next == k.0 { assert k == (live[k.1].next, k.1); }
  }

  lemma LiveAfterAt(live: map<Id, Entry>, now: int, callback: Key -> bool)
    ensures forall i :: var after := LiveAfter(live, now, callback);
              && (i in after <==> i in live && (live[i].next > now || callback((live[i].next, i))))
              && (i in after ==> after[i] == if live[i].next > now then live[i] else Entry(now + live[i].interval, live[i].interval))
  {
  }

  /** With one event per live timer, firing the due events does exactly that. */
  lemma KeyedAfter(live: map<Id, Entry>, now: int, callback: Key -> bool)
    ensures After(Keyed(live), DueKeys(Keyed(live).Keys, now), now, callback) == Keyed(LiveAfter(live, now, callback))
  {
    hide After, Keyed, LiveAfter, DueKeys;
    var p, l := Keyed(live), LiveAfter(live, now, callback);
    var a, b := After(p, DueKeys(p.Keys, now), now, callback), Keyed(l);
    forall k ensures (k in a <==> k in b) && (k in a ==> a[k] == b[k]) { KeyedAfterAt(live, now, callback, k); }
  }

  lemma KeyedAfterAt(live: map<Id, Entry>, now: int, callback: Key -> bool, k: Key)
    ensures var p, l := Keyed(live), LiveAfter(live, now, callback);
            var a := After(p, DueKeys(p.Keys, now), now, callback);
            (k in a <==> k in Keyed(l)) && (k in a ==> a[k] == Keyed(l)[k])
  {
    hide Keyed;
    var p, l := Keyed(live), LiveAfter(live, now, callback);
    var done := DueKeys(p.Keys, now);
    KeyedAt(live, k);
    KeyedAt(l, k);
    if k in Again(p, done, now, callback) {
      var d :| d in done && d in p && callback(d) && k == (now + p[d], d.1);
      KeyedAt(live, d);
    }
    if k.1 in live {
      var d := (live[k.1].next, k.1);
      KeyedAt(live, d);
      if d.0 <= now && callback(d) { assert d in done && (now + p[d], d.1) in Again(p, done, now, callback); }
    }
  }

  lemma KeyedInjective(a: map<Id, Entry>, b: map<Id, Entry>)
    requires Keyed(a) == Keyed(b)
    ensures a == b
  {
    forall i | i in a ensures i in b && a[i] == b[i] { assert (a[i].next, i) in Keyed(a); }
    forall i | i in b ensures i in a { assert (b[i].next, i) in Keyed(b); }
  }

  /** The two maps index the same timers: one event per live timer, under its own timeout. */
  ghost predicate InStep(timers: map<Id, Timer>, events: map<Key, Timer>)
    reads timers.Values
  {
    && (forall i, j :: i in timers && j in timers && i != j ==> timers[i] != timers[j])
    && (forall i :: i in timers ==>
          (timers[i].nextTimeout, i) in events && events[(timers[i].nextTimeout, i)] == timers[i])
    && (forall k :: k in events ==> k.1 in timers && timers[k.1].nextTimeout == k.0)
  }

  /** A new timer keeps the maps in step exactly when its event is filed under its own timeout. */
  lemma InStepInsert(timers: map<Id, Timer>, events: map<Key, Timer>, key: Key, timer: Timer)
    requires InStep(timers, events) && key.1 !in timers && timer !in timers.Values
    ensures key !in events
    ensures InStep(timers[key.1 := timer], events[key := timer]) <==> timer.nextTimeout == key.0
  {
    var ts, es := timers[key.1 := timer], events[key := timer];
    assert key !in events;
    assert es[key] == timer && ts[key.1] == timer;
    if timer.nextTimeout == key.0 {
      forall i | i in ts ensures (ts[i].nextTimeout, i) in es && es[(ts[i].nextTimeout, i)] == ts[i] {
        if i != key.1 { assert ts[i] == timers[i]; }
      }
    }
  }

  lemma InStepReuse(timers: map<Id, Timer>, events: map<Key, Timer>, key: Key, timer: Timer)
    requires InStep(timers, events) && key.1 in timers
    ensures InStep(timers, if key in events then events else events[key := timer]) <==> timers[key.1].nextTimeout == key.0
  {
    var es := if key in events then events else events[key := timer];
    assert key in es;
  }

  lemma InStepDrop(timers: map<Id, Timer>, events: map<Key, Timer>, key: Key)
    requires InStep(timers, events) && key in events
    ensures InStep(timers - {key.1}, events - {key})
  {
  }

  lemma PendingFiled(events: map<Key, Timer>, key: Key, timer: Timer)
    ensures Pending(if key in events then events else events[key := timer])
         == Filed(Pending(events), key, timer.interval)
  {
  }

  class Queue {
    var timers: map<Id, Timer>
    var events: map<Key, Timer>
    var lastId: Id

    /** What every run keeps: each live id has some event, so the first event exists while a timer does. */
    ghost predicate Sound()
      reads this`timers, this`events
    {
      timers.Keys <= EventIds(events.Keys)
    }

    ghost predicate Valid()
      reads this`timers, this`events, timers.Values
    {
      InStep(timers, events)
    }

    ghost function Live(): map<Id, Entry>
      reads this`timers, timers.Values
    {
      map i | i in timers :: Entry(timers[i].nextTimeout, timers[i].interval)
    }

    lemma LiveKeys()
      ensures Live().Keys == timers.Keys
      ensures forall i :: i in timers ==> Live()[i] == Entry(timers[i].nextTimeout, timers[i].interval)
    {
    }

    /** Maps in step are sound, and the events are the keys of the live timers. */
    lemma ValidFacts()
      requires Valid()
      ensures Sound() && Pending(events) == Keyed(Live())
    {
      forall i | i in timers ensures i in EventIds(events.Keys) {
        assert (timers[i].nextTimeout, i) in events.Keys;
      }
      var live := Live();
      forall k | k in events ensures k in Keyed(live) && Keyed(live)[k] == events[k].interval {
        assert k == (live[k.1].next, k.1) && events[k] == timers[k.1];
      }
      forall k | k in Keyed(live) ensures k in events {
        assert k == (timers[k.1].nextTimeout, k.1);
      }
    }

    constructor ()
      ensures Valid() && Sound() && timers == map[] && events == map[] && lastId == 0
    {
      timers, events, lastId := map[], map[], 0;
    }

    /** Both inserts leave an existing entry alone. Maps in step stay in step exactly when the interval is
        not 0 and the next id is not in use (or its live timer happens to be due at the same time). */
    method AddTimer(ms: nat, now: int) returns (id: Id)
      requires Sound()
      modifies this
      ensures Sound() && id == (old(lastId) + 1) % 0x1_0000_0000 && lastId == id
      ensures Pending(events) == Filed(old(Pending(events)), (now + ms, id), NewEntry(ms, now).interval)
      ensures fresh(timers.Values - old(timers.Values)) && fresh(events.Values - old(events.Values))
      ensures Live() == if id in old(Live()) then old(Live()) else old(Live())[id := NewEntry(ms, now)]
      ensures old(Valid()) ==> (Valid() <==> if id in old(Live()) then old(Live())[id].next == now + ms else ms >= 1)
    {
      LiveKeys();
      hide Queue.Valid, Queue.Live, Queue.Sound, Filed;
      id := (lastId + 1) % 0x1_0000_0000;
      lastId := id;
      var timer := new Timer(ms);
      timer.SetNextTimeout(now);
      if id in timers {
        Reuse((now + ms, id), timer);
      } else {
        Insert((now + ms, id), timer);
      }
    }

    /** The id is live: only the event can be new. */
    method Reuse(key: Key, timer: Timer)
      requires Sound() && key.1 in timers
      modifies this`events
      ensures Sound() && Pending(events) == Filed(old(Pending(events)), key, timer.interval) && Live() == old(Live())
      ensures events.Values <= old(events.Values) + {timer}
      ensures old(Valid()) ==> (Valid() <==> timers[key.1].nextTimeout == key.0)
    {
      hide InStep, Filed, Pending, EventIds;
      ghost var es := events;
      if key !in events { events := events[key := timer]; }
      KeysGrow(es.Keys, events.Keys);
      PendingFiled(es, key, timer);
      if InStep(timers, es) { InStepReuse(timers, es, key, timer); }
    }

    /** The id is free: both maps get the timer, the event under the timeout asked for. */
    method Insert(key: Key, timer: Timer)
      requires Sound() && key.1 !in timers && timer !in timers.Values
      modifies this`timers, this`events
      ensures Sound() && Pending(events) == Filed(old(Pending(events)), key, timer.interval)
      ensures Live() == old(Live())[key.1 := Entry(timer.nextTimeout, timer.interval)]
      ensures timers.Values <= old(timers.Values) + {timer} && events.Values <= old(events.Values) + {timer}
      ensures old(Valid()) ==> (Valid() <==> timer.nextTimeout == key.0)
    {
      hide InStep, Filed, Pending, EventIds;
      ghost var ts, es := timers, events;
      if InStep(ts, es) { InStepInsert(ts, es, key, timer); }
      PendingFiled(es, key, timer);
      timers := timers[key.1 := timer];
      if key !in events { events := events[key := timer]; }
      KeysGrow(es.Keys, events.Keys);
      KeyId(events.Keys, key);
    }

    /** Erases the event under the timer's own timeout; the maps stay in step if they were. */
    method RemoveTimer(id: Id)
      modifies this
      ensures timers == old(timers) - {id} && lastId == old(lastId) && timers.Values <= old(timers.Values)
      ensures events == if id in old(timers) then old(events) - {(old(timers[id].nextTimeout), id)} else old(events)
      ensures events.Values <= old(events.Values)
      ensures old(Sound()) ==> Sound()
      ensures old(Valid()) ==> Valid()
    {
      if id in timers {
        var timeout := timers[id].nextTimeout;
        ghost var key: Key := (timeout, id);
        if Valid() { InStepDrop(timers, events, key); }
        events := events - {(timeout, id)};
        timers := timers - {id};
        KeysLess(old(events.Keys), key);
      }
    }

    method Begin() returns (k: Key)
      requires events != map[]
      ensures FirstOf(events.Keys, k)
    {
      ghost var first := FirstExists(events.Keys);
      k :| k in events && forall j :: j in events && j != k ==> Before(k, j);
    }

    /** Milliseconds to the first event, 0 if it has passed, -1 without timers. With the maps in step the first
        event is the earliest timeout. */
    method GetTimeRemaining(now: int) returns (r: int)
      requires Sound()
      ensures r == -1 <==> timers == map[]
      ensures r >= 0 ==> exists k :: FirstOf(events.Keys, k) && r == if k.0 < now then 0 else k.0 - now
      ensures Valid() && r >= 0 ==>
                && (exists i :: i in timers && (if r > 0 then timers[i].nextTimeout == now + r else timers[i].nextTimeout <= now))
                && (r > 0 ==> forall i :: i in timers ==> timers[i].nextTimeout >= now + r)
    {
      if timers == map[] { return -1; }
      SomeEvent();
      var k := Begin();
      r := k.0 - now;
      if r < 0 { r := 0; }
      if Valid() { assert k.1 in timers && timers[k.1].nextTimeout == k.0; }
    }

    /** While a timer is live there is an event to look at. */
    lemma SomeEvent()
      requires Sound() && timers != map[]
      ensures events != map[]
    {
      var i :| i in timers;
      assert i in EventIds(events.Keys);
    }

    /** Ends from every state a run can reach. Fires due events in order of (timeout, id), each at most once, and
        all of them unless the last live timer goes first. A callback answering true files its event again, one
        answering false removes the event and the timer of its id. With the maps in step the due events are the
        due timers: each fires once, and is rescheduled from `now` or removed. */
    method HandleTimerEvent(now: int, callback: Key -> bool) returns (fired: seq<Key>)
      requires Sound()
      modifies this, events.Values
      ensures Sound() && lastId == old(lastId) && events.Values <= old(events.Values)
      ensures Progress(old(Pending(events)), fired, now)
      ensures forall a, b :: 0 <= a < b < |fired| ==>
                fired[a].0 < fired[b].0 || (fired[a].0 == fired[b].0 && fired[a].1 < fired[b].1)
      ensures timers != map[] ==> Keys(fired) == DueKeys(old(events.Keys), now)
      ensures Pending(events) == After(old(Pending(events)), Keys(fired), now, callback)
      ensures timers.Keys == old(timers.Keys) - Removed(Keys(fired), callback) && timers.Values <= old(timers.Values)
      ensures old(Valid()) ==>
                && Valid() && Keys(fired) == DueKeys(old(events.Keys), now)
                && Live() == LiveAfter(old(Live()), now, callback)
      ensures old(Valid()) ==> forall i ::
                var was := old(Live());
                && (i in Live() <==> i in was && (was[i].next > now || callback((was[i].next, i))))
                && (i in Live() ==> Live()[i] == if was[i].next > now then was[i] else Entry(now + was[i].interval, was[i].interval))
    {
      hide Queue.Valid, Queue.Live, Queue.Sound, Progress, After, FireStep, Removed, LiveAfter;
      ghost var p, live, ids := Pending(events), Live(), timers.Keys;
      if Valid() { ValidFacts(); }
      fired := [];
      Start(p, now, callback);
      var key, more := NextDue(now);
      while more
        invariant Sound() && lastId == old(lastId) && events.Values <= old(events.Values)
        invariant Progress(p, fired, now) && Pending(events) == After(p, Keys(fired), now, callback)
        invariant timers.Keys == ids - Removed(Keys(fired), callback) && timers.Values <= old(timers.Values)
        invariant old(Valid()) ==> Valid()
        invariant more ==> FirstOf(events.Keys, key) && key.0 <= now
        invariant !more ==> timers == map[] || DueKeys(events.Keys, now) == {}
        decreases DueKeys(p.Keys, now) - Keys(fired)
      {
        ProgressStep(p, fired, now, callback, key);
        Fire(key, now, callback(key));
        fired := fired + [key];
        key, more := NextDue(now);
      }
      InOrder(p, fired, now);
      if timers != map[] { AllDone(p, fired, now, callback); }
      if old(Valid()) {
        Settled(live, p, fired, now, callback);
        LiveAfterAt(live, now, callback);
      }
    }

    /** The end of a call on maps in step. */
    lemma Settled(live: map<Id, Entry>, p: map<Key, Interval>, fired: seq<Key>, now: int, callback: Key -> bool)
      requires Valid() && p == Keyed(live) && Progress(p, fired, now)
      requires Pending(events) == After(p, Keys(fired), now, callback)
      requires timers == map[] || DueKeys(events.Keys, now) == {}
      ensures Keys(fired) == DueKeys(p.Keys, now) && Live() == LiveAfter(live, now, callback)
    {
      hide Queue.Live, Progress, After, LiveAfter, Keyed;
      if timers == map[] { assert events == map[]; }
      assert Pending(events).Keys == events.Keys;
      AllDone(p, fired, now, callback);
      KeyedAfter(live, now, callback);
      ValidFacts();
      KeyedInjective(Live(), LiveAfter(live, now, callback));
    }

    /** One pass of the firing loop, with the callback's answer. */
    method Fire(key: Key, now: int, flag: bool)
      requires Sound() && key in events
      modifies this, events.Values
      ensures Sound() && lastId == old(lastId) && events.Values <= old(events.Values)
      ensures Pending(events) == FireStep(old(Pending(events)), key, now, flag)
      ensures timers == if flag then old(timers) else old(timers) - {key.1}
      ensures old(Valid()) ==> Valid()
    {
      if flag { Reschedule(key, now); } else { Drop(key); }
    }

    method Reschedule(key: Key, now: int)
      requires Sound() && key in events
      modifies this`events, events.Values
      ensures Sound() && events.Values <= old(events.Values)
      ensures Pending(events) == FireStep(old(Pending(events)), key, now, true)
      ensures old(Valid()) ==> Valid()
    {
      var timer := events[key];
      timer.SetNextTimeout(now);
      events := events - {key};
      var next := (timer.nextTimeout, key.1);
      if next !in events { events := events[next := timer]; }
    }

    method Drop(key: Key)
      requires Sound() && key in events
      modifies this`events, this`timers
      ensures Sound() && events.Values <= old(events.Values)
      ensures Pending(events) == FireStep(old(Pending(events)), key, 0, false) && timers == old(timers) - {key.1}
      ensures old(Valid()) ==> Valid()
    {
      hide InStep;
      if Valid() { InStepDrop(timers, events, key); }
      events := events - {key};
      timers := timers - {key.1};
      KeysLess(old(events.Keys), key);
    }

    /** The loop condition: the first event, if a timer is live and that event is due. */
    method NextDue(now: int) returns (key: Key, due: bool)
      requires Sound()
      ensures due ==> FirstOf(events.Keys, key) && key.0 <= now
      ensures !due ==> timers == map[] || DueKeys(events.Keys, now) == {}
    {
      if timers == map[] { return (0, 0), false; }
      SomeEvent();
      key := Begin();
      due := key.0 <= now;
    }
  }

  lemma InOrder(p: map<Key, Interval>, fired: seq<Key>, now: int)
    requires Progress(p, fired, now)
    ensures forall a, b :: 0 <= a < b < |fired| ==>
              fired[a].0 < fired[b].0 || (fired[a].0 == fired[b].0 && fired[a].1 < fired[b].1)
  {
  }

  lemma KeysGrow(a: set<Key>, b: set<Key>)
    requires a <= b
    ensures EventIds(a) <= EventIds(b)
  {
  }

  lemma KeyId(keys: set<Key>, k: Key)
    requires k in keys
    ensures k.1 in EventIds(keys)
  {
  }

  /** Without one event, the ids of the others are still there. */
  lemma KeysLess(a: set<Key>, k: Key)
    ensures EventIds(a) - {k.1} <= EventIds(a - {k})
  {
    forall i | i in EventIds(a) - {k.1} ensures i in EventIds(a - {k}) {
      var j :| j in a && j.1 == i;
      assert j in a - {k};
    }
  }

  lemma AllDone(p: map<Key, Interval>, fired: seq<Key>, now: int, callback: Key -> bool)
    requires Progress(p, fired, now) && DueKeys(After(p, Keys(fired), now, callback).Keys, now) == {}
    ensures Keys(fired) == DueKeys(p.Keys, now)
  {
    var cur := After(p, Keys(fired), now, callback);
    forall k | k in DueKeys(p.Keys, now) ensures k in Keys(fired) {
      assert k !in Keys(fired) ==> k in DueKeys(cur.Keys, now);
    }
  }

  // ----- whole runs -----

  datatype Op = Add(ms: nat, now: int) | Remove(id: Id) | Tick(now: int, callback: Key -> bool)

  ghost function Adds(ops: seq<Op>): nat {
    if ops == [] then 0 else Adds(ops[..|ops| - 1]) + (if ops[|ops| - 1].Add? then 1 else 0)
  }

  /** Any run of operations, whatever the intervals, the number of additions and the answers of the callbacks,
      leaves a queue on which the next call ends. With non-zero intervals and fewer than 2^32 additions the two
      maps stay in step. */
  method RunOps(ops: seq<Op>) returns (q: Queue)
    ensures fresh(q) && q.Sound()
    ensures (forall k :: 0 <= k < |ops| && ops[k].Add? ==> ops[k].ms >= 1) && Adds(ops) < 0x1_0000_0000 ==>
              q.Valid() && q.lastId == Adds(ops)
  {
    hide Queue.Valid, Queue.Live, Queue.Sound, After, Progress;
    ghost var tame := (forall k :: 0 <= k < |ops| && ops[k].Add? ==> ops[k].ms >= 1) && Adds(ops) < 0x1_0000_0000;
    q := new Queue();
    q.LiveKeys();
    for k := 0 to |ops|
      invariant q.Sound() && fresh(q) && fresh(q.timers.Values) && fresh(q.events.Values)
      invariant tame ==> q.Valid() && q.lastId == Adds(ops[..k]) && forall i :: i in q.Live() ==> i <= q.lastId
    {
      AddsStep(ops, k);
      match ops[k]
      case Add(ms, now) =>
        ghost var ts, es := q.timers.Values, q.events.Values;
        var _ := q.AddTimer(ms, now);
        assert q.timers.Values <= ts + (q.timers.Values - ts) && q.events.Values <= es + (q.events.Values - es);
      case Remove(id) =>
        q.LiveKeys();
        q.RemoveTimer(id);
        q.LiveKeys();
      case Tick(now, callback) =>
        LiveAfterKeys(q.Live(), now, callback);
        var _ := q.HandleTimerEvent(now, callback);
    }
    assert ops[..|ops|] == ops;
  }

  lemma LiveAfterKeys(live: map<Id, Entry>, now: int, callback: Key -> bool)
    ensures LiveAfter(live, now, callback).Keys <= live.Keys
  {
  }

  lemma {:induction false} AddsStep(ops: seq<Op>, k: nat)
    requires k < |ops|
    ensures Adds(ops[..0]) == 0
    ensures Adds(ops[..k + 1]) == Adds(ops[..k]) + (if ops[k].Add? then 1 else 0) <= Adds(ops)
  {
    assert ops[..k + 1][..k] == ops[..k];
    AddsMono(ops, k + 1);
  }

  lemma {:induction false} AddsMono(ops: seq<Op>, k: nat)
    requires k <= |ops|
    ensures Adds(ops[..k]) <= Adds(ops)
  {
    var n := |ops|;
    if k == n {
      assert ops[..n] == ops;
    } else {
      AddsMono(ops[..n - 1], k);
      assert ops[..n - 1][..k] == ops[..k];
    }
  }

  /** What a zero interval leads to: the event of a removed timer stays behind, and when another timer keeps the
      queue going its callback is called all the same, and called again as long as it answers true. */
  method StaleEvent(now: int, ms: nat, later: int, answer: bool) returns (q: Queue, fired: seq<Key>)
    requires later >= now && ms >= 1
    ensures fresh(q) && 1 !in q.timers
    ensures fired != [] && fired[0] == (now, 1)
    ensures (later + 1, 1) in q.events <==> answer
  {
    hide Queue.Valid, Queue.Live, Queue.Sound, Progress, After;
    q := LeftBehind(now);
    q.LiveKeys();
    ghost var p0 := Pending(q.events);
    assert p0 == map[(now, 1) := 1];
    var id := q.AddTimer(ms, now);
    q.LiveKeys();
    assert q.timers.Keys == {2};
    var callback := (k: Key) => if k == (now, 1) then answer else true;
    ghost var p := Pending(q.events);
    assert p == p0[(now + ms, 2) := ms];
    fired := q.HandleTimerEvent(later, callback);
    assert 2 !in Removed(Keys(fired), callback);
    assert 2 in q.timers;
    StaleFired(p, fired, now, ms, later, callback);
    assert (later + 1, 1) in q.events <==> (later + 1, 1) in Pending(q.events);
  }

  /** A queue without timers and with one event. */
  method LeftBehind(now: int) returns (q: Queue)
    ensures fresh(q) && fresh(q.events.Values) && q.Sound() && q.lastId == 1
    ensures q.timers == map[] && q.events.Keys == {(now, 1)} && q.events[(now, 1)].interval == 1
  {
    hide InStep, EventIds;
    q := new Queue();
    q.LiveKeys();
    ghost var p := Pending(q.events);
    var id := q.AddTimer(0, now);
    q.LiveKeys();
    assert id == 1 && q.timers.Keys == {1} && q.timers[1].nextTimeout == now + 1;
    assert Pending(q.events) == p[(now, 1) := 1] && q.events.Keys == Pending(q.events).Keys;
    assert q.events[(now, 1)].interval == Pending(q.events)[(now, 1)];
    q.RemoveTimer(1);
  }

  /** In such a queue the stale event fires first, and is filed again exactly when its callback answers true. */
  lemma StaleFired(p: map<Key, Interval>, fired: seq<Key>, now: int, ms: nat, later: int, callback: Key -> bool)
    requires later >= now && ms >= 1 && p == map[(now, 1) := 1][(now + ms, 2) := ms]
    requires Progress(p, fired, later) && Keys(fired) == DueKeys(p.Keys, later)
    ensures fired != [] && fired[0] == (now, 1)
    ensures (later + 1, 1) in After(p, Keys(fired), later, callback) <==> callback((now, 1))
  {
    hide Progress;
    var k: Key := (now, 1);
    assert k in p.Keys && k in Keys(fired);
    Foremost(p, fired, later, k);
    var again := Again(p, Keys(fired), later, callback);
    if callback(k) {
      assert (later + p[k], k.1) in again;
    } else {
      forall d | d in p && callback(d) ensures d.1 == 2 { }
    }
  }

  lemma Foremost(p: map<Key, Interval>, fired: seq<Key>, now: int, k: Key)
    requires Progress(p, fired, now) && k in Keys(fired) && forall j :: j in p && j != k ==> Before(k, j)
    ensures fired != [] && fired[0] == k
  {
    var i :| 0 <= i < |fired| && fired[i] == k;
    if i > 0 { assert Before(fired[0], fired[i]) && fired[0] in Keys(fired); }
  }
}

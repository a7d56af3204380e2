/** The receiver's pool of eight fragment buffers, and what it delivers for interleaved NAL units. */
module Reassembly {
  import opened Common
  import opened Fragmentation

  type Stamp = x: int | 0 <= x < 0x1_0000_0000

  /** `data` is the used part of the buffer, `capacity` what is allocated for it. */
  datatype Slot = Slot(active: bool, ts: Stamp, data: Bytes, capacity: nat)

  const EMPTY := Slot(false, 0, [], 0)
  const MAX_BUFFERS := 8

  // ----- the open units, as a map -----

  type Open = map<Stamp, Bytes>

  ghost function View(s: seq<Slot>): Open {
    if s == [] then map[]
    else if s[0].active then View(s[1..])[s[0].ts := s[0].data]
    else View(s[1..])
  }

  ghost predicate OneSlotPerStamp(s: seq<Slot>) {
    forall i, j :: 0 <= i < j < |s| && s[i].active && s[j].active ==> s[i].ts != s[j].ts
  }

  /** Inactive slots hold nothing, and no slot holds more than it has allocated. */
  ghost predicate SlotOk(s: Slot) {
    (!s.active ==> s.data == [] && s.capacity == 0) && |s.data| <= s.capacity
  }

  lemma {:induction false} ViewSpec(s: seq<Slot>)
    requires OneSlotPerStamp(s)
    ensures forall i :: 0 <= i < |s| && s[i].active ==> s[i].ts in View(s) && View(s)[s[i].ts] == s[i].data
    ensures forall t :: t in View(s) ==> exists i :: 0 <= i < |s| && s[i].active && s[i].ts == t
  {
    if s != [] {
      var r := s[1..];
      assert OneSlotPerStamp(r) by {
        forall i, j | 0 <= i < j < |r| && r[i].active && r[j].active ensures r[i].ts != r[j].ts {
          assert r[i] == s[i + 1] && r[j] == s[j + 1];
        }
      }
      ViewSpec(r);
      forall i | 0 <= i < |s| && s[i].active ensures s[i].ts in View(s) && View(s)[s[i].ts] == s[i].data {
        if i > 0 { assert r[i - 1] == s[i]; }
      }
      forall t | t in View(s) ensures exists i :: 0 <= i < |s| && s[i].active && s[i].ts == t {
        if s[0].active && s[0].ts == t {
        } else {
          var i :| 0 <= i < |r| && r[i].active && r[i].ts == t;
          assert s[i + 1] == r[i];
        }
      }
    }
  }

  lemma {:induction false} FullView(s: seq<Slot>)
    requires OneSlotPerStamp(s) && forall i :: 0 <= i < |s| ==> s[i].active
    ensures |View(s)| == |s|
  {
    if s != [] {
      var r := s[1..];
      assert forall i :: 0 <= i < |r| ==> r[i] == s[i + 1];
      FullView(r);
      ViewSpec(r);
      assert s[0].ts !in View(r);
    }
  }

  /** A map that agrees with the slots in the sense of ViewSpec is the view. */
  lemma ViewIs(s: seq<Slot>, m: Open)
    requires OneSlotPerStamp(s)
    requires forall i :: 0 <= i < |s| && s[i].active ==> s[i].ts in m && m[s[i].ts] == s[i].data
    requires forall t :: t in m ==> exists i :: 0 <= i < |s| && s[i].active && s[i].ts == t
    ensures View(s) == m
  {
    hide View;
    ViewSpec(s);
    forall t | t in View(s) ensures t in m && View(s)[t] == m[t] {
      var i :| 0 <= i < |s| && s[i].active && s[i].ts == t;
    }
    forall t | t in m ensures t in View(s) {
      var i :| 0 <= i < |s| && s[i].active && s[i].ts == t;
    }
  }

  /** Writing a slot that is free, or already belongs to the stamp, sets that stamp's contents. */
  lemma ViewSet(s: seq<Slot>, i: nat, slot: Slot)
    requires i < |s| && OneSlotPerStamp(s) && slot.active
    requires forall j :: 0 <= j < |s| && j != i && s[j].active ==> s[j].ts != slot.ts
    requires s[i].active ==> s[i].ts == slot.ts
    ensures OneSlotPerStamp(s[i := slot]) && View(s[i := slot]) == View(s)[slot.ts := slot.data]
  {
    hide View;
    var u, m := s[i := slot], View(s)[slot.ts := slot.data];
    ViewSpec(s);
    forall t | t in m ensures exists j :: 0 <= j < |u| && u[j].active && u[j].ts == t {
      if t == slot.ts {
        assert u[i] == slot;
      } else {
        var j :| 0 <= j < |s| && s[j].active && s[j].ts == t;
        assert u[j] == s[j];
      }
    }
    ViewIs(u, m);
  }

  /** Releasing a slot forgets its stamp and nothing else. */
  lemma ViewClear(s: seq<Slot>, i: nat)
    requires i < |s| && OneSlotPerStamp(s) && s[i].active
    ensures OneSlotPerStamp(s[i := EMPTY]) && View(s[i := EMPTY]) == View(s) - {s[i].ts}
  {
    hide View;
    var u, m := s[i := EMPTY], View(s) - {s[i].ts};
    ViewSpec(s);
    forall t | t in m ensures exists j :: 0 <= j < |u| && u[j].active && u[j].ts == t {
      var j :| 0 <= j < |s| && s[j].active && s[j].ts == t;
      assert u[j] == s[j];
    }
    ViewIs(u, m);
  }

  // ----- the step the pool must take -----

  function At(open: Open, ts: Stamp): Option<Bytes> {
    if ts in open then Some(open[ts]) else None
  }

  /** One payload: its stamp's assembler moves, every other stamp keeps its contents. */
  function Step(open: Open, ts: Stamp, payload: Bytes): (Open, Option<Bytes>) {
    var r := Assemble(At(open, ts), payload);
    (if r.0.Some? then open[ts := r.0.value] else open - {ts}, r.1)
  }

  /** Which allocation was refused while a fragment was taken in. */
  datatype Failure = Nothing | Header | Body | Copy

  /** One payload under a refused allocation: a refused header or body leaves the unit open without it, a
      refused copy of the finished unit drops the unit. */
  ghost function StepUnder(failed: Failure, open: Open, ts: Stamp, payload: Bytes): (Open, Option<Bytes>)
    requires failed != Nothing ==> IsFu(payload) && (Starts(payload) || ts in open)
  {
    match failed
    case Nothing => Step(open, ts, payload)
    case Header => (open[ts := []], None)
    case Body => (open[ts := if Starts(payload) then Opening(payload) else open[ts]], None)
    case Copy => (open - {ts}, None)
  }

  /** Appending a fragment's bytes to the unit that is open under its stamp. */
  ghost function Appended(failed: Failure, open: Open, ts: Stamp, payload: Bytes): (Open, Option<Bytes>)
    requires ts in open && |payload| >= 3
  {
    var data := open[ts] + payload[3..];
    if failed == Copy then (open - {ts}, None)
    else if failed != Nothing then (open, None)
    else if Ends(payload) then (open - {ts}, Some(data))
    else (open[ts := data], None)
  }

  /** The open units a fragment finds: when it opens a ninth, the unit in slot 0 has made room. */
  ghost function Before(open: Open, victim: Stamp, ts: Stamp, payload: Bytes): Open {
    if IsFu(payload) && Starts(payload) && ts !in open && |open| >= MAX_BUFFERS then open - {victim} else open
  }

  /** A new stamp takes a free slot; when there is none, it takes slot 0 from `victim`. */
  ghost function Claimed(open: Open, victim: Stamp, ts: Stamp): Open {
    (if |open| < MAX_BUFFERS then open else open - {victim})[ts := []]
  }

  class Pool {
    const slots: array<Slot>

    ghost predicate Valid()
      reads this, slots
    {
      && slots.Length == MAX_BUFFERS
      && OneSlotPerStamp(slots[..])
      && forall i :: 0 <= i < slots.Length ==> SlotOk(slots[i])
    }

    constructor ()
      ensures Valid() && fresh(slots) && View(slots[..]) == map[] && slots.Length == 8
    {
      slots := new Slot[MAX_BUFFERS](_ => EMPTY);
      new;
      ViewSpec(slots[..]);
    }

    /** The slot of a stamp, or a new one: the first free slot, else slot 0, whose unit is lost. */
    method BufferGet(ts: Stamp, create: bool) returns (i: int)
      requires Valid()
      modifies slots
      ensures Valid() && -1 <= i < MAX_BUFFERS
      ensures i >= 0 ==> slots[i].active && slots[i].ts == ts
      ensures i >= 0 ==> ts in View(slots[..]) && View(slots[..])[ts] == slots[i].data
      ensures ts in old(View(slots[..])) || !create ==> slots[..] == old(slots[..])
      ensures i == -1 <==> ts !in old(View(slots[..])) && !create
      ensures ts !in old(View(slots[..])) && create ==>
                View(slots[..]) == Claimed(old(View(slots[..])), old(slots[0].ts), ts)
    {
      ViewSpec(slots[..]);
      i := 0;
      while i < MAX_BUFFERS
        invariant 0 <= i <= MAX_BUFFERS
        invariant forall k :: 0 <= k < i ==> !(slots[k].active && slots[k].ts == ts)
      {
        if slots[i].active && slots[i].ts == ts { return; }
        i := i + 1;
      }
      if !create {
        return -1;
      }
      i := Claim(ts);
    }

    method Claim(ts: Stamp) returns (i: int)
      requires Valid() && forall k :: 0 <= k < MAX_BUFFERS ==> !(slots[k].active && slots[k].ts == ts)
      modifies slots
      ensures Valid() && 0 <= i < MAX_BUFFERS
      ensures slots[i] == Slot(true, ts, [], 0)
      ensures View(slots[..]) == Claimed(old(View(slots[..])), old(slots[0].ts), ts)
    {
      ghost var s := slots[..];
      var fresh0 := Slot(true, ts, [], 0);
      i := 0;
      while i < MAX_BUFFERS
        invariant 0 <= i <= MAX_BUFFERS && slots[..] == s
        invariant forall k :: 0 <= k < i ==> slots[k].active
      {
        if !slots[i].active {
          Room(s, i);
          ViewSet(s, i, fresh0);
          slots[i] := fresh0;
          assert slots[..] == s[i := fresh0];
          return;
        }
        i := i + 1;
      }
      FullView(s);
      ViewClear(s, 0);
      ViewSet(s[0 := EMPTY], 0, fresh0);
      slots[0] := EMPTY;
      slots[0] := fresh0;
      assert slots[..] == s[0 := EMPTY][0 := fresh0];
      i := 0;
    }

    /** Grows an allocation by doubling, from 2048, until it covers `need`; `grow` is what realloc answers. */
    static method Reserve(capacity: nat, need: nat, grow: nat -> bool) returns (ok: bool, r: nat)
      ensures ok ==> r >= need && r >= capacity
      ensures !ok ==> r == capacity < need && exists n :: n >= need && !grow(n)
      ensures capacity >= need ==> ok && r == capacity
      ensures capacity < need ==> r < 2 * need || r == 2048 || r == 2 * capacity
    {
      if capacity >= need { return true, capacity; }
      r := if capacity != 0 then capacity * 2 else 2048;
      while r < need
        invariant r >= capacity && r > 0
        invariant r < 2 * need || r == 2048 || r == 2 * capacity
        decreases need - r
      {
        r := r * 2;
      }
      ok := grow(r);
      if !ok { r := capacity; }
    }

    /** One fragment. Unless a ninth unit opens, the pool takes exactly the step of the map; a ninth first
        evicts the unit in slot 0. `grow` and `copy` are the answers of realloc and malloc: a refusal costs
        bytes of this unit, or the unit, and nothing of any other. */
    method FuProcess(payload: Bytes, ts: Stamp, grow: nat -> bool, copy: nat -> bool)
      returns (out: Option<Bytes>, ghost failed: Failure)
      requires Valid()
      modifies slots
      ensures Valid()
      ensures failed != Nothing ==> (exists n :: !grow(n)) || (exists n :: !copy(n))
      ensures var start := Before(old(View(slots[..])), old(slots[0].ts), ts, payload);
              && (failed != Nothing ==> IsFu(payload) && (Starts(payload) || ts in start))
              && (View(slots[..]), out) == StepUnder(failed, start, ts, payload)
      ensures OnlyOwn(old(View(slots[..])), old(slots[0].ts), ts, payload, View(slots[..]))
    {
      hide NalType, RebuiltHeader, View, Step, Opening, At, OnlyOwn;
      failed := Nothing;
      ghost var open := View(slots[..]);
      OthersKept(open, slots[0].ts, ts, payload);
      ghost var start := Before(open, slots[0].ts, ts, payload);
      StepIdle(open, ts, payload);
      if |payload| < 3 || NalType(payload[0]) != 49 {
        return None, failed;
      }
      var i := BufferGet(ts, Starts(payload));
      if i < 0 {
        return None, failed;
      }
      ghost var base := View(slots[..]);
      if Starts(payload) {
        var ok := Write(i, [], Opening(payload), grow);
        BaseSet(start, base, ts, []);
        if !ok {
          failed := Header;
          return None, failed;
        }
      }
      AppendedIsStep(start, base, ts, payload);
      out, failed := Append(i, payload, grow, copy);
    }

    /** The part of fu_process after the header: the fragment's bytes, and the finished unit. */
    method Append(i: nat, payload: Bytes, grow: nat -> bool, copy: nat -> bool)
      returns (out: Option<Bytes>, ghost failed: Failure)
      requires Valid() && i < MAX_BUFFERS && slots[i].active && |payload| >= 3
      requires slots[i].ts in View(slots[..]) && View(slots[..])[slots[i].ts] == slots[i].data
      modifies slots
      ensures Valid()
      ensures failed != Header && (failed != Nothing ==> (exists n :: !grow(n)) || (exists n :: !copy(n)))
      ensures (View(slots[..]), out) == Appended(failed, old(View(slots[..])), old(slots[i].ts), payload)
    {
      hide View;
      failed := Nothing;
      ghost var open, ts := View(slots[..]), slots[i].ts;
      var ok := Write(i, slots[i].data, payload[3..], grow);
      if !ok {
        assert open[ts := open[ts]] == open;
        return None, Body;
      }
      out := None;
      if Ends(payload) {
        var granted := copy(|slots[i].data|);
        if granted { out := Some(slots[i].data); } else { failed := Copy; }
        ghost var u := slots[..];
        ViewClear(u, i);
        slots[i] := EMPTY;
        assert slots[..] == u[i := EMPTY];
        assert open[ts := u[i].data] - {ts} == open - {ts};
      }
    }

    /** Sets the size back to that of `kept`, makes room and appends; without room nothing is appended. */
    method Write(i: nat, kept: Bytes, more: Bytes, grow: nat -> bool) returns (ok: bool)
      requires Valid() && i < MAX_BUFFERS && slots[i].active && |kept| <= |slots[i].data|
      modifies slots
      ensures Valid() && slots[i].active && slots[i].ts == old(slots[i].ts)
      ensures slots[i].data == if ok then kept + more else kept
      ensures !ok ==> exists n :: !grow(n)
      ensures View(slots[..]) == old(View(slots[..]))[slots[i].ts := slots[i].data]
    {
      hide View;
      ghost var s := slots[..];
      var capacity: nat;
      ok, capacity := Reserve(slots[i].capacity, |kept| + |more|, grow);
      var slot := Slot(true, slots[i].ts, if ok then kept + more else kept, capacity);
      assert forall k :: 0 <= k < |s| && k != i && s[k].active ==> s[k].ts != slot.ts;
      ViewSet(s, i, slot);
      slots[i] := slot;
      assert slots[..] == s[i := slot];
    }
  }

  /** Only the stamp of the payload moves, and that of slot 0 when a ninth unit starts. */
  ghost predicate OnlyOwn(open: Open, victim: Stamp, ts: Stamp, payload: Bytes, now: Open) {
    && (forall s :: s != ts && s != victim ==> At(now, s) == At(open, s))
    && (|open| < 8 || ts in open || |payload| < 3 || payload[2] & 0x80 == 0 ==>
          forall s :: s != ts ==> At(now, s) == At(open, s))
  }

  lemma OthersKept(open: Open, victim: Stamp, ts: Stamp, payload: Bytes)
    ensures var start := Before(open, victim, ts, payload);
            forall failed | failed != Nothing ==> IsFu(payload) && (Starts(payload) || ts in start) ::
              OnlyOwn(open, victim, ts, payload, StepUnder(failed, start, ts, payload).0)
  {
    hide OnlyOwn, StepUnder, Before, NalType;
    var start := Before(open, victim, ts, payload);
    forall failed | failed != Nothing ==> IsFu(payload) && (Starts(payload) || ts in start)
      ensures OnlyOwn(open, victim, ts, payload, StepUnder(failed, start, ts, payload).0)
    {
      OthersKeptFor(open, victim, ts, payload, failed);
    }
  }

  lemma OthersKeptFor(open: Open, victim: Stamp, ts: Stamp, payload: Bytes, failed: Failure)
    requires failed != Nothing ==> IsFu(payload) && (Starts(payload) || ts in Before(open, victim, ts, payload))
    ensures OnlyOwn(open, victim, ts, payload, StepUnder(failed, Before(open, victim, ts, payload), ts, payload).0)
  {
    hide NalType, RebuiltHeader, Opening, Assemble;
  }

  /** What the receive loop writes out for one payload. */
  method OnPayload(pool: Pool, payload: Bytes, ts: Stamp) returns (out: Option<Bytes>)
    requires pool.Valid()
    modifies pool.slots
    ensures pool.Valid()
    ensures |payload| == 0 ==> out == None && pool.slots[..] == old(pool.slots[..])
    ensures |payload| > 0 && NalType(payload[0]) != 49 ==>
              out == Some(START_CODE + payload) && pool.slots[..] == old(pool.slots[..])
    ensures |payload| > 0 && NalType(payload[0]) == 49 ==>
              (View(pool.slots[..]), out)
              == Step(Before(old(View(pool.slots[..])), old(pool.slots[0].ts), ts, payload), ts, payload)
  {
    hide NalType, Step, View, Before;
    if |payload| == 0 {
      out := None;
    } else if NalType(payload[0]) != 49 {
      out := Some(START_CODE + payload);
    } else {
      var r, _ := pool.FuProcess(payload, ts, _ => true, _ => true);
      out := r;
    }
  }

  /** Sender to receiver. A long NAL unit always arrives as the start code and its own bytes; one that
      fits a packet does so exactly when its type is not 49. */
  method SendAndReceive(nal: Bytes, ts: Stamp) returns (out: seq<Bytes>)
    requires |nal| >= 1
    ensures |nal| > MAX_PAYLOAD ==> out == [START_CODE + nal]
    ensures |nal| <= MAX_PAYLOAD ==> (out == [START_CODE + nal] <==> NalType(nal[0]) != 49)
  {
    hide NalType, Step, View;
    var pool := new Pool();
    if |nal| > MAX_PAYLOAD {
      out := SendUnit(pool, nal, ts);
    } else {
      var r := OnPayload(pool, nal, ts);
      out := if r.Some? then [r.value] else [];
      LonePacket(nal, ts);
    }
  }

  /** One unit through a pool in any valid state: whatever is open, under this stamp or others, it arrives
      once and intact. */
  method SendUnit(pool: Pool, nal: Bytes, ts: Stamp) returns (out: seq<Bytes>)
    requires pool.Valid() && |nal| >= 1 && (|nal| <= MAX_PAYLOAD ==> NalType(nal[0]) != 49)
    modifies pool.slots
    ensures pool.Valid() && out == [START_CODE + nal]
  {
    hide NalType, Step, View, Feed, Before;
    var ok, sent := HandleFrame(nal, _ => true);
    PacketsAreFragments(nal);
    if |nal| <= MAX_PAYLOAD {
      assert sent[0] == nal;
      var r := OnPayload(pool, sent[0], ts);
      return [r.value];
    }
    out := [];
    FeedNothing();
    assert sent[..0] == [];
    for i := 0 to |sent|
      invariant pool.Valid() && out == Feed(sent[..i]).1
      invariant i > 0 ==> At(View(pool.slots[..]), ts) == Feed(sent[..i]).0
    {
      ghost var open, victim := View(pool.slots[..]), pool.slots[0].ts;
      FragmentType(nal, sent, i);
      FragmentBits(nal, sent, i);
      StepOne(open, victim, ts, sent[..i], sent[i]);
      assert sent[..i + 1] == sent[..i] + [sent[i]];
      var r := OnPayload(pool, sent[i], ts);
      out := out + (if r.Some? then [r.value] else []);
    }
    assert sent[..|sent|] == sent;
    FeedFragments(nal, sent);
  }

  /** Any list of units, short and long, one after the other through one pool, under any stamps: all arrive,
      once, intact and in order. */
  method SendAll(pool: Pool, units: seq<(Stamp, Bytes)>) returns (out: seq<Bytes>)
    requires pool.Valid()
    requires forall i :: 0 <= i < |units| ==>
               |units[i].1| >= 1 && (|units[i].1| <= 1420 ==> (units[i].1[0] >> 1) & 0x3F != 49)
    modifies pool.slots
    ensures pool.Valid() && |out| == |units|
    ensures forall i :: 0 <= i < |units| ==> out[i] == [0, 0, 0, 1] + units[i].1
  {
    out := [];
    for i := 0 to |units|
      invariant pool.Valid() && |out| == i && forall j :: 0 <= j < i ==> out[j] == START_CODE + units[j].1
    {
      var r := SendUnit(pool, units[i].1, units[i].0);
      out := out + r;
    }
  }

  /** A first fragment starts its stamp anew, whatever was open; a later one continues. */
  lemma StepOne(open: Open, victim: Stamp, ts: Stamp, fed: seq<Bytes>, payload: Bytes)
    requires IsFu(payload) && (if fed == [] then Starts(payload) else !Starts(payload) && At(open, ts) == Feed(fed).0)
    ensures var r := Step(Before(open, victim, ts, payload), ts, payload);
            (At(r.0, ts), Feed(fed).1 + (if r.1.Some? then [r.1.value] else [])) == Feed(fed + [payload])
  {
    hide NalType, RebuiltHeader, Feed, Opening;
    FeedNothing();
    FeedMore(fed, payload);
  }

  lemma FragmentType(nal: Bytes, parts: seq<Bytes>, i: nat)
    requires FragmentsOf(nal, parts) && i < |parts|
    ensures |parts[i]| > 0 && NalType(parts[i][0]) == 49
  {
    assert IsPart(nal, parts[i], i == 0, i == |parts| - 1);
    assert parts[i][0] == parts[i][..3][0];
    HeaderRoundTrip(nal[0], nal[1], true, false);
  }

  /** A NAL unit of type 49 sent whole is taken for a fragment, and never comes out as itself. */
  lemma LonePacket(nal: Bytes, ts: Stamp)
    requires |nal| >= 1
    ensures NalType(nal[0]) == 49 ==> Step(map[], ts, nal).1 != Some(START_CODE + nal)
  {
    hide NalType, RebuiltHeader;
    if |nal| >= 3 { assert |Opening(nal) + nal[3..]| < |START_CODE + nal|; }
  }

  lemma Room(s: seq<Slot>, i: nat)
    requires OneSlotPerStamp(s) && i < |s| && !s[i].active
    ensures |View(s)| < |s|
  {
    ViewSize(s);
  }

  lemma {:induction false} ViewSize(s: seq<Slot>)
    ensures |View(s)| <= |s|
    ensures (exists i :: 0 <= i < |s| && !s[i].active) ==> |View(s)| < |s|
  {
    if s != [] {
      ViewSize(s[1..]);
      if i :| 0 <= i < |s| && !s[i].active {
        if i > 0 { assert s[1..][i - 1] == s[i]; }
      }
    }
  }

  /** Payloads that are not fragments, or that continue nothing, change nothing. */
  lemma StepIdle(open: Open, ts: Stamp, payload: Bytes)
    ensures !IsFu(payload) || (!Starts(payload) && ts !in open) ==> Step(open, ts, payload) == (open, None)
  {
    assert ts in open ==> open[ts := open[ts]] == open;
    assert ts !in open ==> open - {ts} == open;
  }

  /** The contents after the slot has been found or claimed, with other data for the stamp. */
  lemma BaseSet(start: Open, base: Open, ts: Stamp, data: Bytes)
    requires base == if ts in start then start else start[ts := []]
    ensures base[ts := data] == start[ts := data] && base[ts := data][ts := data] == start[ts := data]
  {
  }

  /** The step, from the contents after the slot has been found or claimed and the header written. */
  lemma AppendedIsStep(start: Open, base: Open, ts: Stamp, payload: Bytes)
    requires IsFu(payload) && (ts in start || Starts(payload))
    requires base == if ts in start then start else start[ts := []]
    ensures var mid := if Starts(payload) then base[ts := [] + Opening(payload)] else base;
            forall failed | failed != Header :: Appended(failed, mid, ts, payload) == StepUnder(failed, start, ts, payload)
  {
    hide NalType, RebuiltHeader, Opening;
    var mid := if Starts(payload) then base[ts := [] + Opening(payload)] else base;
    assert [] + Opening(payload) == Opening(payload);
    assert mid - {ts} == start - {ts};
    assert mid[ts := mid[ts]] == start[ts := mid[ts]] == mid;
    var data := mid[ts] + payload[3..];
    assert mid[ts := data] == start[ts := data];
  }

  // ----- whole runs -----

  datatype Arrival = Arrival(ts: Stamp, payload: Bytes)

  /** The map after a trace, and the units delivered in order. */
  ghost function Run(trace: seq<Arrival>): (Open, seq<(Stamp, Bytes)>) {
    if trace == [] then (map[], [])
    else
      var n := |trace| - 1;
      var before := Run(trace[..n]);
      var after := Step(before.0, trace[n].ts, trace[n].payload);
      (after.0, before.1 + (if after.1.Some? then [(trace[n].ts, after.1.value)] else []))
  }

  /** The payloads of one stamp, in order. */
  ghost function Sub(trace: seq<Arrival>, ts: Stamp): seq<Bytes> {
    if trace == [] then []
    else
      var n := |trace| - 1;
      Sub(trace[..n], ts) + (if trace[n].ts == ts then [trace[n].payload] else [])
  }

  /** The units delivered for one stamp, in order. */
  ghost function Delivered(out: seq<(Stamp, Bytes)>, ts: Stamp): seq<Bytes> {
    if out == [] then []
    else
      var n := |out| - 1;
      Delivered(out[..n], ts) + (if out[n].0 == ts then [out[n].1] else [])
  }

  /** Stamps do not disturb each other: each one sees only its own payloads, whatever they are. */
  lemma {:induction false} Locality(trace: seq<Arrival>, ts: Stamp)
    ensures Feed(Sub(trace, ts)) == (At(Run(trace).0, ts), Delivered(Run(trace).1, ts))
  {
    hide Feed, Step, Assemble, Run, Sub, Delivered;
    if trace == [] {
      FeedNothing();
      NothingYet(ts);
    } else {
      var n := |trace| - 1;
      assert trace[..n + 1] == trace;
      Locality(trace[..n], ts);
      RunStep(trace, n);
      SubStep(trace, n, ts);
      var a, before, subs := trace[n], Run(trace[..n]), Sub(trace[..n], ts);
      StepAt(before.0, a.ts, a.payload, ts);
      DeliveredMaybe(before.1, a.ts, Step(before.0, a.ts, a.payload).1, ts);
      if a.ts == ts {
        FeedMore(subs, a.payload);
      }
    }
  }

  lemma NothingYet(ts: Stamp)
    ensures Run([]) == (map[], []) && Sub([], ts) == [] && Delivered([], ts) == []
  {
  }

  lemma SubStep(trace: seq<Arrival>, i: nat, ts: Stamp)
    requires i < |trace|
    ensures Sub(trace[..i + 1], ts) == if trace[i].ts == ts then Sub(trace[..i], ts) + [trace[i].payload] else Sub(trace[..i], ts)
  {
    assert trace[..i + 1][..i] == trace[..i];
  }

  lemma DeliveredMaybe(out: seq<(Stamp, Bytes)>, from: Stamp, unit: Option<Bytes>, ts: Stamp)
    ensures Delivered(out + (if unit.Some? then [(from, unit.value)] else []), ts)
         == if from == ts then Delivered(out, ts) + (if unit.Some? then [unit.value] else []) else Delivered(out, ts)
  {
    if unit.Some? {
      assert (out + [(from, unit.value)])[..|out|] == out;
    } else {
      assert out + [] == out;
    }
  }

  /** A step moves its own stamp's assembler and no other. */
  lemma StepAt(open: Open, ts: Stamp, payload: Bytes, other: Stamp)
    ensures var r := Step(open, ts, payload);
            if other == ts then (At(r.0, ts), r.1) == Assemble(At(open, ts), payload) else At(r.0, other) == At(open, other)
  {
    hide Assemble;
  }

  /** Payloads that are the fragments of these NAL units, one unit after the other. */
  ghost predicate FragmentsInTurn(nals: seq<Bytes>, payloads: seq<Bytes>)
    decreases |nals|
  {
    if nals == [] then payloads == []
    else
      var n := |nals| - 1;
      exists k :: 0 <= k <= |payloads| && FragmentsOf(nals[n], payloads[k..]) && FragmentsInTurn(nals[..n], payloads[..k])
  }

  ghost function Framed(nals: seq<Bytes>): seq<Bytes> {
    if nals == [] then [] else Framed(nals[..|nals| - 1]) + [START_CODE + nals[|nals| - 1]]
  }

  /** The assembler delivers every one of them. */
  lemma {:induction false} FeedInTurn(nals: seq<Bytes>, payloads: seq<Bytes>)
    requires FragmentsInTurn(nals, payloads)
    ensures Feed(payloads) == (None, Framed(nals))
    decreases |nals|
  {
    hide Feed, FragmentsOf;
    FeedNothing();
    if nals != [] {
      var n := |nals| - 1;
      var k :| 0 <= k <= |payloads| && FragmentsOf(nals[n], payloads[k..]) && FragmentsInTurn(nals[..n], payloads[..k]);
      FeedInTurn(nals[..n], payloads[..k]);
      FragmentCount(nals[n], payloads[k..]);
      FeedUnit(payloads[..k], nals[n], payloads[k..], |payloads| - k);
      assert payloads[..k] + payloads[k..][..|payloads| - k] == payloads;
    }
  }

  lemma FragmentCount(nal: Bytes, parts: seq<Bytes>)
    requires FragmentsOf(nal, parts)
    ensures |parts| >= 2
  {
  }

  /** At payload j of such a list: it is a fragment; with its S bit it finds no unit open, and is not itself
      the end; after it a unit is open exactly when its E bit is clear. */
  lemma {:induction false} PayloadInTurn(nals: seq<Bytes>, payloads: seq<Bytes>, j: nat)
    requires FragmentsInTurn(nals, payloads) && j < |payloads|
    ensures var p := payloads[j];
            && |p| >= 3 && (Starts(p) ==> !Ends(p) && Feed(payloads[..j]).0 == None)
            && (Feed(payloads[..j + 1]).0.Some? <==> !Ends(p))
    decreases |nals|
  {
    hide Feed, FragmentsOf, Starts, Ends;
    var n := |nals| - 1;
    var k :| 0 <= k <= |payloads| && FragmentsOf(nals[n], payloads[k..]) && FragmentsInTurn(nals[..n], payloads[..k]);
    if j < k {
      PayloadInTurn(nals[..n], payloads[..k], j);
      assert payloads[..k][..j] == payloads[..j] && payloads[..k][..j + 1] == payloads[..j + 1];
    } else {
      FeedInTurn(nals[..n], payloads[..k]);
      var parts, i := payloads[k..], j - k;
      FragmentCount(nals[n], parts);
      FragmentBits(nals[n], parts, i);
      FeedUnit(payloads[..k], nals[n], parts, i + 1);
      assert payloads[..k] + parts[..i + 1] == payloads[..j + 1];
      if i == 0 { assert payloads[..j] == payloads[..k]; }
    }
  }

  /** A trace that interleaves, for each stamp, the fragments of its NAL units in order. Units of one access
      unit share a stamp. */
  ghost predicate Interleaves(trace: seq<Arrival>, nals: map<Stamp, seq<Bytes>>) {
    && (forall a :: a in trace ==> a.ts in nals)
    && (forall ts :: ts in nals ==> FragmentsInTurn(nals[ts], Sub(trace, ts)))
  }

  /** Every unit is delivered exactly once, intact and in order within its stamp, and nothing is left open. */
  lemma InterleavedUnits(trace: seq<Arrival>, nals: map<Stamp, seq<Bytes>>)
    requires Interleaves(trace, nals)
    ensures forall ts :: ts in nals ==> Delivered(Run(trace).1, ts) == Framed(nals[ts])
    ensures Run(trace).0 == map[]
  {
    hide FragmentsInTurn, Framed, Feed;
    forall ts | ts in nals
      ensures Delivered(Run(trace).1, ts) == Framed(nals[ts]) && ts !in Run(trace).0
    {
      FeedInTurn(nals[ts], Sub(trace, ts));
      Locality(trace, ts);
    }
    OpenStamps(trace);
    assert forall ts :: ts !in Run(trace).0;
  }

  lemma {:induction false} OpenStamps(trace: seq<Arrival>)
    ensures forall ts :: ts in Run(trace).0 ==> exists a :: a in trace && a.ts == ts
  {
    if trace != [] {
      var n := |trace| - 1;
      OpenStamps(trace[..n]);
      forall ts | ts in Run(trace).0 ensures exists a :: a in trace && a.ts == ts {
        if ts == trace[n].ts {
          assert trace[n] in trace;
        } else {
          assert ts in Run(trace[..n]).0;
          var a :| a in trace[..n] && a.ts == ts;
          assert a in trace;
        }
      }
    }
  }

  /** The stamps with a unit in progress after k arrivals: some fragment has come, and the last one to come
      was not the end of a unit. */
  ghost function InProgress(trace: seq<Arrival>, nals: map<Stamp, seq<Bytes>>, k: nat): set<Stamp>
    requires k <= |trace|
  {
    set ts | ts in nals && MidUnit(Sub(trace[..k], ts))
  }

  ghost predicate MidUnit(payloads: seq<Bytes>) {
    payloads != [] && var last := payloads[|payloads| - 1]; |last| >= 3 && !Ends(last)
  }

  lemma {:induction false} SubPrefix(trace: seq<Arrival>, ts: Stamp, k: nat)
    requires k <= |trace|
    ensures Sub(trace[..k], ts) <= Sub(trace, ts)
  {
    var n := |trace|;
    if k == n {
      assert trace[..n] == trace;
    } else {
      SubPrefix(trace[..n - 1], ts, k);
      assert trace[..n - 1][..k] == trace[..k];
    }
  }

  /** The map holds exactly the units in progress. */
  lemma OpenIsInProgress(trace: seq<Arrival>, nals: map<Stamp, seq<Bytes>>, k: nat)
    requires Interleaves(trace, nals) && k <= |trace|
    ensures Run(trace[..k]).0.Keys == InProgress(trace, nals, k)
  {
    hide FragmentsInTurn, Run, Sub, MidUnit;
    var open := Run(trace[..k]).0;
    OpenStamps(trace[..k]);
    forall ts | ts in nals ensures ts in open <==> ts in InProgress(trace, nals, k) {
      OpenAt(trace, nals, k, ts);
    }
    forall ts | ts in open ensures ts in nals {
      var a :| a in trace[..k] && a.ts == ts;
      assert a in trace;
    }
  }

  lemma OpenAt(trace: seq<Arrival>, nals: map<Stamp, seq<Bytes>>, k: nat, ts: Stamp)
    requires Interleaves(trace, nals) && k <= |trace| && ts in nals
    ensures ts in Run(trace[..k]).0 <==> MidUnit(Sub(trace[..k], ts))
  {
    hide FragmentsInTurn, Feed, Ends, Starts, Run, Sub;
    Locality(trace[..k], ts);
    SubPrefix(trace, ts, k);
    var payloads, j := Sub(trace, ts), |Sub(trace[..k], ts)|;
    assert Sub(trace[..k], ts) == payloads[..j];
    if j > 0 {
      PayloadInTurn(nals[ts], payloads, j - 1);
    } else {
      assert Sub(trace[..k], ts) == [];
      FeedNothing();
    }
  }

  /** The real pool, fed any such trace with at most eight units in progress at a time, delivers every
      unit exactly once and intact. */
  method Receive(trace: seq<Arrival>, ghost nals: map<Stamp, seq<Bytes>>) returns (out: seq<(Stamp, Bytes)>)
    requires Interleaves(trace, nals)
    requires forall k :: 0 <= k <= |trace| ==> |InProgress(trace, nals, k)| <= 8
    ensures forall ts :: ts in nals ==> Delivered(out, ts) == Framed(nals[ts])
  {
    out := Drain(trace, nals);
    InterleavedUnits(trace, nals);
  }

  method Drain(trace: seq<Arrival>, ghost nals: map<Stamp, seq<Bytes>>) returns (out: seq<(Stamp, Bytes)>)
    requires Interleaves(trace, nals)
    requires forall k :: 0 <= k <= |trace| ==> |InProgress(trace, nals, k)| <= 8
    ensures out == Run(trace).1
  {
    hide View, Step, NalType, Interleaves;
    var pool := new Pool();
    out := [];
    var i := 0;
    assert trace[..0] == [];
    while i < |trace|
      invariant 0 <= i <= |trace| && pool.Valid() && fresh(pool) && fresh(pool.slots)
      invariant (View(pool.slots[..]), out) == Run(trace[..i])
    {
      NoEviction(trace, nals, i);
      RunStep(trace, i);
      var r, _ := pool.FuProcess(trace[i].payload, trace[i].ts, _ => true, _ => true);
      out := out + (if r.Some? then [(trace[i].ts, r.value)] else []);
      i := i + 1;
    }
    assert trace[..i] == trace;
  }

  lemma RunStep(trace: seq<Arrival>, i: nat)
    requires i < |trace|
    ensures var before, a := Run(trace[..i]), trace[i];
            var after := Step(before.0, a.ts, a.payload);
            Run(trace[..i + 1]) == (after.0, before.1 + (if after.1.Some? then [(a.ts, after.1.value)] else []))
  {
    assert trace[..i + 1][..i] == trace[..i];
  }

  /** With eight units in progress the next fragment does not open a ninth. */
  lemma NoEviction(trace: seq<Arrival>, nals: map<Stamp, seq<Bytes>>, i: nat)
    requires Interleaves(trace, nals) && i < |trace|
    requires forall k :: 0 <= k <= |trace| ==> |InProgress(trace, nals, k)| <= 8
    ensures var open, a := Run(trace[..i]).0, trace[i];
            !(IsFu(a.payload) && Starts(a.payload) && a.ts !in open && |open| >= MAX_BUFFERS)
  {
    hide NalType, RebuiltHeader, FuIndicator, FuHeader, Run, FragmentsInTurn, Starts;
    var open, a := Run(trace[..i]).0, trace[i];
    if IsFu(a.payload) && Starts(a.payload) && a.ts !in open {
      var now, next := InProgress(trace, nals, i), InProgress(trace, nals, i + 1);
      OpenIsInProgress(trace, nals, i);
      OpeningFragment(trace, nals, i);
      assert now + {a.ts} <= next;
      SubsetSize(now + {a.ts}, next);
      assert |open| == |open.Keys|;
    }
  }

  lemma {:induction false} SubsetSize<T>(a: set<T>, b: set<T>)
    requires a <= b
    ensures |a| <= |b|
  {
    if a != {} {
      var x :| x in a;
      SubsetSize(a - {x}, b - {x});
    }
  }

  /** A fragment with the S bit is the first of its unit, which is then in progress. */
  lemma OpeningFragment(trace: seq<Arrival>, nals: map<Stamp, seq<Bytes>>, i: nat)
    requires Interleaves(trace, nals) && i < |trace|
    requires |trace[i].payload| >= 3 && Starts(trace[i].payload)
    ensures trace[i].ts in InProgress(trace, nals, i + 1)
    ensures forall ts :: ts in InProgress(trace, nals, i) ==> ts in InProgress(trace, nals, i + 1)
  {
    hide FragmentsInTurn, Starts, Ends, Sub;
    var a := trace[i];
    assert a in trace;
    var payloads, before := Sub(trace, a.ts), Sub(trace[..i], a.ts);
    SubStep(trace, i, a.ts);
    SubPrefix(trace, a.ts, i + 1);
    assert payloads[|before|] == a.payload;
    PayloadInTurn(nals[a.ts], payloads, |before|);
    forall ts | ts in InProgress(trace, nals, i) ensures ts in InProgress(trace, nals, i + 1) {
      if ts != a.ts { SubStep(trace, i, ts); }
    }
  }
}

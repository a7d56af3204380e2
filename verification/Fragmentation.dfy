/** Fragmentation units for HEVC over RTP (section 4.4.3 of RFC 7798): what a fragment carries, the
    sender that cuts a NAL unit, and the assembler of one timestamp. */
module Fragmentation {
  import opened Common

  const MAX_PAYLOAD := 1420
  const START_CODE: Bytes := [0, 0, 0, 1]

  // ----- header bytes -----

  function FuIndicator(b0: bv8): bv8 { (b0 & 0x81) | 0x62 }

  function FuHeader(b0: bv8, start: bool, end: bool): bv8 {
    ((b0 & 0x7E) >> 1) | (if start then 0x80 else 0) | (if end then 0x40 else 0)
  }

  /** The two header bytes the receiver rebuilds, through the 16-bit header of the source. */
  function RebuiltHeader(p0: bv8, p1: bv8, fu: bv8): (bv8, bv8) {
    var hdr := ((p0 as bv16) << 8) | (p1 as bv16);
    var f, layer, tid := (hdr >> 15) & 0x01, (hdr >> 3) & 0x3F, hdr & 0x07;
    var orig := (f << 15) | (((fu & 0x3F) as bv16) << 9) | (layer << 3) | tid;
    (((orig >> 8) & 0xFF) as bv8, (orig & 0xFF) as bv8)
  }

  /** The header survives the trip: the indicator is of type 49, the S and E bits are read back,
      and the rebuilt header is the original one. */
  lemma HeaderRoundTrip(b0: bv8, b1: bv8, start: bool, end: bool)
    ensures (FuIndicator(b0) >> 1) & 0x3F == 49 && FuIndicator(b0) & 0x81 == b0 & 0x81
    ensures FuHeader(b0, start, end) & 0x3F == (b0 >> 1) & 0x3F
    ensures NalType(FuIndicator(b0)) == 49
    ensures (FuHeader(b0, start, end) & 0x80 != 0) == start
    ensures (FuHeader(b0, start, end) & 0x40 != 0) == end
    ensures RebuiltHeader(FuIndicator(b0), b1, FuHeader(b0, start, end)) == (b0, b1)
  {
  }

  // ----- what a list of fragments of one NAL unit is -----

  function Bodies(parts: seq<Bytes>): Bytes
    requires forall k :: 0 <= k < |parts| ==> |parts[k]| >= 3
  {
    if parts == [] then [] else Bodies(parts[..|parts| - 1]) + parts[|parts| - 1][3..]
  }

  /** Part k of n carries the indicator, the second header byte and its own FU header. */
  predicate IsPart(nal: Bytes, part: Bytes, first: bool, last: bool)
    requires |nal| >= 2
  {
    |part| >= 3 && part[..3] == [FuIndicator(nal[0]), nal[1], FuHeader(nal[0], first, last)]
  }

  /** The S and E bits are never in one fragment, so there are at least two. */
  predicate FragmentsOf(nal: Bytes, parts: seq<Bytes>) {
    && |nal| >= 2 && |parts| >= 2
    && (forall k :: 0 <= k < |parts| ==> IsPart(nal, parts[k], k == 0, k == |parts| - 1))
    && Bodies(parts) == nal[2..]
  }

  // ----- the sender -----

  function Part(nal: Bytes, body: Bytes, first: bool, last: bool): Bytes
    requires |nal| >= 2
  {
    [FuIndicator(nal[0]), nal[1], FuHeader(nal[0], first, last)] + body
  }

  /** The remaining packets of a long NAL unit. */
  function Cut(nal: Bytes, rest: Bytes, first: bool): seq<Bytes>
    requires |nal| >= 2
    decreases |rest|
  {
    if |rest| + 3 > MAX_PAYLOAD then
      [Part(nal, rest[..MAX_PAYLOAD - 3], first, false)] + Cut(nal, rest[MAX_PAYLOAD - 3..], false)
    else
      [Part(nal, rest, first, true)]
  }

  predicate PartsInOrder(nal: Bytes, parts: seq<Bytes>, first: bool)
    requires |nal| >= 2
  {
    forall k :: 0 <= k < |parts| ==>
      |parts[k]| <= MAX_PAYLOAD && IsPart(nal, parts[k], first && k == 0, k == |parts| - 1)
  }

  lemma {:induction false} CutIsFragmentation(nal: Bytes, rest: Bytes, first: bool)
    requires |nal| >= 2
    ensures |Cut(nal, rest, first)| >= if |rest| + 3 > MAX_PAYLOAD then 2 else 1
    ensures PartsInOrder(nal, Cut(nal, rest, first), first)
    ensures Bodies(Cut(nal, rest, first)) == rest
    decreases |rest|
  {
    hide FuIndicator, FuHeader, IsPart, Part, Bodies, PartsInOrder;
    if |rest| + 3 > MAX_PAYLOAD {
      var body, left := rest[..MAX_PAYLOAD - 3], rest[MAX_PAYLOAD - 3..];
      var part, more := Part(nal, body, first, false), Cut(nal, left, false);
      CutIsFragmentation(nal, left, false);
      PartIs(nal, body, first, false);
      PartsCons(nal, part, more, first);
      assert body + left == rest;
    } else {
      PartIs(nal, rest, first, true);
      PartsOne(nal, Part(nal, rest, first, true), first);
    }
  }

  /** Every part but the last is a full packet. */
  lemma {:induction false} CutFull(nal: Bytes, rest: Bytes, first: bool)
    requires |nal| >= 2
    ensures forall k :: 0 <= k < |Cut(nal, rest, first)| - 1 ==> |Cut(nal, rest, first)[k]| == 1420
    decreases |rest|
  {
    hide FuIndicator, FuHeader;
    if |rest| + 3 > MAX_PAYLOAD {
      var more := Cut(nal, rest[MAX_PAYLOAD - 3..], false);
      CutFull(nal, rest[MAX_PAYLOAD - 3..], false);
      var all := Cut(nal, rest, first);
      forall k | 0 <= k < |all| - 1 ensures |all[k]| == 1420 {
        if k > 0 { assert all[k] == more[k - 1]; }
      }
    }
  }

  lemma PartIs(nal: Bytes, body: Bytes, first: bool, last: bool)
    requires |nal| >= 2
    ensures var part := Part(nal, body, first, last);
            IsPart(nal, part, first, last) && |part| == |body| + 3 && part[3..] == body
  {
    hide FuIndicator, FuHeader;
  }

  lemma PartsCons(nal: Bytes, part: Bytes, more: seq<Bytes>, first: bool)
    requires |nal| >= 2 && |more| >= 1 && PartsInOrder(nal, more, false)
    requires |part| <= MAX_PAYLOAD && IsPart(nal, part, first, false)
    ensures PartsInOrder(nal, [part] + more, first)
    ensures (forall k :: 0 <= k < |more| ==> |more[k]| >= 3) && |part| >= 3
    ensures Bodies([part] + more) == part[3..] + Bodies(more)
  {
    hide FuIndicator, FuHeader, Bodies;
    var all := [part] + more;
    forall k | 0 <= k < |all|
      ensures |all[k]| <= MAX_PAYLOAD && IsPart(nal, all[k], first && k == 0, k == |all| - 1)
    {
      if k > 0 { assert all[k] == more[k - 1]; }
    }
    BodiesCons(part, more);
  }

  lemma PartsOne(nal: Bytes, part: Bytes, first: bool)
    requires |nal| >= 2 && |part| <= MAX_PAYLOAD && IsPart(nal, part, first, true)
    ensures PartsInOrder(nal, [part], first) && |part| >= 3 && Bodies([part]) == part[3..]
  {
    hide FuIndicator, FuHeader;
    var parts: seq<Bytes> := [part];
    assert parts[..0] == [];
  }

  lemma {:induction false} BodiesCons(part: Bytes, more: seq<Bytes>)
    requires |part| >= 3 && forall k :: 0 <= k < |more| ==> |more[k]| >= 3
    ensures Bodies([part] + more) == part[3..] + Bodies(more)
  {
    var n := |more|;
    if n == 0 {
      assert ([part] + more)[..0] == [];
    } else {
      BodiesCons(part, more[..n - 1]);
      assert ([part] + more)[..n] == [part] + more[..n - 1];
      assert ([part] + more)[n] == more[n - 1];
    }
  }

  function Packets(nal: Bytes): seq<Bytes> {
    if |nal| <= MAX_PAYLOAD then [nal] else Cut(nal, nal[2..], true)
  }

  /** The packets of a NAL unit: itself when it fits, otherwise at least two fragments. */
  lemma PacketsAreFragments(nal: Bytes)
    ensures forall k :: 0 <= k < |Packets(nal)| ==> |Packets(nal)[k]| <= 1420
    ensures |nal| <= 1420 ==> Packets(nal) == [nal]
    ensures |nal| > 1420 ==> FragmentsOf(nal, Packets(nal))
    ensures |nal| > 1420 ==> forall k :: 0 <= k < |Packets(nal)| - 1 ==> |Packets(nal)[k]| == 1420
  {
    if |nal| > MAX_PAYLOAD {
      CutIsFragmentation(nal, nal[2..], true);
      CutFull(nal, nal[2..], true);
    }
  }

  /** HandleFrame: `accept(k)` is what the send callback answers for the k-th packet; sending stops at
      the first refusal. */
  method HandleFrame(nal: Bytes, accept: nat -> bool) returns (ok: bool, sent: seq<Bytes>)
    ensures sent <= Packets(nal) && forall k :: 0 <= k < |sent| - 1 ==> accept(k)
    ensures ok ==> sent == Packets(nal) && forall k :: 0 <= k < |sent| ==> accept(k)
    ensures !ok ==> |sent| >= 1 && !accept(|sent| - 1)
  {
    hide FuIndicator, FuHeader, Cut, WithoutStart, WithEnd, Packets;
    PacketsUnfold(nal);
    if |nal| <= MAX_PAYLOAD {
      sent := [nal];
      ok := accept(0);
      return;
    }
    sent := [];
    var rest := nal[2..];
    var fu := FuHeader(nal[0], true, false);
    while |rest| + 3 > MAX_PAYLOAD
      invariant fu == FuHeader(nal[0], sent == [], false)
      invariant Packets(nal) == sent + Cut(nal, rest, sent == [])
      invariant forall k :: 0 <= k < |sent| ==> accept(k)
      decreases |rest|
    {
      var part := [FuIndicator(nal[0]), nal[1], fu] + rest[..MAX_PAYLOAD - 3];
      CutStep(nal, rest, sent, part);
      sent := sent + [part];
      if !accept(|sent| - 1) {
        return false, sent;
      }
      rest := rest[MAX_PAYLOAD - 3..];
      ClearStart(nal[0], |sent| == 1);
      fu := WithoutStart(fu);
    }
    SetEnd(nal[0], sent == []);
    var part := [FuIndicator(nal[0]), nal[1], WithEnd(fu)] + rest;
    CutEnd(nal, rest, sent, part);
    sent := sent + [part];
    ok := accept(|sent| - 1);
  }

  lemma CutStep(nal: Bytes, rest: Bytes, sent: seq<Bytes>, part: Bytes)
    requires |nal| >= 2 && |rest| + 3 > MAX_PAYLOAD
    requires part == Part(nal, rest[..MAX_PAYLOAD - 3], sent == [], false)
    ensures sent + Cut(nal, rest, sent == []) == (sent + [part]) + Cut(nal, rest[MAX_PAYLOAD - 3..], false)
  {
    hide FuIndicator, FuHeader, Part;
    SeqAssoc(sent, part, Cut(nal, rest[MAX_PAYLOAD - 3..], false));
  }

  lemma SeqAssoc(a: seq<Bytes>, p: Bytes, b: seq<Bytes>)
    ensures a + ([p] + b) == (a + [p]) + b
  {
  }

  lemma CutEnd(nal: Bytes, rest: Bytes, sent: seq<Bytes>, part: Bytes)
    requires |nal| >= 2 && |rest| + 3 <= MAX_PAYLOAD && part == Part(nal, rest, sent == [], true)
    ensures sent + Cut(nal, rest, sent == []) == sent + [part]
  {
  }

  function WithoutStart(fu: bv8): bv8 { fu & 0x7F }

  function WithEnd(fu: bv8): bv8 { fu | 0x40 }

  lemma ClearStart(b0: bv8, start: bool)
    ensures WithoutStart(FuHeader(b0, start, false)) == FuHeader(b0, false, false)
  {
  }

  lemma SetEnd(b0: bv8, start: bool)
    ensures WithEnd(FuHeader(b0, start, false)) == FuHeader(b0, start, true)
  {
  }

  lemma PacketsUnfold(nal: Bytes)
    ensures |nal| <= MAX_PAYLOAD ==> Packets(nal) == [nal]
    ensures |nal| > MAX_PAYLOAD ==> Packets(nal) == [] + Cut(nal, nal[2..], true)
  {
  }

  // ----- the assembler of one timestamp -----

  predicate IsFu(payload: Bytes) { |payload| >= 3 && NalType(payload[0]) == 49 }

  predicate Starts(payload: Bytes)
    requires |payload| >= 3
  {
    payload[2] & 0x80 != 0
  }

  predicate Ends(payload: Bytes)
    requires |payload| >= 3
  {
    payload[2] & 0x40 != 0
  }

  function Opening(payload: Bytes): Bytes
    requires |payload| >= 3
  {
    var h := RebuiltHeader(payload[0], payload[1], payload[2]);
    START_CODE + [h.0, h.1]
  }

  /** One payload against what has been assembled so far: the new contents, and the finished unit. */
  function Assemble(open: Option<Bytes>, payload: Bytes): (Option<Bytes>, Option<Bytes>) {
    if !IsFu(payload) || (!Starts(payload) && open.None?) then (open, None)
    else
      var data := (if Starts(payload) then Opening(payload) else open.value) + payload[3..];
      if Ends(payload) then (None, Some(data)) else (Some(data), None)
  }

  /** The assembler fed a list of payloads: contents at the end, and the units in order. */
  function Feed(payloads: seq<Bytes>): (Option<Bytes>, seq<Bytes>) {
    if payloads == [] then (None, [])
    else
      var n := |payloads| - 1;
      var before := Feed(payloads[..n]);
      var after := Assemble(before.0, payloads[n]);
      (after.0, before.1 + (if after.1.Some? then [after.1.value] else []))
  }

  /** What one fragment of a NAL unit does to the assembler. */
  lemma AssemblePart(nal: Bytes, open: Option<Bytes>, part: Bytes, first: bool, last: bool)
    requires |nal| >= 2 && IsPart(nal, part, first, last) && (first || open.Some?)
    ensures var data := (if first then START_CODE + nal[..2] else open.value) + part[3..];
            Assemble(open, part) == if last then (None, Some(data)) else (Some(data), None)
  {
    hide NalType, FuIndicator, FuHeader, RebuiltHeader;
    assert part[0] == part[..3][0] && part[1] == part[..3][1] && part[2] == part[..3][2];
    HeaderRoundTrip(nal[0], nal[1], first, last);
    if first { assert Opening(part) == START_CODE + nal[..2]; }
  }

  lemma FeedSnoc(payloads: seq<Bytes>, k: nat)
    requires k < |payloads|
    ensures var before := Feed(payloads[..k]);
            var after := Assemble(before.0, payloads[k]);
            Feed(payloads[..k + 1]) == (after.0, before.1 + (if after.1.Some? then [after.1.value] else []))
  {
    assert payloads[..k + 1][..k] == payloads[..k];
  }

  /** Between units, fed the first k fragments of a NAL unit, it holds exactly their bytes; fed all, it has
      delivered the start code and the original bytes, once, and holds nothing. */
  lemma {:induction false} FeedUnit(fed: seq<Bytes>, nal: Bytes, parts: seq<Bytes>, k: nat)
    requires FragmentsOf(nal, parts) && 0 < k <= |parts| && Feed(fed).0 == None
    ensures Feed(fed + parts[..k])
         == if k < |parts| then (Some(START_CODE + nal[..2] + Bodies(parts[..k])), Feed(fed).1)
            else (None, Feed(fed).1 + [START_CODE + nal])
  {
    hide Feed, Assemble, NalType, FuIndicator, FuHeader;
    var part, head := parts[k - 1], START_CODE + nal[..2];
    FeedMore(fed + parts[..k - 1], part);
    assert fed + parts[..k] == (fed + parts[..k - 1]) + [part];
    assert IsPart(nal, part, k == 1, k == |parts|);
    if k > 1 {
      FeedUnit(fed, nal, parts, k - 1);
    } else {
      assert fed + parts[..k - 1] == fed;
    }
    var before := Feed(fed + parts[..k - 1]);
    AssemblePart(nal, before.0, part, k == 1, k == |parts|);
    BodiesSnoc(parts, k - 1);
    var data := (if k == 1 then head else before.0.value) + part[3..];
    assert data == head + Bodies(parts[..k]) by {
      assert head + (Bodies(parts[..k - 1]) + part[3..]) == (head + Bodies(parts[..k - 1])) + part[3..];
      assert head + [] == head;
    }
    if k == |parts| {
      assert parts[..k] == parts;
      assert head + nal[2..] == START_CODE + nal;
    } else {
      assert before.1 + [] == before.1;
    }
  }

  lemma FeedMore(payloads: seq<Bytes>, p: Bytes)
    ensures var before := Feed(payloads);
            var after := Assemble(before.0, p);
            Feed(payloads + [p]) == (after.0, before.1 + (if after.1.Some? then [after.1.value] else []))
  {
    var now := payloads + [p];
    assert now[..|payloads|] == payloads && now[..|payloads| + 1] == now;
    FeedSnoc(now, |payloads|);
  }

  lemma FeedFragments(nal: Bytes, parts: seq<Bytes>)
    requires FragmentsOf(nal, parts)
    ensures Feed(parts) == (None, [START_CODE + nal]) && START_CODE == [0, 0, 0, 1]
  {
    hide Feed;
    FeedNothing();
    FeedUnit([], nal, parts, |parts|);
    assert [] + parts[..|parts|] == parts;
    assert Feed([]).1 + [START_CODE + nal] == [START_CODE + nal];
  }

  lemma FragmentBits(nal: Bytes, parts: seq<Bytes>, i: nat)
    requires FragmentsOf(nal, parts) && i < |parts|
    ensures |parts[i]| >= 3 && Starts(parts[i]) == (i == 0) && Ends(parts[i]) == (i == |parts| - 1)
  {
    hide FuIndicator, FuHeader, NalType, RebuiltHeader;
    assert IsPart(nal, parts[i], i == 0, i == |parts| - 1);
    assert parts[i][2] == parts[i][..3][2];
    HeaderRoundTrip(nal[0], nal[1], i == 0, i == |parts| - 1);
  }

  /** One fragment lost on the way, whichever it is. Without the first nothing is delivered; without the last
      nothing is delivered and the unit stays open; without one in between the unit is delivered, once, short by
      that fragment's bytes. So a damaged unit comes out exactly when the lost fragment is in between and has
      bytes of its own. */
  lemma LostFragment(nal: Bytes, parts: seq<Bytes>, k: nat)
    requires FragmentsOf(nal, parts) && k < |parts|
    ensures var rest := parts[..k] + parts[k + 1..]; var short := START_CODE + nal[..2] + Bodies(rest);
            && Feed(rest) == (if k == 0 then (None, []) else if k == |parts| - 1 then (Some(short), []) else (None, [short]))
            && (short == START_CODE + nal <==> |parts[k]| == 3)
            && ((exists u :: u in Feed(rest).1 && u != START_CODE + nal) <==> 0 < k < |parts| - 1 && |parts[k]| > 3)
  {
    hide Feed;
    var rest, n := parts[..k] + parts[k + 1..], |parts|;
    LostLength(nal, parts, k);
    if k == 0 {
      LostFirst(nal, parts, n - 1);
      assert rest == parts[1..n];
    } else if k == n - 1 {
      FeedNothing();
      FeedUnit([], nal, parts, k);
      assert [] + parts[..k] == parts[..k] == rest;
    } else {
      LostMiddle(nal, parts, k);
    }
    if 0 < k < n - 1 { assert START_CODE + nal[..2] + Bodies(rest) in Feed(rest).1; }
  }

  lemma LostLength(nal: Bytes, parts: seq<Bytes>, k: nat)
    requires FragmentsOf(nal, parts) && k < |parts|
    ensures var rest := parts[..k] + parts[k + 1..];
            START_CODE + nal[..2] + Bodies(rest) == START_CODE + nal <==> |parts[k]| == 3
  {
    hide FuIndicator, FuHeader;
    var rest := parts[..k] + parts[k + 1..];
    BodiesWithout(parts, k, |parts|);
    assert parts[..|parts|] == parts && START_CODE + nal == START_CODE + nal[..2] + nal[2..];
    if |parts[k]| == 3 { BodiesEmpty(parts, k, |parts|); }
  }

  /** The other fragments find nothing open. */
  lemma {:induction false} LostFirst(nal: Bytes, parts: seq<Bytes>, n: nat)
    requires FragmentsOf(nal, parts) && n < |parts|
    ensures Feed(parts[1..n + 1]) == (None, [])
  {
    hide Feed, FragmentsOf, Starts, NalType;
    if n == 0 {
      FeedNothing();
      assert parts[1..n + 1] == [];
    } else {
      LostFirst(nal, parts, n - 1);
      FragmentBits(nal, parts, n);
      FeedMore(parts[1..n], parts[n]);
      assert parts[1..n + 1] == parts[1..n] + [parts[n]] && Feed(parts[1..n]).1 + [] == [];
    }
  }

  lemma LostMiddle(nal: Bytes, parts: seq<Bytes>, k: nat)
    requires FragmentsOf(nal, parts) && 0 < k < |parts| - 1
    ensures var rest := parts[..k] + parts[k + 1..];
            Feed(rest) == (None, [START_CODE + nal[..2] + Bodies(rest)])
  {
    hide Feed, FuIndicator, FuHeader;
    var rest := parts[..k] + parts[k + 1..];
    var short := nal[..2] + Bodies(rest);
    assert short[2..] == Bodies(rest) && short[0] == nal[0] && short[1] == nal[1];
    forall i | 0 <= i < |rest| ensures IsPart(short, rest[i], i == 0, i == |rest| - 1) {
      assert rest[i] == if i < k then parts[i] else parts[i + 1];
    }
    FeedFragments(short, rest);
    assert START_CODE + short == START_CODE + nal[..2] + Bodies(rest);
  }

  /** Leaving out part k shortens the bodies by its own. */
  lemma {:induction false} BodiesWithout(parts: seq<Bytes>, k: nat, n: nat)
    requires k < n <= |parts| && forall i :: 0 <= i < |parts| ==> |parts[i]| >= 3
    ensures |Bodies(parts[..k] + parts[k + 1..n])| == |Bodies(parts[..n])| - (|parts[k]| - 3)
    decreases n
  {
    BodiesSnoc(parts, n - 1);
    if n == k + 1 {
      assert parts[..k] + parts[k + 1..n] == parts[..k];
    } else {
      BodiesWithout(parts, k, n - 1);
      var rest := parts[..k] + parts[k + 1..n];
      assert rest[..|rest| - 1] == parts[..k] + parts[k + 1..n - 1] && rest[|rest| - 1] == parts[n - 1];
    }
  }

  lemma {:induction false} BodiesEmpty(parts: seq<Bytes>, k: nat, n: nat)
    requires k < n <= |parts| && |parts[k]| == 3 && forall i :: 0 <= i < |parts| ==> |parts[i]| >= 3
    ensures Bodies(parts[..k] + parts[k + 1..n]) == Bodies(parts[..n])
    decreases n
  {
    BodiesSnoc(parts, n - 1);
    if n == k + 1 {
      assert parts[..k] + parts[k + 1..n] == parts[..k];
      assert Bodies(parts[..k]) + [] == Bodies(parts[..k]);
    } else {
      BodiesEmpty(parts, k, n - 1);
      var rest := parts[..k] + parts[k + 1..n];
      assert rest[..|rest| - 1] == parts[..k] + parts[k + 1..n - 1] && rest[|rest| - 1] == parts[n - 1];
    }
  }

  lemma FeedNothing()
    ensures Feed([]) == (None, [])
  {
  }

  lemma BodiesSnoc(parts: seq<Bytes>, k: nat)
    requires k < |parts| && forall i :: 0 <= i < |parts| ==> |parts[i]| >= 3
    ensures Bodies(parts[..k + 1]) == Bodies(parts[..k]) + parts[k][3..]
    ensures k == 0 ==> Bodies(parts[..k]) == []
  {
    assert parts[..k + 1][..k] == parts[..k];
  }
}

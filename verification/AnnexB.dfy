/** Annex B byte streams (ITU-T H.265): cutting at start codes, joining, and the encryption of I-frames
    only. The keystream for a NAL unit is an arbitrary function of its 32 feature bytes and its index. */
module AnnexB {
  import opened Common

  datatype Unit = Unit(code: Bytes, nalu: Bytes)

  const START3: Bytes := [0, 0, 1]
  const START4: Bytes := [0, 0, 0, 1]

  // ----- start codes -----

  predicate IsStart(data: Bytes, i: nat, n: nat) {
    i + n <= |data| && ((n == 3 && data[i..i + 3] == START3) || (n == 4 && data[i..i + 4] == START4))
  }

  /** Two or three zeros and a one. */
  lemma StartBytes(data: Bytes, i: nat)
    ensures IsStart(data, i, 3) <==> i + 3 <= |data| && data[i] == 0 && data[i + 1] == 0 && data[i + 2] == 1
    ensures IsStart(data, i, 4) <==>
              i + 4 <= |data| && data[i] == 0 && data[i + 1] == 0 && data[i + 2] == 0 && data[i + 3] == 1
  {
    if i + 3 <= |data| { assert data[i..i + 3] == [data[i], data[i + 1], data[i + 2]]; }
    if i + 4 <= |data| { assert data[i..i + 4] == [data[i], data[i + 1], data[i + 2], data[i + 3]]; }
  }

  /** Codes in order, apart, inside the data from `from` on. */
  ghost predicate Placed(data: Bytes, from: nat, codes: seq<(nat, nat)>)
    decreases codes
  {
    if codes == [] then from <= |data|
    else from <= codes[0].0 && IsStart(data, codes[0].0, codes[0].1)
         && Placed(data, codes[0].0 + codes[0].1, codes[1..])
  }

  /** No start code begins at a scanned position outside the listed ones. The scan stops three bytes before
      the end, so a code in the last three bytes is not looked for. */
  ghost predicate NoneMissed(data: Bytes, from: nat, codes: seq<(nat, nat)>) {
    forall i: nat, n: nat :: from <= i < |data| - 3 && IsStart(data, i, n) ==> Covered(codes, i)
  }

  ghost predicate Covered(codes: seq<(nat, nat)>, i: nat) {
    exists k :: 0 <= k < |codes| && codes[k].0 <= i < codes[k].0 + codes[k].1
  }

  /** The codes a scan from position i finds: at each place the longer code first, and none in the last three
      bytes. */
  function Scan(data: Bytes, i: nat): seq<(nat, nat)>
    decreases |data| - i
  {
    if i >= |data| - 3 then []
    else if IsStart(data, i, 4) then [(i, 4)] + Scan(data, i + 4)
    else if IsStart(data, i, 3) then [(i, 3)] + Scan(data, i + 3)
    else Scan(data, i + 1)
  }

  method FindStartCodes(data: Bytes) returns (out: seq<(nat, nat)>)
    ensures Placed(data, 0, out) && NoneMissed(data, 0, out) && out == Scan(data, 0)
    ensures forall k :: 0 <= k < |out| ==> out[k].0 < |data| - 3
  {
    hide Scan, Placed, NoneMissed;
    ScanPlaced(data, 0, 0);
    ScanStops(data, 0);
    ScanMissesNone(data, 0);
    out := [];
    var i := 0;
    assert [] + Scan(data, 0) == Scan(data, 0);
    while i < |data| - 3
      invariant 0 <= i <= |data| && out + Scan(data, i) == Scan(data, 0)
      decreases |data| - i
    {
      ScanStep(data, i, out);
      if data[i..i + 4] == START4 {
        out := out + [(i, 4)];
        i := i + 4;
      } else if data[i..i + 3] == START3 {
        out := out + [(i, 3)];
        i := i + 3;
      } else {
        i := i + 1;
      }
    }
    ScanEnd(data, i);
    assert out + [] == out;
  }

  lemma ScanStep(data: Bytes, i: nat, out: seq<(nat, nat)>)
    requires i < |data| - 3
    ensures out + Scan(data, i)
         == if data[i..i + 4] == START4 then (out + [(i, 4)]) + Scan(data, i + 4)
            else if data[i..i + 3] == START3 then (out + [(i, 3)]) + Scan(data, i + 3)
            else out + Scan(data, i + 1)
  {
  }

  lemma ScanEnd(data: Bytes, i: nat)
    requires i >= |data| - 3
    ensures Scan(data, i) == []
  {
  }

  lemma {:induction false} ScanPlaced(data: Bytes, from: nat, i: nat)
    requires from <= i && from <= |data|
    ensures Placed(data, from, Scan(data, i))
    decreases |data| - i
  {
    hide IsStart;
    if i < |data| - 3 {
      if IsStart(data, i, 4) {
        ScanPlaced(data, i + 4, i + 4);
      } else if IsStart(data, i, 3) {
        ScanPlaced(data, i + 3, i + 3);
      } else {
        ScanPlaced(data, from, i + 1);
      }
    }
  }

  lemma {:induction false} ScanMissesNone(data: Bytes, i: nat)
    ensures NoneMissed(data, i, Scan(data, i))
    decreases |data| - i
  {
    hide IsStart, Covered;
    if i < |data| - 3 {
      if IsStart(data, i, 4) {
        ScanMissesNone(data, i + 4);
        CoveredCons(i, 4, Scan(data, i + 4));
      } else if IsStart(data, i, 3) {
        ScanMissesNone(data, i + 3);
        CoveredCons(i, 3, Scan(data, i + 3));
      } else {
        ScanMissesNone(data, i + 1);
        NotThere(data, i);
      }
    }
  }

  /** The scan looks no further than the fourth byte from the end. */
  lemma {:induction false} ScanStops(data: Bytes, i: nat)
    ensures forall k :: 0 <= k < |Scan(data, i)| ==> Scan(data, i)[k].0 < |data| - 3
    decreases |data| - i
  {
    hide IsStart;
    if i < |data| - 3 {
      ScanStops(data, i + 1);
      if i + 3 <= |data| { ScanStops(data, i + 3); }
      if i + 4 <= |data| { ScanStops(data, i + 4); }
    }
  }

  lemma NotThere(data: Bytes, i: nat)
    requires !IsStart(data, i, 4) && !IsStart(data, i, 3)
    ensures forall n :: !IsStart(data, i, n)
  {
  }

  lemma CoveredCons(i: nat, n: nat, codes: seq<(nat, nat)>)
    ensures forall j: nat :: i <= j < i + n || Covered(codes, j) ==> Covered([(i, n)] + codes, j)
  {
    var all := [(i, n)] + codes;
    forall j: nat | i <= j < i + n || Covered(codes, j) ensures Covered(all, j) {
      if i <= j < i + n {
        assert all[0] == (i, n);
      } else {
        var k :| 0 <= k < |codes| && codes[k].0 <= j < codes[k].0 + codes[k].1;
        assert all[k + 1] == codes[k];
      }
    }
  }

  // ----- cutting and joining -----

  /** Every unit between consecutive codes, the short ones included. */
  function Units(data: Bytes, codes: seq<(nat, nat)>): seq<Unit>
    requires Placed(data, 0, codes)
  {
    UnitsFrom(data, 0, codes)
  }

  function UnitsFrom(data: Bytes, from: nat, codes: seq<(nat, nat)>): seq<Unit>
    requires Placed(data, from, codes)
    decreases codes
  {
    if codes == [] then []
    else
      var (pos, n) := codes[0];
      var rest := codes[1..];
      assert Placed(data, pos + n, rest);
      var end := if rest == [] then |data| else rest[0].0;
      [Unit(data[pos..pos + n], data[pos + n..end])] + UnitsFrom(data, pos + n, rest)
  }

  function Join(units: seq<Unit>): Bytes {
    if units == [] then [] else units[0].code + units[0].nalu + Join(units[1..])
  }

  /** The codes partition the data from the first one on. */
  lemma {:induction false} Partition(data: Bytes, from: nat, codes: seq<(nat, nat)>)
    requires Placed(data, from, codes) && codes != []
    ensures Join(UnitsFrom(data, from, codes)) == data[codes[0].0..]
    decreases codes
  {
    hide Join, UnitsFrom;
    var (pos, n) := codes[0];
    var rest := codes[1..];
    assert codes == [(pos, n)] + rest;
    UnitsCons(data, from, pos, n, rest);
    var units := UnitsFrom(data, from, codes);
    var end := if rest == [] then |data| else rest[0].0;
    JoinHead(units);
    assert units[0] == Unit(data[pos..pos + n], data[pos + n..end]);
    assert units[1..] == UnitsFrom(data, pos + n, rest);
    if rest == [] {
      NothingToJoin(data, pos + n);
    } else {
      Partition(data, pos + n, rest);
    }
    ThreePieces(data, pos, pos + n, end);
  }

  lemma NothingToJoin(data: Bytes, from: nat)
    requires Placed(data, from, [])
    ensures Join(UnitsFrom(data, from, [])) == []
  {
  }

  lemma ThreePieces(data: Bytes, a: nat, b: nat, c: nat)
    requires a <= b <= c <= |data|
    ensures data[a..b] + data[b..c] + data[c..] == data[a..]
    ensures c == |data| ==> data[a..b] + data[b..c] + [] == data[a..]
  {
  }

  /** Units of at least two bytes, in order: what the split keeps. */
  function Kept(units: seq<Unit>): seq<Unit> {
    if units == [] then []
    else (if |units[0].nalu| >= 2 then [units[0]] else []) + Kept(units[1..])
  }

  /** Dropping a unit with a non-empty code always shortens the stream. */
  lemma {:induction false} KeptLength(units: seq<Unit>)
    requires forall u :: u in units ==> |u.code| > 0
    ensures |Join(Kept(units))| <= |Join(units)|
    ensures |Join(Kept(units))| == |Join(units)| <==> forall u :: u in units ==> |u.nalu| >= 2
    ensures (forall u :: u in units ==> |u.nalu| >= 2) ==> Kept(units) == units
  {
    if units != [] {
      var rest := units[1..];
      KeptLength(rest);
      assert forall u :: u in units <==> u == units[0] || u in rest;
      if |units[0].nalu| >= 2 {
        var k := [units[0]] + Kept(rest);
        assert k[1..] == Kept(rest);
      } else {
        assert [] + Kept(rest) == Kept(rest);
        assert units[0] in units;
      }
    }
  }

  lemma {:induction false} UnitCodes(data: Bytes, from: nat, codes: seq<(nat, nat)>)
    requires Placed(data, from, codes)
    ensures forall u :: u in UnitsFrom(data, from, codes) ==> |u.code| > 0
    decreases codes
  {
    if codes != [] {
      UnitCodes(data, codes[0].0 + codes[0].1, codes[1..]);
    }
  }

  /** What split_annexb_nalus returns: the units of at least two bytes between the codes of the scan. None is
      the ValueError of a stream without start codes. */
  function Split(data: Bytes): Option<seq<Unit>> {
    ScanPlaced(data, 0, 0);
    if Scan(data, 0) == [] then None else Some(Kept(Units(data, Scan(data, 0))))
  }

  method SplitAnnexB(data: Bytes) returns (r: Option<seq<Unit>>)
    ensures r == Split(data)
  {
    hide NoneMissed, UnitsFrom, Placed, Kept, Scan;
    KeptNone();
    var scs := FindStartCodes(data);
    if scs == [] { return None; }
    var nalus: seq<Unit> := [];
    ghost var all := Units(data, scs);
    UnitAt(data, 0, scs, 0);
    assert all[..0] == [];
    for i := 0 to |scs|
      invariant nalus == Kept(all[..i])
    {
      UnitAt(data, 0, scs, i);
      var (pos, n) := scs[i];
      var end := EndOf(data, scs, i);
      var nalu := data[pos + n..end];
      KeptSnoc(all, i);
      if |nalu| >= 2 { nalus := nalus + [Unit(data[pos..pos + n], nalu)]; }
    }
    assert all[..|scs|] == all;
    r := Some(nalus);
  }

  /** Where unit i ends: at the next code, or with the data. */
  function EndOf(data: Bytes, codes: seq<(nat, nat)>, i: nat): nat {
    if i + 1 < |codes| then codes[i + 1].0 else |data|
  }

  lemma {:induction false} UnitAt(data: Bytes, from: nat, codes: seq<(nat, nat)>, i: nat)
    requires Placed(data, from, codes) && i < |codes|
    ensures codes[i].0 + codes[i].1 <= EndOf(data, codes, i) <= |data|
    ensures |UnitsFrom(data, from, codes)| == |codes|
    ensures UnitsFrom(data, from, codes)[i]
         == Unit(data[codes[i].0..codes[i].0 + codes[i].1], data[codes[i].0 + codes[i].1..EndOf(data, codes, i)])
    decreases codes
  {
    hide IsStart;
    var rest, next := codes[1..], codes[0].0 + codes[0].1;
    assert Placed(data, next, rest);
    if rest != [] { UnitAt(data, next, rest, if i > 0 then i - 1 else 0); }
    if i > 0 {
      assert codes[i] == rest[i - 1] && EndOf(data, codes, i) == EndOf(data, rest, i - 1);
    } else {
      UnitsHead(data, from, codes);
    }
  }

  lemma UnitsHead(data: Bytes, from: nat, codes: seq<(nat, nat)>)
    requires Placed(data, from, codes) && codes != []
    ensures codes[0].0 + codes[0].1 <= EndOf(data, codes, 0) <= |data|
    ensures UnitsFrom(data, from, codes)[0]
         == Unit(data[codes[0].0..codes[0].0 + codes[0].1], data[codes[0].0 + codes[0].1..EndOf(data, codes, 0)])
  {
    assert Placed(data, codes[0].0 + codes[0].1, codes[1..]);
  }

  lemma KeptNone()
    ensures Kept([]) == []
  {
  }

  lemma KeptSnoc(units: seq<Unit>, i: nat)
    requires i < |units|
    ensures Kept(units[..i + 1]) == Kept(units[..i]) + (if |units[i].nalu| >= 2 then [units[i]] else [])
  {
    KeptAppend(units[..i], [units[i]]);
    assert units[..i + 1] == units[..i] + [units[i]];
    assert Kept([units[i]]) == (if |units[i].nalu| >= 2 then [units[i]] else []) + Kept([]);
  }

  lemma {:induction false} KeptAppend(a: seq<Unit>, b: seq<Unit>)
    ensures Kept(a + b) == Kept(a) + Kept(b)
  {
    if a == [] {
      assert a + b == b;
    } else {
      KeptAppend(a[1..], b);
      assert (a + b)[1..] == a[1..] + b;
      var h := if |a[0].nalu| >= 2 then [a[0]] else [];
      assert h + (Kept(a[1..]) + Kept(b)) == (h + Kept(a[1..])) + Kept(b);
    }
  }

  /** Joining what the split kept gives the data back, from the first start code on, exactly when no unit
      is shorter than two bytes. */
  lemma JoinSplit(data: Bytes, codes: seq<(nat, nat)>)
    requires Placed(data, 0, codes) && codes != []
    ensures Join(Kept(Units(data, codes))) == data[codes[0].0..]
       <==> forall u :: u in Units(data, codes) ==> |u.nalu| >= 2
  {
    Partition(data, 0, codes);
    UnitCodes(data, 0, codes);
    KeptLength(Units(data, codes));
  }

  // ----- I-frame encryption -----

  /** Keystream bytes for feature bytes and index; key derivation and cipher folded together. */
  type Keystream = (Bytes, nat) -> (nat -> bv8)

  function Feature(nalu: Bytes): Bytes
    requires |nalu| >= 2
  {
    var payload := nalu[2..];
    if |payload| >= 32 then payload[..32] else payload + seq(32 - |payload|, _ => 0 as bv8)
  }

  function XorStream(body: Bytes, ks: nat -> bv8): (r: Bytes)
    ensures |r| == |body|
  {
    seq(|body|, i requires 0 <= i < |body| => body[i] ^ ks(i))
  }

  /** The types that are encrypted; the parameter sets kept in clear are among the others. */
  predicate Selected(nalu: Bytes, skip: nat)
    requires |nalu| >= 2
  {
    var t := NalType(nalu[0]);
    t !in {32, 33, 34, 35, 39, 40} && t in {19, 20, 21} && |nalu| - 2 > skip
  }

  function Cipher(ks: Keystream, skip: nat, nalu: Bytes, index: nat): (r: Bytes)
    requires |nalu| >= 2 && |nalu| - 2 > skip
    ensures |r| == |nalu|
  {
    nalu[..2 + skip] + XorStream(nalu[2 + skip..], ks(Feature(nalu), index))
  }

  predicate Proper(units: seq<Unit>) { forall i :: 0 <= i < |units| ==> |units[i].nalu| >= 2 }

  /** The pass over a list of units, the index counting the encrypted ones. */
  function Pass(ks: Keystream, skip: nat, units: seq<Unit>, index: nat): (r: seq<Unit>)
    requires Proper(units)
    ensures |r| == |units| && Proper(r)
  {
    if units == [] then []
    else if Selected(units[0].nalu, skip) then
      [Unit(units[0].code, Cipher(ks, skip, units[0].nalu, index))] + Pass(ks, skip, units[1..], index + 1)
    else
      [units[0]] + Pass(ks, skip, units[1..], index)
  }

  // ----- the pass, byte by byte -----

  /** The type is 19, 20 or 21 and more than `skip` bytes follow the two of the header. */
  ghost predicate IsChosen(nalu: Bytes, skip: nat) {
    |nalu| > skip + 2 && var t := (nalu[0] >> 1) & 0x3F; t == 19 || t == 20 || t == 21
  }

  lemma ChosenIs(nalu: Bytes, skip: nat)
    requires |nalu| >= 2
    ensures Selected(nalu, skip) <==> IsChosen(nalu, skip)
  {
  }

  /** How many of the first j units are enciphered. */
  ghost function ChosenBefore(units: seq<Unit>, skip: nat, j: nat): nat
    requires j <= |units|
  {
    if j == 0 then 0 else ChosenBefore(units, skip, j - 1) + (if IsChosen(units[j - 1].nalu, skip) then 1 else 0)
  }

  /** The first 32 bytes after the header, with zeros for those that are missing. */
  ghost predicate IsFeature(nalu: Bytes, f: Bytes) {
    |f| == 32 && forall i :: 0 <= i < 32 ==> f[i] == if i + 2 < |nalu| then nalu[i + 2] else 0
  }

  lemma FeatureIs(nalu: Bytes)
    requires |nalu| >= 2
    ensures IsFeature(nalu, Feature(nalu))
  {
  }

  /** Unit out against unit u, with `index` enciphered ones before it: the same start code; when chosen, the bytes
      after the header and `skip` more under the keystream of the feature and the index; otherwise the same. */
  ghost predicate UnitOut(ks: Keystream, skip: nat, u: Unit, index: nat, out: Unit) {
    && out.code == u.code && |out.nalu| == |u.nalu|
    && if IsChosen(u.nalu, skip)
       then exists f :: IsFeature(u.nalu, f) && forall i :: 0 <= i < |u.nalu| ==>
              out.nalu[i] == if i < 2 + skip then u.nalu[i] else u.nalu[i] ^ ks(f, index)(i - 2 - skip)
       else out.nalu == u.nalu
  }

  lemma CipherOut(ks: Keystream, skip: nat, u: Unit, index: nat)
    requires |u.nalu| >= 2 && Selected(u.nalu, skip)
    ensures UnitOut(ks, skip, u, index, Unit(u.code, Cipher(ks, skip, u.nalu, index)))
  {
    assert |u.nalu| - 2 > skip;
    hide Feature, Selected, IsFeature, IsChosen;
    ChosenIs(u.nalu, skip);
    FeatureIs(u.nalu);
    var f, c := Feature(u.nalu), Cipher(ks, skip, u.nalu, index);
    var body := u.nalu[2 + skip..];
    forall i | 0 <= i < |u.nalu|
      ensures c[i] == if i < 2 + skip then u.nalu[i] else u.nalu[i] ^ ks(f, index)(i - 2 - skip)
    {
      if i >= 2 + skip { assert c[i] == XorStream(body, ks(f, index))[i - 2 - skip] && body[i - 2 - skip] == u.nalu[i]; }
    }
  }

  /** The pass against that description, unit by unit. */
  lemma {:induction false} PassBytes(ks: Keystream, skip: nat, units: seq<Unit>, index: nat, j: nat)
    requires Proper(units) && j < |units|
    ensures UnitOut(ks, skip, units[j], index + ChosenBefore(units, skip, j), Pass(ks, skip, units, index)[j])
    decreases j
  {
    hide Cipher, UnitOut, IsChosen, Selected;
    var u, rest := units[0], units[1..];
    ChosenIs(u.nalu, skip);
    if j == 0 {
      if Selected(u.nalu, skip) { CipherOut(ks, skip, u, index); } else { SameOut(ks, skip, u, index); }
    } else {
      ChosenShift(units, skip, j);
      PassBytes(ks, skip, rest, if Selected(u.nalu, skip) then index + 1 else index, j - 1);
    }
  }

  lemma SameOut(ks: Keystream, skip: nat, u: Unit, index: nat)
    requires !IsChosen(u.nalu, skip)
    ensures UnitOut(ks, skip, u, index, u)
  {
  }

  lemma {:induction false} ChosenShift(units: seq<Unit>, skip: nat, j: nat)
    requires 0 < j <= |units|
    ensures ChosenBefore(units, skip, j)
         == (if IsChosen(units[0].nalu, skip) then 1 else 0) + ChosenBefore(units[1..], skip, j - 1)
  {
    hide IsChosen;
    if j > 1 { ChosenShift(units, skip, j - 1); }
  }

  /** The loop of hevc_xor_i_only. */
  method XorIOnly(ks: Keystream, skip: nat, units: seq<Unit>) returns (out: seq<Unit>)
    requires Proper(units)
    ensures out == Pass(ks, skip, units, 0)
    ensures |out| == |units|
    ensures forall j :: 0 <= j < |units| ==> UnitOut(ks, skip, units[j], ChosenBefore(units, skip, j), out[j])
  {
    hide Cipher, NalType, Pass, UnitOut;
    out := [];
    var index := 0;
    assert units[0..] == units && [] + Pass(ks, skip, units, 0) == Pass(ks, skip, units, 0);
    for i := 0 to |units|
      invariant index >= 0 && out + Pass(ks, skip, units[i..], index) == Pass(ks, skip, units, 0)
    {
      var u := units[i];
      PassStep(ks, skip, units, i, index, out);
      if Selected(u.nalu, skip) {
        out := out + [Unit(u.code, Cipher(ks, skip, u.nalu, index))];
        index := index + 1;
      } else {
        out := out + [u];
      }
    }
    assert units[|units|..] == [];
    assert out + Pass(ks, skip, [], index) == out;
    forall j | 0 <= j < |units| ensures UnitOut(ks, skip, units[j], ChosenBefore(units, skip, j), out[j]) {
      PassBytes(ks, skip, units, 0, j);
    }
  }

  lemma PassStep(ks: Keystream, skip: nat, units: seq<Unit>, i: nat, index: nat, out: seq<Unit>)
    requires Proper(units) && i < |units|
    ensures out + Pass(ks, skip, units[i..], index)
         == if Selected(units[i].nalu, skip)
            then (out + [Unit(units[i].code, Cipher(ks, skip, units[i].nalu, index))]) + Pass(ks, skip, units[i + 1..], index + 1)
            else (out + [units[i]]) + Pass(ks, skip, units[i + 1..], index)
  {
    hide Cipher, NalType;
    var u := units[i];
    assert units[i..][0] == u && units[i..][1..] == units[i + 1..];
  }

  lemma XorTwice(body: Bytes, ks: nat -> bv8)
    ensures XorStream(XorStream(body, ks), ks) == body
  {
    var once := XorStream(body, ks);
    forall i | 0 <= i < |body| ensures XorStream(once, ks)[i] == body[i] {
      assert (body[i] ^ ks(i)) ^ ks(i) == body[i];
    }
  }

  /** With at least 32 clear bytes the second pass selects the same units and derives the same keystream. */
  lemma CipherTwice(ks: Keystream, skip: nat, nalu: Bytes, index: nat)
    requires skip >= 32 && |nalu| >= 2 && Selected(nalu, skip)
    ensures var c := Cipher(ks, skip, nalu, index);
            Selected(c, skip) && Cipher(ks, skip, c, index) == nalu
  {
    hide XorStream;
    var c := Cipher(ks, skip, nalu, index);
    assert c[0] == nalu[0];
    assert Feature(c) == Feature(nalu) by { assert c[2..][..32] == nalu[2..][..32]; }
    var stream := ks(Feature(nalu), index);
    assert c[2 + skip..] == XorStream(nalu[2 + skip..], stream) && c[..2 + skip] == nalu[..2 + skip];
    XorTwice(nalu[2 + skip..], stream);
    assert nalu[..2 + skip] + nalu[2 + skip..] == nalu;
  }

  lemma {:induction false} PassTwice(ks: Keystream, skip: nat, units: seq<Unit>, index: nat)
    requires skip >= 32 && Proper(units)
    ensures Pass(ks, skip, Pass(ks, skip, units, index), index) == units
  {
    hide Selected, Cipher;
    if units != [] {
      var u, once := units[0], Pass(ks, skip, units, index);
      if Selected(u.nalu, skip) {
        CipherTwice(ks, skip, u.nalu, index);
        assert once[1..] == Pass(ks, skip, units[1..], index + 1);
        PassTwice(ks, skip, units[1..], index + 1);
      } else {
        assert once[1..] == Pass(ks, skip, units[1..], index);
        PassTwice(ks, skip, units[1..], index);
      }
      assert units == [u] + units[1..];
    }
  }

  /** 32 clear bytes are also necessary: the pass undoes itself for every keystream and every list exactly
      when skip is at least 32. */
  lemma SkipExact(skip: nat)
    ensures (forall ks: Keystream, units: seq<Unit> | Proper(units) ::
               Pass(ks, skip, Pass(ks, skip, units, 0), 0) == units) <==> skip >= 32
  {
    if skip >= 32 {
      forall ks: Keystream, units: seq<Unit> | Proper(units)
        ensures Pass(ks, skip, Pass(ks, skip, units, 0), 0) == units
      {
        PassTwice(ks, skip, units, 0);
      }
    } else {
      var ks, units := Witness(skip);
      assert Pass(ks, skip, Pass(ks, skip, units, 0), 0) != units;
    }
  }

  lemma Witness(skip: nat) returns (ks: Keystream, units: seq<Unit>)
    requires skip < 32
    ensures Proper(units) && Pass(ks, skip, Pass(ks, skip, units, 0), 0) != units
  {
    ks := (f: Bytes, i: nat) => (j: nat) => if |f| == 32 && f[31] == 0 then 1 else 3;
    var nalu: Bytes := [0x26, 0] + seq(33, _ => 0 as bv8);
    units := [Unit(START4, nalu)];
    assert NalType(nalu[0]) == 19;
    var once := Cipher(ks, skip, nalu, 0);
    assert Feature(nalu)[31] == 0;
    assert once[33] == 0 ^ 1;
    assert Feature(once)[31] == once[33] == 1;
    var twice := Cipher(ks, skip, once, 0);
    assert twice[33] == 1 ^ 3;
    assert Pass(ks, skip, units, 0) == [Unit(START4, once)];
    assert Pass(ks, skip, [Unit(START4, once)], 0) == [Unit(START4, twice)];
  }

  // ----- a second run over the written stream -----

  predicate Coded(units: seq<Unit>) { forall i :: 0 <= i < |units| ==> units[i].code == START3 || units[i].code == START4 }

  predicate Begins(text: Bytes, p: nat) { IsStart(text, p, 3) || IsStart(text, p, 4) }

  /** No start code that a scan would find begins in the first n bytes, even one that runs on beyond them. */
  predicate NoneInside(text: Bytes, n: nat) {
    forall p: nat :: p < n && p + 3 < |text| ==> !Begins(text, p)
  }

  /** No start code begins inside a unit, its last bytes joined with what follows included. */
  predicate Clean(units: seq<Unit>) {
    units == [] || (NoneInside(units[0].nalu + Join(units[1..]), |units[0].nalu|) && Clean(units[1..]))
  }

  /** The scan stops at the first place where a code begins. */
  lemma {:induction false} ScanFirst(data: Bytes, i: nat, p: nat)
    requires i <= p < |data| - 3 && Begins(data, p)
    ensures Scan(data, i) != [] && Scan(data, i)[0].0 <= p
    decreases p - i
  {
    hide IsStart;
    if !Begins(data, i) { ScanFirst(data, i + 1, p); }
  }

  /** It passes over a stretch where none begins. */
  lemma {:induction false} ScanOver(data: Bytes, i: nat, n: nat)
    requires i + n <= |data| && NoneInside(data[i..], n)
    ensures Scan(data, i) == Scan(data, i + n)
    decreases n
  {
    hide Scan, Begins;
    if n > 0 {
      var text := data[i + 1..];
      forall p: nat | p < n - 1 && p + 3 < |text| ensures !Begins(text, p) {
        BeginsSuffix(data, i + 1, p);
        BeginsSuffix(data, i, p + 1);
      }
      ScanOver(data, i + 1, n - 1);
      if i < |data| - 3 {
        BeginsSuffix(data, i, 0);
        ScanNext(data, i);
      } else {
        ScanEnd(data, i);
        ScanEnd(data, i + n);
      }
    }
  }

  lemma ScanNext(data: Bytes, i: nat)
    requires i < |data| - 3 && !Begins(data, i)
    ensures Scan(data, i) == Scan(data, i + 1)
  {
    hide IsStart;
  }

  lemma BeginsSuffix(data: Bytes, i: nat, p: nat)
    requires i <= |data|
    ensures Begins(data[i..], p) == Begins(data, i + p)
  {
    var text := data[i..];
    if p + 3 <= |text| { assert text[p..p + 3] == data[i + p..i + p + 3]; }
    if p + 4 <= |text| { assert text[p..p + 4] == data[i + p..i + p + 4]; }
  }

  /** At a unit, the scan finds its code, with the right length. */
  lemma ScanUnit(data: Bytes, i: nat, u: Unit, more: Bytes)
    requires i <= |data| && data[i..] == u.code + u.nalu + more && |u.nalu| >= 2
    requires u.code == START3 || u.code == START4
    ensures i < |data| - 3 && Begins(data, i)
    ensures Scan(data, i) == [(i, |u.code|)] + Scan(data, i + |u.code|)
  {
    hide Scan, IsStart;
    var text, n := data[i..], |u.code|;
    assert |text| == n + |u.nalu| + |more|;
    assert text[..n] == u.code;
    CodeAt(data, i, u.code);
    ScanCode(data, i, n);
  }

  lemma CodeAt(data: Bytes, i: nat, code: Bytes)
    requires code == START3 || code == START4
    requires i + |code| <= |data| && data[i..][..|code|] == code
    ensures IsStart(data, i, |code|) && (|code| == 3 ==> !IsStart(data, i, 4))
  {
    var n := |code|;
    assert data[i..i + n] == data[i..][..n];
    if n == 3 && i + 4 <= |data| {
      assert data[i + 2] == data[i..i + 3][2] == 1;
      assert data[i..i + 4][2] == data[i + 2];
    }
  }

  lemma ScanCode(data: Bytes, i: nat, n: nat)
    requires i < |data| - 3 && IsStart(data, i, n) && (n == 4 || (n == 3 && !IsStart(data, i, 4)))
    ensures Scan(data, i) == [(i, n)] + Scan(data, i + n)
  {
    hide IsStart;
  }

  /** What the scan makes of a position where a list of units is written: that list exactly when it is clean. */
  lemma {:induction false} UnitsWritten(data: Bytes, from: nat, i: nat, units: seq<Unit>)
    requires from <= i <= |data| && data[i..] == Join(units) && Proper(units) && Coded(units) && units != []
    ensures Placed(data, from, Scan(data, i))
    ensures UnitsFrom(data, from, Scan(data, i)) == units <==> Clean(units)
    decreases |units|
  {
    hide Scan, Placed, Begins, IsStart, UnitsFrom, Join, Clean, NoneInside;
    ScanPlaced(data, from, i);
    var u, rest := units[0], units[1..];
    var j, end := i + |u.code|, i + |u.code| + |u.nalu|;
    JoinHead(units);
    Slices(data, i, u, Join(rest));
    CleanHead(units);
    ScanUnit(data, i, u, Join(rest));
    ScanPlaced(data, j, j);
    UnitsCons(data, from, i, |u.code|, Scan(data, j));
    if NoneInside(data[j..], |u.nalu|) {
      ScanOver(data, j, |u.nalu|);
      RestWritten(data, j, end, rest);
      if rest != [] {
        assert Proper(rest) && Coded(rest);
        UnitsWritten(data, j, end, rest);
      }
      HeadTail(u, UnitsFrom(data, j, Scan(data, j)), units);
    } else {
      CodeInside(data, j, |u.nalu|);
    }
  }

  lemma HeadTail(u: Unit, more: seq<Unit>, units: seq<Unit>)
    requires units != [] && units[0] == u
    ensures [u] + more == units <==> more == units[1..]
  {
    if [u] + more == units { assert more == ([u] + more)[1..]; }
    assert units == [units[0]] + units[1..];
  }

  lemma CleanHead(units: seq<Unit>)
    requires units != []
    ensures Clean(units) <==> NoneInside(units[0].nalu + Join(units[1..]), |units[0].nalu|) && Clean(units[1..])
    ensures Clean([])
  {
  }

  lemma Slices(data: Bytes, i: nat, u: Unit, more: Bytes)
    requires i <= |data| && data[i..] == u.code + u.nalu + more
    ensures var j, end := i + |u.code|, i + |u.code| + |u.nalu|;
            && end <= |data| && data[i..j] == u.code && data[j..] == u.nalu + more
            && data[j..end] == u.nalu && data[end..] == more
  {
    var j, end := i + |u.code|, i + |u.code| + |u.nalu|;
    var text := data[i..];
    assert |text| == |u.code| + |u.nalu| + |more|;
    assert data[i..j] == text[..|u.code|] && data[j..] == text[|u.code|..];
    assert data[j..end] == text[|u.code|..|u.code| + |u.nalu|] && data[end..] == text[|u.code| + |u.nalu|..];
  }

  /** After a clean unit the scan goes on where the next one is written. */
  lemma RestWritten(data: Bytes, j: nat, end: nat, rest: seq<Unit>)
    requires j <= end <= |data| && data[end..] == Join(rest) && Proper(rest) && Coded(rest)
    requires Scan(data, j) == Scan(data, end)
    ensures Placed(data, j, Scan(data, j))
    ensures rest == [] ==> end == |data| && Scan(data, j) == [] && UnitsFrom(data, j, Scan(data, j)) == []
    ensures rest != [] ==> Scan(data, j) != [] && Scan(data, j)[0].0 == end
  {
    hide Scan, IsStart, Begins;
    ScanPlaced(data, j, j);
    if rest == [] {
      ScanEnd(data, end);
    } else {
      ScanUnit(data, end, rest[0], Join(rest[1..]));
    }
  }

  /** A code inside the first n bytes ends the unit there. */
  lemma CodeInside(data: Bytes, j: nat, n: nat)
    requires j + n <= |data| && !NoneInside(data[j..], n)
    ensures Scan(data, j) != [] && Scan(data, j)[0].0 < j + n
  {
    hide Scan, Begins;
    var text := data[j..];
    var p: nat :| p < n && p + 3 < |text| && Begins(text, p);
    BeginsSuffix(data, j, p);
    ScanFirst(data, j, j + p);
  }

  lemma UnitsCons(data: Bytes, from: nat, i: nat, n: nat, codes: seq<(nat, nat)>)
    requires Placed(data, from, [(i, n)] + codes) && Placed(data, i + n, codes)
    ensures var end := if codes == [] then |data| else codes[0].0;
            i + n <= end <= |data|
            && UnitsFrom(data, from, [(i, n)] + codes) == [Unit(data[i..i + n], data[i + n..end])] + UnitsFrom(data, i + n, codes)
  {
    assert ([(i, n)] + codes)[1..] == codes;
  }

  /** What the split makes of a written list of units: the list itself exactly when it is clean. */
  lemma Resplit(units: seq<Unit>)
    requires Proper(units) && Coded(units) && units != []
    ensures Placed(Join(units), 0, Scan(Join(units), 0))
    ensures Kept(Units(Join(units), Scan(Join(units), 0))) == units <==> Clean(units)
  {
    hide Scan, Placed, UnitsFrom, Kept, Join, Clean;
    var data := Join(units);
    assert data[0..] == data;
    UnitsWritten(data, 0, 0, units);
    JoinHead(units);
    ScanUnit(data, 0, units[0], Join(units[1..]));
    var codes := Scan(data, 0);
    UnitCodes(data, 0, codes);
    KeptLength(Units(data, codes));
    JoinSplit(data, codes);
    ProperMembers(units);
  }

  lemma JoinHead(units: seq<Unit>)
    requires units != []
    ensures Join(units) == units[0].code + units[0].nalu + Join(units[1..])
  {
  }

  lemma ProperMembers(units: seq<Unit>)
    ensures Proper(units) <==> forall u :: u in units ==> |u.nalu| >= 2
  {
    if Proper(units) {
      forall u | u in units ensures |u.nalu| >= 2 { var i :| 0 <= i < |units| && units[i] == u; }
    } else {
      var i :| 0 <= i < |units| && |units[i].nalu| < 2;
      assert units[i] in units;
    }
  }

  lemma {:induction false} KeptProper(data: Bytes, from: nat, codes: seq<(nat, nat)>)
    requires Placed(data, from, codes)
    ensures Proper(Kept(UnitsFrom(data, from, codes))) && Coded(Kept(UnitsFrom(data, from, codes)))
    decreases codes
  {
    if codes != [] { KeptProper(data, codes[0].0 + codes[0].1, codes[1..]); }
  }

  lemma SplitProper(data: Bytes)
    requires Split(data).Some?
    ensures Proper(Split(data).value) && Coded(Split(data).value)
  {
    hide Scan, Kept, UnitsFrom, Placed;
    ScanPlaced(data, 0, 0);
    KeptProper(data, 0, Scan(data, 0));
  }

  /** hevc_xor_i_only on the contents of a file. None is the exception of a stream without start codes. */
  method XorFile(ks: Keystream, skip: nat, data: Bytes) returns (r: Option<Bytes>)
    ensures r.None? <==> Split(data).None?
    ensures r.Some? ==> Proper(Split(data).value) && r.value == Join(Pass(ks, skip, Split(data).value, 0))
  {
    hide Scan, Kept, UnitsFrom, Placed, Pass, Join, NoneMissed;
    var units := SplitAnnexB(data);
    if units.None? { return None; }
    SplitProper(data);
    var out := XorIOnly(ks, skip, units.value);
    r := Some(Join(out));
  }

  lemma {:induction false} PassCoded(ks: Keystream, skip: nat, units: seq<Unit>, index: nat)
    requires Proper(units) && Coded(units)
    ensures Coded(Pass(ks, skip, units, index))
  {
    hide Selected, Cipher;
    if units != [] {
      PassCoded(ks, skip, units[1..], index + 1);
      PassCoded(ks, skip, units[1..], index);
    }
  }

  /** The second run splits the written stream at the same places exactly when the encrypted list is clean. */
  lemma SecondSplitExact(ks: Keystream, skip: nat, units: seq<Unit>)
    requires Proper(units) && Coded(units) && units != []
    ensures var once := Pass(ks, skip, units, 0);
            Split(Join(once)) == Some(once) <==> Clean(once)
  {
    hide Scan, Kept, UnitsFrom, Placed, Pass, Join, Clean;
    var once := Pass(ks, skip, units, 0);
    PassCoded(ks, skip, units, 0);
    Resplit(once);
    JoinHead(once);
    assert Join(once)[0..] == Join(once);
    ScanUnit(Join(once), 0, once[0], Join(once[1..]));
  }

  /** A keystream that writes a start code: the list was clean, its encryption is not. */
  lemma CodeWritten() returns (ks: Keystream, units: seq<Unit>)
    ensures Proper(units) && Coded(units) && Clean(units) && !Clean(Pass(ks, 32, units, 0))
  {
    ks := (f: Bytes, i: nat) => (j: nat) => if j < 2 then 1 else 0;
    var nalu: Bytes := [0x26, 0] + seq(40, _ => 1 as bv8);
    units := [Unit(START4, nalu)];
    assert NalType(nalu[0]) == 19;
    assert nalu + Join([]) == nalu && units[1..] == [];
    forall p: nat | p + 3 < |nalu| ensures !Begins(nalu, p) {
      if p == 0 { NoCodeAt(nalu, p, p); } else { NoCodeAt(nalu, p, p + 1); }
    }
    var once := Cipher(ks, 32, nalu, 0);
    var stream := ks(Feature(nalu), 0);
    assert Selected(nalu, 32);
    assert Pass(ks, 32, units, 0) == [Unit(START4, once)] + Pass(ks, 32, [], 1);
    Unclean(nalu, stream);
    assert [Unit(START4, once)][1..] == [] && once + Join([]) == once;
  }

  /** A byte that is not 0 where a code has one of its leading zeros. */
  lemma NoCodeAt(text: Bytes, p: nat, k: nat)
    requires p <= k <= p + 1 && k < |text| && text[k] != 0
    ensures !Begins(text, p)
  {
    if p + 3 <= |text| { assert text[p..p + 3][k - p] == text[k]; }
    if p + 4 <= |text| { assert text[p..p + 4][k - p] == text[k]; }
  }

  lemma Unclean(nalu: Bytes, stream: nat -> bv8)
    requires |nalu| == 42 && nalu[34] == nalu[35] == nalu[36] == 1
    requires stream(0) == stream(1) == 1 && stream(2) == 0
    ensures !NoneInside(nalu[..34] + XorStream(nalu[34..], stream), 42)
  {
    var once := nalu[..34] + XorStream(nalu[34..], stream);
    assert once[34] == nalu[34] ^ stream(0) && once[35] == nalu[35] ^ stream(1) && once[36] == nalu[36] ^ stream(2);
    assert once[34..37] == START3;
    assert Begins(once, 34);
  }

  /** From file to file and back: when the encrypted list is clean, two runs return the data from its first
      start code on, provided no unit of it was shorter than two bytes. */
  method EncryptDecrypt(ks: Keystream, skip: nat, data: Bytes) returns (r: Option<Bytes>, ghost once: seq<Unit>)
    requires skip >= 32
    ensures Split(data).None? || Split(data).value == [] ==> r == None
    ensures Split(data).Some? && Split(data).value != [] ==>
              && Proper(Split(data).value) && once == Pass(ks, skip, Split(data).value, 0)
              && (Clean(once) ==> r == Some(Join(Split(data).value)))
    ensures Placed(data, 0, Scan(data, 0))
    ensures r.Some? && Clean(once) && (forall u :: u in Units(data, Scan(data, 0)) ==> |u.nalu| >= 2) ==>
              r.value == data[Scan(data, 0)[0].0..]
  {
    hide Kept, UnitsFrom, Placed, Pass, Join, NoneMissed, Clean;
    once := [];
    ScanPlaced(data, 0, 0);
    var first := XorFile(ks, skip, data);
    if first.None? { return None, once; }
    SplitProper(data);
    ghost var units := Split(data).value;
    once := Pass(ks, skip, units, 0);
    if units != [] {
      SecondSplitExact(ks, skip, units);
      PassTwice(ks, skip, units, 0);
    } else {
      EmptyRun(ks, skip);
    }
    r := XorFile(ks, skip, first.value);
    JoinSplit(data, Scan(data, 0));
  }

  lemma EmptyRun(ks: Keystream, skip: nat)
    ensures Pass(ks, skip, [], 0) == [] && Join([]) == [] && Split([]) == None
  {
  }
}

/** Selective encryption of RTP packets in place: the forwarding client and the receiver. */
module RtpCipher {
  import opened Common
  import opened Modular
  import opened ZucWords
  import opened Zuc

  const SKIP := 64
  const BUFFER := 1600

  /** IDR_W_RADL, IDR_N_LP and CRA. */
  predicate IntraType(t: bv8) { t == 19 || t == 20 || t == 21 }

  /** rtp_header_len: fixed header, CSRC list and extension. */
  function HeaderLen(buf: Bytes, len: nat): int
    requires |buf| == BUFFER && len <= BUFFER
  {
    if len < 12 then -1
    else
      var base := 12 + (N(buf[0]) % 0x10) * 4;
      if (N(buf[0]) / 0x10) % 2 == 0 then base
      else base + 4 + (N(buf[base + 2]) * 0x100 + N(buf[base + 3])) * 4
  }

  /** The header length from its parts: cc CSRC entries, and with the extension bit x an extension of the length
      that its two bytes give. The bits above are version and padding. */
  lemma HeaderParts(buf: Bytes, len: nat, above: nat, x: nat, cc: nat)
    requires |buf| == BUFFER && 12 <= len <= BUFFER && N(buf[0]) == 32 * above + 16 * x + cc && x <= 1 && cc < 16
    ensures x == 0 ==> HeaderLen(buf, len) == 12 + 4 * cc
    ensures x == 1 ==> HeaderLen(buf, len) == 16 + 4 * cc + 4 * (256 * N(buf[14 + 4 * cc]) + N(buf[15 + 4 * cc]))
  {
    hide N;
    DivModUnique(N(buf[0]), 16, 2 * above + x, cc);
    DivModUnique(2 * above + x, 2, above, x);
  }

  /** No CSRC list and no extension: the header is twelve bytes long. */
  predicate PlainHeader(b: bv8) { N(b) % 0x20 == 0 }

  /** Bytes from `from` on, under the keystream whose IV is the 16 bytes at `iv`. */
  function Ciphered(t: Tables, key: Bytes, buf: Bytes, len: nat, iv: nat, from: nat): (r: Bytes)
    requires |key| == 32 && from <= len <= |buf| && iv + 16 <= |buf|
    ensures |r| == |buf|
  {
    buf[..from] + Crypt(t, Init(t, key, buf[iv..iv + 16]), buf[from..len]) + buf[len..]
  }

  /** What the client does to a packet that carries a single NAL unit. */
  function Encrypted(t: Tables, key: Bytes, buf: Bytes, len: nat): (r: Bytes)
    requires |key| == 32 && |buf| == BUFFER && len <= BUFFER
    ensures |r| == BUFFER
  {
    var h := HeaderLen(buf, len);
    if h < 0 || len <= h + 2 || !IntraType(NalType(buf[h])) || len - h <= 2 + SKIP then buf
    else Ciphered(t, key, buf, len, h + 2, h + 2 + SKIP)
  }

  /** The count in force for a fragment: the S bit sets it anew. */
  function Count(fu: bv8, skip: nat): nat { if fu & 0x80 != 0 then SKIP else skip }

  predicate IntraHeader(fu: bv8) { IntraType(fu & 0x3F) }

  /** The fragment belongs to an I-frame and is longer than what stays clear, so its IV is read. */
  predicate Enciphers(buf: Bytes, len: nat, h: nat, skip: nat)
    requires |buf| == BUFFER && h + 2 < len <= BUFFER
  {
    IntraHeader(buf[h + 2]) && Count(buf[h + 2], skip) < len - h - 3
  }

  /** What it does to a fragment: the bytes still to be skipped stay clear, the rest is enciphered. */
  function FuEncrypted(t: Tables, key: Bytes, buf: Bytes, len: nat, h: nat, skip: nat): (r: (Bytes, nat))
    requires |key| == 32 && |buf| == BUFFER && h + 2 < len <= BUFFER
    requires Enciphers(buf, len, h, skip) ==> h + 19 <= BUFFER
    ensures |r.0| == BUFFER
  {
    if IntraHeader(buf[h + 2]) then FuSkipped(t, key, buf, len, h + 3, Count(buf[h + 2], skip)) else (buf, skip)
  }

  function FuSkipped(t: Tables, key: Bytes, buf: Bytes, len: nat, body: nat, count: nat): (r: (Bytes, nat))
    requires |key| == 32 && |buf| == BUFFER && body <= len <= BUFFER
    requires count < len - body ==> body + 16 <= BUFFER
    ensures |r.0| == BUFFER
  {
    if count < len - body then (Ciphered(t, key, buf, len, body, body + count), 0) else (buf, count - (len - body))
  }

  function Clear(skip: nat, n: nat): (c: nat)
    ensures c <= skip && c <= n
  {
    if n < skip then n else skip
  }

  function Sum(ns: seq<nat>): nat {
    if ns == [] then 0 else Sum(ns[..|ns| - 1]) + ns[|ns| - 1]
  }

  /** The skip counter before fragment k of a unit whose fragments have bodies of these lengths. */
  function SkipBefore(ns: seq<nat>, k: nat): nat
    requires k <= |ns|
  {
    if k == 0 then SKIP else SkipBefore(ns, k - 1) - Clear(SkipBefore(ns, k - 1), ns[k - 1])
  }

  lemma {:induction false} SkipLeft(ns: seq<nat>, k: nat)
    requires k <= |ns|
    ensures SkipBefore(ns, k) == if Sum(ns[..k]) < SKIP then SKIP - Sum(ns[..k]) else 0
  {
    if k > 0 {
      SkipLeft(ns, k - 1);
      assert ns[..k][..k - 1] == ns[..k - 1];
    }
  }

  // ----- the packets, byte by byte -----

  /** The type of a NAL unit is 19, 20 or 21. */
  ghost predicate IsIntra(b: bv8) { var t := (b >> 1) & 0x3F; t == 19 || t == 20 || t == 21 }

  /** Bytes `from` to len - 1 of a packet under the keystream whose IV is the first 16 of the 64 bytes before them,
      the others as before. */
  ghost predicate Enciphered(t: Tables, key: Bytes, buf: Bytes, len: nat, from: nat, out: Bytes) {
    && |key| == 32 && |buf| == 1600 && |out| == 1600 && 64 <= from <= len <= 1600
    && forall i :: 0 <= i < 1600 ==>
         out[i] == if from <= i < len then buf[i] ^ KeyByte(t, Init(t, key, buf[from - 64..from - 48]), i - from) else buf[i]
  }

  /** A packet with one NAL unit: enciphered exactly when it is an I-frame with more than 66 bytes after the
      header, untouched otherwise. */
  lemma SinglePacket(t: Tables, key: Bytes, buf: Bytes, len: nat)
    requires |key| == 32 && |buf| == 1600 && len <= 1600
    ensures var out, h := Encrypted(t, key, buf, len), HeaderLen(buf, len);
            if 0 <= h < len - 66 && IsIntra(buf[h]) then Enciphered(t, key, buf, len, h + 66, out) else out == buf
  {
    hide Ciphered, N, Init, KeyByte, IsIntra, NalType, IntraType, HeaderLen;
    var h := HeaderLen(buf, len);
    if 0 <= h < len - 66 {
      IntraIs(buf[h]);
      CipheredBytes(t, key, buf, len, h + 2, h + 66);
    } else if 0 <= h < len {
      IntraIs(buf[h]);
    }
  }

  /** The two kinds of packet, by the functions for each. */
  ghost predicate Processed(t: Tables, key: Bytes, buf: Bytes, len: nat, skip: nat, out: Bytes, skip': nat)
    requires |key| == 32 && |buf| == BUFFER && len <= BUFFER
  {
    var h := HeaderLen(buf, len);
    if 0 <= h < len - 2 && NalType(buf[h]) == 49
    then (Enciphers(buf, len, h, skip) ==> h + 19 <= BUFFER) && (out, skip') == FuEncrypted(t, key, buf, len, h, skip)
    else out == Encrypted(t, key, buf, len) && skip' == skip
  }

  /** A packet whose NAL unit is not a fragment, or that is too short to hold one. */
  ghost predicate SingleUnit(t: Tables, key: Bytes, buf: Bytes, len: nat, skip: nat, out: Bytes, skip': nat)
    requires |buf| == 1600 && len <= 1600
  {
    var h := HeaderLen(buf, len);
    (0 <= h < len - 2 ==> (buf[h] >> 1) & 0x3F != 49) ==>
      && skip' == skip
      && if 0 <= h < len - 66 && IsIntra(buf[h]) then Enciphered(t, key, buf, len, h + 66, out) else out == buf
  }

  /** A fragment of a unit that is no I-frame is left alone. */
  ghost predicate OtherFragment(buf: Bytes, len: nat, skip: nat, out: Bytes, skip': nat)
    requires |buf| == 1600 && len <= 1600
  {
    var h := HeaderLen(buf, len);
    0 <= h < len - 2 && (buf[h] >> 1) & 0x3F == 49 && (buf[h + 2] & 0x3F) !in {19, 20, 21} ==> out == buf && skip' == skip
  }

  lemma ProcessedSingle(t: Tables, key: Bytes, buf: Bytes, len: nat, skip: nat, out: Bytes, skip': nat)
    requires |key| == 32 && |buf| == BUFFER && len <= BUFFER && Processed(t, key, buf, len, skip, out, skip')
    ensures SingleUnit(t, key, buf, len, skip, out, skip')
  {
    NalTypes();
    hide Encrypted, Enciphered, FuEncrypted, Enciphers, N, IsIntra, HeaderLen, NalType;
    SinglePacket(t, key, buf, len);
  }

  lemma ProcessedOther(t: Tables, key: Bytes, buf: Bytes, len: nat, skip: nat, out: Bytes, skip': nat)
    requires |key| == 32 && |buf| == BUFFER && len <= BUFFER && Processed(t, key, buf, len, skip, out, skip')
    ensures OtherFragment(buf, len, skip, out, skip')
  {
    NalTypes();
    hide Encrypted, HeaderLen, NalType, IntraHeader, FuSkipped, Count;
  }

  lemma IntraIs(b: bv8)
    ensures IsIntra(b) <==> IntraType(NalType(b))
  {
  }

  /** What the receiver does to a packet: bytes 78 on are deciphered whatever its type, shorter ones are left. */
  lemma ReceivedPacket(t: Tables, key: Bytes, buf: Bytes, len: nat)
    requires |key| == 32 && |buf| == 1600 && len <= 1600
    ensures var out := Decrypted(t, key, buf, len);
            if len > 78 then Enciphered(t, key, buf, len, 78, out) else out == buf
  {
    hide Decrypted, Ciphered, Init, KeyByte;
    DecryptedPlain(t, key, buf, len);
    if len > 78 { CipheredBytes(t, key, buf, len, 14, 78); }
  }

  /** So every I-frame packet with a plain header comes back. */
  lemma IntraRestored(t: Tables, key: Bytes, buf: Bytes, len: nat)
    requires |key| == 32 && |buf| == 1600 && len <= 1600 && N(buf[0]) % 32 == 0 && IsIntra(buf[12])
    ensures Decrypted(t, key, Encrypted(t, key, buf, len), len) == buf
  {
    hide Encrypted, Decrypted, N, Silent, IntraType, NalType, IsIntra;
    IntraIs(buf[12]);
    IntraNotFragment(buf[12]);
    RoundTripExact(t, key, buf, len);
  }

  lemma NalTypes()
    ensures forall b: bv8 :: NalType(b) == (b >> 1) & 0x3F
    ensures forall b: bv8 :: IntraHeader(b) <==> (b & 0x3F) in {19, 20, 21}
  {
  }

  lemma IntraNotFragment(b: bv8)
    ensures IsIntra(b) ==> NalType(b) != 49
  {
  }

  /** What the receiver does: a fixed header, and no test of the NAL type. */
  function Decrypted(t: Tables, key: Bytes, buf: Bytes, len: nat): Bytes
    requires |key| == 32 && |buf| == BUFFER && len <= BUFFER
  {
    if len <= 14 || len - 12 <= 2 + SKIP then buf else Ciphered(t, key, buf, len, 14, 14 + SKIP)
  }

  /** Ciphering twice at the same place is the identity when the IV lies in the untouched prefix. */
  lemma CipheredTwice(t: Tables, key: Bytes, buf: Bytes, len: nat, iv: nat, from: nat)
    requires |key| == 32 && iv + 16 <= from <= len <= |buf|
    ensures Ciphered(t, key, Ciphered(t, key, buf, len, iv, from), len, iv, from) == buf
  {
    hide Init, KeyByte;
    var c := Ciphered(t, key, buf, len, iv, from);
    assert c[iv..iv + 16] == buf[iv..iv + 16];
    var st := Init(t, key, buf[iv..iv + 16]);
    assert c[from..len] == Crypt(t, st, buf[from..len]);
    CryptTwice(t, st, buf[from..len]);
    assert c[..from] == buf[..from] && c[len..] == buf[len..];
    ThreeParts(buf, from, len);
  }

  /** The first n keystream bytes are zero. */
  predicate Silent(t: Tables, st: State, n: nat)
    requires |st.cells| == 16
  {
    forall i :: 0 <= i < n ==> KeyByte(t, st, i) == 0
  }

  /** The receiver's result for a plain header: the packet itself exactly when it was encrypted, is too
      short to be, or the keystream over its tail is zero. */
  lemma RoundTripExact(t: Tables, key: Bytes, buf: Bytes, len: nat)
    requires |key| == 32 && |buf| == BUFFER && len <= BUFFER && PlainHeader(buf[0])
    requires len > 12 ==> NalType(buf[12]) != 49
    ensures Decrypted(t, key, Encrypted(t, key, buf, len), len) == buf
       <==> || len <= 12 + 2 + SKIP || IntraType(NalType(buf[12]))
            || Silent(t, Init(t, key, buf[14..30]), len - (12 + 2 + SKIP))
  {
    hide Init, KeyByte, NalType, Ciphered, Silent, HeaderLen, Encrypted, Decrypted, N, PlainHeader, IntraType;
    EncryptedPlain(t, key, buf, len);
    DecryptedPlain(t, key, buf, len);
    DecryptedPlain(t, key, Encrypted(t, key, buf, len), len);
    if len > 12 + 2 + SKIP {
      if IntraType(NalType(buf[12])) {
        CipheredTwice(t, key, buf, len, 14, 14 + SKIP);
      } else {
        CipheredIsIdentity(t, key, buf, len, 14, 14 + SKIP);
      }
    }
  }

  /** Wherever encryption changes an I-frame packet, the receiver damages the packet that differs from it
      only in carrying another type, which the client leaves alone. */
  lemma ClearPacketDamaged(t: Tables, key: Bytes, buf: Bytes, len: nat, b: bv8)
    requires |key| == 32 && |buf| == BUFFER && len <= BUFFER && PlainHeader(buf[0])
    requires Encrypted(t, key, buf, len) != buf && !IntraType(NalType(b)) && NalType(b) != 49
    ensures var other := buf[12 := b];
            Encrypted(t, key, other, len) == other && Decrypted(t, key, other, len) != other
  {
    hide Init, KeyByte, NalType, Ciphered, Silent, HeaderLen, Encrypted, Decrypted, N, PlainHeader, IntraType;
    var other := buf[12 := b];
    EncryptedPlain(t, key, buf, len);
    EncryptedPlain(t, key, other, len);
    CipheredIsIdentity(t, key, buf, len, 14, 14 + SKIP);
    assert other[14..30] == buf[14..30];
    RoundTripExact(t, key, other, len);
  }

  lemma EncryptedPlain(t: Tables, key: Bytes, buf: Bytes, len: nat)
    requires |key| == 32 && |buf| == BUFFER && len <= BUFFER && PlainHeader(buf[0])
    ensures Encrypted(t, key, buf, len)
         == if len <= 12 + 2 + SKIP || !IntraType(NalType(buf[12])) then buf else Ciphered(t, key, buf, len, 14, 14 + SKIP)
  {
    hide Ciphered, NalType, N, IntraType, HeaderLen, PlainHeader;
    PlainLength(buf, len);
  }

  lemma PlainLength(buf: Bytes, len: nat)
    requires |buf| == BUFFER && len <= BUFFER && PlainHeader(buf[0])
    ensures HeaderLen(buf, len) == if len < 12 then -1 else 12
  {
    hide N;
    LowBits(N(buf[0]));
  }

  lemma LowBits(b: nat)
    requires b % 0x20 == 0
    ensures b % 0x10 == 0 && (b / 0x10) % 2 == 0
  {
    var k := b / 0x20;
    DivModUnique(b, 0x10, 2 * k, 0);
    DivModUnique(2 * k, 2, k, 0);
  }

  lemma DecryptedPlain(t: Tables, key: Bytes, buf: Bytes, len: nat)
    requires |key| == 32 && |buf| == BUFFER && len <= BUFFER
    ensures Decrypted(t, key, buf, len) == if len <= 12 + 2 + SKIP then buf else Ciphered(t, key, buf, len, 14, 14 + SKIP)
  {
    hide Ciphered;
  }

  /** One pass leaves the packet alone exactly when the keystream is zero. */
  lemma CipheredIsIdentity(t: Tables, key: Bytes, buf: Bytes, len: nat, iv: nat, from: nat)
    requires |key| == 32 && iv + 16 <= |buf| && from <= len <= |buf|
    ensures Ciphered(t, key, buf, len, iv, from) == buf
       <==> Silent(t, Init(t, key, buf[iv..iv + 16]), len - from)
  {
    hide Init, KeyByte, Crypt;
    var st, body := Init(t, key, buf[iv..iv + 16]), buf[from..len];
    CryptIsIdentity(t, st, body);
    ThreeParts(buf, from, len);
    Splice(buf[..from], Crypt(t, st, body), body, buf[len..]);
  }

  lemma CryptIsIdentity(t: Tables, st: State, body: Bytes)
    requires |st.cells| == 16
    ensures Crypt(t, st, body) == body <==> Silent(t, st, |body|)
  {
    hide KeyByte;
    forall i | 0 <= i < |body| ensures Crypt(t, st, body)[i] == body[i] <==> KeyByte(t, st, i) == 0 {
      XorZero(body[i], KeyByte(t, st, i));
    }
  }

  lemma ThreeParts(s: Bytes, i: nat, j: nat)
    requires i <= j <= |s|
    ensures s == s[..i] + s[i..j] + s[j..]
  {
  }

  lemma Splice(a: Bytes, b: Bytes, c: Bytes, d: Bytes)
    requires |b| == |c|
    ensures a + b + d == a + c + d <==> b == c
  {
    if a + b + d == a + c + d {
      assert b == (a + b + d)[|a|..|a| + |b|];
      assert c == (a + c + d)[|a|..|a| + |c|];
    }
  }

  lemma XorZero(a: bv8, b: bv8)
    ensures a ^ b == a <==> b == 0
  {
  }

  // ----- the in-place code -----

  method CipherInPlace(t: Tables, key: Bytes, rtp: array<bv8>, len: nat, ivAt: nat, from: nat)
    requires |key| == 32 && ivAt + 16 <= rtp.Length && from <= len <= rtp.Length
    modifies rtp
    ensures rtp[..] == Ciphered(t, key, old(rtp[..]), len, ivAt, from)
  {
    hide Init, KeyByte, Crypt, WorkN;
    ghost var before := rtp[..];
    var iv := rtp[ivAt..ivAt + 16];
    var zuc := new Zuc256(t, key, iv);
    assert rtp[..] == before && rtp[from..len] == before[from..len];
    zuc.CryptRange(rtp, rtp, from, len - from);
    ghost var after := rtp[..];
    assert after[..from] == before[..from] && after[len..] == before[len..];
    assert after[from..len] == Crypt(t, Init(t, key, before[ivAt..ivAt + 16]), before[from..len]);
    ThreeParts(after, from, len);
  }

  /** The forwarding client, with the count of bytes still to be skipped in the current unit. */
  class Client {
    var skipRemain: nat

    constructor ()
      ensures skipRemain == 0
    {
      skipRemain := 0;
    }

    /** process_rtp_packet. A fragment that is enciphered must leave room in the buffer for the 16 IV bytes
        that are copied. */
    method ProcessRtpPacket(t: Tables, key: Bytes, rtp: array<bv8>, len: nat)
      requires |key| == 32 && rtp.Length == BUFFER && len <= BUFFER
      requires var h := HeaderLen(rtp[..], len);
               0 <= h < len - 2 && NalType(rtp[h]) == 49 && Enciphers(rtp[..], len, h, skipRemain) ==> h + 19 <= BUFFER
      modifies this, rtp
      ensures Processed(t, key, old(rtp[..]), len, old(skipRemain), rtp[..], skipRemain)
      ensures SingleUnit(t, key, old(rtp[..]), len, old(skipRemain), rtp[..], skipRemain)
      ensures OtherFragment(old(rtp[..]), len, old(skipRemain), rtp[..], skipRemain)
    {
      hide Processed, SingleUnit, OtherFragment, HeaderLen, NalType, Enciphers;
      ghost var buf, skip := rtp[..], skipRemain;
      Dispatch(t, key, rtp, len);
      ProcessedSingle(t, key, buf, len, skip, rtp[..], skipRemain);
      ProcessedOther(t, key, buf, len, skip, rtp[..], skipRemain);
    }

    method Dispatch(t: Tables, key: Bytes, rtp: array<bv8>, len: nat)
      requires |key| == 32 && rtp.Length == BUFFER && len <= BUFFER
      requires var h := HeaderLen(rtp[..], len);
               0 <= h < len - 2 && NalType(rtp[h]) == 49 && Enciphers(rtp[..], len, h, skipRemain) ==> h + 19 <= BUFFER
      modifies this, rtp
      ensures Processed(t, key, old(rtp[..]), len, old(skipRemain), rtp[..], skipRemain)
    {
      hide NalType, Ciphered, N;
      var h := HeaderLen(rtp[..], len);
      if h < 0 || len <= h + 2 { return; }
      if NalType(rtp[h]) != 49 {
        if !IntraType(NalType(rtp[h])) { return; }
        if len - h <= 2 + SKIP { return; }
        CipherInPlace(t, key, rtp, len, h + 2, h + 2 + SKIP);
        return;
      }
      ProcessFragment(t, key, rtp, len, h);
    }

    method ProcessFragment(t: Tables, key: Bytes, rtp: array<bv8>, len: nat, h: nat)
      requires |key| == 32 && rtp.Length == BUFFER && h + 2 < len <= BUFFER
      requires Enciphers(rtp[..], len, h, skipRemain) ==> h + 19 <= BUFFER
      modifies this, rtp
      ensures (rtp[..], skipRemain) == FuEncrypted(t, key, old(rtp[..]), len, h, old(skipRemain))
    {
      hide Ciphered;
      var fu := rtp[h + 2];
      if !IntraHeader(fu) { return; }
      if fu & 0x80 != 0 { skipRemain := SKIP; }
      var frag, fragLen := h + 3, len - h - 3;
      if skipRemain > 0 {
        var skip := Clear(skipRemain, fragLen);
        frag, fragLen := frag + skip, fragLen - skip;
        skipRemain := skipRemain - skip;
      }
      if fragLen <= 0 { return; }
      CipherInPlace(t, key, rtp, len, h + 3, frag);
    }
  }

  // ----- a whole unit through the client -----

  /** The receive buffer once a datagram of `len` bytes is in it; what lies behind it is left over. */
  datatype Packet = Packet(buf: Bytes, len: nat)

  /** A fragment of an I-frame: `body` is where its bytes begin. */
  ghost predicate IntraFragment(p: Packet, body: nat, first: bool) {
    && |p.buf| == BUFFER && p.len <= BUFFER && 3 <= body <= p.len
    && HeaderLen(p.buf, p.len) == body - 3 && (p.buf[body - 3] >> 1) & 0x3F == 49
    && (p.buf[body - 1] & 0x3F) in {19, 20, 21} && (p.buf[body - 1] & 0x80 != 0) == first
  }

  /** The fragments of one I-frame in order, the S bit on the first only. Those longer than what stays clear
      have room for the IV. */
  ghost predicate IntraUnit(packets: seq<Packet>, bodies: seq<nat>) {
    && |bodies| == |packets|
    && (forall k :: 0 <= k < |packets| ==> IntraFragment(packets[k], bodies[k], k == 0))
    && (forall k :: 0 <= k < |packets| && 64 < Sum(Lengths(packets, bodies)[..k + 1]) ==> bodies[k] + 16 <= BUFFER)
  }

  ghost function Lengths(packets: seq<Packet>, bodies: seq<nat>): (ns: seq<nat>)
    requires |bodies| == |packets| && forall k :: 0 <= k < |packets| ==> bodies[k] <= packets[k].len
    ensures |ns| == |packets|
  {
    seq(|packets|, k requires 0 <= k < |packets| => packets[k].len - bodies[k])
  }

  /** The bytes of a packet after the first `clear` of its body are under the keystream of its own IV. */
  ghost predicate Tail(t: Tables, key: Bytes, p: Packet, body: nat, clear: nat, out: Bytes)
    requires |key| == 32 && |p.buf| == |out| == BUFFER && body <= p.len <= BUFFER
  {
    body + 16 <= BUFFER &&
    var st := Init(t, key, p.buf[body..body + 16]);
    forall i :: body + clear <= i < p.len ==> out[i] == p.buf[i] ^ KeyByte(t, st, i - body - clear)
  }

  /** What a packet becomes when `before` bytes of its unit precede its body. Byte i of the body is byte
      before + i of the unit: the first 64 of those stay clear, every later one is under the keystream. */
  ghost predicate ClearThenCiphered(t: Tables, key: Bytes, p: Packet, body: nat, before: nat, out: Bytes)
    requires |key| == 32 && |p.buf| == BUFFER && body <= p.len <= BUFFER
  {
    && |out| == BUFFER
    && (forall i :: 0 <= i < BUFFER && !(body <= i < p.len && before + (i - body) >= 64) ==> out[i] == p.buf[i])
    && (before + (p.len - body) <= 64 || Tail(t, key, p, body, if before < 64 then 64 - before else 0, out))
  }

  /** However a unit is fragmented and whatever the client did before, exactly the first 64 bytes of the
      unit's body leave it in clear. */
  method ForwardUnit(client: Client, t: Tables, key: Bytes, packets: seq<Packet>, ghost bodies: seq<nat>)
    returns (out: seq<Bytes>)
    requires |key| == 32 && IntraUnit(packets, bodies)
    modifies client
    ensures |out| == |packets|
    ensures forall k :: 0 <= k < |packets| ==>
              ClearThenCiphered(t, key, packets[k], bodies[k], Sum(Lengths(packets, bodies)[..k]), out[k])
  {
    NalTypes();
    hide NalType, HeaderLen, Init, KeyByte, Ciphered, Sum, SkipBefore, IntraHeader, FuEncrypted, FuSkipped,
         Enciphers, Count, ClearThenCiphered;
    ghost var ns := Lengths(packets, bodies);
    out := [];
    for k := 0 to |packets|
      invariant |out| == k && (k > 0 ==> client.skipRemain == SkipBefore(ns, k))
      invariant forall j :: 0 <= j < k ==> ClearThenCiphered(t, key, packets[j], bodies[j], Sum(ns[..j]), out[j])
    {
      var p := packets[k];
      var buf := new bv8[BUFFER](i requires 0 <= i < BUFFER => p.buf[i]);
      assert buf[..] == p.buf;
      assert IntraFragment(p, bodies[k], k == 0);
      UnitStep(t, key, ns, k, p, bodies[k], client.skipRemain);
      client.ProcessRtpPacket(t, key, buf, p.len);
      out := out + [buf[..]];
    }
  }

  /** One fragment of the unit, with the counter the earlier ones left. */
  lemma UnitStep(t: Tables, key: Bytes, ns: seq<nat>, k: nat, p: Packet, body: nat, skip: nat)
    requires |key| == 32 && k < |ns| && IntraFragment(p, body, k == 0) && ns[k] == p.len - body
    requires k > 0 ==> skip == SkipBefore(ns, k)
    requires 64 < Sum(ns[..k + 1]) ==> body + 16 <= BUFFER
    ensures body - 3 + 2 < p.len && (Enciphers(p.buf, p.len, body - 3, skip) ==> body + 16 <= BUFFER)
    ensures var r := FuEncrypted(t, key, p.buf, p.len, body - 3, skip);
            r.1 == SkipBefore(ns, k + 1) && ClearThenCiphered(t, key, p, body, Sum(ns[..k]), r.0)
  {
    NalTypes();
    hide NalType, HeaderLen, Init, KeyByte, Ciphered, Sum, SkipBefore, IntraHeader;
    SkipLeft(ns, k);
    SkipNext(ns, k);
    SumNext(ns, k);
    var before := Sum(ns[..k]);
    var clear := Count(p.buf[body - 1], skip);
    if Enciphers(p.buf, p.len, body - 3, skip) {
      CipheredBytes(t, key, p.buf, p.len, body, body + clear);
    }
  }

  lemma SkipNext(ns: seq<nat>, k: nat)
    requires k < |ns|
    ensures SkipBefore(ns, 0) == SKIP && SkipBefore(ns, k + 1) == SkipBefore(ns, k) - Clear(SkipBefore(ns, k), ns[k])
  {
  }

  lemma SumNext(ns: seq<nat>, k: nat)
    requires k < |ns|
    ensures Sum(ns[..k + 1]) == Sum(ns[..k]) + ns[k]
  {
    assert ns[..k + 1][..k] == ns[..k];
  }

  lemma CipheredBytes(t: Tables, key: Bytes, buf: Bytes, len: nat, iv: nat, from: nat)
    requires |key| == 32 && from <= len <= |buf| && iv + 16 <= |buf|
    ensures var r, st := Ciphered(t, key, buf, len, iv, from), Init(t, key, buf[iv..iv + 16]);
            && (forall i :: 0 <= i < |buf| && !(from <= i < len) ==> r[i] == buf[i])
            && (forall i :: from <= i < len ==> r[i] == buf[i] ^ KeyByte(t, st, i - from))
  {
    hide Init, KeyByte;
  }

  method DecryptRtpPacket(t: Tables, key: Bytes, rtp: array<bv8>, len: nat)
    requires |key| == 32 && rtp.Length == BUFFER && len <= BUFFER
    modifies rtp
    ensures rtp[..] == Decrypted(t, key, old(rtp[..]), len)
    ensures if len > 78 then Enciphered(t, key, old(rtp[..]), len, 78, rtp[..]) else rtp[..] == old(rtp[..])
  {
    ReceivedPacket(t, key, rtp[..], len);
    hide Ciphered, Enciphered;
    if len <= 14 { return; }
    if len - 12 <= 2 + SKIP { return; }
    CipherInPlace(t, key, rtp, len, 14, 14 + SKIP);
  }
}

/** The streaming SM3 hash: a byte-at-a-time buffered context against the padded-block definition of
    sections 5.2 and 5.3 of GM/T 0004-2012. The compression function is a parameter. */
module Sm3 {

  type Byte = x: int | 0 <= x < 0x100
  type Word = x: int | 0 <= x < 0x1_0000_0000
  /** The eight words of the chaining value. */
  type State = s: seq<Word> | |s| == 8 witness [0, 0, 0, 0, 0, 0, 0, 0]
  type Compress = (State, seq<Byte>) -> State

  const IV: State := [0x7380166f, 0x4914b2b9, 0x172442d7, 0xda8a0600, 0xa96f30bc, 0x163138aa, 0xe38dee4d, 0xb0fb0e4e]

  // ----- the standard -----

  function Zeros(n: nat): seq<Byte> { seq(n, _ => 0) }

  lemma ZerosTake(k: nat, n: nat)
    requires k <= n
    ensures |Zeros(n)| == n && Zeros(n)[..k] == Zeros(k)
  {
  }

  /** Big-endian bytes, `n` of them. */
  function BigEndian(v: nat, n: nat): (r: seq<Byte>)
    ensures |r| == n
  {
    if n == 0 then [] else BigEndian(v / 0x100, n - 1) + [v % 0x100]
  }

  /** Number of zero bytes: the least that makes the padded length a multiple of 64. */
  function ZeroCount(len: nat): (k: nat)
    ensures k < 64 && (len + 1 + k + 8) % 64 == 0
  {
    (119 - len % 64) % 64
  }

  /** The message, a 1 bit, the zeros, and the bit length in 64 bits. */
  function Padded(m: seq<Byte>): (r: seq<Byte>)
    ensures |r| % 64 == 0 && m <= r
  {
    m + [0x80] + Zeros(ZeroCount(|m|)) + BigEndian(8 * |m|, 8)
  }

  /** The number that big-endian bytes stand for. */
  function FromBytes(b: seq<Byte>): nat {
    if b == [] then 0 else 0x100 * FromBytes(b[..|b| - 1]) + b[|b| - 1]
  }

  lemma {:induction false} BigEndianValue(v: nat, n: nat)
    requires v < Pow256(n)
    ensures FromBytes(BigEndian(v, n)) == v
  {
    if n > 0 {
      BigEndianValue(v / 0x100, n - 1);
      assert BigEndian(v, n)[..n - 1] == BigEndian(v / 0x100, n - 1);
    }
  }

  lemma EightBytes()
    ensures Pow256(8) == 0x1_0000_0000_0000_0000
  {
    FourBytes();
    assert Pow256(5) == 0x100 * Pow256(4);
    assert Pow256(8) == 0x100 * (0x100 * (0x100 * Pow256(5)));
  }

  /** Section 5.2 of the standard: a bit 1, then as few zeros as make the length 448 modulo 512 bits, then the
      length of the message in 64 bits. */
  lemma PaddedIsStandard(m: seq<Byte>)
    requires 8 * |m| < 0x1_0000_0000_0000_0000
    ensures var p, n := Padded(m), |Padded(m)|;
            && n % 64 == 0 && |m| + 9 <= n < |m| + 9 + 64 && p[..|m|] == m && p[|m|] == 0x80
            && (forall i :: |m| < i < n - 8 ==> p[i] == 0) && FromBytes(p[n - 8..]) == 8 * |m|
  {
    hide BigEndian, FromBytes, Pow256;
    EightBytes();
    BigEndianValue(8 * |m|, 8);
    var p := Padded(m);
    assert p[|p| - 8..] == BigEndian(8 * |m|, 8);
  }

  /** Iterated compression over the first `blocks` blocks of a message. */
  function Iterate(cf: Compress, m: seq<Byte>, blocks: nat): State
    requires 64 * blocks <= |m|
  {
    if blocks == 0 then IV
    else cf(Iterate(cf, m, blocks - 1), m[64 * (blocks - 1)..64 * blocks])
  }

  /** ... over all its whole blocks. */
  function Fold(cf: Compress, m: seq<Byte>): State { Iterate(cf, m, |m| / 64) }

  /** Later bytes do not affect earlier blocks. */
  lemma {:induction false} IteratePrefix(cf: Compress, m: seq<Byte>, more: seq<Byte>, blocks: nat)
    requires 64 * blocks <= |m|
    ensures Iterate(cf, m + more, blocks) == Iterate(cf, m, blocks)
  {
    if blocks > 0 {
      IteratePrefix(cf, m, more, blocks - 1);
      assert (m + more)[64 * (blocks - 1)..64 * blocks] == m[64 * (blocks - 1)..64 * blocks];
    }
  }

  lemma FoldBlock(cf: Compress, m: seq<Byte>, block: seq<Byte>)
    requires |m| % 64 == 0 && |block| == 64
    ensures Fold(cf, m + block) == cf(Fold(cf, m), block)
  {
    var q := |m| / 64;
    assert |m| == 64 * q && |m + block| / 64 == q + 1;
    IteratePrefix(cf, m, block, q);
    assert (m + block)[64 * q..64 * (q + 1)] == block;
  }

  // ----- the context -----

  /** 64-bit wrap-around of the counters. */
  function Wrap(n: nat): nat { n % 0x1_0000_0000_0000_0000 }

  class Context {
    const cf: Compress
    const buf: array<Byte>
    var state: State
    var curLen: nat
    var compressedLen: nat
    ghost var msg: seq<Byte>

    /** The absorbed message: whole blocks are in the state, the rest is in the buffer. The bit count
        is kept modulo 2^64. */
    ghost predicate Held()
      reads this, buf
    {
      && buf.Length == 64 && curLen <= 64
      && |msg| >= curLen && (|msg| - curLen) % 64 == 0
      && state == Fold(cf, msg[..|msg| - curLen])
      && buf[..curLen] == msg[|msg| - curLen..]
      && compressedLen == Wrap(8 * (|msg| - curLen))
    }

    /** Between calls the buffer is never full. */
    ghost predicate Valid()
      reads this, buf
    {
      Held() && curLen < 64
    }

    constructor (cf: Compress)
      ensures Valid() && msg == [] && this.cf == cf && fresh(buf)
      ensures state == [0x7380166F, 0x4914B2B9, 0x172442D7, 0xDA8A0600, 0xA96F30BC, 0x163138AA, 0xE38DEE4D, 0xB0FB0E4E]
    {
      this.cf := cf;
      buf := new Byte[64](_ => 0);
      state := IV;
      curLen, compressedLen, msg := 0, 0, [];
    }

    method UpdateByte(b: Byte)
      requires Valid()
      modifies this, buf
      ensures Valid() && msg == old(msg) + [b]
    {
      hide Fold;
      ghost var n := |msg| - curLen;
      ghost var head, tail := msg[..n], msg[n..];
      buf[curLen] := b;
      curLen := curLen + 1;
      msg := msg + [b];
      assert buf[..curLen] == tail + [b];
      assert msg[..n] == head && msg[n..] == tail + [b];
      if curLen == 64 {
        CompressFull();
      }
    }

    /** A full buffer is compressed into the state and emptied. */
    method CompressFull()
      requires Held() && curLen == 64
      modifies this
      ensures Valid() && msg == old(msg)
    {
      hide Fold, Wrap;
      var block := buf[..];
      assert buf[..64] == block;
      BlockAbsorbed(cf, msg, block);
      BitCount(|msg| - 64);
      state := cf(state, block);
      compressedLen := Wrap(compressedLen + 512);
      curLen := 0;
      assert buf[..0] == [];
    }

    method Update(input: seq<Byte>)
      requires Valid()
      modifies this, buf
      ensures Valid() && msg == old(msg) + input
    {
      var i := 0;
      while i < |input|
        invariant 0 <= i <= |input| && Valid() && msg == old(msg) + input[..i]
      {
        UpdateByte(input[i]);
        assert input[..i + 1] == input[..i] + [input[i]];
        i := i + 1;
      }
      assert input[..i] == input;
    }

    /** Padding and output. For messages under 2^64 bits the digest is the fold over the standard's
        padded message. */
    method Done() returns (digest: seq<Byte>)
      requires Valid()
      modifies this, buf
      ensures 8 * |old(msg)| < 0x1_0000_0000_0000_0000 ==> digest == Digest(Fold(cf, Padded(old(msg))))
      ensures |digest| == 32
      ensures 8 * |old(msg)| < 0x1_0000_0000_0000_0000 ==> WordsOut(Fold(cf, Padded(old(msg))), digest)
    {
      hide Fold, BigEndian, ZeroCount, Digest, Padded, Zeros, Context.Held, WordsOut;
      ghost var m := msg;
      var msglen, padding := Trailer();
      Update(padding);
      Update(msglen);
      if 8 * |m| < 0x1_0000_0000_0000_0000 {
        PaddedIs(m, padding, msglen, msg);
        Whole();
      }
      digest := Digest(state);
      DigestBytes(state);
    }

    /** With a whole number of blocks absorbed, the state is the fold over everything. */
    lemma Whole()
      requires Valid() && |msg| % 64 == 0
      ensures state == Fold(cf, msg)
    {
      hide Fold;
      WholeBlocks(msg, curLen);
    }

    /** The length field and the padding that the code derives from its counters. */
    method Trailer() returns (msglen: seq<Byte>, padding: seq<Byte>)
      requires Valid()
      ensures padding == [0x80] + Zeros(ZeroCount(|msg|))
      ensures 8 * |msg| < 0x1_0000_0000_0000_0000 ==> msglen == BigEndian(8 * |msg|, 8)
    {
      hide Fold, BigEndian, ZeroCount, Zeros, Wrap;
      var total := Wrap(compressedLen + curLen * 8);
      TotalBits(|msg|, curLen, compressedLen);
      var high, low := (total / 0x1_0000_0000) % 0x1_0000_0000, total % 0x1_0000_0000;
      msglen := BigEndian(high, 4) + BigEndian(low, 4);
      JoinHalves(total);
      var padn := if curLen + 1 <= 56 then 56 - curLen else 120 - curLen;
      PadLength(|msg|, curLen);
      ZerosTake(padn - 1, 63);
      padding := ([0x80] + Zeros(63))[..padn];
      assert padding == [0x80] + Zeros(63)[..padn - 1];
    }
  }

  lemma PaddedIs(m: seq<Byte>, padding: seq<Byte>, msglen: seq<Byte>, msg: seq<Byte>)
    requires padding == [0x80] + Zeros(ZeroCount(|m|)) && msglen == BigEndian(8 * |m|, 8)
    requires msg == m + padding + msglen
    ensures msg == Padded(m)
  {
    hide ZeroCount, BigEndian, Zeros;
    assert m + ([0x80] + Zeros(ZeroCount(|m|))) + msglen == m + [0x80] + Zeros(ZeroCount(|m|)) + msglen;
  }

  lemma WholeBlocks(msg: seq<Byte>, cur: nat)
    requires |msg| % 64 == 0 && cur < 64 && |msg| >= cur && (|msg| - cur) % 64 == 0
    ensures cur == 0 && msg[..|msg| - cur] == msg
  {
  }

  function Digest(w: seq<Word>): seq<Byte> {
    if w == [] then [] else BigEndian(w[0], 4) + Digest(w[1..])
  }

  /** The words in order, each with its most significant byte first. */
  ghost predicate WordsOut(w: seq<Word>, digest: seq<Byte>) {
    |digest| == 4 * |w|
    && forall i :: 0 <= i < |w| ==> FromBytes(digest[4 * i..4 * i + 4]) == w[i]
  }

  lemma {:induction false} DigestBytes(w: seq<Word>)
    ensures |Digest(w)| == 4 * |w| && WordsOut(w, Digest(w))
  {
    hide BigEndian, FromBytes, Pow256;
    if w != [] {
      var head, rest, all := BigEndian(w[0], 4), Digest(w[1..]), Digest(w);
      DigestBytes(w[1..]);
      FourBytes();
      BigEndianValue(w[0], 4);
      forall i | 0 <= i < |w| ensures FromBytes(all[4 * i..4 * i + 4]) == w[i] {
        if i == 0 {
          assert all[0..4] == head;
        } else {
          assert all[4 * i..4 * i + 4] == rest[4 * (i - 1)..4 * (i - 1) + 4];
          assert w[1..][i - 1] == w[i];
        }
      }
    }
  }

  /** The last block of a message of whole blocks: its place in the fold and in the bit count. */
  lemma BlockAbsorbed(cf: Compress, msg: seq<Byte>, block: seq<Byte>)
    requires |msg| >= 64 && (|msg| - 64) % 64 == 0 && |block| == 64 && block == msg[|msg| - 64..]
    ensures Fold(cf, msg[..|msg| - 0]) == cf(Fold(cf, msg[..|msg| - 64]), block)
    ensures msg[|msg| - 0..] == []
  {
    hide Fold;
    var n := |msg| - 64;
    assert msg[..|msg| - 0] == msg == msg[..n] + block;
    FoldBlock(cf, msg[..n], block);
  }

  lemma BitCount(n: nat)
    ensures Wrap(Wrap(8 * n) + 512) == Wrap(8 * (n + 64))
  {
  }

  lemma TotalBits(len: nat, cur: nat, compressed: nat)
    requires len >= cur && compressed == Wrap(8 * (len - cur))
    ensures Wrap(compressed + cur * 8) == Wrap(8 * len) < 0x1_0000_0000_0000_0000
    ensures 8 * len < 0x1_0000_0000_0000_0000 ==> Wrap(8 * len) == 8 * len
  {
  }

  /** The two halves written separately are the eight bytes of the whole. */
  lemma JoinHalves(v: nat)
    requires v < 0x1_0000_0000_0000_0000
    ensures BigEndian((v / 0x1_0000_0000) % 0x1_0000_0000, 4) + BigEndian(v % 0x1_0000_0000, 4) == BigEndian(v, 8)
  {
    hide BigEndian, Pow256;
    FourBytes();
    var hi, lo := v / 0x1_0000_0000, v % 0x1_0000_0000;
    assert hi % 0x1_0000_0000 == hi;
    BigEndianJoin(hi, lo, 4, 4);
  }

  function Pow256(n: nat): nat { if n == 0 then 1 else 0x100 * Pow256(n - 1) }

  lemma FourBytes()
    ensures Pow256(4) == 0x1_0000_0000
  {
    assert Pow256(2) == 0x1_0000;
    assert Pow256(4) == 0x100 * (0x100 * Pow256(2));
  }

  lemma {:induction false} BigEndianJoin(hi: nat, lo: nat, m: nat, n: nat)
    requires lo < Pow256(n)
    ensures hi * Pow256(n) >= 0
    ensures BigEndian(hi * Pow256(n) + lo, m + n) == BigEndian(hi, m) + BigEndian(lo, n)
  {
    if n == 0 {
      assert BigEndian(hi, m) + [] == BigEndian(hi, m) && hi * 1 == hi;
    } else {
      hide BigEndian, Pow256;
      var p := Pow256(n - 1);
      Pow256Next(n - 1);
      BigEndianJoin(hi, lo / 0x100, m, n - 1);
      LowByte(hi, p, lo);
      LastByte(hi * Pow256(n) + lo, m + n);
      LastByte(lo, n);
      var a, b := BigEndian(hi, m), BigEndian(lo / 0x100, n - 1);
      assert a + (b + [lo % 0x100]) == (a + b) + [lo % 0x100];
    }
  }

  lemma Pow256Next(n: nat)
    ensures Pow256(n + 1) == 0x100 * Pow256(n)
  {
  }

  lemma LastByte(v: nat, n: nat)
    requires n > 0
    ensures BigEndian(v, n) == BigEndian(v / 0x100, n - 1) + [v % 0x100]
  {
  }

  lemma LowByte(hi: nat, p: nat, lo: nat)
    ensures hi * (0x100 * p) >= 0
    ensures var v := hi * (0x100 * p) + lo; v / 0x100 == hi * p + lo / 0x100 && v % 0x100 == lo % 0x100
  {
    var x := hi * p;
    assert hi * (0x100 * p) == 0x100 * x;
  }

  /** The padding length of the code is the standard's: one byte 0x80 and the least zeros. */
  lemma PadLength(len: nat, cur: nat)
    requires cur < 64 && len >= cur && (len - cur) % 64 == 0
    ensures (if cur + 1 <= 56 then 56 - cur else 120 - cur) == 1 + ZeroCount(len)
  {
    assert len % 64 == cur;
  }

  /** Any number of updates. */
  method UpdateAll(ctx: Context, chunks: seq<seq<Byte>>)
    requires ctx.Valid()
    modifies ctx, ctx.buf
    ensures ctx.Valid() && ctx.msg == old(ctx.msg) + Join(chunks)
    decreases |chunks|
  {
    hide Fold, Context.Valid, Context.Held;
    if |chunks| > 0 {
      var n := |chunks| - 1;
      UpdateAll(ctx, chunks[..n]);
      ctx.Update(chunks[n]);
    }
  }

  /** gm_sm3, and init / update* / done for any chunking of the message. */
  method HashChunks(cf: Compress, chunks: seq<seq<Byte>>) returns (digest: seq<Byte>)
    ensures 8 * |Join(chunks)| < 0x1_0000_0000_0000_0000 ==> digest == Digest(Fold(cf, Padded(Join(chunks))))
    ensures |digest| == 32
    ensures 8 * |Join(chunks)| < 0x1_0000_0000_0000_0000 ==> WordsOut(Fold(cf, Padded(Join(chunks))), digest)
  {
    hide Fold, Padded, Digest, Join, Context.Valid, Context.Held, WordsOut;
    var ctx := new Context(cf);
    UpdateAll(ctx, chunks);
    assert [] + Join(chunks) == Join(chunks);
    digest := ctx.Done();
  }

  function Join(chunks: seq<seq<Byte>>): seq<Byte> {
    if chunks == [] then [] else Join(chunks[..|chunks| - 1]) + chunks[|chunks| - 1]
  }

  /** The chunks in order. */
  lemma {:induction false} JoinInOrder(a: seq<seq<Byte>>, b: seq<seq<Byte>>, m: seq<Byte>)
    ensures Join(a + b) == Join(a) + Join(b) && Join([m]) == m
    decreases |b|
  {
    var one: seq<seq<Byte>> := [m];
    assert one[..0] == [];
    if b == [] {
      assert a + b == a && Join(a) + [] == Join(a);
    } else {
      var n := |b| - 1;
      JoinInOrder(a, b[..n], m);
      assert (a + b)[..|a| + n] == a + b[..n] && (a + b)[|a| + n] == b[n];
      assert Join(a) + (Join(b[..n]) + b[n]) == (Join(a) + Join(b[..n])) + b[n];
    }
  }
}

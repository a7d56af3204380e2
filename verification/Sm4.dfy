/** The SM4 block transform and its CBC mode, on word arrays in place. The mixing function T is arbitrary,
    as is the list of round keys. */
module Sm4 {

  type Mix = bv32 -> bv32

  /** Four words. */
  datatype Block = Block(x0: bv32, x1: bv32, x2: bv32, x3: bv32)

  function Plus(a: bv32, b: bv32): bv32 { a ^ b }

  function Plus4(a: bv32, b: bv32, c: bv32, d: bv32): bv32 { a ^ b ^ c ^ d }

  lemma PlusBack(a: bv32, b: bv32)
    ensures Plus(Plus(a, b), b) == a
  {
  }

  lemma Plus4Swap(a: bv32, b: bv32, c: bv32, d: bv32)
    ensures Plus4(c, b, a, d) == Plus4(a, b, c, d)
  {
  }

  function Round(t: Mix, rk: bv32, b: Block): Block {
    Block(b.x1, b.x2, b.x3, Plus(b.x0, t(Plus4(b.x1, b.x2, b.x3, rk))))
  }

  function Rounds(t: Mix, keys: seq<bv32>, b: Block): Block {
    if keys == [] then b else Rounds(t, keys[1..], Round(t, keys[0], b))
  }

  /** The final reversal of the words. */
  function Flip(b: Block): Block { Block(b.x3, b.x2, b.x1, b.x0) }

  function Transform(t: Mix, keys: seq<bv32>, b: Block): Block { Flip(Rounds(t, keys, b)) }

  function Reversed(keys: seq<bv32>): seq<bv32> {
    if keys == [] then [] else Reversed(keys[1..]) + [keys[0]]
  }

  /** One round between two reversals undoes itself with the same key. */
  lemma RoundUndone(t: Mix, rk: bv32, b: Block)
    ensures Round(t, rk, Flip(Round(t, rk, b))) == Flip(b)
  {
    hide Plus, Plus4;
    Plus4Swap(b.x1, b.x2, b.x3, rk);
    PlusBack(b.x0, t(Plus4(b.x1, b.x2, b.x3, rk)));
  }

  lemma {:induction false} RoundsAppend(t: Mix, a: seq<bv32>, c: seq<bv32>, b: Block)
    ensures Rounds(t, a + c, b) == Rounds(t, c, Rounds(t, a, b))
  {
    if a == [] {
      assert a + c == c;
    } else {
      RoundsAppend(t, a[1..], c, Round(t, a[0], b));
      assert (a + c)[1..] == a[1..] + c;
    }
  }

  /** Whatever T and the keys are, the reversed keys undo the transform. */
  lemma {:induction false} ReversedKeysUndo(t: Mix, keys: seq<bv32>, b: Block)
    ensures Transform(t, Reversed(keys), Transform(t, keys, b)) == b
  {
    if keys != [] {
      var next := Round(t, keys[0], b);
      ReversedKeysUndo(t, keys[1..], next);
      var end := Flip(Rounds(t, keys[1..], next));
      RoundsAppend(t, Reversed(keys[1..]), [keys[0]], end);
      var mid := Rounds(t, Reversed(keys[1..]), end);
      assert Flip(mid) == next;
      assert mid == Flip(next);
      RoundUndone(t, keys[0], b);
      assert Rounds(t, [keys[0]], mid) == Rounds(t, [], Round(t, keys[0], mid));
    }
  }

  // ----- CBC on values -----

  function Xor(a: Block, b: Block): Block {
    Block(Plus(a.x0, b.x0), Plus(a.x1, b.x1), Plus(a.x2, b.x2), Plus(a.x3, b.x3))
  }

  /** Word by word. */
  lemma XorWords(a: Block, b: Block, c: Block)
    requires c == Xor(a, b)
    ensures c.x0 == a.x0 ^ b.x0
    ensures c.x1 == a.x1 ^ b.x1
    ensures c.x2 == a.x2 ^ b.x2
    ensures c.x3 == a.x3 ^ b.x3
  {
    hide Plus;
    PlusIs(a.x0, b.x0);
    PlusIs(a.x1, b.x1);
    PlusIs(a.x2, b.x2);
    PlusIs(a.x3, b.x3);
  }

  lemma PlusIs(a: bv32, b: bv32)
    ensures Plus(a, b) == a ^ b
  {
  }

  lemma XorBack(a: Block, b: Block)
    ensures Xor(Xor(a, b), b) == a
  {
    hide Plus;
    PlusBack(a.x0, b.x0);
    PlusBack(a.x1, b.x1);
    PlusBack(a.x2, b.x2);
    PlusBack(a.x3, b.x3);
  }

  /** Each block is chained to the ciphertext before it. */
  function CbcEnc(t: Mix, keys: seq<bv32>, iv: Block, p: seq<Block>): (c: seq<Block>)
    ensures |c| == |p|
    decreases p
  {
    if p == [] then []
    else
      var c0 := Transform(t, keys, Xor(p[0], iv));
      [c0] + CbcEnc(t, keys, c0, p[1..])
  }

  function CbcDec(t: Mix, keys: seq<bv32>, iv: Block, c: seq<Block>): (p: seq<Block>)
    ensures |p| == |c|
    decreases c
  {
    if c == [] then [] else [Xor(Transform(t, keys, c[0]), iv)] + CbcDec(t, keys, c[0], c[1..])
  }

  lemma {:induction false} CbcRoundTrip(t: Mix, keys: seq<bv32>, iv: Block, p: seq<Block>)
    ensures CbcDec(t, Reversed(keys), iv, CbcEnc(t, keys, iv, p)) == p
    decreases p
  {
    hide Transform, Xor, Reversed;
    if p != [] {
      var c0 := Transform(t, keys, Xor(p[0], iv));
      var c := CbcEnc(t, keys, iv, p);
      assert c[0] == c0 && c[1..] == CbcEnc(t, keys, c0, p[1..]);
      CbcRoundTrip(t, keys, c0, p[1..]);
      ReversedKeysUndo(t, keys, Xor(p[0], iv));
      XorBack(p[0], iv);
      assert [p[0]] + p[1..] == p;
    }
  }

  /** Every block of the decryption depends only on two neighbouring ciphertext blocks, so the blocks may
      be computed in any order. */
  lemma {:induction false} CbcDecBlock(t: Mix, keys: seq<bv32>, iv: Block, c: seq<Block>, i: nat)
    requires i < |c|
    ensures CbcDec(t, keys, iv, c)[i] == Xor(Transform(t, keys, c[i]), if i == 0 then iv else c[i - 1])
    decreases i
  {
    hide Transform, Xor;
    if i > 0 {
      CbcDecBlock(t, keys, c[0], c[1..], i - 1);
    }
  }

  // ----- the array code -----

  function BlockAt(x: seq<bv32>, i: nat): Block
    requires 4 * i + 4 <= |x|
  {
    Block(x[4 * i], x[4 * i + 1], x[4 * i + 2], x[4 * i + 3])
  }

  function Blocks(x: seq<bv32>): (r: seq<Block>)
    requires |x| % 4 == 0
    ensures |r| == |x| / 4
  {
    seq(|x| / 4, i requires 0 <= i < |x| / 4 => BlockAt(x, i))
  }

  /** The next word after a, b, c, d in the recurrence of section 7 of GM/T 0002-2012. */
  ghost function NextWord(t: Mix, rk: bv32, a: bv32, b: bv32, c: bv32, d: bv32): bv32 { a ^ t(b ^ c ^ d ^ rk) }

  /** Word k of the recurrence: the four words of the block, then one for each round key. */
  ghost function WordAt(t: Mix, rK: seq<bv32>, b: Block, k: nat): bv32
    requires k < |rK| + 4
  {
    if k == 0 then b.x0 else if k == 1 then b.x1 else if k == 2 then b.x2 else if k == 3 then b.x3
    else NextWord(t, rK[k - 4], WordAt(t, rK, b, k - 4), WordAt(t, rK, b, k - 3), WordAt(t, rK, b, k - 2), WordAt(t, rK, b, k - 1))
  }

  lemma NextIs(t: Mix, rk: bv32, a: bv32, b: bv32, c: bv32, d: bv32)
    ensures NextWord(t, rk, a, b, c, d) == Plus(a, t(Plus4(b, c, d, rk)))
  {
  }

  lemma WordStep(t: Mix, rK: seq<bv32>, b: Block, k: nat)
    requires k < |rK|
    ensures WordAt(t, rK, b, k + 4)
         == Plus(WordAt(t, rK, b, k),
                 t(Plus4(WordAt(t, rK, b, k + 1), WordAt(t, rK, b, k + 2), WordAt(t, rK, b, k + 3), rK[k])))
  {
    hide Plus, Plus4, NextWord;
    NextIs(t, rK[k], WordAt(t, rK, b, k), WordAt(t, rK, b, k + 1), WordAt(t, rK, b, k + 2), WordAt(t, rK, b, k + 3));
  }

  lemma FirstWords(t: Mix, rK: seq<bv32>, b: Block)
    ensures b == Block(WordAt(t, rK, b, 0), WordAt(t, rK, b, 1), WordAt(t, rK, b, 2), WordAt(t, rK, b, 3))
  {
  }

  /** The transform ends with the last four words of the recurrence, reversed. */
  lemma TransformWords(t: Mix, rK: seq<bv32>, b: Block)
    ensures var n := |rK|;
            Transform(t, rK, b)
            == Block(WordAt(t, rK, b, n + 3), WordAt(t, rK, b, n + 2), WordAt(t, rK, b, n + 1), WordAt(t, rK, b, n))
  {
    hide WordAt, Rounds;
    FirstWords(t, rK, b);
    assert rK[0..] == rK;
    RoundsWords(t, rK, b, 0);
  }

  /** The rounds from the k-th on. */
  lemma {:induction false} RoundsWords(t: Mix, rK: seq<bv32>, b: Block, k: nat)
    requires k <= |rK|
    ensures var n := |rK|;
            Rounds(t, rK[k..], Block(WordAt(t, rK, b, k), WordAt(t, rK, b, k + 1), WordAt(t, rK, b, k + 2), WordAt(t, rK, b, k + 3)))
            == Block(WordAt(t, rK, b, n), WordAt(t, rK, b, n + 1), WordAt(t, rK, b, n + 2), WordAt(t, rK, b, n + 3))
    decreases |rK| - k
  {
    hide WordAt, Plus, Plus4;
    if k < |rK| {
      RoundsWords(t, rK, b, k + 1);
      WordStep(t, rK, b, k);
      assert rK[k..][1..] == rK[k + 1..] && rK[k..][0] == rK[k];
    }
  }

  /** _one_round on the four words of a block, in place: the transform, and the recurrence of the standard. */
  method OneRound(t: Mix, rK: seq<bv32>, x: array<bv32>, i: nat)
    requires 4 * i + 4 <= x.Length
    modifies x
    ensures BlockAt(x[..], i) == Transform(t, rK, old(BlockAt(x[..], i)))
    ensures var n, b := |rK|, Block(old(x[4 * i]), old(x[4 * i + 1]), old(x[4 * i + 2]), old(x[4 * i + 3]));
            && x[4 * i] == WordAt(t, rK, b, n + 3) && x[4 * i + 1] == WordAt(t, rK, b, n + 2)
            && x[4 * i + 2] == WordAt(t, rK, b, n + 1) && x[4 * i + 3] == WordAt(t, rK, b, n)
    ensures forall k :: 0 <= k < x.Length && !(4 * i <= k < 4 * i + 4) ==> x[k] == old(x[k])
  {
    hide Plus, Plus4, WordAt;
    ghost var start := BlockAt(x[..], i);
    var x0, x1, x2, x3 := x[4 * i], x[4 * i + 1], x[4 * i + 2], x[4 * i + 3];
    assert rK[0..] == rK;
    for k := 0 to |rK|
      invariant Rounds(t, rK[k..], Block(x0, x1, x2, x3)) == Rounds(t, rK, start)
      invariant x[..] == old(x[..])
    {
      assert rK[k..][1..] == rK[k + 1..];
      x0, x1, x2, x3 := x1, x2, x3, Plus(x0, t(Plus4(x1, x2, x3, rK[k])));
    }
    x[4 * i], x[4 * i + 1], x[4 * i + 2], x[4 * i + 3] := x3, x2, x1, x0;
    TransformWords(t, rK, start);
  }

  method XorInto(x: array<bv32>, i: nat, b: Block)
    requires 4 * i + 4 <= x.Length
    modifies x
    ensures BlockAt(x[..], i) == Xor(old(BlockAt(x[..], i)), b)
    ensures forall k :: 0 <= k < x.Length && !(4 * i <= k < 4 * i + 4) ==> x[k] == old(x[k])
  {
    hide Plus;
    var j := 4 * i;
    x[j], x[j + 1], x[j + 2], x[j + 3] :=
      Plus(x[j], b.x0), Plus(x[j + 1], b.x1), Plus(x[j + 2], b.x2), Plus(x[j + 3], b.x3);
  }

  /** _cbc_enc */
  method CbcEncrypt(t: Mix, rK: seq<bv32>, iv: Block, x: array<bv32>)
    requires x.Length % 4 == 0
    modifies x
    ensures Blocks(x[..]) == CbcEnc(t, rK, iv, old(Blocks(x[..])))
    ensures forall i :: 0 <= i < x.Length / 4 ==>
              BlockAt(x[..], i) == Transform(t, rK, Xor(old(BlockAt(x[..], i)), if i == 0 then iv else BlockAt(x[..], i - 1)))
  {
    hide Transform, Xor, BlockAt;
    ghost var p := Blocks(x[..]);
    var chain := iv;
    var n := x.Length / 4;
    for i := 0 to n
      invariant forall k :: i <= k < n ==> BlockAt(x[..], k) == p[k]
      invariant forall k :: 0 <= k < i ==> BlockAt(x[..], k) == CbcEnc(t, rK, iv, p)[k]
      invariant chain == if i == 0 then iv else CbcEnc(t, rK, iv, p)[i - 1]
    {
      CbcEncBlock(t, rK, iv, p, i);
      EncryptBlock(t, rK, x, i, chain);
      chain := BlockAt(x[..], i);
    }
    forall i | 0 <= i < n
      ensures BlockAt(x[..], i) == Transform(t, rK, Xor(p[i], if i == 0 then iv else BlockAt(x[..], i - 1)))
    {
      CbcEncBlock(t, rK, iv, p, i);
    }
  }

  /** One block of the encryption: combine with the previous ciphertext, then transform. */
  method EncryptBlock(t: Mix, rK: seq<bv32>, x: array<bv32>, i: nat, prev: Block)
    requires 4 * i + 4 <= x.Length
    modifies x
    ensures BlockAt(x[..], i) == Transform(t, rK, Xor(old(BlockAt(x[..], i)), prev))
    ensures forall j: nat :: j != i && 4 * j + 4 <= x.Length ==> BlockAt(x[..], j) == old(BlockAt(x[..], j))
  {
    hide Transform, Xor, WordAt;
    ghost var before := x[..];
    XorInto(x, i, prev);
    OneRound(t, rK, x, i);
    Elsewhere(before, x[..], i);
  }

  lemma Elsewhere(a: seq<bv32>, b: seq<bv32>, i: nat)
    requires |a| == |b| && 4 * i + 4 <= |a|
    requires forall k :: 0 <= k < |a| && !(4 * i <= k < 4 * i + 4) ==> a[k] == b[k]
    ensures forall j: nat :: j != i && 4 * j + 4 <= |a| ==> BlockAt(a, j) == BlockAt(b, j)
  {
  }

  lemma {:induction false} CbcEncBlock(t: Mix, keys: seq<bv32>, iv: Block, p: seq<Block>, i: nat)
    requires i < |p|
    ensures var c := CbcEnc(t, keys, iv, p);
            c[i] == Transform(t, keys, Xor(p[i], if i == 0 then iv else c[i - 1]))
    decreases i
  {
    hide Transform, Xor;
    if i > 0 {
      var c0 := Transform(t, keys, Xor(p[0], iv));
      CbcEncBlock(t, keys, c0, p[1..], i - 1);
    }
  }

  /** One block of the decryption: transform, then combine with the previous ciphertext. */
  method DecryptBlock(t: Mix, rK: seq<bv32>, x: array<bv32>, i: nat, prev: Block)
    requires 4 * i + 4 <= x.Length
    modifies x
    ensures BlockAt(x[..], i) == Xor(Transform(t, rK, old(BlockAt(x[..], i))), prev)
    ensures forall j: nat :: j != i && 4 * j + 4 <= x.Length ==> BlockAt(x[..], j) == old(BlockAt(x[..], j))
  {
    hide Transform, Xor;
    ghost var before := x[..];
    OneRound(t, rK, x, i);
    XorInto(x, i, prev);
    Elsewhere(before, x[..], i);
  }

  /** _cbc_dec for short inputs: front to back, keeping the previous ciphertext block. */
  method CbcDecryptSequential(t: Mix, rK: seq<bv32>, iv: Block, x: array<bv32>)
    requires x.Length % 4 == 0
    modifies x
    ensures Blocks(x[..]) == CbcDec(t, rK, iv, old(Blocks(x[..])))
  {
    hide Transform, Xor, BlockAt;
    ghost var c := Blocks(x[..]);
    var prev := iv;
    var n := x.Length / 4;
    for i := 0 to n
      invariant forall k :: i <= k < n ==> BlockAt(x[..], k) == c[k]
      invariant forall k :: 0 <= k < i ==> BlockAt(x[..], k) == CbcDec(t, rK, iv, c)[k]
      invariant prev == if i == 0 then iv else c[i - 1]
    {
      CbcDecBlock(t, rK, iv, c, i);
      var copy := BlockAt(x[..], i);
      DecryptBlock(t, rK, x, i, prev);
      prev := copy;
    }
  }

  /** _cbc_dec_parallel: the chaining values are copied first, then the blocks are done in any order that
      visits each once. */
  method CbcDecryptParallel(t: Mix, rK: seq<bv32>, iv: Block, x: array<bv32>, order: seq<nat>)
    requires x.Length % 4 == 0 && x.Length > 0
    requires forall a :: 0 <= a < |order| ==> order[a] < x.Length / 4
    requires forall i :: 0 <= i < x.Length / 4 ==> i in order
    requires forall a, b :: 0 <= a < b < |order| ==> order[a] != order[b]
    modifies x
    ensures Blocks(x[..]) == CbcDec(t, rK, iv, old(Blocks(x[..])))
  {
    hide Transform, Xor, BlockAt;
    ghost var c, p := Blocks(x[..]), CbcDec(t, rK, iv, Blocks(x[..]));
    var n := x.Length / 4;
    var ivs := ChainingValues(iv, x[..]);
    ghost var done: set<nat> := {};
    for j := 0 to |order|
      invariant forall i :: i in done <==> i in order[..j]
      invariant forall k :: 0 <= k < n ==> BlockAt(x[..], k) == if k in done then p[k] else c[k]
    {
      var i := order[j];
      assert i !in order[..j];
      assert order[..j + 1] == order[..j] + [i];
      CbcDecBlock(t, rK, iv, c, i);
      DecryptBlock(t, rK, x, i, ivs[i]);
      done := done + {i};
    }
    assert order[..|order|] == order;
  }

  /** The IV followed by all ciphertext blocks but the last. */
  function ChainingValues(iv: Block, x: seq<bv32>): (r: seq<Block>)
    requires |x| % 4 == 0 && |x| > 0
    ensures |r| == |x| / 4
    ensures forall i :: 0 <= i < |r| ==> r[i] == if i == 0 then iv else Blocks(x)[i - 1]
  {
    [iv] + Blocks(x)[..|x| / 4 - 1]
  }
}

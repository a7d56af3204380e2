/** The word function F of ZUC-256, and what it does bit by bit. The S-boxes are parameters. */
module ZucWords {
  import opened Bits

  /** The two 8-bit substitution tables. */
  datatype Tables = Tables(s0: bv8 -> bv8, s1: bv8 -> bv8)

  function Rol32(x: bv32, n: nat): bv32 requires 0 < n < 32 { (x << n) | (x >> (32 - n)) }

  function L1(x: bv32): bv32 {
    Xor32(Xor32(Xor32(Xor32(x, Rol32(x, 2)), Rol32(x, 10)), Rol32(x, 18)), Rol32(x, 24))
  }

  function L2(x: bv32): bv32 {
    Xor32(Xor32(Xor32(Xor32(x, Rol32(x, 8)), Rol32(x, 14)), Rol32(x, 22)), Rol32(x, 30))
  }

  function Byte(x: bv32, shift: nat): bv8 requires shift < 32 { ((x >> shift) & 0xFF) as bv8 }

  function Substitute(t: Tables, x: bv32): bv32 {
    (t.s1(Byte(x, 0)) as bv32) | ((t.s0(Byte(x, 8)) as bv32) << 8)
      | ((t.s1(Byte(x, 16)) as bv32) << 16) | ((t.s0(Byte(x, 24)) as bv32) << 24)
  }

  /** The low half of a above the high half of b. */
  function Middle(a: bv32, b: bv32): bv32 { (a << 16) | (b >> 16) }

  /** F on words: the output word and the two new registers. */
  function Mix(t: Tables, x0: bv32, x1: bv32, x2: bv32, r1: bv32, r2: bv32): (bv32, bv32, bv32) {
    var w1, w2 := r1 + x1, r2 ^ x2;
    ((x0 ^ r1) + r2, Substitute(t, L1(Middle(w1, w2))), Substitute(t, L2(Middle(w2, w1))))
  }

  // ----- what the words of F are, bit by bit -----

  /** The linear transforms: each bit of the result is the sum of five bits of the argument, i, i - 2, i - 10,
      i - 18 and i - 24 for the first, all modulo 32. */
  ghost predicate L1At(x: bv32, y: bv32, i: bv5) {
    Bit(y, i) == ((((Bit(x, i) != Bit(x, i - 2)) != Bit(x, i - 10)) != Bit(x, i - 18)) != Bit(x, i - 24))
  }

  ghost predicate IsL1(x: bv32, y: bv32) { forall i: bv5 :: L1At(x, y, i) }

  ghost predicate L2At(x: bv32, y: bv32, i: bv5) {
    Bit(y, i) == ((((Bit(x, i) != Bit(x, i - 8)) != Bit(x, i - 14)) != Bit(x, i - 22)) != Bit(x, i - 30))
  }

  ghost predicate IsL2(x: bv32, y: bv32) { forall i: bv5 :: L2At(x, y, i) }

  /** The substitution: each byte is the image of the byte at its place, s0 and s1 alternating from the top. */
  ghost predicate IsSubstituted(t: Tables, x: bv32, y: bv32) {
    && (y >> 24) as bv8 == t.s0((x >> 24) as bv8)
    && ((y >> 16) & 0xFF) as bv8 == t.s1(((x >> 16) & 0xFF) as bv8)
    && ((y >> 8) & 0xFF) as bv8 == t.s0(((x >> 8) & 0xFF) as bv8)
    && (y & 0xFF) as bv8 == t.s1((x & 0xFF) as bv8)
  }

  lemma L1Bits(x: bv32)
    ensures IsL1(x, L1(x))
  {
    hide L1At, L1;
    forall i: bv5 ensures L1At(x, L1(x), i) { L1Bit(x, i); }
  }

  lemma L1Bit(x: bv32, i: bv5)
    ensures L1At(x, L1(x), i)
  {
    hide Bit, Rol32, Xor32;
    var a, b, c, d := Rol32(x, 2), Rol32(x, 10), Rol32(x, 18), Rol32(x, 24);
    XorBit(x, a, i);
    XorBit(Xor32(x, a), b, i);
    XorBit(Xor32(Xor32(x, a), b), c, i);
    XorBit(Xor32(Xor32(Xor32(x, a), b), c), d, i);
    Rotated2(x, i);
    Rotated10(x, i);
    Rotated18(x, i);
    Rotated24(x, i);
  }

  lemma Rotated2(x: bv32, i: bv5)
    ensures Bit(Rol32(x, 2), i) == Bit(x, i - 2)
  {
  }

  lemma Rotated10(x: bv32, i: bv5)
    ensures Bit(Rol32(x, 10), i) == Bit(x, i - 10)
  {
  }

  lemma Rotated18(x: bv32, i: bv5)
    ensures Bit(Rol32(x, 18), i) == Bit(x, i - 18)
  {
  }

  lemma Rotated24(x: bv32, i: bv5)
    ensures Bit(Rol32(x, 24), i) == Bit(x, i - 24)
  {
  }

  lemma L2Bits(x: bv32)
    ensures IsL2(x, L2(x))
  {
    hide L2At, L2;
    forall i: bv5 ensures L2At(x, L2(x), i) { L2Bit(x, i); }
  }

  lemma L2Bit(x: bv32, i: bv5)
    ensures L2At(x, L2(x), i)
  {
    hide Bit, Rol32, Xor32;
    var a, b, c, d := Rol32(x, 8), Rol32(x, 14), Rol32(x, 22), Rol32(x, 30);
    XorBit(x, a, i);
    XorBit(Xor32(x, a), b, i);
    XorBit(Xor32(Xor32(x, a), b), c, i);
    XorBit(Xor32(Xor32(Xor32(x, a), b), c), d, i);
    Rotated8(x, i);
    Rotated14(x, i);
    Rotated22(x, i);
    Rotated30(x, i);
  }

  lemma Rotated8(x: bv32, i: bv5)
    ensures Bit(Rol32(x, 8), i) == Bit(x, i - 8)
  {
  }

  lemma Rotated14(x: bv32, i: bv5)
    ensures Bit(Rol32(x, 14), i) == Bit(x, i - 14)
  {
  }

  lemma Rotated22(x: bv32, i: bv5)
    ensures Bit(Rol32(x, 22), i) == Bit(x, i - 22)
  {
  }

  lemma Rotated30(x: bv32, i: bv5)
    ensures Bit(Rol32(x, 30), i) == Bit(x, i - 30)
  {
  }

  lemma SubstituteBytes(t: Tables, x: bv32)
    ensures IsSubstituted(t, x, Substitute(t, x))
  {
    BytesOf(x);
    JoinBytes(t.s1(Byte(x, 0)), t.s0(Byte(x, 8)), t.s1(Byte(x, 16)), t.s0(Byte(x, 24)));
    hide Byte;
  }

  lemma BytesOf(x: bv32)
    ensures Byte(x, 0) == (x & 0xFF) as bv8 && Byte(x, 8) == ((x >> 8) & 0xFF) as bv8
    ensures Byte(x, 16) == ((x >> 16) & 0xFF) as bv8 && Byte(x, 24) == (x >> 24) as bv8
  {
  }

  lemma JoinBytes(b0: bv8, b1: bv8, b2: bv8, b3: bv8)
    ensures var y := (b0 as bv32) | ((b1 as bv32) << 8) | ((b2 as bv32) << 16) | ((b3 as bv32) << 24);
            && (y >> 24) as bv8 == b3 && ((y >> 16) & 0xFF) as bv8 == b2
            && ((y >> 8) & 0xFF) as bv8 == b1 && (y & 0xFF) as bv8 == b0
  {
  }

  /** The new registers: with w1 and w2 the sums of the old ones and two words, their halves cross over, then
      come the linear transforms and the substitution. */
  ghost predicate IsMixed(t: Tables, x1: bv32, x2: bv32, r1: bv32, r2: bv32, r1': bv32, r2': bv32) {
    var w1, w2 := r1 + x1, r2 ^ x2;
    exists u, v :: IsL1((w1 << 16) | (w2 >> 16), u) && IsSubstituted(t, u, r1')
                   && IsL2((w2 << 16) | (w1 >> 16), v) && IsSubstituted(t, v, r2')
  }

  /** The output word of F. */
  ghost predicate IsOutput(x0: bv32, r1: bv32, r2: bv32, w: bv32) { w == (x0 ^ r1) + r2 }

  lemma MixIs(t: Tables, x0: bv32, x1: bv32, x2: bv32, r1: bv32, r2: bv32)
    ensures var f := Mix(t, x0, x1, x2, r1, r2);
            IsOutput(x0, r1, r2, f.0) && IsMixed(t, x1, x2, r1, r2, f.1, f.2)
  {
    hide IsL1, IsL2, IsSubstituted, Substitute, L1, L2;
    var a, b := Middle(r1 + x1, r2 ^ x2), Middle(r2 ^ x2, r1 + x1);
    L1Bits(a);
    L2Bits(b);
    SubstituteBytes(t, L1(a));
    SubstituteBytes(t, L2(b));
  }

}

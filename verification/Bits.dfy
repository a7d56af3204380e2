/** 32-bit words as bits and as numbers: what shifts and masks amount to. */
module Bits {

  /** Bit i of a word. */
  predicate Bit(x: bv32, i: bv5) { (x >> i) & 1 == 1 }

  function Xor32(a: bv32, b: bv32): bv32 { a ^ b }

  lemma XorBit(a: bv32, b: bv32, i: bv5)
    ensures Bit(Xor32(a, b), i) == (Bit(a, i) != Bit(b, i))
  {
    hide Bit;
    BareXorBit(a, b, i);
  }

  lemma BareXorBit(a: bv32, b: bv32, i: bv5)
    ensures Bit(a ^ b, i) == (Bit(a, i) != Bit(b, i))
  {
  }

  function Num(b: bv32): nat { b as nat }

  function Num16(b: bv16): nat { b as nat }

  /** Bits 15..0, 31..16, and 30..15. */
  function Low(b: bv32): bv16 { (b & 0xFFFF) as bv16 }

  function High(b: bv32): bv16 { (b >> 16) as bv16 }

  function Upper(b: bv32): bv16 { ((b >> 15) & 0xFFFF) as bv16 }

  function Glue(a: bv16, b: bv16): bv32 { ((a as bv32) << 16) | (b as bv32) }

  lemma GlueNum(a: bv16, b: bv16)
    ensures Num(Glue(a, b)) == Num16(a) * 0x1_0000 + Num16(b)
    ensures Num16(b) < 0x1_0000
  {
  }

  lemma GlueHalves(b: bv32)
    ensures Glue(High(b), Low(b)) == b
  {
  }

  lemma LowNum(b: bv32)
    ensures Num16(Low(b)) == Num(b) % 0x1_0000
  {
    hide Num, Num16, Low, High, Glue;
    GlueHalves(b);
    GlueNum(High(b), Low(b));
  }

  /** A 31-bit word is its upper sixteen bits above its lower fifteen. */
  function Glue15(h: bv16, l: bv15): bv32 { ((h as bv32) << 15) | (l as bv32) }

  function Num15(l: bv15): nat { l as nat }

  function Lower(b: bv32): bv15 { (b & 0x7FFF) as bv15 }

  lemma Glue15Num(h: bv16, l: bv15)
    ensures Num(Glue15(h, l)) == Num16(h) * 0x8000 + Num15(l)
    ensures Num15(l) < 0x8000
  {
  }

  lemma Glue15Parts(b: bv32)
    requires b < 0x8000_0000
    ensures Glue15(Upper(b), Lower(b)) == b
  {
  }

  lemma UpperNum(b: bv32)
    requires b < 0x8000_0000
    ensures Num16(Upper(b)) == Num(b) / 0x8000
  {
    Glue15Parts(b);
    hide Num, Num16, Num15, Upper, Lower, Glue15;
    Glue15Num(Upper(b), Lower(b));
  }

  /** A number below 2^31 as a word. */
  function Word(x: nat): bv32 { (x % 0x1_0000_0000) as bv32 }

  lemma WordNum(x: nat)
    requires x < 0x8000_0000
    ensures Num(Word(x)) == x
  {
    assert x % 0x1_0000_0000 == x;
  }

  lemma NumBound(b: bv32)
    ensures Num(b) < 0x8000_0000 <==> b < 0x8000_0000
  {
  }
}

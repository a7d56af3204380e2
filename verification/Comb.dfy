/** Fixed-base exponentiation with a comb table: 32 squarings and 256 precomputed powers. */
module Comb {
  import opened Modular
  import opened Limbs
  import opened Ladders

  /** The exponent of table entry a: its eight bits spread 32 places apart. */
  function Spread(a: nat): nat {
    if a == 0 then 0 else a % 2 + 0x1_0000_0000 * Spread(a / 2)
  }

  lemma SpreadStep(b: nat, y: nat)
    requires b <= 1
    ensures Spread(b + 2 * y) == b + 0x1_0000_0000 * Spread(y)
  {
    assert (b + 2 * y) / 2 == y && (b + 2 * y) % 2 == b;
  }

  /** Setting bit k above the bits of a adds 2^(32 k). */
  lemma {:induction false} SpreadTop(k: nat, a: nat)
    requires a < Pow2(k)
    ensures Spread(Pow2(k) + a) == Pw(k) + Spread(a)
  {
    if k == 0 {
      assert Spread(1) == 1 + 0x1_0000_0000 * Spread(0);
    } else {
      hide Spread, Pow2, Pw;
      Pow2Even(k);
      PwNext(k - 1);
      SpreadTop(k - 1, a / 2);
      SpreadStep(a % 2, Pow2(k - 1) + a / 2);
      SpreadStep(a % 2, a / 2);
      Halves(a, Pow2(k - 1));
    }
  }

  lemma Halves(a: nat, w: nat)
    ensures a == a % 2 + 2 * (a / 2) && 2 * w + a == a % 2 + 2 * (w + a / 2)
  {
  }

  /** get_comb_list: entry a is g to the power Spread(a). */
  method GetCombList<G(!new)>(gr: Group<G>, g: G) returns (list: seq<G>)
    requires IsGroup(gr)
    ensures |list| == 256
    ensures forall a :: 0 <= a < 256 ==> list[a] == Pow(gr, g, Spread(a))
  {
    hide *;
    PowOne(gr, g);
    SpreadSmall();
    Pow2Constants();
    list := [gr.one, g];
    for i := 0 to 7
      invariant |list| == Pow2(i + 1)
      invariant forall a :: 0 <= a < |list| ==> list[a] == Pow(gr, g, Spread(a))
    {
      Pow2Double(i);
      SpreadPower(i);
      var tmp := list[Pow2(i)];
      assert tmp == Pow(gr, g, Pw(i));
      for j := 0 to 32
        invariant tmp == Pow(gr, g, Pw(i) * Pow2(j))
      {
        PowSqr(gr, g, Pw(i) * Pow2(j));
        Pow2Double(j);
        assert 2 * (Pw(i) * Pow2(j)) == Pw(i) * (2 * Pow2(j));
        tmp := gr.sqr(tmp);
      }
      PwUp(i);
      ghost var n := |list|;
      var more := seq(|list|, c requires 0 <= c < |list| => gr.mul(tmp, list[c]));
      forall a | 0 <= a < n ensures more[a] == Pow(gr, g, Spread(n + a)) {
        SpreadTop(i + 1, a);
        PowAdd(gr, g, Pw(i + 1), Spread(a));
      }
      list := list + more;
      Pow2Double(i + 1);
      assert forall a :: n <= a < |list| ==> list[a] == more[a - n] && a == n + (a - n);
    }
    Pow2Constants();
  }

  lemma SpreadSmall()
    ensures Spread(0) == 0 && Spread(1) == 1
  {
    SpreadStep(1, 0);
  }

  lemma Pow2Double(k: nat)
    ensures Pow2(k + 1) == 2 * Pow2(k) && Pow2(k) >= 1
  {
    Pow2Pos(k);
  }

  lemma SpreadPower(k: nat)
    ensures Spread(Pow2(k)) == Pw(k)
  {
    Pow2Pos(k);
    SpreadTop(k, 0);
  }

  lemma PwUp(i: nat)
    ensures Pw(i) * Pow2(32) == Pw(i + 1) && Pow2(0) == 1 && Pw(i) * 1 == Pw(i)
  {
    Pow2Constants();
  }

  // ----- regrouping the exponent -----

  /** Bit c of each of the low `blocks` 32-bit words of r, gathered into one digit. */
  function Gather(r: nat, c: nat, blocks: nat): nat {
    if blocks == 0 then 0 else Shr(r, c) % 2 + 2 * Gather(r / 0x1_0000_0000, c, blocks - 1)
  }

  /** The words of r, each shifted right by c, put back in place. */
  function Words(r: nat, c: nat, blocks: nat): nat {
    if blocks == 0 then 0
    else Shr(r % 0x1_0000_0000, c) + 0x1_0000_0000 * Words(r / 0x1_0000_0000, c, blocks - 1)
  }

  lemma {:induction false} GatherBound(r: nat, c: nat, blocks: nat)
    ensures Gather(r, c, blocks) < Pow2(blocks)
  {
    if blocks > 0 { GatherBound(r / 0x1_0000_0000, c, blocks - 1); }
  }

  /** One comb step: doubling and adding the gathered digit brings one more bit of every word. */
  lemma {:induction false} WordsStep(r: nat, c: nat, blocks: nat)
    requires c < 32
    ensures Words(r, c, blocks) == 2 * Words(r, c + 1, blocks) + Spread(Gather(r, c, blocks))
  {
    hide Shr;
    if blocks == 0 {
      SpreadSmall();
    } else {
      hide Spread;
      WordsStep(r / 0x1_0000_0000, c, blocks - 1);
      SpreadStep(Shr(r, c) % 2, Gather(r / 0x1_0000_0000, c, blocks - 1));
      LowWordBit(r, c);
      ShrStep(r % 0x1_0000_0000, c);
    }
  }

  lemma LowWordBit(r: nat, c: nat)
    requires c < 32
    ensures Shr(r, c) % 2 == Shr(r % 0x1_0000_0000, c) % 2
  {
    hide Shr, Pow2;
    Pow2Constants();
    var lo, hi := r % 0x1_0000_0000, r / 0x1_0000_0000;
    ShrOfSum(lo, hi, 32, c);
    Pow2Even(32 - c);
    MulRegroup(2, Pow2(31 - c), hi);
  }

  lemma {:induction false} WordsEnds(r: nat, blocks: nat)
    requires r < Pw(blocks)
    ensures Words(r, 0, blocks) == r && Words(r, 32, blocks) == 0
  {
    if blocks > 0 {
      WordsEnds(r / 0x1_0000_0000, blocks - 1);
      Pow2Constants();
      ShrSmall(r % 0x1_0000_0000, 32, 0);
      ShrZero(r % 0x1_0000_0000);
    }
  }

  /** Reading every 32nd digit of the 256-digit string, from digit i on, gathers bit 31 - i. */
  method CombDigit(r: nat, i: nat) returns (a: nat)
    requires i < 32
    ensures a == Gather(r, 31 - i, 8) && a < 256
  {
    hide *;
    a := 0;
    var j := i;
    ghost var k := 0;
    GatherNone(Shr(r, 256), 31 - i);
    while j < 256
      invariant 0 <= k <= 8 && j == i + 32 * k
      invariant a == Gather(Shr(r, 256 - 32 * k), 31 - i, k)
    {
      GatherMore(r, 31 - i, k);
      a := 2 * a + Shr(r, 255 - j) % 2;
      j := j + 32;
      k := k + 1;
    }
    ShrZero(r);
    GatherBound(r, 31 - i, 8);
    Pow2Constants();
  }

  lemma GatherNone(r: nat, c: nat)
    ensures Gather(r, c, 0) == 0
  {
  }

  /** Going one word down prepends the new bit as the least significant one. */
  lemma GatherMore(r: nat, c: nat, k: nat)
    requires k < 8 && c < 32
    ensures 255 - (31 - c + 32 * k) >= 0
    ensures Gather(Shr(r, 256 - 32 * (k + 1)), c, k + 1)
         == 2 * Gather(Shr(r, 256 - 32 * k), c, k) + Shr(r, 255 - (31 - c + 32 * k)) % 2
  {
    var m := 256 - 32 * (k + 1);
    var v := Shr(r, m);
    ShrTwice(r, m, c);
    ShrTwice(r, m, 32);
    ShrWord(v);
  }

  lemma ShrWord(v: nat)
    ensures Shr(v, 32) == v / 0x1_0000_0000
  {
    hide Shr, Pow2;
    Pow2Constants();
    var lo, hi := v % 0x1_0000_0000, v / 0x1_0000_0000;
    ShrOfSum(lo, hi, 32, 32);
    ShrSmall(lo, 32, 0);
    assert 1 * hi == hi;
  }

  /** comb_pow: r-th power for every r below 2^256. `untouched` is the source's test that the
      accumulator still is the shared constant one, which table entry 0 is too. */
  method CombPow<G(!new)>(gr: Group<G>, ghost g: G, r: nat, list: seq<G>) returns (res: G)
    requires IsGroup(gr) && r < Pw(8) && |list| == 256
    requires forall a :: 0 <= a < 256 ==> list[a] == Pow(gr, g, Spread(a))
    ensures res == Pow(gr, g, r)
  {
    hide *;
    PowOne(gr, g);
    SpreadSmall();
    WordsEnds(r, 8);
    res := gr.one;
    var untouched := true;
    for i := 0 to 32
      invariant res == Pow(gr, g, Words(r, 32 - i, 8))
      invariant untouched ==> Words(r, 32 - i, 8) == 0
    {
      var a := CombDigit(r, i);
      WordsStep(r, 31 - i, 8);
      ghost var w := Words(r, 32 - i, 8);
      if untouched {
        res := list[a];
        untouched := a == 0;
      } else {
        PowSqr(gr, g, w);
        PowAdd(gr, g, 2 * w, Spread(a));
        res := gr.mul(gr.sqr(res), list[a]);
      }
    }
  }

  /** Table and exponentiation together, for any base. */
  method FixedBasePow<G(!new)>(gr: Group<G>, g: G, r: nat) returns (res: G)
    requires IsGroup(gr) && r < Pw(8)
    ensures res == Pow(gr, g, r)
  {
    hide *;
    var list := GetCombList(gr, g);
    res := CombPow(gr, g, r, list);
  }
}

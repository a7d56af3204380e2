/** The device's second modular product, uint256_mulmod: binary long division that subtracts the
    modulus only when the running remainder is strictly above it. */
module MulMod {
  import opened Modular
  import opened Limbs
  import opened BigInt

  // ----- the division on numbers -----

  /** Shift in one bit, dropping what leaves 256 bits, then subtract if strictly above. */
  function ShiftIn(m: nat, rem: nat, bit: nat): nat {
    PwPos(8);
    var s := (2 * rem) % Pw(8) + bit;
    if s > m then s - m else s
  }

  /** The remainder register once the bits 511 down to i of v have been shifted in. */
  function Register(m: nat, v: nat, i: nat): nat
    requires i <= 512
    decreases 512 - i
  {
    if i == 512 then 0 else ShiftIn(m, Register(m, v, i + 1), Shr(v, i) % 2)
  }

  /** The bits of v above position i form a non-zero multiple of m. */
  ghost predicate Hit(m: nat, v: nat, i: nat)
    requires m > 0
  {
    Shr(v, i) != 0 && Shr(v, i) % m == 0
  }

  lemma ShrEnds(v: nat)
    requires v < Pow2(512)
    ensures Shr(v, 512) == 0 && Shr(v, 0) == v
  {
    hide Pow2, Shr;
    ShrSmall(v, 512, 0);
    Pow2Constants();
    ShrZero(v);
  }

  /** Doubling a residue and adding a bit stays congruent and below 2m. */
  lemma ResidueStep(q: nat, b: nat, m: nat)
    requires m > 0 && b <= 1
    ensures q % m < m
    ensures 2 * (q % m) + b <= 2 * q + b && Cong(2 * (q % m) + b, 2 * q + b, m)
  {
    CongMod(q, m);
    CongMul(2, 2, q % m, q, m);
    CongAdd(2 * (q % m), 2 * q, b, b, m);
    var d, r := q / m, q % m;
    MulMono(0, d, m);
    assert q == d * m + r;
  }

  /** Doubling the remainder of the bits above position i leaves 256 bits. */
  ghost predicate Overflows(m: nat, v: nat, i: nat)
    requires m > 0
  {
    2 * (Shr(v, i + 1) % m) >= Pw(8)
  }

  /** As long as no prefix is a non-zero multiple of m and no remainder overflows, the register holds the true
      remainder, for every modulus. */
  lemma {:induction false} RegisterExact(m: nat, v: nat, i: nat)
    requires m > 0 && v < Pow2(512) && i <= 512
    requires forall k :: i <= k < 512 ==> !Hit(m, v, k) && !Overflows(m, v, k)
    ensures Register(m, v, i) == Shr(v, i) % m
    decreases 512 - i
  {
    hide Pw, Pow2, Shr, ShiftIn;
    ShrEnds(v);
    if i == 512 {
      ModSmall(0, m);
    } else {
      RegisterExact(m, v, i + 1);
      assert !Hit(m, v, i) && !Overflows(m, v, i);
      ExactStep(m, v, i);
    }
  }

  /** One shift from the true remainder: exact without a hit or an overflow, and only then. */
  lemma ExactStep(m: nat, v: nat, i: nat)
    requires m > 0
    ensures var next := ShiftIn(m, Shr(v, i + 1) % m, Shr(v, i) % 2);
            && (!Hit(m, v, i) && !Overflows(m, v, i) ==> next == Shr(v, i) % m)
            && ((Hit(m, v, i) && Shr(v, i + 1) % m != 0) || Overflows(m, v, i) ==> m < Pw(8) ==> next != Shr(v, i) % m)
  {
    hide Pw, Shr;
    ShrStep(v, i);
    var q, b, w := Shr(v, i + 1), Shr(v, i) % 2, Pw(8);
    PwPos(8);
    ResidueStep(q, b, m);
    var r := q % m;
    var s := 2 * r + b;
    TrueStep(s, Shr(v, i), m);
    if 2 * r < w {
      ModSmall(2 * r, w);
    } else if m < w {
      DivModUnique(2 * r, w, 1, 2 * r - w);
    }
    if s == 0 { assert r == 0; }
  }

  /** The remainder of a number congruent to s, for s below 2m. */
  lemma TrueStep(s: nat, v: nat, m: nat)
    requires m > 0 && s < 2 * m && Cong(s, v, m)
    ensures v % m == if s >= m then s - m else s
  {
    if s >= m {
      CongIntro(s - m, s, m, -1);
      ModSmall(s - m, m);
    } else {
      ModSmall(s, m);
    }
  }

  /** Exactly when the long division keeps its invariant, for every modulus of 256 bits and every product: the
      register is the remainder of the prefix at every bit when no prefix is a non-zero multiple of the modulus
      and no remainder overflows. Up to 2^255 nothing overflows. */
  lemma InvariantExact(m: nat, v: nat)
    requires 0 < m < Pw(8) && v < Pow2(512)
    ensures ExactThroughout(m, v) <==> Undisturbed(m, v)
    ensures 2 * m <= Pw(8) ==> forall k :: 0 <= k < 512 ==> !Overflows(m, v, k)
  {
    hide Pw, Pow2, Shr, Register, Hit, Overflows;
    if Undisturbed(m, v) {
      forall k | 0 <= k < 512 ensures Register(m, v, k) == Shr(v, k) % m { RegisterExact(m, v, k); }
    }
    if ExactThroughout(m, v) {
      KeptFrom(m, v, 0);
    }
    if 2 * m <= Pw(8) {
      forall k | 0 <= k < 512 ensures !Overflows(m, v, k) { NoOverflow(m, v, k); }
    }
  }

  ghost predicate ExactThroughout(m: nat, v: nat)
    requires m > 0
  {
    forall k :: 0 <= k < 512 ==> Register(m, v, k) == Shr(v, k) % m
  }

  ghost predicate Undisturbed(m: nat, v: nat)
    requires m > 0
  {
    forall k :: 0 <= k < 512 ==> !Hit(m, v, k) && !Overflows(m, v, k)
  }

  lemma NoOverflow(m: nat, v: nat, k: nat)
    requires m > 0 && 2 * m <= Pw(8)
    ensures !Overflows(m, v, k)
  {
    hide Pw, Shr;
    assert Shr(v, k + 1) % m < m;
  }

  /** An exact register has met no hit and no overflow. */
  lemma {:induction false} KeptFrom(m: nat, v: nat, k: nat)
    requires 0 < m < Pw(8) && v < Pow2(512) && k <= 512
    requires forall j :: 0 <= j < 512 ==> Register(m, v, j) == Shr(v, j) % m
    ensures forall j :: k <= j < 512 ==> !Hit(m, v, j) && !Overflows(m, v, j)
    decreases 512 - k
  {
    hide Pw, Pow2, Shr, Register, ShiftIn, Overflows;
    if k < 512 {
      KeptFrom(m, v, k + 1);
      ShrEnds(v);
      RegisterTop(m, v);
      ModSmall(0, m);
      assert k + 1 < 512 ==> !Hit(m, v, k + 1);
      RegisterStep(m, v, k);
      ExactStep(m, v, k);
      if Shr(v, k + 1) == 0 { FirstBit(m, v, k); }
    }
  }

  /** At the first bit of the product a hit means the modulus 1, and the register then holds 1. */
  lemma FirstBit(m: nat, v: nat, k: nat)
    requires m > 0 && Shr(v, k + 1) == 0
    ensures Hit(m, v, k) ==> ShiftIn(m, 0, Shr(v, k) % 2) != Shr(v, k) % m
  {
    hide Shr, Pw;
    ShrStep(v, k);
    PwPos(8);
    ModSmall(0, Pw(8));
    if m > 1 { ModSmall(1, m); }
  }

  /** With the modulus 0 nothing is ever removed but what overflows: the product in 256 bits. */
  lemma {:induction false} ZeroModulus(v: nat, i: nat)
    requires v < Pow2(512) && i <= 512
    ensures Pw(8) > 0 && Register(0, v, i) == Shr(v, i) % Pw(8)
    decreases 512 - i
  {
    hide Pw, Pow2, Shr;
    PwPos(8);
    ShrEnds(v);
    if i == 512 {
      ModSmall(0, Pw(8));
    } else {
      ZeroModulus(v, i + 1);
      ShrStep(v, i);
      WrapStep(Shr(v, i + 1), Shr(v, i) % 2);
    }
  }

  lemma WrapStep(q: nat, b: nat)
    requires b <= 1
    ensures Pw(8) > 0 && (2 * (q % Pw(8))) % Pw(8) + b == (2 * q + b) % Pw(8)
  {
    hide Pw;
    HalfWidth();
    Pow2Pos(255);
    EvenWrap(q, b, Pow2(255));
  }

  lemma EvenWrap(q: nat, b: nat, h: nat)
    requires b <= 1 && h > 0
    ensures (2 * (q % (2 * h))) % (2 * h) + b == (2 * q + b) % (2 * h)
  {
    var w, k, r := 2 * h, q / h, q % h;
    assert 2 * q == k * w + 2 * r by { assert q == k * h + r; assert k * w == 2 * (k * h); }
    DivModUnique(2 * q + b, w, k, 2 * r + b);
    DivModUnique(2 * q, w, k, 2 * r);
    CongMod(q, w);
    CongMul(2, 2, q % w, q, w);
  }

  /** Bits j - 1 down to i of v. */
  function Between(v: nat, j: nat, i: nat): nat
    requires i <= j
    decreases j - i
  {
    if i == j then 0 else 2 * Between(v, j, i + 1) + Shr(v, i) % 2
  }

  /** Splitting v at bit j splits each prefix below j. */
  lemma {:induction false} ShrSplit(v: nat, j: nat, i: nat)
    requires i <= j
    ensures Shr(v, i) == Shr(v, j) * Pow2(j - i) + Between(v, j, i)
    ensures Between(v, j, i) < Pow2(j - i)
    decreases j - i
  {
    hide Shr, Pow2;
    Pow2Constants();
    if i == j {
      assert Shr(v, j) * 1 == Shr(v, j);
    } else {
      ShrSplit(v, j, i + 1);
      ShrStep(v, i);
      Pow2Even(j - i);
      var x, w := Shr(v, j), Pow2(j - i - 1);
      assert x * (2 * w) == 2 * (x * w);
    }
  }

  /** At the first hit the register holds the whole modulus. */
  lemma RegisterAtHit(m: nat, v: nat, j: nat)
    requires 0 < m && 2 * m <= Pw(8) && v < Pow2(512) && j < 512
    requires Hit(m, v, j) && forall k :: j < k < 512 ==> !Hit(m, v, k)
    ensures Register(m, v, j) == m
  {
    hide Pw, Pow2, Shr;
    forall k | j < k < 512 ensures !Overflows(m, v, k) { NoOverflow(m, v, k); }
    RegisterExact(m, v, j + 1);
    ShrStep(v, j);
    var q, b := Shr(v, j + 1), Shr(v, j) % 2;
    ResidueStep(q, b, m);
    ModSmall(2 * (q % m), Pw(8));
    FirstHit(m, v, j, 2 * (q % m) + b);
  }

  /** After the first hit, at bit j, the modulus is never removed: the register is m plus the bits that
      followed, or, once it has overflowed, strictly below those bits alone. */
  lemma {:induction false} RegisterAfterHit(m: nat, v: nat, j: nat, i: nat)
    requires 0 < m && 2 * m < Pw(8) && v < Pow2(512) && i <= j < 512
    requires Hit(m, v, j) && forall k :: j < k < 512 ==> !Hit(m, v, k)
    ensures Register(m, v, i) == m + Between(v, j, i) || Register(m, v, i) < Between(v, j, i)
    decreases j - i
  {
    hide Pw, Pow2, Shr;
    if i == j {
      RegisterAtHit(m, v, j);
    } else {
      RegisterAfterHit(m, v, j, i + 1);
      Drop(m, Register(m, v, i + 1), Between(v, j, i + 1), Shr(v, i) % 2);
    }
  }

  /** One shift keeps the alternative of RegisterAfterHit. */
  lemma Drop(m: nat, r: nat, low: nat, bit: nat)
    requires 0 < m && 2 * m < Pw(8) && bit <= 1 && (r == m + low || r < low)
    ensures ShiftIn(m, r, bit) == m + (2 * low + bit) || ShiftIn(m, r, bit) < 2 * low + bit
  {
    hide Pw;
    PwPos(8);
    if 2 * r < Pw(8) {
      ModSmall(2 * r, Pw(8));
    } else {
      WrapLoses(2 * r, Pw(8));
    }
  }

  lemma WrapLoses(x: nat, w: nat)
    requires 0 < w <= x
    ensures x % w <= x - w
  {
    MulMono(1, x / w, w);
    assert x == (x / w) * w + x % w;
  }

  /** While nothing can overflow, it is the first alternative. */
  lemma {:induction false} RegisterGrows(m: nat, v: nat, j: nat, i: nat)
    requires 0 < m && 2 * m <= Pw(8) && v < Pow2(512) && i <= j < 512
    requires Hit(m, v, j) && forall k :: j < k < 512 ==> !Hit(m, v, k)
    requires i < j ==> 2 * (m + Pow2(j - i - 1)) <= Pw(8)
    ensures Register(m, v, i) == m + Between(v, j, i)
    decreases j - i
  {
    hide Pw, Pow2, Shr;
    if i == j {
      RegisterAtHit(m, v, j);
    } else {
      if i + 1 < j { Pow2Mono(j - i - 2, j - i - 1); }
      RegisterGrows(m, v, j, i + 1);
      ShrSplit(v, j, i + 1);
      ModSmall(2 * (m + Between(v, j, i + 1)), Pw(8));
    }
  }

  lemma FirstHit(m: nat, v: nat, j: nat, s: nat)
    requires 0 < m && j < 512 && v < Pow2(512)
    requires Hit(m, v, j) && forall k :: j < k < 512 ==> !Hit(m, v, k)
    requires s == 2 * (Shr(v, j + 1) % m) + Shr(v, j) % 2 && s < 2 * m && Cong(s, Shr(v, j), m)
    ensures s == m
  {
    hide Pow2, Shr;
    ModSmall(0, m);
    ShrStep(v, j);
    ShrEnds(v);
    assert j + 1 < 512 ==> !Hit(m, v, j + 1);
    if s < m {
      ModSmall(s, m);
      assert false;
    } else if s > m {
      CongIntro(s - m, s, m, -1);
      ModSmall(s - m, m);
      assert false;
    }
  }

  /** The product is right for every modulus and pair of operands that produce no hit and no overflow. */
  lemma ProductRight(m: nat, v: nat)
    requires m > 0 && v < Pow2(512)
    requires forall k :: 0 <= k < 512 ==> !Hit(m, v, k) && !Overflows(m, v, k)
    ensures Register(m, v, 0) == v % m
  {
    hide Pw, Pow2, Overflows;
    RegisterExact(m, v, 0);
    ShrEnds(v);
  }

  /** The bit of the first hit, scanning from the top. */
  ghost function FirstHitBelow(m: nat, v: nat, i: nat): int
    requires m > 0
  {
    if i == 0 then -1 else if Hit(m, v, i - 1) then i - 1 else FirstHitBelow(m, v, i - 1)
  }

  lemma {:induction false} FirstHitIsFirst(m: nat, v: nat, i: nat)
    requires m > 0
    ensures var j := FirstHitBelow(m, v, i);
            && -1 <= j < i && (j >= 0 ==> Hit(m, v, j)) && forall k: nat :: j < k < i ==> !Hit(m, v, k)
  {
    if i > 0 && !Hit(m, v, i - 1) { FirstHitIsFirst(m, v, i - 1); }
  }

  /** Exactly when it is right, for every modulus below 2^255 and reduced operands (v < m * m), and also for
      every product below m * (2^255 - m): when no leading-bit prefix is a non-zero multiple of m. */
  lemma ProductExact(m: nat, v: nat)
    requires 0 < m && 2 * m < Pw(8) && v < Pow2(512)
    requires v < m * m || v < m * (Pow2(255) - m)
    ensures Register(m, v, 0) == v % m <==> forall k :: 0 <= k < 512 ==> !Hit(m, v, k)
  {
    hide Pw, Pow2;
    FirstHitIsFirst(m, v, 512);
    var j := FirstHitBelow(m, v, 512);
    if j < 0 {
      forall k | 0 <= k < 512 ensures !Overflows(m, v, k) { NoOverflow(m, v, k); }
      ProductRight(m, v);
    } else {
      ShrSplit(v, j, 0);
      if v < m * m {
        HitLow(m, v, j, m);
        RegisterAfterHit(m, v, j, 0);
        LowPart(m, v, j);
      } else {
        HitLow(m, v, j, Pow2(255) - m);
        HalfWidth();
        if j > 0 { Pow2Even(j); Pow2Pos(j - 1); }
        RegisterGrows(m, v, j, 0);
      }
      assert v % m < m;
    }
  }

  /** For operands a and b below the modulus, as a caller sees it. */
  lemma ReducedProductExact(m: nat, a: nat, b: nat)
    requires 2 * m < Pw(8) && a < m && b < m
    ensures Register(m, a * b, 0) == (a * b) % m <==> forall k :: 0 <= k < 512 ==> !Hit(m, a * b, k)
  {
    hide Pw, Pow2, Register, Hit;
    PwIsPow2(8);
    Pow2Add(256, 256);
    MulMono(0, a, b);
    StrictProduct(a, b, m, m);
    StrictProduct(a, b, Pow2(256), Pow2(256));
    ProductExact(m, a * b);
  }

  lemma HalfWidth()
    ensures 2 * Pow2(255) == Pw(8)
  {
    hide Pw, Pow2;
    PwIsPow2(8);
    Pow2Even(256);
  }

  /** A hit of a product below m * c happens at a bit whose weight is below c. */
  lemma HitLow(m: nat, v: nat, j: nat, c: int)
    requires 0 < m && v < m * c && Hit(m, v, j)
    ensures Pow2(j) < c
  {
    hide Pow2;
    Pow2Pos(j);
    var q, w := Shr(v, j), Pow2(j);
    DivisibleBound(q, m);
    ShrSplit(v, j, 0);
    ShrZero(v);
    MulMono(m, q, w);
    assert w * m == m * w && c * m == m * c;
    CancelStrict(w, c, m);
  }

  /** Below a hit at bit j with 2^j <= m, the bits that follow are the remainder. */
  lemma LowPart(m: nat, v: nat, j: nat)
    requires 0 < m && Hit(m, v, j) && Pow2(j) <= m
    ensures v % m == Between(v, j, 0)
  {
    hide Pow2, Shr;
    ShrSplit(v, j, 0);
    ShrZero(v);
    var q, w, low := Shr(v, j), Pow2(j), Between(v, j, 0);
    var d := q / m;
    assert q == d * m + 0;
    assert q * w == (d * w) * m by { assert (d * m) * w == (d * w) * m; }
    DivModUnique(v, m, d * w, low);
  }

  lemma DivisibleBound(q: nat, m: nat)
    requires m > 0 && q > 0 && q % m == 0
    ensures q >= m
  {
    if q < m { ModSmall(q, m); }
  }

  /** The smallest kind of failure: 2 * 3 modulo 6 comes out as 6. */
  lemma ProductWrong()
    ensures Register(6, 6, 0) == 6
  {
    hide Pw, Pow2;
    HalfWidth();
    Pow2Mono(8, 255);
    Pow2Mono(8, 512);
    Pow2Constants();
    assert Shr(6, 0) == 6;
    assert Hit(6, 6, 0);
    forall k | 0 < k < 512 ensures !Hit(6, 6, k) {
      ShrFalls(6, k);
      if Shr(6, k) != 0 { ModSmall(Shr(6, k), 6); }
    }
    RegisterAtHit(6, 6, 0);
  }

  /** At the modulus 2^255 itself a hit need not harm: 2^128 * 2^128 hits at bit 1, the register overflows
      to 0, and 0 is the right answer. */
  lemma EdgeModulus(m: nat)
    requires m == Pow2(255)
    ensures Pow2(128) * Pow2(128) == 2 * m && m > 0
    ensures Hit(m, 2 * m, 1) && Register(m, 2 * m, 0) == 0 == (2 * m) % m
  {
    hide Pw, Pow2, Register;
    HalfWidth();
    Pow2Add(128, 128);
    Pow2Even(256);
    Pow2Pos(255);
    Pow2Mono(256, 511);
    Pow2Even(512);
    Pow2Pos(511);
    DoubledBits(m);
    RegisterAtHit(m, 2 * m, 1);
    RegisterStep(m, 2 * m, 0);
    OverflowToZero(m, m);
    CongIntro(2 * m, 0, m, 2);
    ModSmall(0, m);
  }

  lemma DoubledBits(m: nat)
    requires m > 0
    ensures Hit(m, 2 * m, 1) && forall k :: 1 < k < 512 ==> !Hit(m, 2 * m, k)
    ensures Shr(2 * m, 0) % 2 == 0
  {
    hide Shr;
    ShrZero(2 * m);
    ShrStep(2 * m, 0);
    CongIntro(m, 0, m, 1);
    ModSmall(0, m);
    forall k | 1 < k < 512 ensures !Hit(m, 2 * m, k) {
      ShrTwice(2 * m, 1, k - 1);
      ShrFalls(m, k - 1);
      if Shr(2 * m, k) != 0 { ModSmall(Shr(2 * m, k), m); }
    }
  }

  /** Nor need it with operands above the modulus: modulo 1 the product of 2 and 2^256 - 1 hits at bit 256,
      overflows at bit 0, and ends at 0. */
  lemma UnreducedOperand(v: nat)
    requires v == 2 * (Pow2(256) - 1)
    ensures Hit(1, v, 256) && Register(1, v, 0) == 0 == v % 1
  {
    hide Pw, Pow2, Shr, Register, ShiftIn, Hit, Between;
    Pow2Even(256);
    Pow2Pos(255);
    FirstHitAbove(v);
    UnreducedBits(v);
    QuarterWidth();
    RegisterGrows(1, v, 256, 1);
    RegisterStep(1, v, 0);
    HalfWidth();
    OverflowToZero(1, Pow2(255));
  }

  lemma QuarterWidth()
    ensures 2 * (1 + Pow2(254)) <= Pw(8)
  {
    hide Pw, Pow2;
    HalfWidth();
    Pow2Even(255);
    Pow2Pos(253);
    Pow2Even(254);
  }

  lemma FirstHitAbove(v: nat)
    requires v == 2 * (Pow2(256) - 1)
    ensures v < Pow2(512) && Shr(v, 256) == 1
    ensures Hit(1, v, 256) && forall k :: 256 < k < 512 ==> !Hit(1, v, k)
  {
    hide Pow2, Shr;
    Pow2Even(257);
    Pow2Even(256);
    Pow2Pos(255);
    Pow2Mono(257, 512);
    LeadingOne(v, 256);
  }

  lemma UnreducedBits(v: nat)
    requires v == 2 * (Pow2(256) - 1) && Shr(v, 256) == 1
    ensures Between(v, 256, 1) == Pow2(255) - 1 && Shr(v, 0) % 2 == 0
  {
    hide Pow2, Shr, Between;
    ShrZero(v);
    ShrStep(v, 0);
    Pow2Even(256);
    ShrSplit(v, 256, 1);
    assert 1 * Pow2(255) == Pow2(255);
  }

  lemma OverflowToZero(m: nat, r: nat)
    requires 2 * r == Pw(8)
    ensures ShiftIn(m, r, 0) == 0
  {
    hide Pw;
    PwPos(8);
    CongIntro(Pw(8), 0, Pw(8), 1);
    ModSmall(0, Pw(8));
  }

  /** The prefix at the leading bit is 1, and there are no bits above it. */
  lemma LeadingOne(v: nat, j: nat)
    requires j < 511 && Pow2(j) <= v < 2 * Pow2(j)
    ensures Shr(v, j) == 1 && forall k :: j < k < 512 ==> Shr(v, k) == 0
  {
    hide Pow2, Shr;
    Pow2Even(j + 1);
    Pow2Constants();
    ShrSmall(v, j, 1);
    ShrSmall(v, j + 1, 0);
    ShrSplit(v, j, 0);
    ShrZero(v);
    assert 0 * Pow2(j) == 0;
    forall k | j < k < 512 ensures Shr(v, k) == 0 {
      ShrTwice(v, j + 1, k - (j + 1));
      if k > j + 1 { ShrFalls(0, k - (j + 1)); } else { ShrZero(0); }
    }
  }

  lemma {:induction false} ShrFalls(v: nat, k: nat)
    requires k > 0
    ensures Shr(v, k) <= v / 2
  {
    if k > 1 { ShrFalls(v, k - 1); }
  }

  // ----- the limb code -----

  /** Bit i of a number, from its limbs. */
  lemma {:induction false} BitOfLimb(s: seq<u32>, i: nat)
    requires i < 32 * |s|
    ensures Shr(s[i / 32], i % 32) % 2 == Shr(Val(s), i) % 2
  {
    hide Val, Pow2, Shr;
    ValHead(s);
    Pow2Constants();
    var rest := Val(s[1..]);
    if i < 32 {
      ShrOfSum(s[0], rest, 32, i);
      Pow2Even(32 - i);
      MulRegroup(2, Pow2(31 - i), rest);
      AddedEven(Shr(s[0], i), Pow2(31 - i) * rest);
    } else {
      BitOfLimb(s[1..], i - 32);
      HighLimbs(s[0], rest);
      ShrTwice(Val(s), 32, i - 32);
      assert (i - 32) / 32 == i / 32 - 1;
    }
  }

  lemma AddedEven(a: int, b: int)
    ensures (a + 2 * b) % 2 == a % 2
  {
  }

  lemma HighLimbs(low: u32, rest: nat)
    ensures Shr(low + 0x1_0000_0000 * rest, 32) == rest
  {
    hide Pow2, Shr;
    Pow2Constants();
    ShrOfSum(low, rest, 32, 32);
    ShrSmall(low, 32, 0);
  }

  /** rem := (rem << 1) | bit, in 256 bits. */
  method ShiftLeft1(rem: array<u32>, bit: u32)
    requires rem.Length == 8 && bit <= 1
    modifies rem
    ensures Pw(8) > 0 && Val(rem[..]) == (2 * old(Val(rem[..]))) % Pw(8) + bit
  {
    hide Val, Pw;
    ghost var before := rem[..];
    var carry := DoubleLimbs(rem);
    ghost var mid := rem[..];
    ValBound(mid);
    DivModUnique(2 * Val(before), Pw(8), carry, Val(mid));
    var low: u32 := rem[0] + bit;
    rem[0] := low;
    assert rem[..] == mid[0 := low];
    ValUpdate(mid, 0, low);
    PwZero();
  }

  /** The shift of every limb, with the bit that leaves the top. */
  method DoubleLimbs(rem: array<u32>) returns (carry: u32)
    requires rem.Length == 8
    modifies rem
    ensures carry <= 1 && rem[0] % 2 == 0
    ensures Val(rem[..]) + carry * Pw(8) == 2 * old(Val(rem[..]))
  {
    hide Val, Pw;
    ghost var before := rem[..];
    carry := 0;
    var j := 0;
    EmptyVal(before);
    EmptyVal(rem[..]);
    assert rem[..0] == rem[..][..0];
    while j < 8
      invariant 0 <= j <= 8 && carry <= 1
      invariant rem[j..] == before[j..]
      invariant if j == 0 then carry == 0 else rem[0] % 2 == 0
      invariant Val(rem[..j]) + carry * Pw(j) == 2 * Val(before[..j])
    {
      assert rem[j] == before[j] by { assert rem[j] == rem[j..][0]; }
      var tmp: u64 := 2 * rem[j] + carry;
      ghost var done := rem[..j];
      if j == 0 { EvenLow(rem[j]); }
      rem[j] := tmp % 0x1_0000_0000;
      assert rem[..j] == done && rem[..][..j] == rem[..j] && rem[..][..j + 1] == rem[..j + 1];
      assert rem[j + 1..] == before[j..][1..];
      ValSnoc(rem[..], j);
      ValSnoc(before, j);
      PwNext(j);
      CarryStep(tmp % 0x1_0000_0000, tmp / 0x1_0000_0000, tmp, Pw(j));
      SplitSum(before[j], before[j], carry, Pw(j));
      carry := tmp / 0x1_0000_0000;
      j := j + 1;
    }
    assert rem[..8] == rem[..] && before[..8] == before;
  }

  lemma EvenLow(x: nat)
    ensures ((2 * x) % 0x1_0000_0000) % 2 == 0
  {
    var y := 2 * x;
    assert y % 0x1_0000_0000 == y - 0x1_0000_0000 * (y / 0x1_0000_0000);
  }

  /** The compare of the source: strictly greater, with equality reported as not greater. */
  method StrictlyAbove(rem: seq<u32>, m: seq<u32>) returns (ge: bool)
    requires |rem| == |m|
    ensures ge <==> Val(rem) > Val(m)
  {
    hide Val;
    ge := false;
    var j := |rem| - 1;
    while j >= 0
      invariant -1 <= j < |rem| && !ge
      invariant forall k :: j < k < |rem| ==> rem[k] == m[k]
    {
      if rem[j] != m[j] {
        Decides(rem, m, j);
        return rem[j] > m[j];
      }
      j := j - 1;
    }
    assert rem == m;
  }

  /** The long division over the 512 product bits. */
  method UintMulMod(a: seq<u32>, b: seq<u32>, m: seq<u32>, result: array<u32>)
    requires |a| == |b| == |m| == 8 && result.Length == 8
    modifies result
    ensures Val(a) * Val(b) < Pow2(512)
    ensures Val(result[..]) == Register(Val(m), Val(a) * Val(b), 0)
  {
    hide Val, Pw, Pow2, Register, Shr;
    var prod := new u32[16];
    BigMul(a, b, prod);
    ghost var v := Val(prod[..]);
    ValBound(prod[..]);
    PwIsPow2(16);
    var rem := new u32[8](_ => 0);
    ValZero(rem[..]);
    RegisterTop(Val(m), v);
    var i := 511;
    while i >= 0
      invariant -1 <= i <= 511
      invariant Val(prod[..]) == v
      invariant Val(rem[..]) == Register(Val(m), v, i + 1)
    {
      BitOfLimb(prod[..], i);
      var bit: u32 := Shr(prod[i / 32], i % 32) % 2;
      RegisterStep(Val(m), v, i);
      ShiftLeft1(rem, bit);
      var ge := StrictlyAbove(rem[..], m);
      if ge {
        var _ := SubShifted(rem, m);
      }
      i := i - 1;
    }
    Fill(result, rem[..]);
  }

  lemma RegisterTop(m: nat, v: nat)
    ensures Register(m, v, 512) == 0
  {
  }

  lemma RegisterStep(m: nat, v: nat, i: nat)
    requires i < 512
    ensures Register(m, v, i) == ShiftIn(m, Register(m, v, i + 1), Shr(v, i) % 2)
  {
  }
}

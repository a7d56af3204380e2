/** The device's limb-level evaluation of Chebyshev polynomials. Scratch statics that every call
    writes before it reads are locals here; `carry4`, which is read before it is written and outlives
    the call, is a field. */
module Firmware {
  import opened Modular
  import opened Chebyshev
  import opened Matrix
  import opened Limbs
  import opened BigInt
  import MulMod

  /** A 2x2 matrix of 256-bit numbers, a struct copied by value. */
  datatype LimbMat = LimbMat(a: seq<u32>, b: seq<u32>, c: seq<u32>, d: seq<u32>)

  ghost predicate Wide(m: LimbMat) { |m.a| == |m.b| == |m.c| == |m.d| == 8 }

  ghost function Value(m: LimbMat): Mat { Mat(Val(m.a), Val(m.b), Val(m.c), Val(m.d)) }

  /** Every entry is a residue. */
  ghost predicate Residues(m: LimbMat, p: int) {
    Wide(m) && Val(m.a) < p && Val(m.b) < p && Val(m.c) < p && Val(m.d) < p
  }

  /** What the code reduces by: a modulus of 0 keeps the low 256 bits. */
  ghost function Modulus(m: nat): (r: nat)
    ensures r > 0
  {
    PwPos(8);
    if m == 0 then Pw(8) else m
  }

  /** The product of x and y is short enough for the reduction modulo m to end. */
  ghost predicate Short(x: nat, y: nat, m: nat) {
    x * y >= 0 && (m == 0 || Top(x * y) - Top(m) <= 287)
  }

  ghost predicate Small(v: nat, m: nat) { v <= 1 || v < Modulus(m) }

  /** A product with one factor that is a residue, 0 or 1 is at most 256 bits longer than the modulus. */
  lemma ProductLength(x: seq<u32>, y: seq<u32>, m: nat)
    requires |y| == 8 && Small(Val(x), m)
    ensures Short(Val(x), Val(y), m) && Short(Val(y), Val(x), m)
  {
    hide Top, Val, Pow2, Pw;
    ValBound(y);
    PwIsPow2(8);
    MulMono(0, Val(x), Val(y));
    assert Val(y) * Val(x) == Val(x) * Val(y);
    if m > 0 { LengthBound(Val(x), Val(y), m); }
  }

  lemma LengthBound(u: nat, v: nat, m: nat)
    requires m > 0 && (u <= 1 || u < m) && v < Pow2(256)
    ensures u * v >= 0 && Top(u * v) - Top(m) <= 287
  {
    hide Top, Pow2;
    TopBounds(m);
    var k := Top(m) + 1;
    Pow2Mono(1, k);
    Pow2Constants();
    Pow2Add(k, 256);
    StrictProduct(u, v, Pow2(k), Pow2(256));
    MulMono(0, u, v);
    TopSpec(u * v, k + 256);
  }

  /** (x * y + z * w) mod m by two reductions and one conditional subtraction, with the carry of the
      addition. */
  method DotMod(x: seq<u32>, y: seq<u32>, z: seq<u32>, w: seq<u32>, m: seq<u32>)
    returns (r: seq<u32>, carry: u32)
    requires |x| == |y| == |z| == |w| == |m| == 8
    requires Short(Val(x), Val(y), Val(m)) && Short(Val(z), Val(w), Val(m))
    ensures |r| == 8 && Val(r) == (Val(x) * Val(y) + Val(z) * Val(w)) % Modulus(Val(m))
    ensures carry == if (Val(x) * Val(y)) % Modulus(Val(m)) + (Val(z) * Val(w)) % Modulus(Val(m)) >= Pw(8) then 1 else 0
  {
    hide *;
    ghost var p := Modulus(Val(m));
    ModulusIs(m);
    var r0 := ProductMod(x, y, m);
    var r1 := ProductMod(z, w, m);
    ghost var u, v := Val(r0[..]), Val(r1[..]);
    carry := BigAdd(r0, r1, r0);
    AddCarry(r0[..], carry, u + v);
    ReduceSum(u, v, p, Val(x) * Val(y), Val(z) * Val(w));
    var c := BigCmp(r0[..], m);
    ValBound(r0[..]);
    if carry != 0 || c >= 0 {
      var borrow := BigSub(r0, m, r0);
      ValBound(r0[..]);
      ConditionalSub(Val(r0[..]), carry, borrow, u + v, Val(m), Pw(8));
    }
    r := r0[..];
  }

  /** One product, reduced. */
  method ProductMod(x: seq<u32>, y: seq<u32>, m: seq<u32>) returns (r: array<u32>)
    requires |x| == |y| == |m| == 8 && Short(Val(x), Val(y), Val(m))
    ensures fresh(r) && r.Length == 8 && Val(r[..]) == (Val(x) * Val(y)) % Modulus(Val(m))
  {
    hide *;
    var t := new u32[16];
    r := new u32[8];
    ModulusIs(m);
    ShortTop(Val(x), Val(y), Val(m));
    BigMul(x, y, t);
    BigMod(t[..], m, r);
    LowLimbs(t[..]);
  }

  lemma ModulusIs(m: seq<u32>)
    requires |m| == 8
    ensures Modulus(Val(m)) == (if Val(m) == 0 then Pw(8) else Val(m)) && Val(m) < Pw(8)
  {
    hide Val, Pw;
    ValBound(m);
  }

  lemma LowLimbs(s: seq<u32>)
    requires |s| == 16
    ensures Pw(8) > 0 && Val(s[..8]) == Val(s) % Pw(8)
  {
    hide Val, Pw;
    PwPos(8);
    ValSplit(s, 8);
    ValBound(s[..8]);
    assert Pw(8) * Val(s[8..]) == Val(s[8..]) * Pw(8);
    DivModUnique(Val(s), Pw(8), Val(s[8..]), Val(s[..8]));
  }

  lemma ShortTop(x: nat, y: nat, m: nat)
    requires Short(x, y, m)
    ensures x * y >= 0 && (m == 0 || Top(x * y) - Top(m) <= 287)
  {
    hide Top;
  }

  lemma AddCarry(s: seq<u32>, carry: int, sum: nat)
    requires |s| == 8 && 0 <= carry <= 1 && Val(s) + carry * Pw(8) == sum
    ensures carry == if sum >= Pw(8) then 1 else 0
    ensures carry == 0 ==> Val(s) == sum
    ensures carry == 1 ==> Val(s) == sum - Pw(8)
  {
    hide *;
    ValBound(s);
    var w := Pw(8);
    assert carry * w == if carry == 1 then w else 0;
  }

  /** The wrapped difference is the true one, because the sum is below twice the modulus; for the modulus 0
      nothing is subtracted, and the carry has gone already. */
  lemma ConditionalSub(r: nat, carry: int, borrow: int, sum: nat, m: nat, w: nat)
    requires 0 <= carry <= 1 && 0 <= borrow <= 1 && r < w && m < w && sum >= m
    requires (carry == 1 <==> sum >= w) && sum < 2 * (if m == 0 then w else m)
    requires r == (if carry == 1 then sum - w else sum) - m + borrow * w
    ensures r == var p := if m == 0 then w else m; if sum >= p then sum - p else sum
  {
    assert borrow * w == if borrow == 1 then w else 0;
  }

  lemma ReduceSum(u: nat, v: nat, m: nat, x: int, y: int)
    requires m > 0 && u == x % m && v == y % m
    ensures u < m && v < m
    ensures (x + y) % m == if u + v >= m then u + v - m else u + v
  {
    CongMod(x, m);
    CongMod(y, m);
    CongAdd(u, x, v, y, m);
    if u + v >= m {
      CongIntro(u + v - m, u + v, m, -1);
      ModSmall(u + v - m, m);
    } else {
      ModSmall(u + v, m);
    }
  }

  /** Every product that the product of two matrices needs is short. */
  ghost predicate MulShort(x: LimbMat, y: LimbMat, m: nat) {
    && Short(Val(x.a), Val(y.a), m) && Short(Val(x.b), Val(y.c), m)
    && Short(Val(x.a), Val(y.b), m) && Short(Val(x.b), Val(y.d), m)
    && Short(Val(x.c), Val(y.a), m) && Short(Val(x.d), Val(y.c), m)
    && Short(Val(x.c), Val(y.b), m) && Short(Val(x.d), Val(y.d), m)
  }

  lemma LeftShort(x: LimbMat, y: LimbMat, m: nat)
    requires AllSmall(x, m) && Wide(y)
    ensures MulShort(x, y, m)
  {
    hide Val, Short, Small;
    ProductLength(x.a, y.a, m);
    ProductLength(x.b, y.c, m);
    ProductLength(x.a, y.b, m);
    ProductLength(x.b, y.d, m);
    ProductLength(x.c, y.a, m);
    ProductLength(x.d, y.c, m);
    ProductLength(x.c, y.b, m);
    ProductLength(x.d, y.d, m);
  }

  /** Every entry is a residue, 0 or 1. */
  ghost predicate AllSmall(x: LimbMat, m: nat) {
    Wide(x) && Small(Val(x.a), m) && Small(Val(x.b), m) && Small(Val(x.c), m) && Small(Val(x.d), m)
  }

  /** The transfer matrix before its top-left entry is a residue: its square needs one product more. */
  ghost predicate AlmostSmall(x: LimbMat, m: nat) {
    Wide(x) && Short(Val(x.a), Val(x.a), m) && Small(Val(x.b), m) && Small(Val(x.c), m) && Small(Val(x.d), m)
  }

  lemma SquareShort(x: LimbMat, m: nat)
    requires AlmostSmall(x, m)
    ensures MulShort(x, x, m)
  {
    hide Val, Short, Small;
    ProductLength(x.b, x.c, m);
    ProductLength(x.b, x.a, m);
    ProductLength(x.b, x.d, m);
    ProductLength(x.c, x.a, m);
    ProductLength(x.d, x.c, m);
    ProductLength(x.d, x.d, m);
  }

  lemma ResiduesSmall(x: LimbMat, m: nat)
    requires Residues(x, Modulus(m))
    ensures AllSmall(x, m) && AlmostSmall(x, m)
  {
    hide Val, Short;
    ProductLength(x.a, x.a, m);
  }

  method MatrixMul(x: LimbMat, y: LimbMat, m: seq<u32>) returns (r: LimbMat)
    requires |m| == 8 && Wide(x) && Wide(y) && MulShort(x, y, Val(m))
    ensures Residues(r, Modulus(Val(m))) && Value(r) == Reduced(Mul(Value(x), Value(y)), Modulus(Val(m)))
  {
    hide Val, Pw, Short, Modulus;
    var a, _ := DotMod(x.a, y.a, x.b, y.c, m);
    var b, _ := DotMod(x.a, y.b, x.b, y.d, m);
    var c, _ := DotMod(x.c, y.a, x.d, y.c, m);
    var d, _ := DotMod(x.c, y.b, x.d, y.d, m);
    r := LimbMat(a, b, c, d);
  }

  const ONE: seq<u32> := [1, 0, 0, 0, 0, 0, 0, 0]
  const ZERO: seq<u32> := [0, 0, 0, 0, 0, 0, 0, 0]

  lemma Constants()
    ensures |ONE| == |ZERO| == 8 && Val(ONE) == 1 && Val(ZERO) == 0
  {
    ValZero(ZERO);
    ValZero(ONE[1..]);
    assert Val(ONE) == ONE[0] + 0x1_0000_0000 * Val(ONE[1..]);
  }

  method IsZero(s: seq<u32>) returns (b: bool)
    ensures b <==> Val(s) == 0
  {
    ValZero(s);
    var i := 0;
    while i < |s|
      invariant 0 <= i <= |s| && forall k :: 0 <= k < i ==> s[k] == 0
    {
      if s[i] != 0 { return false; }
      i := i + 1;
    }
    b := true;
  }

  method IsOne(s: seq<u32>) returns (b: bool)
    requires |s| == 8
    ensures b <==> Val(s) == 1
  {
    b := s[0] == 1;
    var i := 1;
    while i < 8 && b
      invariant 1 <= i <= 8
      invariant b <==> s[0] == 1 && forall k :: 1 <= k < i ==> s[k] == 0
    {
      if s[i] != 0 { b := false; }
      i := i + 1;
    }
    ValZero(s[1..]);
    if Val(s) == 1 {
      assert forall k :: 1 <= k < 8 ==> s[k] == s[1..][k - 1];
    }
  }

  /** M^exp modulo m, and the unreduced identity for exponent 0. `z` is any integer matrix congruent to M. */
  method MatrixPow(M: LimbMat, exp: seq<u32>, m: seq<u32>, ghost z: Mat) returns (result: LimbMat)
    requires |m| == |exp| == 8 && AlmostSmall(M, Val(m))
    requires Reduced(Value(M), Modulus(Val(m))) == Reduced(z, Modulus(Val(m)))
    ensures Val(exp) == 0 ==> Value(result) == IDENTITY
    ensures Val(exp) > 0 ==>
              && Residues(result, Modulus(Val(m)))
              && Value(result) == Reduced(Power(z, Val(exp)), Modulus(Val(m)))
  {
    hide Val, Pw, Short, MulShort, AlmostSmall, AllSmall, Reduced, Mul, Power, Modulus;
    ghost var mv, p := Val(m), Modulus(Val(m));
    Constants();
    result := LimbMat(ONE, ZERO, ZERO, ONE);
    var base := M;
    var e := new u32[8](i requires 0 <= i < 8 => exp[i]);
    assert e[..] == exp;
    ghost var i, j := 1, 0;
    IdentitySmall(result, z, mv);
    AlmostWide(M, mv);
    while true
      invariant i >= 1 && j >= 0 && j + i * Val(e[..]) == Val(exp)
      invariant Wide(base) && AlmostSmall(base, mv) && Reduced(Value(base), p) == Reduced(Power(z, i), p)
      invariant Wide(result) && AllSmall(result, mv) && Reduced(Value(result), p) == Reduced(Power(z, j), p)
      invariant if j == 0 then Value(result) == IDENTITY else Residues(result, p)
      decreases Val(e[..])
    {
      ghost var ev := Val(e[..]);
      LowBit(e[..]);
      if e[0] % 2 == 1 {
        LeftShort(result, base, mv);
        ProductPower(Value(result), Value(base), z, j, i, p);
        result := MatrixMul(result, base, m);
        ResiduesSmall(result, mv);
        ResiduesReduced(result, p);
        j := j + i;
      }
      var done := IsZero(e[..]);
      if done {
        assert i * 0 == 0;
        break;
      }
      BigShr1(e, e);
      SquareShort(base, mv);
      ProductPower(Value(base), Value(base), z, i, i, p);
      base := MatrixMul(base, base, m);
      ResiduesSmall(base, mv);
      ResiduesReduced(base, p);
      Halve(i, ev);
      i := i + i;
    }
    if j > 0 { ResiduesReduced(result, p); }
  }

  lemma AlmostWide(x: LimbMat, m: nat)
    requires AlmostSmall(x, m)
    ensures Wide(x)
  {
    hide Val, Short;
  }

  lemma IdentitySmall(x: LimbMat, z: Mat, m: nat)
    requires x == LimbMat(ONE, ZERO, ZERO, ONE)
    ensures Wide(x) && AllSmall(x, m) && Value(x) == IDENTITY == Power(z, 0) && Power(z, 1) == z
  {
    hide Val;
    Constants();
    PowerOne(z);
  }

  lemma ResiduesReduced(x: LimbMat, p: nat)
    requires p > 0 && Residues(x, p)
    ensures Reduced(Value(x), p) == Value(x)
  {
    hide Val;
    ModSmall(Val(x.a), p);
    ModSmall(Val(x.b), p);
    ModSmall(Val(x.c), p);
    ModSmall(Val(x.d), p);
  }

  /** Factors congruent to powers of z have a product congruent to the power of the sum. */
  lemma ProductPower(x: Mat, y: Mat, z: Mat, i: nat, j: nat, p: nat)
    requires p > 0 && Reduced(x, p) == Reduced(Power(z, i), p) && Reduced(y, p) == Reduced(Power(z, j), p)
    ensures Reduced(Mul(x, y), p) == Reduced(Power(z, i + j), p)
  {
    hide Mul, Power, Reduced;
    MulReduced(x, y, p);
    MulReduced(Power(z, i), Power(z, j), p);
    PowerAdd(z, i, j);
  }

  lemma PowerOne(z: Mat)
    ensures Power(z, 0) == IDENTITY && Power(z, 1) == z
  {
    assert Power(z, 1) == Mul(z, Power(z, 0));
  }

  lemma LowBit(s: seq<u32>)
    requires |s| > 0
    ensures s[0] % 2 == Val(s) % 2
    ensures Val(s) == 0 ==> s[0] == 0
  {
    LowBitOf(s[0], Val(s[1..]));
  }

  lemma LowBitOf(low: nat, high: nat)
    ensures low % 2 == (low + 0x1_0000_0000 * high) % 2
  {
    CongIntro(low + 0x1_0000_0000 * high, low, 2, 0x8000_0000 * high);
  }

  /** 2x + c, with the modulus subtracted once in 256 bits when that is not below it. */
  ghost function Doubled(x: nat, c: nat, p: nat): nat {
    PwPos(8);
    if 2 * x + c < p then 2 * x + c else (2 * x + c - p) % Pw(8)
  }

  /** The doubling loop, with an incoming carry and one conditional subtraction. */
  method DoubleMod(x: seq<u32>, c: u64, p: seq<u32>) returns (r: seq<u32>)
    requires |x| == |p| == 8 && c <= 1
    ensures |r| == 8 && Val(r) == Doubled(Val(x), c, Val(p))
  {
    hide Val, Pw;
    var twoX := new u32[8];
    var carry: u64 := c;
    var i := 0;
    EmptyVal(x);
    PwZero();
    while i < 8
      invariant 0 <= i <= 8 && carry <= 1
      invariant Val(twoX[..i]) + carry * Pw(i) == 2 * Val(x[..i]) + c
    {
      var t: u64 := x[i] * 2 + carry;
      ghost var before := twoX[..i];
      twoX[i] := t % 0x1_0000_0000;
      assert twoX[..i] == before && twoX[..][..i + 1] == twoX[..i + 1] && twoX[..][..i] == twoX[..i];
      ValSnoc(twoX[..], i);
      ValSnoc(x, i);
      PwNext(i);
      CarryStep(t % 0x1_0000_0000, t / 0x1_0000_0000, t, Pw(i));
      SplitSum(x[i], x[i], carry, Pw(i));
      carry := t / 0x1_0000_0000;
      i := i + 1;
    }
    assert twoX[..8] == twoX[..] && x[..8] == x;
    ghost var sum: nat := 2 * Val(x) + c;
    AddCarry(twoX[..], carry, sum);
    ValBound(twoX[..]);
    ValBound(p);
    var cmp := BigCmp(twoX[..], p);
    if carry != 0 || cmp >= 0 {
      var borrow := BigSub(twoX, p, twoX);
      ValBound(twoX[..]);
      WrappedSub(Val(twoX[..]), carry, borrow, sum, Val(p), Pw(8));
    }
    r := twoX[..];
  }

  lemma WrappedSub(r: nat, carry: int, borrow: int, sum: nat, p: nat, w: nat)
    requires 0 <= carry <= 1 && 0 <= borrow <= 1 && r < w && sum >= p
    requires r == (if carry == 1 then sum - w else sum) - p + borrow * w
    ensures r == (sum - p) % w
  {
    assert borrow * w == if borrow == 1 then w else 0;
    assert (carry - borrow) * w == carry * w - borrow * w;
    DivModUnique(sum - p, w, carry - borrow, r);
  }

  /** The doubling stays congruent to 2x + c as long as that is below 2^256 + p; for x below p it is the residue
      of 2x + c, and for the modulus 0 the low 256 bits of it. */
  lemma DoubledMeaning(x: nat, c: nat, p: nat)
    requires p <= Pw(8) && c <= 1 && (p == 0 || 2 * x + c < Pw(8) + p)
    ensures Cong(Doubled(x, c, p), 2 * x + c, Modulus(p))
    ensures x < p ==> Doubled(x, c, p) == (2 * x + c) % p < p
  {
    hide Pw;
    var s := 2 * x + c;
    if p == 0 {
      CongMod(s, Modulus(0));
    } else if s < p {
      if x < p { ModSmall(s, p); }
    } else {
      ModSmall(s - p, Pw(8));
      CongIntro(s - p, s, p, -1);
      if x < p { ModSmall(s - p, p); }
    }
  }

  /** x - 1 in 256 bits. */
  method Decrement(x: seq<u32>) returns (r: seq<u32>)
    requires |x| == 8
    ensures |r| == 8 && Val(r) == Modulus(Val(x)) - 1
  {
    hide Val, Pw, Modulus;
    Constants();
    ModulusIs(x);
    var t := new u32[8](i requires 0 <= i < 8 => x[i]);
    assert t[..] == x;
    var borrow := BigSub(t, ONE, t);
    ValBound(t[..]);
    r := t[..];
    BorrowOne(Val(x), Val(r), borrow, Pw(8));
  }

  lemma BorrowOne(x: nat, r: nat, borrow: int, w: nat)
    requires 0 <= borrow <= 1 && x < w && r < w && r == x - 1 + borrow * w
    ensures r == (if x == 0 then w else x) - 1
  {
    assert borrow * w == if borrow == 1 then w else 0;
  }

  /** The matrix the code builds, reduced, is the transfer matrix. */
  lemma TransferResidues(t: int, p: nat)
    requires p >= 1
    ensures Reduced(Mat(t, p - 1, 1, 0), p) == Reduced(Transfer(t), p)
  {
    CongIntro(p - 1, -1, p, 1);
  }

  /** One row of the final product, against the recurrence. */
  lemma FinalRow(m: Mat, p: nat, k: nat, x: int, t: int)
    requires p > 0 && m == Reduced(Power(Transfer(t), k), p)
    ensures (m.a * x + m.b * 1) % p == G(k + 1, x, t) % p
    ensures (m.c * x + m.d * 1) % p == G(k, x, t) % p
  {
    var z := Power(Transfer(t), k);
    TransferPower(k, x, t);
    CongMod(z.a, p);
    CongMod(z.b, p);
    CongMod(z.c, p);
    CongMod(z.d, p);
    CongMul(m.a, z.a, x, x, p);
    CongAdd(m.a * x, z.a * x, m.b, z.b, p);
    CongMul(m.c, z.c, x, x, p);
    CongAdd(m.c * x, z.c * x, m.d, z.d, p);
  }

  /** The carry that a call with n >= 2 leaves behind: that of its last addition. */
  ghost function ExitCarry(n: nat, x: nat, p: nat, carry: nat): nat {
    if n < 2 then carry
    else
      var z, m := Power(Transfer(Doubled(x, carry, p)), n - 1), Modulus(p);
      if ((z.c % m) * x) % m + ((z.d % m) * 1) % m >= Pw(8) then 1 else 0
  }

  class ChebyshevUnit {
    var carry4: u64

    constructor ()
      ensures carry4 == 0
    {
      carry4 := 0;
    }

    /** For n == 0 and n == 1 the first two values, unreduced; from n == 2 on the recurrence with the doubled x
        of this call, modulo p, or in 256 bits for p == 0. The call ends exactly when the square of the doubled
        x can be reduced (see CallEnds): the requires. */
    method ChebyshevTn(n: seq<u32>, x: seq<u32>, p: seq<u32>) returns (tn: seq<u32>, tn1: seq<u32>)
      requires |n| == |x| == |p| == 8 && carry4 <= 1
      requires Val(n) >= 2 ==> var t := Doubled(Val(x), carry4, Val(p)); Short(t, t, Val(p))
      modifies this
      ensures |tn| == |tn1| == 8
      ensures Val(n) == 0 ==> Val(tn) == 1 && Val(tn1) == 0
      ensures Val(n) == 1 ==> Val(tn) == Val(x) && Val(tn1) == 1
      ensures Val(n) >= 2 ==> var t, m := Doubled(Val(x), old(carry4), Val(p)), Modulus(Val(p));
                Val(tn) == G(Val(n), Val(x), t) % m && Val(tn1) == G(Val(n) - 1, Val(x), t) % m
      ensures carry4 <= 1 && carry4 == ExitCarry(Val(n), Val(x), Val(p), old(carry4))
    {
      hide Val, Pw, Short, Doubled, Modulus;
      Constants();
      var zero := IsZero(n);
      if zero {
        return ONE, ZERO;
      }
      var one := IsOne(n);
      if one {
        return x, ONE;
      }
      ghost var pv, xv, m := Val(p), Val(x), Modulus(Val(p));
      ghost var t := Doubled(xv, carry4, pv);
      var twoX := DoubleMod(x, carry4, p);
      var minusOne := Decrement(p);
      var M := LimbMat(twoX, minusOne, ONE, ZERO);
      var exp := Decrement(n);
      ModulusIs(n);
      TransferResidues(t, m);
      var power := MatrixPow(M, exp, p, Transfer(t));
      FinalRow(Value(power), m, Val(n) - 1, xv, t);
      ProductLength(power.a, x, pv);
      ProductLength(power.b, ONE, pv);
      ProductLength(power.c, x, pv);
      ProductLength(power.d, ONE, pv);
      var c: u32;
      tn, c := DotMod(power.a, x, power.b, ONE, p);
      tn1, c := DotMod(power.c, x, power.d, ONE, p);
      carry4 := c;
    }
  }

  lemma {:induction false} GCong(n: nat, x: int, s: int, t: int, p: nat)
    requires p > 0 && Cong(s, t, p)
    ensures Cong(G(n, x, s), G(n, x, t), p)
  {
    if n >= 2 {
      GCong(n - 1, x, s, t, p);
      GCong(n - 2, x, s, t, p);
      CongMul(s, t, G(n - 1, x, s), G(n - 1, x, t), p);
      CongSub(s * G(n - 1, x, s), t * G(n - 1, x, t), G(n - 2, x, s), G(n - 2, x, t), p);
    }
  }

  /** Every x below p can be evaluated, and the recurrence is then that of 2x + carry. */
  lemma SoundInput(n: nat, x: seq<u32>, carry: nat, p: seq<u32>)
    requires |x| == |p| == 8 && carry <= 1 && Val(x) < Val(p)
    ensures var t := Doubled(Val(x), carry, Val(p));
            Short(t, t, Val(p)) && G(n, Val(x), t) % Val(p) == G(n, Val(x), 2 * Val(x) + carry) % Val(p)
  {
    hide Val, Pw, Short, Doubled, G;
    ValBound(p);
    var t := Doubled(Val(x), carry, Val(p));
    DoubledMeaning(Val(x), carry, Val(p));
    ResidueSquare(t, p);
    GCong(n, Val(x), t, 2 * Val(x) + carry, Val(p));
  }

  lemma ResidueSquare(t: nat, p: seq<u32>)
    requires |p| == 8 && t < Val(p)
    ensures Short(t, t, Val(p))
  {
    hide Top, Val, Pow2, Pw;
    ValBound(p);
    PwIsPow2(8);
    LengthBound(t, t, Val(p));
  }

  // ----- x that is not below p -----

  lemma DoubledWidth(x: nat, c: nat, p: nat)
    requires p <= Pw(8)
    ensures Doubled(x, c, p) < Pw(8)
  {
    hide Pw;
    PwPos(8);
  }

  /** The reduction of the first square ends exactly when the requires of ChebyshevTn holds. */
  lemma CallEnds(x: nat, c: nat, p: nat)
    requires 0 < p <= Pw(8)
    ensures var t := Doubled(x, c, p); t * t >= 0 && (Ends(p, t * t) <==> Short(t, t, p))
  {
    hide Pw, Pow2, Top, Ends, Doubled;
    var t := Doubled(x, c, p);
    DoubledWidth(x, c, p);
    PwIsPow2(8);
    Pow2Add(256, 256);
    StrictProduct(t, t, Pow2(256), Pow2(256));
    MulMono(0, t, t);
    EndsExact(p, t * t);
  }

  /** From a modulus of 2^224 on every call ends. */
  lemma WideModulusEnds(x: nat, c: nat, p: nat)
    requires Pow2(224) <= p <= Pw(8)
    ensures var t := Doubled(x, c, p); Short(t, t, p)
  {
    hide Top, Pow2, Pw, Doubled;
    var t := Doubled(x, c, p);
    DoubledWidth(x, c, p);
    PwIsPow2(8);
    Pow2Add(256, 256);
    StrictProduct(t, t, Pow2(256), Pow2(256));
    MulMono(0, t, t);
    TopSpec(t * t, 512);
    TopSpec(p, 224);
  }

  /** What the unit returns as T_n(x) for n >= 1, without a stale carry. */
  ghost function Returned(n: nat, x: nat, p: nat): int {
    if n == 1 then x else G(n, x, Doubled(x, 0, p)) % Modulus(p)
  }

  /** Every 256-bit x, below p or not. For n == 1 the result is right exactly when x is below p. For n >= 2 the
      call ends exactly when the square of the doubled x can be reduced, and where it ends it is right for all n
      exactly when 2x is below 2^256 + p, so that the subtraction does not wrap, or p divides 2^256. */
  lemma UnreducedExact(x: nat, p: nat)
    requires 0 < p < Pw(8) && x < Pw(8)
    ensures Returned(1, x, p) == T(1, x) % p <==> x < p
    ensures var t := Doubled(x, 0, p); t * t >= 0 && (Ends(p, t * t) <==> Short(t, t, p))
    ensures (forall n: nat | n >= 2 :: Returned(n, x, p) == T(n, x) % p) <==> 2 * x < Pw(8) + p || Pw(8) % p == 0
  {
    hide Pw, G, T, Doubled, Ends, Short;
    TOne(x);
    if x < p { ModSmall(x, p); }
    CallEnds(x, 0, p);
    if 2 * x < Pw(8) + p || Pw(8) % p == 0 {
      DoubledOnce(x, p);
      forall n: nat | n >= 2 ensures Returned(n, x, p) == T(n, x) % p {
        GCong(n, x, Doubled(x, 0, p), 2 * x, p);
        GIsT(n, x);
      }
    } else {
      if forall n: nat | n >= 2 :: Returned(n, x, p) == T(n, x) % p {
        assert Returned(2, x, p) == T(2, x) % p && Returned(3, x, p) == T(3, x) % p;
        TwoAndThree(x, Doubled(x, 0, p), p);
        WrappedOffset(x, p);
        assert false;
      }
    }
  }

  /** In both cases the doubled x is congruent to 2x. */
  lemma DoubledOnce(x: nat, p: nat)
    requires 0 < p < Pw(8) && x < Pw(8) && (2 * x < Pw(8) + p || Pw(8) % p == 0)
    ensures Cong(Doubled(x, 0, p), 2 * x, p)
  {
    hide Pw;
    if 2 * x < Pw(8) + p {
      DoubledMeaning(x, 0, p);
    } else {
      WrappedValue(x, p);
      ModSmall(0, p);
      CongIntro(2 * x - p, 2 * x, p, -1);
      CongSub(2 * x - p, 2 * x, Pw(8), 0, p);
    }
  }

  /** When the subtraction wraps, the doubled x has lost 2^256. */
  lemma WrappedValue(x: nat, p: nat)
    requires 0 < p < Pw(8) && x < Pw(8) && 2 * x >= Pw(8) + p
    ensures Doubled(x, 0, p) == 2 * x - p - Pw(8)
  {
    hide Pw;
    DivModUnique(2 * x - p, Pw(8), 1, 2 * x - p - Pw(8));
  }

  lemma WrappedOffset(x: nat, p: nat)
    requires 0 < p < Pw(8) && x < Pw(8) && 2 * x >= Pw(8) + p && Cong(Doubled(x, 0, p), 2 * x, p)
    ensures Pw(8) % p == 0
  {
    hide Pw, Doubled;
    WrappedValue(x, p);
    CongSub(2 * x, Doubled(x, 0, p), Doubled(x, 0, p), Doubled(x, 0, p), p);
    CongIntro(p + Pw(8), Pw(8), p, 1);
    ModSmall(0, p);
  }

  /** The values at 2 and 3 decide whether the recurrence with t is that of 2x. */
  lemma TwoAndThree(x: int, t: int, p: nat)
    requires p > 0 && Cong(G(2, x, t), T(2, x), p) && Cong(G(3, x, t), T(3, x), p)
    ensures Cong(t, 2 * x, p)
  {
    GValues(x, t);
    GIsT(2, x);
    GIsT(3, x);
    GValues(x, 2 * x);
    hide G, T;
    var e := t - 2 * x;
    CongSub(G(2, x, t), T(2, x), T(2, x), T(2, x), p);
    CongSub(G(3, x, t), T(3, x), T(3, x), T(3, x), p);
    OffsetAlgebra(x, t);
    CongMul(t + 2 * x, t + 2 * x, e * x, 0, p);
    CongSub((t + 2 * x) * (e * x), 0, G(3, x, t) - T(3, x), 0, p);
    CongAdd(e, 0, 2 * x, 2 * x, p);
  }

  lemma GValues(x: int, t: int)
    ensures G(2, x, t) == t * x - 1 && G(3, x, t) == t * (t * x - 1) - x
  {
    assert G(2, x, t) == t * G(1, x, t) - G(0, x, t);
    assert G(3, x, t) == t * G(2, x, t) - G(1, x, t);
  }

  lemma OffsetAlgebra(x: int, t: int)
    ensures (t * x - 1) - (2 * x * x - 1) == (t - 2 * x) * x
    ensures (t + 2 * x) * ((t - 2 * x) * x) - ((t * (t * x - 1) - x) - (2 * x * (2 * x * x - 1) - x)) == t - 2 * x
  {
    var s, e := 2 * x, t - 2 * x;
    assert (t + s) * (e * x) == t * (t * x) - s * (s * x) by {
      assert e * x == t * x - s * x;
      assert (t + s) * (t * x - s * x) == t * (t * x) - t * (s * x) + s * (t * x) - s * (s * x);
      assert t * (s * x) == s * (t * x);
    }
    assert t * (t * x - 1) == t * (t * x) - t;
    assert s * (s * x - 1) == s * (s * x) - s;
  }

  /** A call that does not end: modulo 3, x == 2^255. */
  lemma EndlessCall(x: nat)
    requires x == Pow2(255)
    ensures var t := Doubled(x, 0, 3); t * t >= 0 && !Ends(3, t * t)
  {
    hide Pow2, Pw, Top, Ends;
    PwIsPow2(8);
    Pow2Even(256);
    Pow2Mono(2, 254);
    Pow2Even(255);
    Pow2Constants();
    var t := Doubled(x, 0, 3);
    ModSmall(Pw(8) - 3, Pw(8));
    assert t == Pow2(256) - 3 >= Pow2(255);
    CallEnds(x, 0, 3);
    MulMono(Pow2(255), t, t);
    MulMono(Pow2(255), t, Pow2(255));
    assert t * Pow2(255) == Pow2(255) * t;
    Pow2Add(255, 255);
    TopSpec(t * t, 510);
    TopSpec(3, 2);
  }

  /** A wrong value: modulo p == 2^255 - 1, x == 2^256 - 1 is congruent to 1, where every T_n is 1; the call
      ends, and returns p - 1 for n == 2. */
  lemma WrappedCall(p: nat, x: nat)
    requires p == Pow2(255) - 1 && p > 1 && x == 2 * p + 1
    ensures var t := Doubled(x, 0, p); Short(t, t, p)
    ensures x < Pw(8) && Returned(2, x, p) == p - 1 && T(2, x) % p == 1
  {
    hide Pow2, Pw, Top, G, T, Doubled;
    PwIsPow2(8);
    Pow2Even(256);
    Pow2Even(255);
    Pow2Mono(224, 254);
    Pow2Pos(254);
    WideModulusEnds(x, 0, p);
    WrappedValue(x, p);
    MinusOne(p, x);
    PlusOne(p, x);
  }

  lemma MinusOne(p: nat, x: int)
    requires p > 1
    ensures G(2, x, p) % p == p - 1
  {
    GValues(x, p);
    CongIntro(p * x - 1, -1, p, x);
    DivModUnique(-1, p, -1, p - 1);
  }

  lemma PlusOne(p: nat, x: int)
    requires p > 1 && x == 2 * p + 1
    ensures T(2, x) % p == 1
  {
    assert T(2, x) == 2 * x * T(1, x) - T(0, x);
    MulRegroup(2, x, x);
    CongIntro(x, 1, p, 2);
    CongMul(x, 1, x, 1, p);
    CongMul(2, 2, x * x, 1, p);
    CongSub(2 * (x * x), 2, 1, 1, p);
    ModSmall(1, p);
  }

  /** With the modulus 0 the unit evaluates the polynomial in 256 bits. */
  lemma ZeroModulus(n: nat, x: nat, p: nat, w: nat)
    requires n >= 2 && p == 0 && w == Modulus(p)
    ensures w == Pw(8) && Returned(n, x, p) == T(n, x) % w
  {
    hide G, T, Pw, Doubled;
    DoubledMeaning(x, 0, p);
    GCong(n, x, Doubled(x, 0, p), 2 * x, w);
    GIsT(n, x);
  }

  /** With a modulus of at most 2^255 no carry is left behind. */
  lemma NoCarryLeft(n: nat, x: nat, p: nat)
    requires 0 < p && 2 * p <= Pw(8)
    ensures ExitCarry(n, x, p, 0) == 0
  {
    hide Pw, Power, Doubled;
  }

  /** A stale carry spoils the unit: it computes T_n(x) for every n and x exactly when it is 0. */
  lemma StaleCarry(p: nat, carry: nat)
    requires p >= 2 && carry <= 1
    ensures (forall n: nat, x: nat | x < p :: G(n, x, 2 * x + carry) % p == T(n, x) % p) <==> carry == 0
  {
    hide G, T;
    if carry == 0 {
      forall n: nat, x: nat | x < p ensures G(n, x, 2 * x + carry) % p == T(n, x) % p {
        GIsT(n, x);
      }
    } else {
      StaleAtTwo(p);
      var n: nat, x: nat := 2, 1;
      assert G(n, x, 2 * x + carry) % p != T(n, x) % p;
    }
  }

  /** T_2(1) with a stale carry. */
  lemma StaleAtTwo(p: nat)
    requires p >= 2
    ensures G(2, 1, 3) % p != T(2, 1) % p
  {
    assert G(2, 1, 3) == 3 * G(1, 1, 3) - G(0, 1, 3) == 2;
    assert T(2, 1) == 2 * 1 * T(1, 1) - T(0, 1) == 1;
    ModSmall(1, p);
    if p == 2 { DivModUnique(2, 2, 1, 0); } else { ModSmall(2, p); }
  }

  lemma SquareTransfer()
    ensures Power(Transfer(2), 2) == Mat(3, -2, 2, -1)
  {
    PowerOne(Transfer(2));
    assert Power(Transfer(2), 2) == Mul(Transfer(2), Power(Transfer(2), 1));
  }

  lemma LeakSum(z: Mat, p: nat)
    requires p >= 3 && z.c == 2 && z.d == -1
    ensures ((z.c % p) * 1) % p + ((z.d % p) * 1) % p == p + 1
  {
    ModSmall(2, p);
    DivModUnique(-1, p, -1, p - 1);
    ModSmall(p - 1, p);
  }

  /** And a modulus above 2^255 can leave one: T_3(1) modulo 2^256 - 1 does. */
  lemma CarryLeak(p: nat)
    requires p > 3 && p == Pw(8) - 1
    ensures ExitCarry(3, 1, p, 0) == 1
  {
    hide Pw, Power;
    SquareTransfer();
    assert Doubled(1, 0, p) == 2;
    LeakSum(Power(Transfer(2), 2), p);
  }

  datatype Call = Call(n: seq<u32>, x: seq<u32>, p: seq<u32>)

  ghost predicate Proper(c: Call) {
    |c.n| == |c.x| == |c.p| == 8 && 2 <= Val(c.p) && 2 * Val(c.p) <= Pw(8) && Val(c.x) < Val(c.p)
  }

  ghost predicate Correct(c: Call, out: (seq<u32>, seq<u32>))
    requires Proper(c)
  {
    && Val(out.0) == T(Val(c.n), Val(c.x)) % Val(c.p)
    && (Val(c.n) >= 1 ==> Val(out.1) == T(Val(c.n) - 1, Val(c.x)) % Val(c.p))
  }

  /** Any sequence of calls with moduli up to 2^255 returns T_n(x) and T_{n-1}(x) every time. */
  method RunCalls(calls: seq<Call>) returns (out: seq<(seq<u32>, seq<u32>)>)
    requires forall i :: 0 <= i < |calls| ==> Proper(calls[i])
    ensures |out| == |calls|
    ensures forall i :: 0 <= i < |calls| ==> Correct(calls[i], out[i])
  {
    hide Val, Pw, T, G, ExitCarry, Short, Doubled;
    var unit := new ChebyshevUnit();
    out := [];
    for i := 0 to |calls|
      invariant unit.carry4 == 0 && |out| == i && fresh(unit)
      invariant forall j :: 0 <= j < i ==> Correct(calls[j], out[j])
    {
      var c := calls[i];
      ModSmall(Val(c.x), Val(c.p));
      ModSmall(1, Val(c.p));
      TOne(Val(c.x));
      SoundInput(Val(c.n), c.x, 0, c.p);
      if Val(c.n) >= 1 { SoundInput(Val(c.n) - 1, c.x, 0, c.p); }
      var tn, tn1 := unit.ChebyshevTn(c.n, c.x, c.p);
      GIsT(Val(c.n), Val(c.x));
      if Val(c.n) >= 1 { GIsT(Val(c.n) - 1, Val(c.x)); }
      NoCarryLeft(Val(c.n), Val(c.x), Val(c.p));
      out := out + [(tn, tn1)];
    }
  }

  lemma TOne(x: int)
    ensures T(0, x) == 1 && T(1, x) == x
  {
  }

  /** The firmware's two modular products agree wherever no prefix of the product is a multiple of m and no
      remainder overflows (which moduli up to 2^255 rule out), for every product short enough for the first of
      them to end. */
  method ProductsAgree(a: seq<u32>, b: seq<u32>, m: seq<u32>) returns (x: seq<u32>, y: seq<u32>)
    requires |a| == |b| == |m| == 8 && 0 < Val(m)
    requires Val(a) * Val(b) >= 0 && Top(Val(a) * Val(b)) - Top(Val(m)) <= 287
    requires forall k :: 0 <= k < 512 ==>
               !MulMod.Hit(Val(m), Val(a) * Val(b), k) && !MulMod.Overflows(Val(m), Val(a) * Val(b), k)
    ensures |x| == |y| == 8 && Val(x) == Val(y) == (Val(a) * Val(b)) % Val(m)
  {
    hide Val, Pw, MulMod.Register, MulMod.Hit, MulMod.Overflows;
    var t, r, s := new u32[16], new u32[8], new u32[8];
    BigMul(a, b, t);
    BigMod(t[..], m, r);
    MulMod.UintMulMod(a, b, m, s);
    MulMod.ProductRight(Val(m), Val(a) * Val(b));
    x, y := r[..], s[..];
  }
}

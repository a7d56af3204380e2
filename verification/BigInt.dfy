/** The multi-precision routines of the device firmware, on limb arrays. Outputs are arrays written in
    place and may alias an array input; inputs that never alias an output are passed as limb values. */
module BigInt {
  import opened Modular
  import opened Limbs

  /** Number of leading zero bits of a 32-bit word. `x / 0x1_0000 == 0` is the mask test on the top half. */
  method Clz32(word: u32) returns (m: int)
    ensures word == 0 ==> m == 32
    ensures word > 0 ==> 0 <= m <= 31 && Pow2(31 - m) <= word < Pow2(32 - m)
  {
    hide Pow2;
    if word == 0 {
      return 32;
    }
    var x: u32 := word;
    m := 0;
    Pow2Constants();
    assert word * 1 == word;
    x, m := ClzStage(word, x, m, 16, 0x1_0000, 0x1_0000);
    x, m := ClzStage(word, x, m, 8, 0x100, 0x100_0000);
    x, m := ClzStage(word, x, m, 4, 0x10, 0x1000_0000);
    x, m := ClzStage(word, x, m, 2, 4, 0x4000_0000);
    x, m := ClzStage(word, x, m, 1, 2, 0x8000_0000);
    ClzRange(word, x, m);
  }

  /** One test: when every bit from `top` up is clear, shift them out and count k of them. The last of the
      five needs only the count; its shift is kept here for the proof. */
  method ClzStage(ghost word: nat, x: u32, m: nat, k: nat, unit: u32, top: u32) returns (y: u32, n: nat)
    requires x == word * Pow2(m) && unit == Pow2(k) && unit * top == 0x1_0000_0000 && x * unit >= top && top > 0
    ensures y == word * Pow2(n) && y >= top && m <= n <= m + k
  {
    hide Pow2;
    y, n := x, m;
    TestTop(x, top);
    var q := x / top;
    if q == 0 {
      StageFits(x, unit, top);
      ClzStep(word, x, m, k);
      y, n := x * unit, m + k;
    }
  }

  lemma TestTop(x: nat, top: nat)
    requires top > 0
    ensures x / top == 0 <==> x < top
  {
    if x < top { ModSmall(x, top); }
  }

  lemma StageFits(x: nat, unit: nat, top: nat)
    requires x < top && unit > 0
    ensures 0 <= x * unit < unit * top
  {
    MulMono(x + 1, top, unit);
    MulMono(0, x, unit);
    assert (x + 1) * unit == x * unit + unit && top * unit == unit * top;
  }

  lemma ClzStep(word: nat, x: nat, m: nat, k: nat)
    requires x == word * Pow2(m)
    ensures x * Pow2(k) == word * Pow2(m + k)
  {
    Pow2Add(m, k);
    MulRegroup(word, Pow2(m), Pow2(k));
  }

  lemma ClzRange(word: nat, y: nat, m: nat)
    requires y == word * Pow2(m) && 0x8000_0000 <= y < 0x1_0000_0000 && m <= 31
    ensures Pow2(31 - m) <= word < Pow2(32 - m)
  {
    hide Pow2;
    Pow2Constants();
    Pow2Add(31 - m, m);
    Pow2Add(32 - m, m);
    Pow2Pos(m);
    Cancel(Pow2(31 - m), word, Pow2(m));
    CancelStrict(word, Pow2(32 - m), Pow2(m));
  }

  lemma Cancel(a: int, b: int, c: int)
    requires c > 0 && a * c <= b * c
    ensures a <= b
  {
    assert (b + 1) * c == b * c + c;
    if a > b { MulMono(b + 1, a, c); assert false; }
  }

  lemma CancelStrict(a: int, b: int, c: int)
    requires c > 0 && a * c < b * c
    ensures a < b
  {
    if a >= b { MulMono(b, a, c); assert false; }
  }

  /** Three-way comparison from the most significant limb down. */
  method BigCmp(a: seq<u32>, b: seq<u32>) returns (r: int)
    requires |a| == |b|
    ensures r == if Val(a) > Val(b) then 1 else if Val(a) < Val(b) then -1 else 0
  {
    hide Val;
    var i := |a| - 1;
    while i >= 0
      invariant -1 <= i < |a|
      invariant forall k :: i < k < |a| ==> a[k] == b[k]
    {
      if a[i] != b[i] {
        Decides(a, b, i);
        return if a[i] > b[i] then 1 else -1;
      }
      i := i - 1;
    }
    assert a == b;
    r := 0;
  }

  lemma Decides(a: seq<u32>, b: seq<u32>, i: nat)
    requires i < |a| == |b| && a[i] != b[i] && forall k :: i < k < |a| ==> a[k] == b[k]
    ensures a[i] > b[i] <==> Val(a) > Val(b)
    ensures Val(a) != Val(b)
  {
    hide Val;
    assert a[i + 1..] == b[i + 1..];
    if a[i] > b[i] {
      ValOrder(a, b, i);
    } else {
      ValOrder(b, a, i);
    }
  }

  /** res := a + b, returning the carry; res may be a or b. */
  method BigAdd(a: array<u32>, b: array<u32>, res: array<u32>) returns (carry: u32)
    requires a.Length == b.Length == res.Length
    modifies res
    ensures carry <= 1
    ensures Val(res[..]) + carry * Pw(res.Length) == old(Val(a[..]) + Val(b[..]))
  {
    hide Val, Pw;
    ghost var oa, ob := a[..], b[..];
    var c: u64 := 0;
    var i := 0;
    EmptyVal(oa);
    EmptyVal(ob);
    EmptyVal(res[..]);
    assert res[..0] == res[..][..0];
    while i < res.Length
      invariant 0 <= i <= res.Length && c <= 1
      invariant a[i..] == oa[i..] && b[i..] == ob[i..]
      invariant Val(res[..i]) + c * Pw(i) == Val(oa[..i]) + Val(ob[..i])
    {
      assert a[i] == oa[i] && b[i] == ob[i] by { assert a[i] == a[i..][0] && b[i] == b[i..][0]; }
      var sum: u64 := a[i] + b[i] + c;
      ghost var low, before := sum % 0x1_0000_0000, res[..i];
      res[i] := sum % 0x1_0000_0000;
      assert res[..i] == before;
      assert a[i + 1..] == oa[i..][1..] && b[i + 1..] == ob[i..][1..];
      ValSnoc(res[..], i);
      assert res[..][..i + 1] == res[..i + 1] && res[..][..i] == res[..i];
      ValSnoc(oa, i);
      ValSnoc(ob, i);
      PwNext(i);
      CarryStep(low, sum / 0x1_0000_0000, sum, Pw(i));
      SplitSum(oa[i], ob[i], c, Pw(i));
      c := sum / 0x1_0000_0000;
      i := i + 1;
    }
    assert res[..i] == res[..] && oa[..i] == oa && ob[..i] == ob;
    carry := c;
  }

  lemma CarryStep(low: int, high: int, sum: int, w: int)
    requires sum == low + 0x1_0000_0000 * high
    ensures low * w + high * (0x1_0000_0000 * w) == sum * w
  {
    assert (0x1_0000_0000 * high) * w == high * (0x1_0000_0000 * w);
  }

  lemma SplitSum(x: int, y: int, z: int, w: int)
    ensures (x + y + z) * w == x * w + y * w + z * w
  {
  }

  /** res := a - b modulo 2^(32 n), returning the borrow; res may be a. */
  method BigSub(a: array<u32>, b: seq<u32>, res: array<u32>) returns (borrow: u32)
    requires a.Length == |b| == res.Length
    modifies res
    ensures borrow <= 1
    ensures Val(res[..]) == old(Val(a[..])) - Val(b) + borrow * Pw(res.Length)
  {
    hide Val, Pw;
    ghost var oa := a[..];
    borrow := 0;
    var i := 0;
    EmptyVal(oa);
    EmptyVal(b);
    EmptyVal(res[..]);
    assert res[..0] == res[..][..0];
    while i < res.Length
      invariant 0 <= i <= res.Length && borrow <= 1
      invariant a[i..] == oa[i..]
      invariant Val(res[..i]) == Val(oa[..i]) - Val(b[..i]) + borrow * Pw(i)
    {
      assert a[i] == oa[i] by { assert a[i] == a[i..][0]; }
      var ai: u64 := a[i];
      var bi: u64 := b[i] + borrow;
      ghost var before, bin := res[..i], borrow;
      if ai >= bi {
        res[i] := ai - bi;
        borrow := 0;
      } else {
        res[i] := 0x1_0000_0000 + ai - bi;
        borrow := 1;
      }
      assert res[..i] == before;
      assert a[i + 1..] == oa[i..][1..];
      ValSnoc(res[..], i);
      assert res[..][..i + 1] == res[..i + 1] && res[..][..i] == res[..i];
      ValSnoc(oa, i);
      ValSnoc(b, i);
      PwNext(i);
      BorrowStep(res[i], oa[i], b[i], bin, borrow, Pw(i));
      i := i + 1;
    }
    assert res[..i] == res[..] && oa[..i] == oa && b[..i] == b;
  }

  lemma BorrowStep(r: int, a: int, b: int, bin: int, bout: int, w: int)
    requires r == a - b - bin + 0x1_0000_0000 * bout
    ensures r * w == a * w - b * w - bin * w + bout * (0x1_0000_0000 * w)
  {
    assert (0x1_0000_0000 * bout) * w == bout * (0x1_0000_0000 * w);
    assert (a - b - bin) * w == a * w - b * w - bin * w;
  }

  /** res := a >> 1; res may be a. */
  method BigShr1(a: array<u32>, res: array<u32>)
    requires a.Length == res.Length
    modifies res
    ensures Val(res[..]) == old(Val(a[..])) / 2
  {
    hide Val;
    ghost var oa := a[..];
    var carry: u64 := 0;
    var i := res.Length;
    NoLimbs(oa);
    NoLimbs(res[..]);
    assert res[i..] == res[..][i..];
    while i > 0
      invariant 0 <= i <= res.Length && carry <= 1
      invariant a[..i] == oa[..i]
      invariant Val(oa[i..]) == 2 * Val(res[i..]) + carry
    {
      i := i - 1;
      ghost var above := res[i + 1..];
      assert a[i] == oa[i] by { assert a[..i + 1][i] == oa[..i + 1][i]; }
      assert a[..i] == oa[..i] by { assert a[..i + 1][..i] == oa[..i + 1][..i]; }
      var temp: u64 := carry * 0x1_0000_0000 + a[i];
      var digit: u32 := temp / 2;
      HalfDigit(carry, oa[i], temp, Val(above));
      res[i] := digit;
      assert res[i..][1..] == above && oa[i..][1..] == oa[i + 1..];
      ValHead(res[i..]);
      ValHead(oa[i..]);
      carry := temp % 2;
    }
    assert res[0..] == res[..] && oa[0..] == oa;
  }

  lemma NoLimbs(s: seq<u32>)
    ensures Val(s[|s|..]) == 0
  {
  }

  /** Halving one digit under an incoming bit keeps the running total. */
  lemma HalfDigit(carry: nat, digit: nat, temp: nat, above: nat)
    requires temp == carry * 0x1_0000_0000 + digit
    ensures digit + 0x1_0000_0000 * (2 * above + carry) == 2 * (temp / 2 + 0x1_0000_0000 * above) + temp % 2
  {
  }

  /** Schoolbook product into twice as many limbs. */
  method BigMul(a: seq<u32>, b: seq<u32>, res: array<u32>)
    requires |a| == |b| == 8 && res.Length == 16
    modifies res
    ensures Val(res[..]) == Val(a) * Val(b)
  {
    var i := 0;
    while i < 16
      invariant 0 <= i <= 16 && forall k :: 0 <= k < i ==> res[k] == 0
    {
      res[i] := 0;
      i := i + 1;
    }
    ValZero(res[..]);
    assert a[..0] == [];
    i := 0;
    while i < 8
      invariant 0 <= i <= 8
      invariant forall k :: i + 8 <= k < 16 ==> res[k] == 0
      invariant Val(res[..]) == Val(a[..i]) * Val(b)
    {
      MulRow(a, b, i, res);
      i := i + 1;
    }
    assert a[..8] == a;
  }

  /** One row of the product: adds a[i] * b, shifted by i limbs. */
  method MulRow(a: seq<u32>, b: seq<u32>, i: nat, res: array<u32>)
    requires |a| == |b| == 8 && res.Length == 16 && i < 8
    requires forall k :: i + 8 <= k < 16 ==> res[k] == 0
    requires Val(res[..]) == Val(a[..i]) * Val(b)
    modifies res
    ensures forall k :: i + 9 <= k < 16 ==> res[k] == 0
    ensures Val(res[..]) == Val(a[..i + 1]) * Val(b)
  {
    hide Val, Pw;
    ghost var start := Val(res[..]);
    EmptyVal(b);
    var carry: u64 := 0;
    var j := 0;
    while j < 8
      invariant 0 <= j <= 8 && carry < 0x1_0000_0000
      invariant forall k :: i + 8 <= k < 16 ==> res[k] == 0
      invariant Val(res[..]) + carry * Pw(i + j) == start + a[i] * (Val(b[..j]) * Pw(i))
    {
      DigitProduct(a[i], b[j], res[i + j], carry);
      var t: u64 := a[i] * b[j] + res[i + j] + carry;
      var low: u32 := t % 0x1_0000_0000;
      ghost var before, digit := res[..], res[i + j];
      res[i + j] := low;
      assert res[..] == before[i + j := low];
      RowDigit(before, a[i], b, i, j, low, carry, t);
      carry := t / 0x1_0000_0000;
      j := j + 1;
    }
    ghost var before := res[..];
    var top: u32 := carry;
    res[i + 8] := top;
    assert res[..] == before[i + 8 := top];
    ValUpdate(before, i + 8, top);
    assert b[..8] == b;
    RowEnd(a, b, i);
  }

  /** Writing one digit of a row keeps the running total. */
  lemma RowDigit(s: seq<u32>, x: u32, b: seq<u32>, i: nat, j: nat, low: u32, carry: int, t: int)
    requires |s| == 16 && |b| == 8 && i < 8 && j < 8
    requires t == x * b[j] + s[i + j] + carry && low == t % 0x1_0000_0000
    ensures Val(s[i + j := low]) + (t / 0x1_0000_0000) * Pw(i + j + 1)
         == Val(s) + carry * Pw(i + j) + x * (Val(b[..j + 1]) * Pw(i)) - x * (Val(b[..j]) * Pw(i))
  {
    hide Val, Pw;
    ValUpdate(s, i + j, low);
    ValSnoc(b, j);
    PwAdd(j, i);
    PwNext(i + j);
    RowStep(x, b[j], s[i + j], carry, t, Val(b[..j]), Pw(i), Pw(j));
  }

  lemma RowEnd(a: seq<u32>, b: seq<u32>, i: nat)
    requires i < |a|
    ensures Val(a[..i + 1]) * Val(b) == Val(a[..i]) * Val(b) + a[i] * (Val(b) * Pw(i))
  {
    hide Val, Pw;
    ValSnoc(a, i);
    var v, w, y := Val(a[..i]), Pw(i), Val(b);
    assert (v + a[i] * w) * y == v * y + (a[i] * w) * y;
    assert (a[i] * w) * y == a[i] * (y * w);
  }

  lemma EmptyVal(s: seq<u32>)
    ensures Val(s[..0]) == 0
  {
  }

  lemma PwZero()
    ensures Pw(0) == 1
  {
  }

  lemma DigitProduct(x: u32, y: u32, r: u32, c: int)
    requires 0 <= c < 0x1_0000_0000
    ensures 0 <= x * y + r + c < 0x1_0000_0000_0000_0000
  {
    MulMono(0, x, y);
    MulMono(x, 0xFFFF_FFFF, y);
  }

  lemma RowStep(x: int, y: int, r: int, c: int, t: int, vb: int, pi: int, pj: int)
    requires t == x * y + r + c
    ensures (t % 0x1_0000_0000 - r) * (pj * pi) + (t / 0x1_0000_0000) * (0x1_0000_0000 * (pj * pi))
         == c * (pj * pi) + x * ((vb + y * pj) * pi) - x * (vb * pi)
  {
    var w := pj * pi;
    CarryStep(t % 0x1_0000_0000, t / 0x1_0000_0000, t, w);
    assert (t % 0x1_0000_0000 - r) * w == (t % 0x1_0000_0000) * w - r * w;
    assert t * w == (x * y) * w + r * w + c * w;
    assert (vb + y * pj) * pi == vb * pi + y * w by { assert (y * pj) * pi == y * w; }
    assert x * (vb * pi + y * w) == x * (vb * pi) + (x * y) * w;
  }

  /** res := a << (32 * wordShift + bitShift) in 512 bits, or 0 for a word shift outside 0..8. Shifting by
      8 words and some bits drops what leaves the top. `|` in the source joins disjoint bits, hence `+`. */
  method Shl512(a: seq<u32>, wordShift: int, bitShift: int, res: array<u32>) returns (ghost lost: nat)
    requires |a| == 8 && res.Length == 16 && 0 <= bitShift < 32
    modifies res
    ensures wordShift < 0 || wordShift > 8 ==> Val(res[..]) == 0
    ensures 0 <= wordShift <= 8 ==> Val(res[..]) + lost * Pw(16) == (Val(a) * Pow2(bitShift)) * Pw(wordShift)
    ensures 0 <= wordShift < 8 || bitShift == 0 ==> lost == 0
  {
    hide Val, Pw, Pow2;
    var i := 0;
    while i < 16
      invariant 0 <= i <= 16 && forall k :: 0 <= k < i ==> res[k] == 0
    {
      res[i] := 0;
      i := i + 1;
    }
    ValZero(res[..]);
    lost := 0;
    if wordShift < 0 || wordShift > 8 {
      return;
    }
    var carry := ShiftLimbs(a, wordShift, bitShift, res);
    ghost var before := res[..];
    if wordShift + 8 < 16 {
      var top: u32 := carry;
      res[wordShift + 8] := top;
      assert res[..] == before[wordShift + 8 := top];
      ValUpdate(before, wordShift + 8, top);
      assert 0 * Pw(16) == 0;
    } else {
      Pow2Constants();
      lost := carry;
    }
  }

  method ShiftLimbs(a: seq<u32>, wordShift: nat, bitShift: nat, res: array<u32>) returns (carry: u64)
    requires |a| == 8 && res.Length == 16 && bitShift < 32 && wordShift <= 8
    requires forall k :: 0 <= k < 16 ==> res[k] == 0
    modifies res
    ensures forall k :: wordShift + 8 <= k < 16 ==> res[k] == 0
    ensures carry < ShiftFactor(bitShift)
    ensures Val(res[..]) + carry * Pw(wordShift + 8) == (Val(a) * Pow2(bitShift)) * Pw(wordShift)
  {
    hide Val, Pw, Pow2;
    ValZero(res[..]);
    EmptyVal(a);
    var factor: u64 := ShiftFactor(bitShift);
    carry := 0;
    var i := 0;
    while i < 8
      invariant 0 <= i <= 8 && carry < factor
      invariant forall k :: wordShift + i <= k < 16 ==> res[k] == 0
      invariant Val(res[..]) + carry * Pw(wordShift + i) == (Val(a[..i]) * factor) * Pw(wordShift)
    {
      ShiftDigit(a[i], factor, carry);
      var temp: u64 := a[i] * factor + carry;
      var low: u32 := temp % 0x1_0000_0000;
      ghost var before := res[..];
      res[i + wordShift] := low;
      assert res[..] == before[i + wordShift := low];
      ValUpdate(before, i + wordShift, low);
      ValSnoc(a, i);
      PwAdd(wordShift, i);
      PwNext(wordShift + i);
      ShiftStep(a[i], factor, carry, temp, Val(a[..i]), Pw(wordShift), Pw(i));
      carry := temp / 0x1_0000_0000;
      i := i + 1;
    }
    assert a[..8] == a;
  }

  function ShiftFactor(bits: int): (r: u64)
    requires 0 <= bits < 32
    ensures r == Pow2(bits) && 1 <= r <= 0x8000_0000
  {
    Pow2Mono(bits, 31);
    Pow2Pos(bits);
    Pow2Constants();
    Pow2(bits)
  }

  lemma ShiftDigit(x: u32, f: int, c: int)
    requires 1 <= f <= 0x8000_0000 && 0 <= c < f
    ensures 0 <= x * f + c < 0x1_0000_0000_0000_0000
    ensures (x * f + c) / 0x1_0000_0000 < f
  {
    MulMono(0, x, f);
    MulMono(x, 0xFFFF_FFFF, f);
  }

  lemma ShiftStep(x: int, f: int, c: int, t: int, va: int, pw: int, pi: int)
    requires t == x * f + c
    ensures (t % 0x1_0000_0000) * (pw * pi) + (t / 0x1_0000_0000) * (0x1_0000_0000 * (pw * pi))
         == c * (pw * pi) + ((va + x * pi) * f) * pw - (va * f) * pw
  {
    var w := pw * pi;
    CarryStep(t % 0x1_0000_0000, t / 0x1_0000_0000, t, w);
    assert t * w == (x * f) * w + c * w;
    assert ((va + x * pi) * f) * pw == (va * f) * pw + (x * f) * w by {
      assert (va + x * pi) * f == va * f + (x * pi) * f;
      assert ((x * pi) * f) * pw == (x * f) * w;
    }
  }

  lemma TopOfZero()
    ensures Top(0) == -1
  {
  }

  /** Position of the top set bit, -1 when every limb is zero. */
  method TopBit(s: seq<u32>) returns (bit: int)
    ensures bit == Top(Val(s))
  {
    hide *;
    var i := |s| - 1;
    while i >= 0 && s[i] == 0
      invariant -1 <= i < |s|
      invariant forall k :: i < k < |s| ==> s[k] == 0
    {
      i := i - 1;
    }
    if i < 0 {
      ValZero(s);
      TopOfZero();
      return -1;
    }
    var z := Clz32(s[i]);
    bit := 32 * i + (31 - z);
    ValSplit(s, i + 1);
    ValZero(s[i + 1..]);
    ValSnoc(s, i);
    ValBound(s[..i]);
    PwIsPow2(i);
    Pow2Add(31 - z, 32 * i);
    Pow2Add(32 - z, 32 * i);
    MulMono(Pow2(31 - z), s[i], Pw(i));
    var top: int := s[i];
    MulMono(top + 1, Pow2(32 - z), Pw(i));
    assert (top + 1) * Pw(i) == top * Pw(i) + Pw(i);
    TopUnique(Val(s), bit);
  }

  /** One pass of the shift-subtract loop on the numbers the limbs stand for. */
  function ModStep(m: nat, rem: nat, remBit: int): (nat, int)
    requires remBit >= Top(m)
  {
    var shift: nat := remBit - Top(m);
    PwPos(16);
    var shifted := if shift / 32 > 8 then 0 else (m * Pow2(shift)) % Pw(16);
    if rem >= shifted then (rem - shifted, Top(rem - shifted)) else (rem, remBit - 1)
  }

  /** Beyond 287 bits of difference the shifted modulus is 0: from the bit position the loop starts with,
      no number of passes changes anything, so the loop never ends. */
  lemma {:induction false} ModStuck(m: nat, rem: nat, n: nat)
    requires m > 0 && Top(rem) - Top(m) >= 288
    ensures Passes(m, rem, Top(rem), n) == (rem, Top(rem))
  {
    hide Top, ModStep;
    if n > 0 {
      ModStuck(m, rem, n - 1);
      ModStepFar(m, rem, Top(rem));
    }
  }

  /** n passes, as far as the loop condition allows. */
  function Passes(m: nat, rem: nat, remBit: int, n: nat): (nat, int) {
    if n == 0 then (rem, remBit)
    else
      var r := Passes(m, rem, remBit, n - 1);
      if r.1 >= Top(m) then ModStep(m, r.0, r.1) else r
  }

  /** What the loop keeps. remBit may sit one below the true top bit of rem, but then rem is below
      the modulus shifted one further. */
  ghost predicate ModInvariant(m: nat, rem: nat, remBit: int)
    requires m > 0
  {
    if remBit < Top(m) then rem < m else rem < m * Pow2(remBit - Top(m) + 1)
  }

  lemma ModStart(m: nat, rem: nat)
    requires m > 0
    ensures ModInvariant(m, rem, Top(rem))
  {
    TopBounds(m);
    if Top(rem) < Top(m) {
      TopSpec(rem, Top(m));
    } else {
      var s := Top(rem) - Top(m) + 1;
      TopSpec(rem, Top(rem) + 1);
      Pow2Add(Top(m), s);
      MulMono(Pow2(Top(m)), m, Pow2(s));
    }
  }

  lemma ModDrop(m: nat, rem: nat, remBit: int)
    requires m > 0 && remBit >= Top(m) && rem < m * Pow2(remBit - Top(m))
    ensures ModInvariant(m, rem, remBit - 1)
  {
    if remBit == Top(m) {
      assert Pow2(0) == 1;
    }
  }

  /** A shift of at most 287 bits that ends at bit 511 or below loses nothing. */
  lemma ShiftFits(m: nat, shift: nat, lost: nat, v: nat)
    requires m > 0 && Top(m) + shift <= 511 && v + lost * Pw(16) == m * Pow2(shift)
    ensures lost == 0
  {
    hide *;
    TopBounds(m);
    PwIsPow2(16);
    Pow2Pos(shift);
    Pow2Add(Top(m) + 1, shift);
    MulMono(m + 1, Pow2(Top(m) + 1), Pow2(shift));
    assert (m + 1) * Pow2(shift) == m * Pow2(shift) + Pow2(shift);
    Pow2Mono(Top(m) + 1 + shift, 512);
    if lost >= 1 { MulMono(1, lost, Pw(16)); assert false; }
  }

  /** r := a mod m. With m == 0 the low half of a is returned; otherwise a may be at most 287 bits
      longer than m, which is exactly when the loop ends (see ModStuck). */
  method BigMod(a: seq<u32>, m: seq<u32>, r: array<u32>)
    requires |a| == 16 && |m| == 8 && r.Length == 8
    requires Val(m) == 0 || Top(Val(a)) - Top(Val(m)) <= 287
    modifies r
    ensures Val(m) > 0 ==> Val(r[..]) == Val(a) % Val(m)
    ensures Val(m) == 0 ==> r[..] == a[..8]
  {
    var rem := new u32[16](i requires 0 <= i < 16 => a[i]);
    assert rem[..] == a;
    var remBit := TopBit(a);
    TopNonNeg(Val(a));
    if remBit < 0 {
      Fill(r, seq(8, _ => 0));
      ValZero(r[..]);
      ValZero(a);
      TopNonNeg(Val(a));
      assert r[..] == a[..8];
      if Val(m) > 0 { ModSmall(0, Val(m)); }
      return;
    }
    var mBit := TopBit(m);
    TopNonNeg(Val(m));
    if mBit < 0 {
      Fill(r, rem[..8]);
      return;
    }
    ghost var mv := Val(m);
    ModStart(mv, Val(a));
    CongIntro(Val(a), Val(a), mv, 0);
    LowHalf(a);
    if remBit < mBit {
      Fill(r, rem[..8]);
      TopSpec(Val(a), mBit);
      TopBounds(mv);
      BelowModulus(a, m);
      ModSmall(Val(a), mv);
      return;
    }
    while remBit >= mBit
      invariant remBit >= -1 && remBit <= 511 && remBit - mBit <= 287
      invariant ModInvariant(mv, Val(rem[..]), remBit)
      invariant Cong(Val(rem[..]), Val(a), mv)
      decreases remBit + 1, Val(rem[..])
    {
      remBit := ModPass(m, mBit, rem, remBit, Val(a));
    }
    BelowModulus(rem[..], m);
    Fill(r, rem[..8]);
    ModSmall(Val(r[..]), mv);
  }

  lemma LowHalf(a: seq<u32>)
    requires |a| == 16
    ensures Top(Val(a)) <= 511
  {
    ValBound(a);
    PwIsPow2(16);
    TopSpec(Val(a), 512);
  }

  lemma BelowModulus(s: seq<u32>, m: seq<u32>)
    requires |s| == 16 && |m| == 8 && Val(s) < Val(m)
    ensures Val(s[..8]) == Val(s)
  {
    hide Val, Pw;
    ValSplit(s, 8);
    ValBound(m);
    var hi, w := Val(s[8..]), Pw(8);
    assert w * hi == hi * w;
    if hi >= 1 { MulMono(1, hi, w); assert false; }
    assert w * 0 == 0;
  }

  method Fill(r: array<u32>, s: seq<u32>)
    requires r.Length == |s|
    modifies r
    ensures r[..] == s
  {
    forall i | 0 <= i < |s| { r[i] := s[i]; }
  }

  /** One pass of the loop on limbs: refines ModStep. Up to 287 bits of difference it keeps the invariant and
      makes progress; from 288 on it leaves the remainder alone and reports its top bit again. */
  method ModPass(m: seq<u32>, mBit: int, rem: array<u32>, remBit: int, ghost a: nat) returns (bit: int)
    requires |m| == 8 && rem.Length == 16 && Val(m) > 0 && mBit == Top(Val(m)) && mBit <= remBit <= 511
    requires remBit - mBit <= 287 ==> ModInvariant(Val(m), Val(rem[..]), remBit) && Cong(Val(rem[..]), a, Val(m))
    modifies rem
    ensures (Val(rem[..]), bit) == old(ModStep(Val(m), Val(rem[..]), remBit))
    ensures remBit - mBit <= 287 ==>
              && -1 <= bit <= remBit && (bit < remBit || Val(rem[..]) < old(Val(rem[..])))
              && ModInvariant(Val(m), Val(rem[..]), bit) && Cong(Val(rem[..]), a, Val(m))
    ensures remBit - mBit >= 288 ==> Val(rem[..]) == old(Val(rem[..])) && bit == Top(Val(rem[..]))
  {
    hide *;
    TopNonNeg(Val(m));
    ghost var mv, rv := Val(m), Val(rem[..]);
    var shift := remBit - mBit;
    var shifted := ShiftedModulus(m, shift);
    if shift <= 287 { ModStepUnfold(mv, rv, remBit); } else { ModStepFar(mv, rv, remBit); }
    var c := BigCmp(rem[..], shifted);
    if c >= 0 {
      var _ := SubShifted(rem, shifted);
      bit := TopBit(rem[..]);
      if shift <= 287 { Subtracted(mv, rv, shift, a); }
    } else {
      bit := remBit - 1;
      ModDrop(mv, rv, remBit);
    }
  }

  /** m << shift, with nothing lost up to 287 bits, and 0 beyond. */
  method ShiftedModulus(m: seq<u32>, shift: nat) returns (s: seq<u32>)
    requires |m| == 8 && Val(m) > 0 && Top(Val(m)) + shift <= 511
    ensures |s| == 16
    ensures shift <= 287 ==> Val(s) == Val(m) * Pow2(shift) && Pw(16) > 0 && Val(s) % Pw(16) == Val(s)
    ensures shift >= 288 ==> Val(s) == 0
  {
    hide *;
    var wordShift, bitShift := shift / 32, shift % 32;
    var shifted := new u32[16];
    ghost var lost := Shl512(m, wordShift, bitShift, shifted);
    s := shifted[..];
    if shift <= 287 {
      PwIsPow2(wordShift);
      Pow2Add(bitShift, 32 * wordShift);
      MulRegroup(Val(m), Pow2(bitShift), Pw(wordShift));
      ShiftFits(Val(m), shift, lost, Val(s));
      assert 0 * Pw(16) == 0;
      ValBound(s);
      ModSmall(Val(s), Pw(16));
    }
  }

  lemma ModStepFar(m: nat, rem: nat, remBit: int)
    requires remBit - Top(m) >= 288
    ensures ModStep(m, rem, remBit) == (rem, Top(rem))
  {
    hide Pw, Pow2, Top;
  }

  lemma ModStepUnfold(m: nat, rem: nat, remBit: int)
    requires m > 0 && Top(m) <= remBit && remBit - Top(m) <= 287
    requires Pw(16) > 0 && (m * Pow2(remBit - Top(m))) % Pw(16) == m * Pow2(remBit - Top(m))
    ensures var sv := m * Pow2(remBit - Top(m));
            ModStep(m, rem, remBit) == if rem >= sv then (rem - sv, Top(rem - sv)) else (rem, remBit - 1)
  {
    hide Pw, Pow2, Top;
  }

  lemma Subtracted(m: nat, rem: nat, shift: nat, a: nat)
    requires m > 0 && ModInvariant(m, rem, Top(m) + shift) && rem >= m * Pow2(shift) && Cong(rem, a, m)
    ensures m * Pow2(shift) > 0
    ensures var v := rem - m * Pow2(shift);
            Top(v) >= -1 && Top(v) <= Top(m) + shift && ModInvariant(m, v, Top(v)) && Cong(v, a, m)
  {
    hide Pw, Pow2, Top, ModInvariant;
    var sv := m * Pow2(shift);
    Pow2Pos(shift);
    assert sv > 0 by { MulMono(1, m, Pow2(shift)); }
    SubtractBound(m, rem, sv, shift);
    TopSpec(rem - sv, Top(m) + shift + 1);
    TopNonNeg(rem - sv);
    ModStart(m, rem - sv);
    var w: int := Pow2(shift);
    var k := -w;
    assert k * m == -(m * Pow2(shift));
    CongIntro(rem - sv, rem, m, k);
  }

  lemma SubtractBound(m: nat, rem: nat, sv: nat, shift: nat)
    requires m > 0 && sv == m * Pow2(shift) && ModInvariant(m, rem, Top(m) + shift) && rem >= sv
    ensures Top(m) >= 0 && rem - sv < Pow2(Top(m) + shift + 1)
  {
    TopBounds(m);
    assert m * Pow2(shift + 1) == 2 * (m * Pow2(shift));
    Pow2Add(Top(m) + 1, shift);
    MulMono(m, Pow2(Top(m) + 1), Pow2(shift));
  }

  /** The loop reaches a bit position below the modulus after some number of passes. */
  ghost predicate Ends(m: nat, v: nat) {
    exists n: nat :: Passes(m, v, Top(v), n).1 < Top(m)
  }

  /** The shift-subtract loop ends exactly when v is at most 287 bits longer than m. */
  lemma EndsExact(m: nat, v: nat)
    requires m > 0 && v < Pow2(512)
    ensures Ends(m, v) <==> Top(v) - Top(m) <= 287
  {
    hide Top, Pow2, Passes, ModInvariant;
    TopNonNeg(m);
    TopNonNeg(v);
    TopSpec(v, 512);
    if Top(v) - Top(m) <= 287 {
      ModStart(m, v);
      NoPass(m, v, Top(v));
      EndsFrom(m, v, 0, v, Top(v));
    } else {
      forall n: nat ensures Passes(m, v, Top(v), n).1 >= Top(m) { ModStuck(m, v, n); }
    }
  }

  lemma NoPass(m: nat, v: nat, bit: int)
    ensures Passes(m, v, bit, 0) == (v, bit)
  {
  }

  lemma OnePass(m: nat, v: nat, bit: int, n: nat)
    requires Passes(m, v, bit, n).1 >= Top(m)
    ensures Passes(m, v, bit, n + 1) == ModStep(m, Passes(m, v, bit, n).0, Passes(m, v, bit, n).1)
  {
    hide Top, ModStep;
  }

  lemma {:induction false} EndsFrom(m: nat, v: nat, n: nat, rem: nat, bit: int)
    requires m > 0 && Passes(m, v, Top(v), n) == (rem, bit) && ModInvariant(m, rem, bit)
    requires -1 <= bit <= 511 && bit - Top(m) <= 287
    ensures Ends(m, v)
    decreases bit + 1, rem
  {
    hide Top, Pow2, Pw, Passes, ModInvariant, ModStep;
    TopNonNeg(m);
    if bit >= Top(m) {
      var shift: nat := bit - Top(m);
      OnePass(m, v, Top(v), n);
      WithinWidth(m, shift);
      ModStepUnfold(m, rem, bit);
      if rem >= m * Pow2(shift) {
        Subtracted(m, rem, shift, rem);
      } else {
        ModDrop(m, rem, bit);
      }
      var next := ModStep(m, rem, bit);
      EndsFrom(m, v, n + 1, next.0, next.1);
    }
  }

  lemma WithinWidth(m: nat, shift: nat)
    requires m > 0 && Top(m) + shift <= 511
    ensures Pw(16) > 0 && (m * Pow2(shift)) % Pw(16) == m * Pow2(shift)
  {
    hide *;
    TopBounds(m);
    PwIsPow2(16);
    Pow2Pos(shift);
    Pow2Add(Top(m) + 1, shift);
    MulMono(m + 1, Pow2(Top(m) + 1), Pow2(shift));
    assert (m + 1) * Pow2(shift) == m * Pow2(shift) + Pow2(shift);
    Pow2Mono(Top(m) + 1 + shift, 512);
    MulMono(0, m, Pow2(shift));
    ModSmall(m * Pow2(shift), Pw(16));
  }

  /** In-place subtraction of a smaller number. */
  method SubShifted(rem: array<u32>, s: seq<u32>) returns (borrow: u32)
    requires rem.Length == |s| && Val(rem[..]) >= Val(s)
    modifies rem
    ensures Val(rem[..]) == old(Val(rem[..])) - Val(s)
  {
    ghost var v := Val(rem[..]);
    borrow := BigSub(rem, s, rem);
    ValBound(rem[..]);
    ghost var w := Pw(rem.Length);
    assert borrow * w == if borrow == 1 then w else 0;
  }
}

/** Little-endian 32-bit limbs and the number they stand for. */
module Limbs {
  import opened Modular

  type u32 = x: int | 0 <= x < 0x1_0000_0000
  type u64 = x: int | 0 <= x < 0x1_0000_0000_0000_0000

  function Val(s: seq<u32>): nat {
    if |s| == 0 then 0 else s[0] + 0x1_0000_0000 * Val(s[1..])
  }

  /** 2^(32 i) */
  function Pw(i: nat): nat {
    if i == 0 then 1 else 0x1_0000_0000 * Pw(i - 1)
  }

  function Pow2(k: nat): nat {
    if k == 0 then 1 else 2 * Pow2(k - 1)
  }

  /** Position of the top set bit, -1 for zero. */
  function Top(v: nat): int {
    if v == 0 then -1 else 1 + Top(v / 2)
  }

  lemma PwNext(i: nat)
    ensures Pw(i + 1) == 0x1_0000_0000 * Pw(i)
  {
  }

  lemma Pow2Even(k: nat)
    requires k > 0
    ensures Pow2(k) == 2 * Pow2(k - 1)
  {
  }

  lemma ValHead(s: seq<u32>)
    requires |s| > 0
    ensures Val(s) == s[0] + 0x1_0000_0000 * Val(s[1..])
  {
  }

  lemma {:induction false} PwPos(i: nat)
    ensures Pw(i) > 0
  {
    if i > 0 { PwPos(i - 1); }
  }

  lemma {:induction false} Pow2Pos(k: nat)
    ensures Pow2(k) > 0
  {
    if k > 0 { Pow2Pos(k - 1); }
  }

  lemma {:induction false} Pow2Add(j: nat, k: nat)
    ensures Pow2(j + k) == Pow2(j) * Pow2(k)
  {
    if j == 0 {
      assert 1 * Pow2(k) == Pow2(k);
    } else {
      hide Pow2;
      Pow2Add(j - 1, k);
      Pow2Even(j);
      Pow2Even(j + k);
      MulRegroup(2, Pow2(j - 1), Pow2(k));
    }
  }

  lemma {:induction false} Pow2Mono(j: nat, k: nat)
    requires j <= k
    ensures Pow2(j) <= Pow2(k)
  {
    if j < k {
      Pow2Mono(j, k - 1);
    }
  }

  lemma Pow2Constants()
    ensures Pow2(0) == 1 && Pow2(1) == 2 && Pow2(2) == 4 && Pow2(4) == 0x10
    ensures Pow2(8) == 0x100 && Pow2(16) == 0x1_0000 && Pow2(24) == 0x100_0000
    ensures Pow2(30) == 0x4000_0000 && Pow2(31) == 0x8000_0000 && Pow2(32) == 0x1_0000_0000
  {
    assert Pow2(4) == 16;
    assert Pow2(8) == 16 * Pow2(4);
    Pow2Add(8, 8);
    Pow2Add(16, 8);
    Pow2Add(16, 16);
    assert Pow2(32) == 2 * Pow2(31);
    assert Pow2(31) == 2 * Pow2(30);
  }

  lemma {:induction false} PwIsPow2(i: nat)
    ensures Pw(i) == Pow2(32 * i)
  {
    if i > 0 {
      PwIsPow2(i - 1);
      Pow2Constants();
      Pow2Add(32, 32 * (i - 1));
    }
  }

  lemma {:induction false} PwAdd(i: nat, j: nat)
    ensures Pw(i + j) == Pw(i) * Pw(j)
  {
    if i == 0 {
      assert 1 * Pw(j) == Pw(j);
    } else {
      hide Pw;
      PwAdd(i - 1, j);
      PwNext(i - 1);
      PwNext(i - 1 + j);
      MulRegroup(0x1_0000_0000, Pw(i - 1), Pw(j));
    }
  }

  lemma {:induction false} ValAppend(s: seq<u32>, t: seq<u32>)
    ensures Val(s + t) == Val(s) + Pw(|s|) * Val(t)
  {
    if |s| == 0 {
      assert s + t == t;
    } else {
      hide Val, Pw;
      ValAppend(s[1..], t);
      assert (s + t)[1..] == s[1..] + t;
      ValHead(s);
      ValHead(s + t);
      PwNext(|s| - 1);
      MulRegroup(0x1_0000_0000, Pw(|s| - 1), Val(t));
    }
  }

  lemma Scaled(a: int, b: int, c: int)
    ensures b * (a * c) == a * (b * c)
  {
  }

  lemma ValSnoc(s: seq<u32>, i: nat)
    requires i < |s|
    ensures Val(s[..i + 1]) == Val(s[..i]) + s[i] * Pw(i)
  {
    assert s[..i + 1] == s[..i] + [s[i]];
    ValAppend(s[..i], [s[i]]);
    assert Val([s[i]]) == s[i];
    assert Pw(i) * s[i] == s[i] * Pw(i);
  }

  lemma ValSplit(s: seq<u32>, i: nat)
    requires i <= |s|
    ensures Val(s) == Val(s[..i]) + Pw(i) * Val(s[i..])
  {
    assert s == s[..i] + s[i..];
    ValAppend(s[..i], s[i..]);
  }

  lemma {:induction false} ValUpdate(s: seq<u32>, i: nat, v: u32)
    requires i < |s|
    ensures Val(s[i := v]) == Val(s) + (v - s[i]) * Pw(i)
  {
    if i == 0 {
      assert s[0 := v][1..] == s[1..];
    } else {
      hide Val, Pw;
      ValUpdate(s[1..], i - 1, v);
      assert s[i := v][1..] == s[1..][i - 1 := v];
      ValHead(s);
      ValHead(s[i := v]);
      PwNext(i - 1);
      Scaled(v - s[i], 0x1_0000_0000, Pw(i - 1));
    }
  }

  lemma {:induction false} ValBound(s: seq<u32>)
    ensures Val(s) < Pw(|s|)
  {
    if |s| > 0 { ValBound(s[1..]); }
  }

  lemma {:induction false} ValZero(s: seq<u32>)
    ensures Val(s) == 0 <==> forall k :: 0 <= k < |s| ==> s[k] == 0
  {
    if |s| > 0 {
      ValZero(s[1..]);
      if Val(s) == 0 {
        forall k | 0 <= k < |s| ensures s[k] == 0 {
          if k > 0 { assert s[k] == s[1..][k - 1]; }
        }
      }
      if forall k :: 0 <= k < |s| ==> s[k] == 0 {
        forall k | 0 <= k < |s[1..]| ensures s[1..][k] == 0 {
          assert s[1..][k] == s[k + 1];
        }
      }
    }
  }

  /** Limbs that agree above i are ordered by limb i. */
  lemma ValOrder(s: seq<u32>, t: seq<u32>, i: nat)
    requires i < |s| == |t| && s[i + 1..] == t[i + 1..] && s[i] > t[i]
    ensures Val(s) > Val(t)
  {
    ValSplit(s, i + 1);
    ValSplit(t, i + 1);
    ValSnoc(s, i);
    ValSnoc(t, i);
    ValBound(t[..i]);
    assert (s[i] - t[i]) * Pw(i) >= Pw(i) by { PwPos(i); MulMono(1, s[i] - t[i], Pw(i)); }
    assert (s[i] - t[i]) * Pw(i) == s[i] * Pw(i) - t[i] * Pw(i);
  }

  lemma {:induction false} TopSpec(v: nat, k: nat)
    ensures Top(v) < k <==> v < Pow2(k)
  {
    if v == 0 {
      Pow2Pos(k);
    } else if k == 0 {
      TopNonNeg(v);
    } else {
      TopSpec(v / 2, k - 1);
    }
  }

  lemma {:induction false} TopNonNeg(v: nat)
    ensures Top(v) >= -1
    ensures v > 0 ==> Top(v) >= 0
  {
    if v > 0 { TopNonNeg(v / 2); }
  }

  /** The top bit is the k with 2^k <= v < 2^(k+1). */
  lemma TopUnique(v: nat, k: nat)
    requires Pow2(k) <= v < Pow2(k + 1)
    ensures Top(v) == k
  {
    TopSpec(v, k);
    TopSpec(v, k + 1);
  }

  lemma TopBounds(v: nat)
    requires v > 0
    ensures Top(v) >= 0 && Pow2(Top(v)) <= v < Pow2(Top(v) + 1)
  {
    TopNonNeg(v);
    TopSpec(v, Top(v));
    TopSpec(v, Top(v) + 1);
  }

  /** v >> i: the bits of v from position i up. */
  function Shr(v: nat, i: nat): nat {
    if i == 0 then v else Shr(v, i - 1) / 2
  }

  lemma ShrHalf(v: nat, i: nat)
    ensures Shr(v, i + 1) == Shr(v, i) / 2
  {
  }

  lemma ShrStep(v: nat, i: nat)
    ensures Shr(v, i) == 2 * Shr(v, i + 1) + Shr(v, i) % 2
  {
  }

  lemma {:induction false} ShrSmall(v: nat, i: nat, k: nat)
    requires v < Pow2(i + k)
    ensures Shr(v, i) < Pow2(k)
  {
    if i > 0 {
      ShrSmall(v, i - 1, k + 1);
    }
  }

  lemma ShrZero(v: nat)
    ensures Shr(v, 0) == v
  {
  }

  lemma {:induction false} ShrOfSum(x: nat, y: nat, n: nat, k: nat)
    requires k <= n
    ensures Shr(x + Pow2(n) * y, k) == Shr(x, k) + Pow2(n - k) * y
  {
    hide Shr, Pow2;
    if k == 0 {
      ShrZero(x + Pow2(n) * y);
      ShrZero(x);
    } else {
      ShrOfSum(x, y, n, k - 1);
      Pow2Even(n - k + 1);
      MulRegroup(2, Pow2(n - k), y);
      ShrHalf(x + Pow2(n) * y, k - 1);
      ShrHalf(x, k - 1);
    }
  }

  lemma {:induction false} ShrTwice(v: nat, j: nat, k: nat)
    ensures Shr(v, j + k) == Shr(Shr(v, j), k)
  {
    if k > 0 { ShrTwice(v, j, k - 1); }
  }
}

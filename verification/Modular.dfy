/** Congruences over the integers: what `% m` in the sources amounts to for a positive modulus. */
module Modular {

  ghost predicate Cong(a: int, b: int, m: int)
    requires m > 0
  {
    a % m == b % m
  }

  /** Quotient and remainder are the only pair with a remainder below the modulus. */
  lemma DivModUnique(a: int, m: int, q: int, r: int)
    requires m > 0 && 0 <= r < m && a == q * m + r
    ensures a / m == q && a % m == r
  {
    var d := q - a / m;
    assert a == (a / m) * m + a % m;
    assert d * m == a % m - r by {
      assert d * m == q * m - (a / m) * m;
    }
    if d >= 1 {
      MulMono(1, d, m);
      assert false;
    } else if d <= -1 {
      MulMono(d, -1, m);
      assert false;
    }
  }

  lemma MulMono(a: int, b: int, m: int)
    requires a <= b && m >= 0
    ensures a * m <= b * m
  {
    assert (b - a) * m >= 0;
  }

  lemma MulRegroup(a: int, b: int, c: int)
    ensures (a * b) * c == a * (b * c)
  {
  }

  lemma CongIntro(a: int, b: int, m: int, k: int)
    requires m > 0 && a == b + k * m
    ensures Cong(a, b, m)
  {
    var q := b / m;
    assert b == q * m + b % m;
    assert a == (q + k) * m + b % m;
    DivModUnique(a, m, q + k, b % m);
  }

  lemma CongElim(a: int, b: int, m: int) returns (k: int)
    requires m > 0 && Cong(a, b, m)
    ensures a == b + k * m
  {
    k := a / m - b / m;
    assert a == (a / m) * m + a % m;
    assert b == (b / m) * m + b % m;
    assert k * m == (a / m) * m - (b / m) * m;
  }

  lemma CongMod(a: int, m: int)
    requires m > 0
    ensures Cong(a % m, a, m)
  {
    assert a % m == a + (-(a / m)) * m by {
      assert a == (a / m) * m + a % m;
      assert (-(a / m)) * m == -((a / m) * m);
    }
    CongIntro(a % m, a, m, -(a / m));
  }

  lemma CongAdd(a: int, b: int, c: int, d: int, m: int)
    requires m > 0 && Cong(a, b, m) && Cong(c, d, m)
    ensures Cong(a + c, b + d, m)
  {
    var k := CongElim(a, b, m);
    var l := CongElim(c, d, m);
    assert (k + l) * m == k * m + l * m;
    CongIntro(a + c, b + d, m, k + l);
  }

  lemma CongSub(a: int, b: int, c: int, d: int, m: int)
    requires m > 0 && Cong(a, b, m) && Cong(c, d, m)
    ensures Cong(a - c, b - d, m)
  {
    var k := CongElim(a, b, m);
    var l := CongElim(c, d, m);
    assert (k - l) * m == k * m - l * m;
    CongIntro(a - c, b - d, m, k - l);
  }

  lemma CongMul(a: int, b: int, c: int, d: int, m: int)
    requires m > 0 && Cong(a, b, m) && Cong(c, d, m)
    ensures Cong(a * c, b * d, m)
  {
    var k := CongElim(a, b, m);
    var l := CongElim(c, d, m);
    var z := b * l + k * d + k * l * m;
    calc {
      a * c;
      (b + k * m) * (d + l * m);
      b * d + b * (l * m) + (k * m) * d + (k * m) * (l * m);
      { assert b * (l * m) == (b * l) * m; assert (k * m) * d == (k * d) * m;
        assert (k * m) * (l * m) == (k * l * m) * m; }
      b * d + (b * l) * m + (k * d) * m + (k * l * m) * m;
      b * d + z * m;
    }
    CongIntro(a * c, b * d, m, z);
  }

  lemma CongZero(a: int, m: int, k: int)
    requires m > 0 && a == k * m
    ensures Cong(a, 0, m)
  {
    CongIntro(a, 0, m, k);
  }

  lemma StrictProduct(u: nat, v: nat, a: nat, b: nat)
    requires u < a && v < b
    ensures u * v < a * b
  {
    MulMono(u, a, v);
    assert b * a == a * b && v * a == a * v;
    MulMono(v + 1, b, a);
    assert (v + 1) * a == v * a + a;
  }

  lemma ModSmall(a: int, m: int)
    requires 0 <= a < m
    ensures a % m == a && a / m == 0
  {
    DivModUnique(a, m, 0, a);
  }
}

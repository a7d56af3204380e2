/** Chebyshev polynomials of the first kind over the integers, with the identities that the key
    agreement rests on. The sources evaluate them modulo p; because every identity here holds
    over the integers, it holds after `% p` for every modulus. */
module Chebyshev {
  import opened Modular

  /** The plain three-term recurrence. */
  function T(n: nat, x: int): int {
    if n == 0 then 1
    else if n == 1 then x
    else 2 * x * T(n - 1, x) - T(n - 2, x)
  }

  /** Second kind, shifted: (x + sqrt(D))^n == T(n, x) + U(n, x) * sqrt(D) for D == x * x - 1. */
  ghost function U(n: nat, x: int): int {
    if n == 0 then 0 else T(n - 1, x) + x * U(n - 1, x)
  }

  ghost function D(x: int): int { x * x - 1 }

  lemma {:induction false} Step(n: nat, x: int)
    ensures T(n + 1, x) == x * T(n, x) + D(x) * U(n, x)
  {
    if n == 0 {
    } else if n == 1 {
      assert T(2, x) == 2 * x * T(1, x) - T(0, x);
      assert U(1, x) == T(0, x) + x * U(0, x);
    } else {
      Step(n - 1, x);
      var a, b := T(n - 1, x), U(n - 1, x);
      assert T(n, x) == x * a + (x * x - 1) * b;
      assert U(n, x) == a + x * b;
      assert T(n + 1, x) == 2 * x * T(n, x) - a;
      StepAlgebra(x, a, b);
    }
  }

  lemma StepAlgebra(x: int, a: int, b: int)
    ensures 2 * x * (x * a + (x * x - 1) * b) - a == x * (x * a + (x * x - 1) * b) + (x * x - 1) * (a + x * b)
  {
    var d := x * x - 1;
    calc {
      x * (x * a + d * b) - a;
      { assert x * (x * a + d * b) == x * x * a + d * (x * b) by {
          assert x * (x * a) == x * x * a;
          assert x * (d * b) == d * (x * b);
        } }
      x * x * a - a + d * (x * b);
      { assert x * x * a - a == d * a; }
      d * a + d * (x * b);
      d * (a + x * b);
    }
    assert 2 * x * (x * a + d * b) == x * (x * a + d * b) + x * (x * a + d * b);
  }

  lemma StepU(n: nat, x: int)
    ensures U(n + 1, x) == T(n, x) + x * U(n, x)
  {
  }

  /** Addition formulas: multiplying powers of x + sqrt(D). */
  lemma {:induction false} Addition(m: nat, n: nat, x: int)
    ensures T(m + n, x) == T(m, x) * T(n, x) + D(x) * (U(m, x) * U(n, x))
    ensures U(m + n, x) == T(m, x) * U(n, x) + U(m, x) * T(n, x)
  {
    if m > 0 {
      hide T, U;
      Addition(m - 1, n, x);
      Step(m - 1 + n, x);
      StepU(m - 1 + n, x);
      Step(m - 1, x);
      StepU(m - 1, x);
      AdditionAlgebra(x, D(x), T(m - 1, x), U(m - 1, x), T(n, x), U(n, x));
      assert m - 1 + n + 1 == m + n;
    }
  }

  lemma AdditionAlgebra(x: int, d: int, a: int, b: int, t: int, u: int)
    ensures x * (a * t + d * (b * u)) + d * (a * u + b * t) == (x * a + d * b) * t + d * ((a + x * b) * u)
    ensures (a * t + d * (b * u)) + x * (a * u + b * t) == (x * a + d * b) * u + (a + x * b) * t
  {
    assert x * (a * t + d * (b * u)) == x * a * t + d * (x * b * u) by {
      assert x * (a * t) == x * a * t;
      assert x * (d * (b * u)) == d * (x * b * u);
    }
    assert d * (a * u + b * t) == d * (a * u) + d * b * t;
    assert d * ((a + x * b) * u) == d * (a * u) + d * (x * b * u);
    assert x * (a * u + b * t) == x * a * u + x * b * t by {
      assert x * (a * u) == x * a * u;
      assert x * (b * t) == x * b * t;
    }
    assert d * (b * u) == d * b * u;
  }

  /** The norm of (x + sqrt(D))^n is 1. */
  lemma {:induction false} Norm(n: nat, x: int)
    ensures T(n, x) * T(n, x) - D(x) * (U(n, x) * U(n, x)) == 1
  {
    if n > 0 {
      hide T, U;
      Norm(n - 1, x);
      Step(n - 1, x);
      StepU(n - 1, x);
      NormAlgebra(x, D(x), T(n - 1, x), U(n - 1, x));
    }
  }

  lemma NormAlgebra(x: int, d: int, a: int, b: int)
    requires d == x * x - 1
    ensures (x * a + d * b) * (x * a + d * b) - d * ((a + x * b) * (a + x * b)) == a * a - d * (b * b)
  {
    var aa, ab, bb, xx := a * a, a * b, b * b, x * x;
    Square(x * a, d * b);
    Square(a, x * b);
    Pairs(x, a, x, a);
    Pairs(x, a, d, b);
    Pairs(d, b, d, b);
    Pairs(x, b, x, b);
    assert a * (x * b) == x * ab;
    NormCollect(x, d, xx, aa, ab, bb);
  }

  lemma Pairs(a: int, b: int, c: int, d: int)
    ensures (a * b) * (c * d) == (a * c) * (b * d)
  {
    var z := c * d;
    MulRegroup(a, b, z);
    assert b * z == c * (b * d);
    MulRegroup(a, c, b * d);
  }

  lemma NormCollect(x: int, d: int, xx: int, aa: int, ab: int, bb: int)
    requires d == xx - 1
    ensures xx * aa + 2 * (x * d * ab) + d * d * bb - d * (aa + 2 * (x * ab) + xx * bb) == aa - d * bb
  {
    assert d * (aa + 2 * (x * ab) + xx * bb) == d * aa + 2 * (x * d * ab) + d * (xx * bb);
    assert d * aa == xx * aa - aa;
    assert d * (xx * bb) == d * (d * bb) + d * bb;
    assert d * (d * bb) == d * d * bb;
  }

  lemma Square(s: int, t: int)
    ensures (s + t) * (s + t) == s * s + 2 * (s * t) + t * t
  {
  }

  /** T_a(T_b(x)) == T_{ab}(x): the semigroup law behind the shared secrets. */
  lemma {:induction false} Composition(a: nat, b: nat, x: int)
    ensures T(a, T(b, x)) == T(a * b, x)
    ensures U(b, x) * U(a, T(b, x)) == U(a * b, x)
  {
    var y := T(b, x);
    if a == 0 {
      assert a * b == 0;
    } else {
      hide T, U;
      Composition(a - 1, b, x);
      Step(a - 1, y);
      StepU(a - 1, y);
      Norm(b, x);
      var n := (a - 1) * b;
      assert a * b == b + n;
      Addition(b, n, x);
      CompositionAlgebra(D(x), U(b, x), y, T(a - 1, y), U(a - 1, y));
    }
  }

  lemma CompositionAlgebra(d: int, ub: int, y: int, t: int, u: int)
    requires y * y - 1 == d * (ub * ub)
    ensures (y * y - 1) * u == d * (ub * (ub * u))
    ensures ub * (t + y * u) == y * (ub * u) + ub * t
  {
    assert (d * (ub * ub)) * u == d * (ub * (ub * u));
    assert ub * (y * u) == y * (ub * u);
  }

  /** T_a^2 + T_b^2 + T_{a+b}^2 == 2 T_a T_b T_{a+b} + 1: the nonce check of both ends. */
  lemma ThreeTerm(a: nat, b: nat, x: int)
    ensures T(a, x) * T(a, x) + T(b, x) * T(b, x) + T(a + b, x) * T(a + b, x)
         == 2 * T(a, x) * T(b, x) * T(a + b, x) + 1
  {
    Addition(a, b, x);
    Norm(a, x);
    Norm(b, x);
    ThreeTermAlgebra(D(x), T(a, x), T(b, x), T(a + b, x), U(a, x), U(b, x));
  }

  lemma ThreeTermAlgebra(d: int, ta: int, tb: int, tc: int, ua: int, ub: int)
    requires tc == ta * tb + d * (ua * ub)
    requires ta * ta - d * (ua * ua) == 1 && tb * tb - d * (ub * ub) == 1
    ensures ta * ta + tb * tb + tc * tc == 2 * ta * tb * tc + 1
  {
    var p, q, s, t := ta * tb, d * (ua * ub), ta * ta, tb * tb;
    FourFactors(d, ua, ub);
    FourFactors(1, ta, tb);
    CompleteSquare(p, q, s, t);
    assert 2 * ta * tb * tc == 2 * (p * tc);
  }

  lemma CompleteSquare(p: int, q: int, s: int, t: int)
    requires q * q == (s - 1) * (t - 1) && p * p == s * t
    ensures s + t + (p + q) * (p + q) == 2 * (p * (p + q)) + 1
  {
    Square(p, q);
    assert p * (p + q) == p * p + p * q;
    assert (s - 1) * (t - 1) == s * t - s - t + 1;
  }

  lemma FourFactors(d: int, a: int, b: int)
    ensures (d * (a * b)) * (d * (a * b)) == (d * (a * a)) * (d * (b * b))
  {
    assert (a * b) * (a * b) == (a * a) * (b * b);
    var z, w, v := a * b, a * a, b * b;
    assert (d * z) * (d * z) == d * d * (z * z);
    assert (d * w) * (d * v) == d * d * (w * v);
  }

  /** Reducing the argument first does not change the reduced value. */
  lemma {:induction false} Reduce(n: nat, x: int, y: int, m: int)
    requires m > 0 && Cong(x, y, m)
    ensures Cong(T(n, x), T(n, y), m)
  {
    if n >= 2 {
      Reduce(n - 1, x, y, m);
      Reduce(n - 2, x, y, m);
      CongMul(2, 2, x, y, m);
      CongMul(2 * x, 2 * y, T(n - 1, x), T(n - 1, y), m);
      CongSub(2 * x * T(n - 1, x), 2 * y * T(n - 1, y), T(n - 2, x), T(n - 2, y), m);
    }
  }

  /** Commutation of two public values: what each side of an exchange computes. */
  lemma Commutes(a: nat, b: nat, x: int, m: int)
    requires m > 0
    ensures T(a, T(b, x) % m) % m == T(a * b, x) % m
    ensures T(a, T(b, x) % m) % m == T(b, T(a, x) % m) % m
  {
    CongMod(T(b, x), m);
    CongMod(T(a, x), m);
    Reduce(a, T(b, x) % m, T(b, x), m);
    Reduce(b, T(a, x) % m, T(a, x), m);
    Composition(a, b, x);
    Composition(b, a, x);
    assert a * b == b * a;
  }
}

/** 2x2 integer matrices, their powers, and the square-and-multiply evaluation of Chebyshev
    polynomials that the Python server, client and comparison script share. */
module Matrix {
  import opened Modular
  import opened Chebyshev

  /** [[a, b], [c, d]] */
  datatype Mat = Mat(a: int, b: int, c: int, d: int)

  const IDENTITY := Mat(1, 0, 0, 1)

  function Mul(m: Mat, n: Mat): Mat {
    Mat(m.a * n.a + m.b * n.c, m.a * n.b + m.b * n.d, m.c * n.a + m.d * n.c, m.c * n.b + m.d * n.d)
  }

  function Reduced(m: Mat, p: int): Mat
    requires p > 0
  {
    Mat(m.a % p, m.b % p, m.c % p, m.d % p)
  }

  /** The k-fold product over the integers: the reference the fast loops are measured against. */
  ghost function Power(m: Mat, k: nat): Mat {
    if k == 0 then IDENTITY else Mul(m, Power(m, k - 1))
  }

  lemma MulAssoc(x: Mat, y: Mat, z: Mat)
    ensures Mul(Mul(x, y), z) == Mul(x, Mul(y, z))
  {
    EntryAssoc(x.a, x.b, y, z.a, z.c);
    EntryAssoc(x.a, x.b, y, z.b, z.d);
    EntryAssoc(x.c, x.d, y, z.a, z.c);
    EntryAssoc(x.c, x.d, y, z.b, z.d);
  }

  lemma EntryAssoc(r: int, s: int, y: Mat, u: int, v: int)
    ensures (r * y.a + s * y.c) * u + (r * y.b + s * y.d) * v == r * (y.a * u + y.b * v) + s * (y.c * u + y.d * v)
  {
    assert r * y.a * u == r * (y.a * u);
    assert s * y.c * u == s * (y.c * u);
    assert r * y.b * v == r * (y.b * v);
    assert s * y.d * v == s * (y.d * v);
  }

  lemma {:induction false} PowerAdd(m: Mat, i: nat, j: nat)
    ensures Mul(Power(m, i), Power(m, j)) == Power(m, i + j)
  {
    if i > 0 {
      PowerAdd(m, i - 1, j);
      MulAssoc(m, Power(m, i - 1), Power(m, j));
    }
  }

  /** Reducing the operands first does not change the reduced product. */
  lemma MulReduced(x: Mat, y: Mat, p: int)
    requires p > 0
    ensures Reduced(Mul(Reduced(x, p), Reduced(y, p)), p) == Reduced(Mul(x, y), p)
  {
    RowReduced(x.a, x.b, y.a, y.c, p);
    RowReduced(x.a, x.b, y.b, y.d, p);
    RowReduced(x.c, x.d, y.a, y.c, p);
    RowReduced(x.c, x.d, y.b, y.d, p);
  }

  lemma RowReduced(r: int, s: int, u: int, v: int, p: int)
    requires p > 0
    ensures ((r % p) * (u % p) + (s % p) * (v % p)) % p == (r * u + s * v) % p
  {
    CongMod(r, p);
    CongMod(s, p);
    CongMod(u, p);
    CongMod(v, p);
    CongMul(r % p, r, u % p, u, p);
    CongMul(s % p, s, v % p, v, p);
    CongAdd((r % p) * (u % p), r * u, (s % p) * (v % p), s * v, p);
  }

  /** The recurrence G_n == t * G_{n-1} - G_{n-2} started at 1, x: T is the case t == 2x. */
  ghost function G(n: nat, x: int, t: int): int {
    if n == 0 then 1
    else if n == 1 then x
    else t * G(n - 1, x, t) - G(n - 2, x, t)
  }

  lemma {:induction false} GIsT(n: nat, x: int)
    ensures G(n, x, 2 * x) == T(n, x)
  {
    if n >= 2 {
      GIsT(n - 1, x);
      GIsT(n - 2, x);
    }
  }

  function Transfer(t: int): Mat { Mat(t, -1, 1, 0) }

  /** Applying the k-th power of the transfer matrix to (x, 1) steps the recurrence k times. */
  lemma {:induction false} TransferPower(k: nat, x: int, t: int)
    ensures var m := Power(Transfer(t), k);
            m.a * x + m.b == G(k + 1, x, t) && m.c * x + m.d == G(k, x, t)
  {
    if k > 0 {
      TransferPower(k - 1, x, t);
      var n := Power(Transfer(t), k - 1);
      assert Power(Transfer(t), k) == Mat(t * n.a - n.c, t * n.b - n.d, n.a, n.b);
      TransferAlgebra(t, n.a, n.b, n.c, n.d, x);
    }
  }

  lemma TransferAlgebra(t: int, a: int, b: int, c: int, d: int, x: int)
    ensures (t * a - c) * x + (t * b - d) == t * (a * x + b) - (c * x + d)
  {
    assert t * a * x == t * (a * x);
  }

  /** Square and multiply. The loop is entered for power >= 1 by chebyshev_matrix; for power == 0
      the identity is returned unreduced. */
  method MatrixPower(m: Mat, power: nat, p: nat) returns (result: Mat)
    requires p > 0
    ensures result == if power == 0 then IDENTITY else Reduced(Power(m, power), p)
  {
    result := IDENTITY;
    var base := Reduced(m, p);
    var e := power;
    ghost var i, j := 1, 0;
    assert Mul(m, IDENTITY) == m;
    while e > 0
      invariant j + i * e == power && j >= 0 && i >= 1
      invariant base == Reduced(Power(m, i), p)
      invariant if j == 0 then result == IDENTITY else result == Reduced(Power(m, j), p)
    {
      if e % 2 == 1 {
        if j == 0 {
          assert Mul(IDENTITY, base) == base;
          ReducedTwice(Power(m, i), p);
        } else {
          MulReduced(Power(m, j), Power(m, i), p);
          PowerAdd(m, j, i);
        }
        result := Reduced(Mul(result, base), p);
        j := j + i;
      }
      MulReduced(Power(m, i), Power(m, i), p);
      PowerAdd(m, i, i);
      base := Reduced(Mul(base, base), p);
      Halve(i, e);
      i, e := i + i, e / 2;
    }
  }

  lemma Halve(i: int, e: nat)
    ensures i * e == (i + i) * (e / 2) + (if e % 2 == 1 then i else 0)
  {
    var h := e / 2;
    assert e == 2 * h + e % 2;
    assert i * (2 * h) == (i + i) * h;
  }

  lemma ReducedTwice(m: Mat, p: int)
    requires p > 0
    ensures Reduced(Reduced(m, p), p) == Reduced(m, p)
  {
    CongMod(m.a, p);
    CongMod(m.b, p);
    CongMod(m.c, p);
    CongMod(m.d, p);
  }

  /** The value every party computes: T_n(x) modulo p. */
  method ChebyshevMatrix(n: nat, x: int, p: nat) returns (r: nat)
    requires p > 0
    ensures r == T(n, x) % p
  {
    if n == 0 {
      r := 1 % p;
    } else if n == 1 {
      r := x % p;
    } else {
      var m := MatrixPower(Transfer(2 * x), n - 1, p);
      r := (m.a * x + m.b * 1) % p;
      ghost var z := Power(Transfer(2 * x), n - 1);
      CongMod(z.a, p);
      CongMod(z.b, p);
      CongMul(z.a % p, z.a, x, x, p);
      CongAdd((z.a % p) * x, z.a * x, z.b % p, z.b, p);
      TransferPower(n - 1, x, 2 * x);
      GIsT(n, x);
    }
  }

  /** The recurrence loop kept beside the matrix form; the two always agree. */
  method ChebyshevPolynomial(n: nat, x: int, p: nat) returns (r: nat)
    requires p > 0
    ensures r == T(n, x) % p
  {
    if n == 0 {
      return 1 % p;
    } else if n == 1 {
      return x % p;
    }
    var prev2, prev1 := 1 % p, x % p;
    r := prev1;
    for i := 2 to n + 1
      invariant prev2 == T(i - 2, x) % p && prev1 == T(i - 1, x) % p && r == prev1
    {
      r := (2 * (x % p) * prev1 - prev2) % p;
      CongMod(x, p);
      CongMod(T(i - 1, x), p);
      CongMod(T(i - 2, x), p);
      CongMul(2, 2, x % p, x, p);
      CongMul(2 * (x % p), 2 * x, prev1, T(i - 1, x), p);
      CongSub(2 * (x % p) * prev1, 2 * x * T(i - 1, x), prev2, T(i - 2, x), p);
      prev2 := prev1;
      prev1 := r;
    }
  }
}

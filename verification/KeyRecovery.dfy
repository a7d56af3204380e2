/** Why the centre can read what a device sends: T_e undoes T_d modulo N == p * q
    when e * d == 1 modulo (p^2 - 1)(q^2 - 1). */
module KeyRecovery {
  import opened Modular
  import opened Chebyshev
  import opened NumberTheory

  /** T and U are the coordinates of the powers of v + sqrt(v^2 - 1). */
  lemma {:induction false} PowerCoordinates(n: nat, v: int)
    ensures QPow(D(v), Quad(v, 1), n) == Quad(T(n, v), U(n, v))
  {
    if n > 0 {
      PowerCoordinates(n - 1, v);
      Step(n - 1, v);
    }
  }

  /** Modulo an odd prime p == 2k + 1, T_p fixes every v and U_p is the Legendre power of D. */
  lemma PrimeIndex(p: nat, k: nat, v: int)
    requires Prime(p) && p == 2 * k + 1
    ensures Cong(T(p, v), v, p)
    ensures Cong(U(p, v), Pow(D(v), k), p)
  {
    var d := D(v);
    PowerCoordinates(p, v);
    Frobenius(d, Quad(v, 0), Quad(0, 1), p);
    assert QAdd(Quad(v, 0), Quad(0, 1)) == Quad(v, 1);
    QPowScalar(d, v, p);
    QPowRoot(d, k);
    Fermat(v, p);
  }

  /** Modulo an odd prime p: T at p^2 - 1 is 1, and U at p^2 - 1 is annihilated by D. */
  lemma OrderIndex(p: nat, k: nat, v: int)
    requires Prime(p) && p == 2 * k + 1
    ensures p * p >= 1
    ensures Cong(T(p * p - 1, v), 1, p)
    ensures Cong(D(v) * U(p * p - 1, v), 0, p)
  {
    SquareIndex(p, k, v);
    var m, d := p * p - 1, D(v);
    Step(m, v);
    Back(v, d, T(m, v), U(m, v), T(p * p, v), U(p * p, v));
    CongMul(v, v, T(p * p, v), v, p);
    CongSub(v * T(p * p, v), v * v, d * U(p * p, v), d, p);
    CongMul(v, v, T(m, v), 1, p);
    CongSub(T(p * p, v), v, v * T(m, v), v, p);
  }

  lemma Back(v: int, d: int, t: int, u: int, t': int, u': int)
    requires d == v * v - 1 && t' == v * t + d * u && u' == t + v * u
    ensures t == v * t' - d * u' && d * u == t' - v * t
  {
    assert v * t' == v * v * t + d * (v * u) by {
      assert v * (v * t) == v * v * t;
      assert v * (d * u) == d * (v * u);
    }
    assert d * u' == d * t + d * (v * u);
    assert d * t == v * v * t - t;
  }

  lemma SquareIndex(p: nat, k: nat, v: int)
    requires Prime(p) && p == 2 * k + 1
    ensures Cong(T(p * p, v), v, p)
    ensures Cong(D(v) * U(p * p, v), D(v), p)
  {
    var y, d := T(p, v), D(v);
    var eps := Pow(d, k);
    PrimeIndex(p, k, v);
    PrimeIndex(p, k, y);
    Composition(p, p, v);
    CongMul(y, v, y, v, p);
    CongSub(y * y, v * v, 1, 1, p);
    PowCong(D(y), d, k, p);
    CongMul(U(p, v), eps, U(p, y), eps, p);
    CongMul(d, d, U(p * p, v), eps * eps, p);
    Fermat(d, p);
    PowAdd(d, k, k);
    assert Pow(d, p) == d * Pow(d, 2 * k);
  }

  /** Every index that is 1 modulo p^2 - 1 fixes v modulo p. */
  lemma {:induction false} OrderMultiple(m: nat, k: nat, v: int, p: nat)
    requires p > 0 && Cong(T(m, v), 1, p) && Cong(D(v) * U(m, v), 0, p)
    ensures Cong(T(k * m, v), 1, p)
    ensures Cong(D(v) * U(k * m, v), 0, p)
  {
    if k == 0 {
      assert k * m == 0;
    } else {
      OrderMultiple(m, k - 1, v, p);
      var n := (k - 1) * m;
      assert k * m == m + n;
      Addition(m, n, v);
      UnitStep(D(v), T(m, v), U(m, v), T(n, v), U(n, v), p);
    }
  }

  /** Elements t + u * sqrt(d) with t == 1 and d * u == 0 modulo p are closed under multiplication. */
  lemma UnitStep(d: int, a: int, b: int, t: int, u: int, p: nat)
    requires p > 0 && Cong(a, 1, p) && Cong(d * b, 0, p) && Cong(t, 1, p) && Cong(d * u, 0, p)
    ensures Cong(a * t + d * (b * u), 1, p)
    ensures Cong(d * (a * u + b * t), 0, p)
  {
    CongMul(a, 1, t, 1, p);
    CongMul(d * b, 0, u, u, p);
    assert (d * b) * u == d * (b * u);
    CongAdd(a * t, 1, d * (b * u), 0, p);
    CongMul(a, 1, d * u, 0, p);
    CongMul(d * b, 0, t, 1, p);
    CongAdd(a * (d * u), 0, (d * b) * t, 0, p);
    Distribute(d, a, b, t, u);
  }

  lemma Distribute(d: int, a: int, b: int, t: int, u: int)
    ensures d * (a * u + b * t) == a * (d * u) + (d * b) * t
  {
    assert d * (a * u) == a * (d * u);
    assert d * (b * t) == (d * b) * t;
  }

  /** One step past an index that acts as 1 gives the value back. */
  lemma OneMore(m: nat, v: int, p: nat)
    requires p > 0 && Cong(T(m, v), 1, p) && Cong(D(v) * U(m, v), 0, p)
    ensures Cong(T(1 + m, v), v, p)
  {
    Step(m, v);
    CongMul(v, v, T(m, v), 1, p);
    CongAdd(v * T(m, v), v, D(v) * U(m, v), 0, p);
  }

  lemma FixedIndex(p: nat, j: nat, v: int)
    requires Prime(p) && p % 2 == 1
    ensures p * p >= 1 && j * (p * p - 1) >= 0
    ensures Cong(T(1 + j * (p * p - 1), v), v, p)
  {
    OrderIndex(p, p / 2, v);
    var m: nat := p * p - 1;
    OrderMultiple(m, j, v, p);
    assert j * m >= 0;
    OneMore(j * m, v, p);
  }

  /** The order the centre keeps secret. */
  function Order(p: nat, q: nat): int { (p * p - 1) * (q * q - 1) }

  /** T_e(T_d(v)) == v modulo N, for every v. */
  lemma Recovery(p: nat, q: nat, e: nat, d: nat, v: int)
    requires Prime(p) && Prime(q) && p != q && p % 2 == 1 && q % 2 == 1
    requires Order(p, q) > 1 && (e * d) % Order(p, q) == 1
    ensures p * q > 0
    ensures T(e, T(d, v) % (p * q)) % (p * q) == v % (p * q)
  {
    var k := IndexQuotient(e * d, Order(p, q));
    var a: nat, b: nat := p * p - 1, q * q - 1;
    Swap(k, a, b);
    assert k * a >= 0 && k * b >= 0;
    FixedIndex(p, k * b, v);
    FixedIndex(q, k * a, v);
    CongProduct(T(e * d, v), v, p, q);
    Commutes(e, d, v, p * q);
  }

  /** An index that is 1 modulo the order is 1 more than a multiple of it. */
  lemma IndexQuotient(n: nat, order: int) returns (k: nat)
    requires order > 1 && n % order == 1
    ensures n == 1 + k * order
  {
    k := n / order;
    assert n == k * order + 1;
  }

  lemma Swap(k: int, a: int, b: int)
    ensures k * (a * b) == (k * b) * a && k * (a * b) == (k * a) * b
  {
  }

  lemma OrderLarge(p: nat, q: nat)
    requires p >= 3 && q >= 3
    ensures Order(p, q) >= 64
  {
    var a, b := p * p - 1, q * q - 1;
    assert p * p >= 9 by { MulMono(3, p, p); }
    assert q * q >= 9 by { MulMono(3, q, q); }
    MulMono(8, a, b);
  }

  // ----- equal primes, which the centre does not exclude -----

  /** T_{2j} and T_{2j+1} at p itself, modulo p^2, for s == (-1)^j. */
  lemma {:induction false} AtPrime(p: nat, j: nat, s: int)
    requires p > 0 && s == if j % 2 == 0 then 1 else -1
    ensures p * p > 0
    ensures Cong(T(2 * j, p), s, p * p) && Cong(T(2 * j + 1, p), s * (2 * j + 1) * p, p * p)
  {
    assert p * p > 0;
    if j > 0 {
      AtPrime(p, j - 1, -s);
      NextPair(p, j - 1, -s, T(2 * j - 2, p), T(2 * j - 1, p));
      assert T(2 * j, p) == 2 * p * T(2 * j - 1, p) - T(2 * j - 2, p);
      assert T(2 * j + 1, p) == 2 * p * T(2 * j, p) - T(2 * j - 1, p);
    }
  }

  lemma NextPair(p: nat, j: nat, s: int, t0: int, t1: int)
    requires p > 0 && p * p > 0 && Cong(t0, s, p * p) && Cong(t1, s * (2 * j + 1) * p, p * p)
    ensures var t2 := 2 * p * t1 - t0;
            Cong(t2, -s, p * p) && Cong(2 * p * t2 - t1, -s * (2 * j + 3) * p, p * p)
  {
    hide Cong;
    var m, c := p * p, s * (2 * j + 1);
    var t2 := 2 * p * t1 - t0;
    CongMul(2 * p, 2 * p, t1, c * p, m);
    CongSub(2 * p * t1, 2 * p * (c * p), t0, s, m);
    PairTerms(p, j, s, c);
    CongIntro(2 * p * (c * p) - s, -s, m, 2 * c);
    SameClass(t2, 2 * p * (c * p) - s, -s, m);
    CongMul(2 * p, 2 * p, t2, -s, m);
    CongSub(2 * p * t2, 2 * p * -s, t1, c * p, m);
  }

  lemma PairTerms(p: int, j: int, s: int, c: int)
    requires c == s * (2 * j + 1)
    ensures 2 * p * (c * p) == (2 * c) * (p * p)
    ensures 2 * p * -s - c * p == -s * (2 * j + 3) * p
  {
    assert p * (c * p) == c * (p * p);
    MulRegroup(2, p, c * p);
    MulRegroup(2, c, p * p);
    assert c == 2 * (s * j) + s;
    assert -s * (2 * j + 3) == -2 * s - c;
    assert 2 * p * -s == (-2 * s) * p;
    assert (-2 * s) * p - c * p == (-2 * s - c) * p;
  }

  /** T_n near 1, modulo p^2. */
  lemma {:induction false} NearOne(p: nat, a: int, n: nat)
    requires p > 0
    ensures p * p > 0 && Cong(T(n, 1 + p * a), 1 + n * n * (p * a), p * p)
  {
    assert p * p > 0;
    if n >= 2 {
      var y, m := 1 + p * a, p * p;
      var c1, c2 := (n - 1) * (n - 1), (n - 2) * (n - 2);
      NearOne(p, a, n - 1);
      NearOne(p, a, n - 2);
      CongMul(2 * y, 2 * y, T(n - 1, y), 1 + c1 * (p * a), m);
      CongSub(2 * y * T(n - 1, y), 2 * y * (1 + c1 * (p * a)), T(n - 2, y), 1 + c2 * (p * a), m);
      NearOneAlgebra(p, a, n, c1, c2);
      CongIntro(2 * y * (1 + c1 * (p * a)) - (1 + c2 * (p * a)), 1 + n * n * (p * a), m, 2 * c1 * (a * a));
    }
  }

  lemma NearOneAlgebra(p: int, a: int, n: int, c1: int, c2: int)
    requires c1 == (n - 1) * (n - 1) && c2 == (n - 2) * (n - 2)
    ensures 2 * (1 + p * a) * (1 + c1 * (p * a)) - (1 + c2 * (p * a))
         == 1 + n * n * (p * a) + 2 * c1 * (a * a) * (p * p)
  {
    var z := p * a;
    assert c1 == n * n - 2 * n + 1 && c2 == n * n - 4 * n + 4;
    var w := c1 * z;
    assert 2 * (1 + z) * (1 + w) == 2 + 2 * z + 2 * w + 2 * (z * w);
    assert 2 * z + 2 * w - c2 * z == n * n * z by { assert (2 + 2 * c1 - c2) * z == 2 * z + 2 * w - c2 * z; }
    SquaredProduct(p, a, c1);
  }

  lemma SquaredProduct(p: int, a: int, c: int)
    ensures 2 * ((p * a) * (c * (p * a))) == 2 * c * (a * a) * (p * p)
  {
    var z, q, r := p * a, a * a, p * p;
    assert z * z == q * r by { assert (p * a) * (p * a) == (a * a) * (p * p); }
    assert z * (c * z) == c * (z * z);
    assert 2 * (c * (q * r)) == 2 * c * q * r;
  }

  /** U_n of a value that is 1 modulo p is n modulo p. */
  lemma {:induction false} SecondNearOne(p: nat, y: int, n: nat)
    requires p > 0 && Cong(y, 1, p)
    ensures Cong(U(n, y), n, p)
  {
    if n > 0 {
      SecondNearOne(p, y, n - 1);
      Reduce(n - 1, y, 1, p);
      AtOne(n - 1);
      CongMul(y, 1, U(n - 1, y), n - 1, p);
      CongAdd(T(n - 1, y), 1, y * U(n - 1, y), n - 1, p);
    }
  }

  lemma {:induction false} AtOne(n: nat)
    ensures T(n, 1) == 1
  {
    if n >= 2 { AtOne(n - 1); AtOne(n - 2); }
  }

  /** The index p(p^2 - 1) acts as 1 modulo p^2. */
  lemma SquareOrder(p: nat, v: int)
    requires Prime(p) && p % 2 == 1
    ensures p * p >= 1 && p * (p * p - 1) >= 0
    ensures Cong(T(p * (p * p - 1), v), 1, p * p)
    ensures Cong(D(v) * U(p * (p * p - 1), v), 0, p * p)
  {
    hide T, U, D, Cong;
    OrderIndex(p, p / 2, v);
    var m: nat := p * p - 1;
    var y := T(m, v);
    var a := CongElim(y, 1, p);
    Composition(p, m, v);
    assert y == 1 + p * a;
    NearOne(p, a, p);
    CongIntro(1 + p * p * (p * a), 1, p * p, p * a);
    SameClass(T(p, y), 1 + p * p * (p * a), 1, p * p);
    SecondNearOne(p, y, p);
    CongIntro(p, 0, p, 1);
    SameClass(U(p, y), p, 0, p);
    ZeroProduct(D(v) * U(m, v), U(p, y), p);
    assert D(v) * (U(m, v) * U(p, y)) == (D(v) * U(m, v)) * U(p, y);
    assert p * m >= 0;
  }

  lemma ZeroProduct(a: int, b: int, p: nat)
    requires p > 0 && Cong(a, 0, p) && Cong(b, 0, p)
    ensures p * p > 0 && Cong(a * b, 0, p * p)
  {
    var k := CongElim(a, 0, p);
    var l := CongElim(b, 0, p);
    assert (k * p) * (l * p) == (k * l) * (p * p);
    CongZero(a * b, p * p, k * l);
  }

  /** The value p itself tells whether an index that is 1 modulo the order fixes every value modulo p^2. */
  lemma AtPrimeExact(p: nat, n: nat)
    requires p > 0 && n % 4 == 1
    ensures p * p > 0
    ensures Cong(T(n, p), p, p * p) <==> Cong(n, 1, p)
  {
    hide T, Cong;
    var j := n / 2;
    AtPrime(p, j, 1);
    assert 2 * j + 1 == n && 1 * (2 * j + 1) * p == n * p;
    ScaledCong(p, n);
    SameClass(T(n, p), n * p, p, p * p);
  }

  lemma SameClass(a: int, b: int, c: int, m: int)
    requires m > 0 && Cong(a, b, m)
    ensures Cong(a, c, m) <==> Cong(b, c, m)
  {
  }

  /** n * p == p modulo p^2 exactly when n == 1 modulo p. */
  lemma ScaledCong(p: nat, n: nat)
    requires p > 0
    ensures p * p > 0 && (Cong(n * p, p, p * p) <==> Cong(n, 1, p))
  {
    hide Cong;
    assert p * p > 0;
    if Cong(n, 1, p) {
      var k := CongElim(n, 1, p);
      ScaledTerms(n, k, p);
      CongIntro(n * p, p, p * p, k);
    }
    if Cong(n * p, p, p * p) {
      var k := CongElim(n * p, p, p * p);
      ScaledTerms(n, k, p);
      ZeroFactor(n - 1 - k * p, p);
      CongIntro(n, 1, p, k);
    }
  }

  lemma ScaledTerms(n: int, k: int, p: int)
    ensures (n - 1 - k * p) * p == n * p - p - k * (p * p)
  {
    var kp := k * p;
    assert (n - 1 - kp) * p == n * p - p - kp * p;
    MulRegroup(k, p, p);
  }

  lemma ZeroFactor(a: int, p: nat)
    requires p > 0 && a * p == 0
    ensures a == 0
  {
    if a >= 1 { MulMono(1, a, p); assert false; }
    if a <= -1 { MulMono(a, -1, p); assert false; }
  }

  /** With equal primes, an index that is 1 modulo the order fixes every value modulo p^2 when it is 1
      modulo p as well. */
  lemma EqualPrimesRecover(p: nat, n: nat, v: int)
    requires Prime(p) && p % 2 == 1
    requires Order(p, p) > 1 && n % Order(p, p) == 1 && Cong(n, 1, p)
    ensures p * p > 0 && Cong(T(n, v), v, p * p)
  {
    var k := IndexQuotient(n, Order(p, p));
    var b: nat := p * p - 1;
    Swap(k, b, b);
    CongSub(n, 1, 1, 1, p);
    Euclid(k * b, b, p);
    if Cong(k * b, 0, p) { Euclid(k, b, p); }
    OrderUnit(p);
    var l := CongElim(k, 0, p);
    assert n == 1 + (l * b) * (p * b) by {
      assert (l * b) * (p * b) == ((l * p) * b) * b;
    }
    QuotientSign(k, l, p);
    assert l * b >= 0;
    SquareOrder(p, v);
    OrderMultiple(p * b, l * b, v, p * p);
    OneMore((l * b) * (p * b), v, p * p);
  }

  lemma QuotientSign(k: nat, l: int, p: nat)
    requires p > 0 && k == 0 + l * p
    ensures l >= 0
  {
    if l < 0 { MulMono(l, -1, p); }
  }

  /** p^2 - 1 is not a multiple of p. */
  lemma OrderUnit(p: nat)
    requires p >= 2
    ensures !Cong(p * p - 1, 0, p)
  {
    CongIntro(p * p - 1, -1, p, p);
    DivModUnique(-1, p, -1, p - 1);
    ModSmall(0, p);
  }

  /** The order of equal odd primes is a multiple of 4. */
  lemma OrderOfSquare(p: nat)
    requires p % 2 == 1
    ensures Order(p, p) % 4 == 0
  {
    var h := p / 2;
    var c := 2 * (h * h) + 2 * h;
    OddSquare(h);
    assert p * p - 1 == 2 * c;
    MulRegroup(2, c, 2 * c);
    assert (2 * c) * (2 * c) == 4 * (c * c);
    FourTimes(c * c);
  }

  lemma OddSquare(h: int)
    ensures (2 * h + 1) * (2 * h + 1) == 4 * (h * h) + 4 * h + 1
  {
  }

  lemma FourTimes(x: int)
    ensures (4 * x) % 4 == 0
  {
  }

  /** Exactly when the centre recovers every value: when its primes differ, which it does not check, or the
      pair happens to invert modulo p as well. */
  lemma RecoveryExact(p: nat, q: nat, e: nat, d: nat)
    requires Prime(p) && Prime(q) && p % 2 == 1 && q % 2 == 1
    requires Order(p, q) > 1 && (e * d) % Order(p, q) == 1
    ensures p * q > 0
    ensures (forall v: nat :: T(e, T(d, v) % (p * q)) % (p * q) == v % (p * q)) <==> p != q || (e * d) % p == 1
  {
    assert p * q > 0;
    ModSmall(1, p);
    if p != q || (e * d) % p == 1 {
      forall v: nat ensures T(e, T(d, v) % (p * q)) % (p * q) == v % (p * q) {
        if p != q {
          Recovery(p, q, e, d, v);
        } else {
          EqualPrimesRecover(p, e * d, v);
          Commutes(e, d, v, p * q);
        }
      }
    } else {
      EqualPrimesFail(p, e, d);
      var v: nat := p;
      assert T(e, T(d, v) % (p * q)) % (p * q) != v % (p * q);
    }
  }

  /** Otherwise the value p itself comes back as another one. */
  lemma EqualPrimesFail(p: nat, e: nat, d: nat)
    requires p >= 2 && p % 2 == 1 && Order(p, p) > 1 && (e * d) % Order(p, p) == 1 && (e * d) % p != 1
    ensures p * p > 0
    ensures T(e, T(d, p) % (p * p)) % (p * p) != p % (p * p)
  {
    hide T, Order;
    OrderOfSquare(p);
    OneModFour(e * d, Order(p, p));
    AtPrimeExact(p, e * d);
    ModSmall(1, p);
    Commutes(e, d, p, p * p);
  }

  lemma OneModFour(n: nat, order: int)
    requires order > 1 && order % 4 == 0 && n % order == 1
    ensures n % 4 == 1
  {
    var k := IndexQuotient(n, order);
    var c := order / 4;
    assert k * (4 * c) == 4 * (k * c);
  }

  /** An instance: p == q == 3, N == 9, e == 5 and d == 13, where 3 does not come back. */
  lemma EqualPrimesExample()
    ensures Prime(3) && (5 * 13) % Order(3, 3) == 1
    ensures T(5, T(13, 3) % 9) % 9 != 3
  {
    assert Prime(3) by { assert 3 % 2 != 0; }
    EqualPrimesFail(3, 5, 13);
  }
}

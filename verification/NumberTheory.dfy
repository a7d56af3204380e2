/** The number theory the registration centre relies on: the extended Euclidean algorithm and modular
    inverse it calls, and Fermat and Frobenius modulo a prime, in the integers extended by sqrt(d). */
module NumberTheory {
  import opened Common
  import opened Modular

  /** Bezout coefficients: (g, x, y) with g == x * a + y * b. */
  function ExtendedGcd(a: nat, b: nat): (r: (nat, int, int))
    ensures r.1 * a + r.2 * b == r.0
    ensures a > 0 || b > 0 ==> r.0 > 0 && a % r.0 == 0 && b % r.0 == 0
    decreases a
  {
    if a == 0 then
      (b, 0, 1)
    else
      var (g, x1, y1) := ExtendedGcd(b % a, a);
      GcdStep(a, b, g, x1, y1);
      (g, y1 - (b / a) * x1, x1)
  }

  lemma GcdStep(a: nat, b: nat, g: nat, x: int, y: int)
    requires a > 0 && g > 0 && x * (b % a) + y * a == g && (b % a) % g == 0 && a % g == 0
    ensures (y - (b / a) * x) * a + x * b == g
    ensures b % g == 0
  {
    var q, r := b / a, b % a;
    assert b == q * a + r;
    assert x * b == x * (q * a) + x * r;
    assert (y - q * x) * a == y * a - x * (q * a);
    CongMul(q, q, a, 0, g);
    CongAdd(q * a, q * 0, r, 0, g);
  }

  /** The inverse of a modulo m, or None. */
  function ModInverse(a: nat, m: nat): (r: Option<nat>)
    requires m > 0
    ensures r.Some? ==> r.value < m && (a * r.value) % m == 1 % m
    ensures r.None? ==> exists g: nat :: 1 < g <= m && a % g == 0 && m % g == 0
  {
    var (g, x, _) := ExtendedGcd(a, m);
    if g != 1 then
      DivisorBound(m, g);
      None
    else
      InverseFromBezout(a, m, x, ExtendedGcd(a, m).2);
      Some(x % m)
  }

  lemma DivisorBound(m: nat, g: nat)
    requires m > 0 && g > 0 && m % g == 0
    ensures g <= m
  {
    if g > m { ModSmall(m, g); }
  }

  lemma InverseFromBezout(a: nat, m: nat, x: int, y: int)
    requires m > 0 && x * a + y * m == 1
    ensures (a * (x % m)) % m == 1 % m
  {
    CongMod(x, m);
    CongMul(a, a, x % m, x, m);
    assert a * x == 1 + (-y) * m;
    CongIntro(a * x, 1, m, -y);
  }

  /** ModInverse finds an inverse exactly when one exists. */
  lemma InverseExists(a: nat, m: nat, d: nat)
    requires m > 1 && (a * d) % m == 1
    ensures ModInverse(a, m).Some?
  {
    var r := ModInverse(a, m);
    if r.None? {
      var g: nat :| 1 < g <= m && a % g == 0 && m % g == 0;
      ModSmall(1, m);
      var k := CongElim(a * d, 1, m);
      CongMul(a, 0, d, d, g);
      CongMul(k, k, m, 0, g);
      CongSub(a * d, 0 * d, k * m, k * 0, g);
      ModSmall(1, g);
      assert false;
    }
  }

  ghost predicate Prime(p: int) {
    p >= 2 && forall k {:trigger p % k} :: 1 < k < p ==> p % k != 0
  }

  /** Euclid: a prime dividing a product divides a factor. */
  lemma Euclid(a: int, b: int, p: int)
    requires Prime(p) && Cong(a * b, 0, p)
    ensures Cong(a, 0, p) || Cong(b, 0, p)
  {
    var r := a % p;
    var (g, x, y) := ExtendedGcd(r, p);
    DivisorBound(p, g);
    CongMod(a, p);
    if g == 1 {
      CongMul(r, a, b, b, p);
      CongMul(x, x, r * b, 0, p);
      assert b == x * (r * b) + (y * b) * p by {
        assert b == (x * r + y * p) * b;
        assert (x * r) * b == x * (r * b);
        assert (y * p) * b == (y * b) * p;
      }
      CongIntro(b, x * (r * b), p, y * b);
    } else {
      assert g == p;
      ModSmall(r, p);
    }
  }

  lemma PrimesDiffer(p: int, q: int)
    requires Prime(p) && Prime(q) && p != q
    ensures !Cong(p, 0, q)
  {
    if q < p {
      assert p % q != 0;
    } else {
      ModSmall(p, q);
    }
    ModSmall(0, q);
  }

  /** Chinese remainder, for equality: congruent modulo two primes, congruent modulo their product. */
  lemma CongProduct(a: int, b: int, p: int, q: int)
    requires Prime(p) && Prime(q) && p != q && Cong(a, b, p) && Cong(a, b, q)
    ensures p * q > 0 && Cong(a, b, p * q)
  {
    var k := CongElim(a, b, p);
    CongSub(a, b, b, b, q);
    assert p * k == a - b;
    Euclid(p, k, q);
    PrimesDiffer(p, q);
    var l := CongElim(k, 0, q);
    assert k * p == (l * q) * p == l * (p * q);
    assert p * q > 0;
    CongIntro(a, b, p * q, l);
  }

  function Pow(b: int, n: nat): int {
    if n == 0 then 1 else b * Pow(b, n - 1)
  }

  lemma {:induction false} PowCong(a: int, b: int, n: nat, m: int)
    requires m > 0 && Cong(a, b, m)
    ensures Cong(Pow(a, n), Pow(b, n), m)
  {
    if n > 0 {
      PowCong(a, b, n - 1, m);
      CongMul(a, b, Pow(a, n - 1), Pow(b, n - 1), m);
    }
  }

  lemma {:induction false} PowAdd(b: int, m: nat, n: nat)
    ensures Pow(b, m + n) == Pow(b, m) * Pow(b, n)
  {
    if m > 0 {
      PowAdd(b, m - 1, n);
      assert b * (Pow(b, m - 1) * Pow(b, n)) == (b * Pow(b, m - 1)) * Pow(b, n);
    }
  }

  // ----- binomial coefficients -----

  ghost function Choose(n: nat, k: nat): nat {
    if k == 0 then 1
    else if n == 0 then 0
    else Choose(n - 1, k - 1) + Choose(n - 1, k)
  }

  lemma {:induction false} ChooseTop(n: nat, k: nat)
    requires k >= n
    ensures Choose(n, k) == if k == n then 1 else 0
  {
    if n > 0 {
      ChooseTop(n - 1, k - 1);
      ChooseTop(n - 1, k);
    }
  }

  lemma {:induction false} Absorption(n: nat, k: nat)
    requires n > 0 && k > 0
    ensures k * Choose(n, k) == n * Choose(n - 1, k - 1)
  {
    if n == 1 {
      ChooseTop(1, k);
      ChooseTop(0, k - 1);
    } else if k == 1 {
      Absorption(n - 1, 1);
    } else {
      Absorption(n - 1, k - 1);
      Absorption(n - 1, k);
      AbsorptionAlgebra(n, k, Choose(n - 1, k - 1), Choose(n - 1, k), Choose(n - 2, k - 2), Choose(n - 2, k - 1));
    }
  }

  lemma AbsorptionAlgebra(n: int, k: int, a: int, b: int, c: int, d: int)
    requires (k - 1) * a == (n - 1) * c && k * b == (n - 1) * d && a == c + d
    ensures k * (a + b) == n * a
  {
    assert k * (a + b) == (k - 1) * a + a + k * b;
    assert (n - 1) * (c + d) == (n - 1) * c + (n - 1) * d;
    assert n * a == a + (n - 1) * a;
  }

  lemma PrimeDividesChoose(p: nat, k: nat)
    requires Prime(p) && 0 < k < p
    ensures Cong(Choose(p, k), 0, p)
  {
    Absorption(p, k);
    CongZero(k * Choose(p, k), p, Choose(p - 1, k - 1));
    Euclid(k, Choose(p, k), p);
    ModSmall(k, p);
    ModSmall(0, p);
  }

  // ----- the integers extended by sqrt(d) -----

  /** re + im * sqrt(d) */
  datatype Quad = Quad(re: int, im: int)

  ghost function QAdd(a: Quad, b: Quad): Quad { Quad(a.re + b.re, a.im + b.im) }

  ghost function QMul(d: int, a: Quad, b: Quad): Quad {
    Quad(a.re * b.re + d * (a.im * b.im), a.re * b.im + a.im * b.re)
  }

  ghost function QScale(c: int, a: Quad): Quad { Quad(c * a.re, c * a.im) }

  ghost function QPow(d: int, a: Quad, n: nat): Quad {
    if n == 0 then Quad(1, 0) else QMul(d, a, QPow(d, a, n - 1))
  }

  ghost predicate QCong(a: Quad, b: Quad, m: int)
    requires m > 0
  {
    Cong(a.re, b.re, m) && Cong(a.im, b.im, m)
  }

  lemma QMulAssoc(d: int, a: Quad, b: Quad, c: Quad)
    ensures QMul(d, a, QMul(d, b, c)) == QMul(d, QMul(d, a, b), c)
  {
    RegroupRe(d, a.re, b.re, c.re, a.im, b.im, c.im);
    RegroupIm(d, a.re, b.re, c.im, a.im, b.im, c.re);
  }

  lemma RegroupRe(d: int, a: int, b: int, c: int, x: int, y: int, z: int)
    ensures a * (b * c + d * (y * z)) + d * (x * (b * z + y * c)) == (a * b + d * (x * y)) * c + d * ((a * y + x * b) * z)
  {
    Distribute(a, b * c, d * (y * z));
    Distribute(x, b * z, y * c);
    Distribute(d, x * (b * z), x * (y * c));
    Distribute(c, a * b, d * (x * y));
    Distribute(z, a * y, x * b);
    Distribute(d, (a * y) * z, (x * b) * z);
    MulRegroup(a, b, c);
    MulRegroup(a, y, z);
    MulRegroup(x, b, z);
    MulRegroup(x, y, c);
    MulRegroup(d, x * y, c);
    Exchange(a, d, y * z);
  }

  lemma RegroupIm(d: int, a: int, b: int, c: int, x: int, y: int, z: int)
    ensures a * (b * c + y * z) + x * (b * z + d * (y * c)) == (a * b + d * (x * y)) * c + (a * y + x * b) * z
  {
    Distribute(a, b * c, y * z);
    Distribute(x, b * z, d * (y * c));
    Distribute(c, a * b, d * (x * y));
    Distribute(z, a * y, x * b);
    MulRegroup(a, b, c);
    MulRegroup(a, y, z);
    MulRegroup(x, b, z);
    MulRegroup(x, y, c);
    MulRegroup(d, x * y, c);
    Exchange(x, d, y * c);
  }

  lemma Distribute(a: int, b: int, c: int)
    ensures a * (b + c) == a * b + a * c && (b + c) * a == b * a + c * a
  {
  }

  lemma Exchange(a: int, b: int, c: int)
    ensures a * (b * c) == b * (a * c)
  {
  }

  lemma QMulComm(d: int, a: Quad, b: Quad)
    ensures QMul(d, a, b) == QMul(d, b, a)
  {
  }

  lemma QMulAdd(d: int, a: Quad, b: Quad, c: Quad)
    ensures QMul(d, QAdd(a, b), c) == QAdd(QMul(d, a, c), QMul(d, b, c))
    ensures QMul(d, c, QAdd(a, b)) == QAdd(QMul(d, c, a), QMul(d, c, b))
  {
    assert d * ((a.im + b.im) * c.im) == d * (a.im * c.im) + d * (b.im * c.im);
    QMulComm(d, QAdd(a, b), c);
  }

  lemma QMulScale(d: int, k: int, a: Quad, b: Quad)
    ensures QMul(d, a, QScale(k, b)) == QScale(k, QMul(d, a, b))
  {
    assert a.re * (k * b.re) == k * (a.re * b.re);
    assert d * (a.im * (k * b.im)) == k * (d * (a.im * b.im));
    assert a.re * (k * b.im) == k * (a.re * b.im);
    assert a.im * (k * b.re) == k * (a.im * b.re);
  }

  /** The term Choose(n, k) * x^k * y^(n-k), and the sum of the first j of them. */
  ghost function Term(d: int, x: Quad, y: Quad, n: nat, k: nat): Quad
    requires k <= n
  {
    QScale(Choose(n, k), QMul(d, QPow(d, x, k), QPow(d, y, n - k)))
  }

  ghost function Sum(d: int, x: Quad, y: Quad, n: nat, j: nat): Quad
    requires j <= n + 1
  {
    if j == 0 then Quad(0, 0) else QAdd(Sum(d, x, y, n, j - 1), Term(d, x, y, n, j - 1))
  }

  /** x * x^k * y^l and y * x^k * y^l raise one exponent each. */
  lemma MonomialStep(d: int, x: Quad, y: Quad, k: nat, l: nat)
    ensures QMul(d, x, QMul(d, QPow(d, x, k), QPow(d, y, l))) == QMul(d, QPow(d, x, k + 1), QPow(d, y, l))
    ensures QMul(d, y, QMul(d, QPow(d, x, k), QPow(d, y, l))) == QMul(d, QPow(d, x, k), QPow(d, y, l + 1))
  {
    var a, b := QPow(d, x, k), QPow(d, y, l);
    QMulAssoc(d, x, a, b);
    QMulAssoc(d, y, a, b);
    QMulComm(d, y, a);
    QMulAssoc(d, a, y, b);
  }

  lemma {:induction false} SumStep(d: int, x: Quad, y: Quad, n: nat, j: nat)
    requires 0 < j <= n + 1
    ensures QMul(d, QAdd(x, y), Sum(d, x, y, n, j))
         == QAdd(Sum(d, x, y, n + 1, j), QScale(Choose(n, j - 1), QMul(d, QPow(d, x, j), QPow(d, y, n + 1 - j))))
  {
    var k := j - 1;
    var z, w, v := QAdd(x, y), QMul(d, QPow(d, x, k), QPow(d, y, n + 1 - k)), QMul(d, QPow(d, x, j), QPow(d, y, n + 1 - j));
    TermStep(d, x, y, n, k);
    assert QMul(d, z, Sum(d, x, y, n, j)) == QAdd(QMul(d, z, Sum(d, x, y, n, k)), QMul(d, z, Term(d, x, y, n, k))) by {
      QMulAdd(d, Sum(d, x, y, n, k), Term(d, x, y, n, k), z);
    }
    if k == 0 {
      QMulZero(d, z);
      QAddZero(QScale(1, v), QScale(1, w));
    } else {
      SumStep(d, x, y, n, k);
      Collect(Sum(d, x, y, n + 1, k), Choose(n, k - 1), Choose(n, k), w, QScale(Choose(n, k), v));
    }
  }

  lemma QAddZero(a: Quad, b: Quad)
    ensures QAdd(Quad(0, 0), QAdd(a, b)) == QAdd(QAdd(Quad(0, 0), b), a)
  {
  }

  lemma Collect(s: Quad, a: int, b: int, w: Quad, v: Quad)
    ensures QAdd(QAdd(s, QScale(a, w)), QAdd(v, QScale(b, w))) == QAdd(QAdd(s, QScale(a + b, w)), v)
  {
  }

  lemma QMulZero(d: int, a: Quad)
    ensures QMul(d, a, Quad(0, 0)) == Quad(0, 0)
  {
  }

  lemma TermStep(d: int, x: Quad, y: Quad, n: nat, k: nat)
    requires k <= n
    ensures QMul(d, QAdd(x, y), Term(d, x, y, n, k))
         == QAdd(QScale(Choose(n, k), QMul(d, QPow(d, x, k + 1), QPow(d, y, n - k))),
                 QScale(Choose(n, k), QMul(d, QPow(d, x, k), QPow(d, y, n + 1 - k))))
  {
    var mono := QMul(d, QPow(d, x, k), QPow(d, y, n - k));
    QMulScale(d, Choose(n, k), QAdd(x, y), mono);
    QMulAdd(d, x, y, mono);
    MonomialStep(d, x, y, k, n - k);
    assert n - k + 1 == n + 1 - k;
    QScaleSum(Choose(n, k), QMul(d, x, mono), QMul(d, y, mono));
  }

  lemma QScaleSum(c: int, a: Quad, b: Quad)
    ensures QScale(c, QAdd(a, b)) == QAdd(QScale(c, a), QScale(c, b))
  {
  }

  lemma {:induction false} Binomial(d: int, x: Quad, y: Quad, n: nat)
    ensures QPow(d, QAdd(x, y), n) == Sum(d, x, y, n, n + 1)
  {
    if n == 0 {
      assert Sum(d, x, y, 0, 1) == QAdd(Quad(0, 0), Term(d, x, y, 0, 0));
    } else {
      Binomial(d, x, y, n - 1);
      SumStep(d, x, y, n - 1, n);
      ChooseTop(n - 1, n - 1);
      ChooseTop(n, n);
    }
  }

  lemma {:induction false} MiddleVanishes(d: int, x: Quad, y: Quad, p: nat, j: nat)
    requires Prime(p) && 0 < j <= p
    ensures QCong(Sum(d, x, y, p, j), QPow(d, y, p), p)
  {
    if j == 1 {
      assert Sum(d, x, y, p, 1) == QAdd(Quad(0, 0), Term(d, x, y, p, 0));
      assert QMul(d, Quad(1, 0), QPow(d, y, p)) == QPow(d, y, p);
    } else {
      MiddleVanishes(d, x, y, p, j - 1);
      PrimeDividesChoose(p, j - 1);
      var s, z, w := Sum(d, x, y, p, j - 1), QPow(d, y, p), QMul(d, QPow(d, x, j - 1), QPow(d, y, p - (j - 1)));
      var c := Choose(p, j - 1);
      CongMul(c, 0, w.re, w.re, p);
      CongMul(c, 0, w.im, w.im, p);
      CongAdd(s.re, z.re, c * w.re, 0, p);
      CongAdd(s.im, z.im, c * w.im, 0, p);
    }
  }

  /** Frobenius: the p-th power is additive modulo a prime p. */
  lemma Frobenius(d: int, x: Quad, y: Quad, p: nat)
    requires Prime(p)
    ensures QCong(QPow(d, QAdd(x, y), p), QAdd(QPow(d, x, p), QPow(d, y, p)), p)
  {
    Binomial(d, x, y, p);
    MiddleVanishes(d, x, y, p, p);
    ChooseTop(p, p);
    var s, t, u := Sum(d, x, y, p, p), QPow(d, y, p), QPow(d, x, p);
    assert Term(d, x, y, p, p) == u by {
      assert QMul(d, u, Quad(1, 0)) == u;
    }
    CongAdd(s.re, t.re, u.re, u.re, p);
    CongAdd(s.im, t.im, u.im, u.im, p);
  }

  lemma {:induction false} QPowScalar(d: int, a: int, n: nat)
    ensures QPow(d, Quad(a, 0), n) == Quad(Pow(a, n), 0)
  {
    if n > 0 {
      QPowScalar(d, a, n - 1);
    }
  }

  lemma {:induction false} QPowRoot(d: int, k: nat)
    ensures QPow(d, Quad(0, 1), 2 * k) == Quad(Pow(d, k), 0)
    ensures QPow(d, Quad(0, 1), 2 * k + 1) == Quad(0, Pow(d, k))
  {
    if k > 0 {
      QPowRoot(d, k - 1);
      assert 2 * k == 2 * (k - 1) + 1 + 1;
    }
  }

  lemma FrobeniusScalar(a: int, b: int, p: nat)
    requires Prime(p)
    ensures Cong(Pow(a + b, p), Pow(a, p) + Pow(b, p), p)
  {
    Frobenius(0, Quad(a, 0), Quad(b, 0), p);
    QPowScalar(0, a, p);
    QPowScalar(0, b, p);
    QPowScalar(0, a + b, p);
  }

  lemma {:induction false} FermatNat(n: nat, p: nat)
    requires Prime(p)
    ensures Cong(Pow(n, p), n, p)
  {
    if n > 0 {
      FermatNat(n - 1, p);
      FrobeniusScalar(n - 1, 1, p);
      PowOne(p);
      CongAdd(Pow(n - 1, p), n - 1, 1, 1, p);
    }
  }

  lemma {:induction false} PowOne(n: nat)
    ensures Pow(1, n) == 1
  {
    if n > 0 { PowOne(n - 1); }
  }

  /** Fermat's little theorem, for every integer. */
  lemma Fermat(a: int, p: nat)
    requires Prime(p)
    ensures Cong(Pow(a, p), a, p)
  {
    CongMod(a, p);
    PowCong(a % p, a, p, p);
    FermatNat(a % p, p);
  }
}

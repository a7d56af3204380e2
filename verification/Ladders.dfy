/** The fast exponentiation ladders of the SM9 script, over an arbitrary group. */
module Ladders {
  import opened Limbs

  /** A group as the script uses one: `sqr` is its separate squaring (or doubling) routine. */
  datatype Group<!G> = Group(one: G, mul: (G, G) -> G, inv: G -> G, sqr: G -> G)

  ghost predicate IsGroup<G(!new)>(gr: Group<G>) {
    && (forall a, b, c :: gr.mul(gr.mul(a, b), c) == gr.mul(a, gr.mul(b, c)))
    && (forall a :: gr.mul(gr.one, a) == a && gr.mul(a, gr.one) == a)
    && (forall a :: gr.mul(a, gr.inv(a)) == gr.one && gr.mul(gr.inv(a), a) == gr.one)
    && (forall a :: gr.sqr(a) == gr.mul(a, a))
  }

  /** The n-fold product: the reference for every ladder. */
  ghost function Pow<G>(gr: Group<G>, g: G, n: nat): G {
    if n == 0 then gr.one else gr.mul(g, Pow(gr, g, n - 1))
  }

  lemma {:induction false} PowAdd<G(!new)>(gr: Group<G>, g: G, m: nat, n: nat)
    requires IsGroup(gr)
    ensures gr.mul(Pow(gr, g, m), Pow(gr, g, n)) == Pow(gr, g, m + n)
  {
    if m == 0 {
      assert gr.mul(gr.one, Pow(gr, g, n)) == Pow(gr, g, n);
    } else {
      PowAdd(gr, g, m - 1, n);
      assert gr.mul(gr.mul(g, Pow(gr, g, m - 1)), Pow(gr, g, n)) == gr.mul(g, gr.mul(Pow(gr, g, m - 1), Pow(gr, g, n)));
    }
  }

  lemma PowSqr<G(!new)>(gr: Group<G>, g: G, m: nat)
    requires IsGroup(gr)
    ensures gr.sqr(Pow(gr, g, m)) == Pow(gr, g, 2 * m)
  {
    PowAdd(gr, g, m, m);
  }

  lemma PowOne<G(!new)>(gr: Group<G>, g: G)
    requires IsGroup(gr)
    ensures Pow(gr, g, 0) == gr.one && Pow(gr, g, 1) == g && Pow(gr, g, 2) == gr.sqr(g)
  {
    assert Pow(gr, g, 1) == gr.mul(g, Pow(gr, g, 0));
    assert Pow(gr, g, 2) == gr.mul(g, Pow(gr, g, 1));
  }

  lemma PowNext<G(!new)>(gr: Group<G>, g: G, m: nat)
    requires IsGroup(gr)
    ensures gr.mul(Pow(gr, g, m), g) == Pow(gr, g, m + 1)
    ensures m > 0 ==> gr.mul(Pow(gr, g, m), gr.inv(g)) == Pow(gr, g, m - 1)
  {
    PowOne(gr, g);
    PowAdd(gr, g, m, 1);
    if m > 0 {
      PowAdd(gr, g, m - 1, 1);
      var h := Pow(gr, g, m - 1);
      assert gr.mul(gr.mul(h, g), gr.inv(g)) == gr.mul(h, gr.mul(g, gr.inv(g)));
    }
  }

  // ----- binary digits -----

  /** bin(n) without its prefix: most significant digit first, "0" for 0. */
  function Bin(n: nat): seq<nat> {
    if n < 2 then [n] else Bin(n / 2) + [n % 2]
  }

  /** int(digits, 2) */
  function FromDigits(d: seq<nat>): nat {
    if d == [] then 0 else 2 * FromDigits(d[..|d| - 1]) + d[|d| - 1]
  }

  ghost predicate Binary(d: seq<nat>) { forall i :: 0 <= i < |d| ==> d[i] <= 1 }

  lemma {:induction false} BinSpec(n: nat)
    ensures Binary(Bin(n)) && FromDigits(Bin(n)) == n && |Bin(n)| >= 1
    ensures forall i :: 0 <= i < |Bin(n)| ==> Bin(n)[i] <= 1
    ensures n == 0 ==> Bin(n) == [0]
    ensures n > 0 ==> Bin(n)[0] == 1 && FromDigits(Bin(n)[..1]) == 1
  {
    if n >= 2 {
      BinSpec(n / 2);
      assert Bin(n)[..|Bin(n)| - 1] == Bin(n / 2);
    } else {
      assert Bin(n)[..0] == [];
    }
    assert Bin(n)[..1][..0] == [];
  }

  /** Reading t more digits shifts by t and adds them. */
  lemma {:induction false} ReadMore(d: seq<nat>, j: nat, t: nat)
    requires j + t <= |d|
    ensures FromDigits(d[..j + t]) == FromDigits(d[..j]) * Pow2(t) + FromDigits(d[j..j + t])
  {
    hide Pow2, FromDigits;
    var x := FromDigits(d[..j]);
    if t == 0 {
      Pow2Constants();
      NoDigits(d, j);
    } else {
      ReadMore(d, j, t - 1);
      ReadOne(d, j + t - 1);
      assert d[j..][..t] == d[j..j + t] && d[j..][..t - 1] == d[j..j + t - 1];
      ReadOne(d[j..], t - 1);
      Pow2Even(t);
      assert x * (2 * Pow2(t - 1)) == 2 * (x * Pow2(t - 1));
    }
  }

  lemma NoDigits(d: seq<nat>, j: nat)
    requires j <= |d|
    ensures FromDigits(d[j..j]) == 0
  {
  }

  lemma ReadOne(d: seq<nat>, j: nat)
    requires j < |d|
    ensures FromDigits(d[..j + 1]) == 2 * FromDigits(d[..j]) + d[j]
  {
    assert d[..j + 1][..j] == d[..j];
  }

  lemma {:induction false} DigitsBound(d: seq<nat>)
    requires Binary(d)
    ensures FromDigits(d) < Pow2(|d|)
    ensures |d| > 0 ==> FromDigits(d) % 2 == d[|d| - 1]
  {
    if d != [] {
      DigitsBound(d[..|d| - 1]);
    }
  }

  // ----- binary expansion and the sliding window -----

  /** ECC_Point.multiply, in the additive group: n-fold addition by doubling. */
  method Multiply<G(!new)>(gr: Group<G>, p: G, n: nat) returns (q: G)
    requires IsGroup(gr)
    ensures q == Pow(gr, p, n)
  {
    hide *;
    PowOne(gr, p);
    if n == 0 { return gr.one; }
    if n == 1 { return p; }
    var k := Bin(n);
    BinSpec(n);
    q := p;
    for i := 1 to |k|
      invariant q == Pow(gr, p, FromDigits(k[..i]))
    {
      ReadOne(k, i);
      PowSqr(gr, p, FromDigits(k[..i]));
      PowNext(gr, p, 2 * FromDigits(k[..i]));
      q := if k[i] == 1 then gr.mul(gr.sqr(q), p) else gr.sqr(q);
    }
    assert k[..|k|] == k;
  }

  /** The odd multiples up to 31 that a five-digit window can need. */
  method WindowTable<G(!new)>(gr: Group<G>, p: G) returns (table: map<nat, G>)
    requires IsGroup(gr)
    ensures forall h :: 0 < h < 32 && h % 2 == 1 ==> h in table && table[h] == Pow(gr, p, h)
  {
    hide *;
    PowOne(gr, p);
    table := map[1 := p, 2 := gr.sqr(p)];
    for i := 1 to 16
      invariant 2 in table && table[2] == Pow(gr, p, 2)
      invariant forall h :: 0 < h < 2 * i && h % 2 == 1 ==> h in table && table[h] == Pow(gr, p, h)
    {
      PowAdd(gr, p, 2 * i - 1, 2);
      table := table[2 * i + 1 := gr.mul(table[2 * i - 1], table[2])];
    }
  }

  /** The longest window of at most t digits at j that ends in a 1. */
  method Window(k: seq<nat>, j: nat, t: nat) returns (w: nat)
    requires j < |k| && 0 < t && j + t <= |k| && k[j] == 1
    ensures 0 < w <= t && k[j + w - 1] == 1
    ensures forall i :: j + w <= i < j + t ==> k[i] != 1
  {
    w := t;
    while k[j + w - 1] != 1
      invariant 0 < w <= t
      invariant forall i :: j + w <= i < j + t ==> k[i] != 1
      decreases w
    {
      w := w - 1;
    }
  }

  /** The value of a window is odd and in the table. */
  lemma WindowValue(k: seq<nat>, j: nat, t: nat)
    requires Binary(k) && 0 < t <= 5 && j + t <= |k| && k[j + t - 1] == 1
    ensures 0 < FromDigits(k[j..j + t]) < 32 && FromDigits(k[j..j + t]) % 2 == 1
  {
    DigitsBound(k[j..j + t]);
    Pow2Mono(t, 5);
    assert Pow2(5) == 2 * Pow2(4);
    Pow2Constants();
  }

  /** The five-digit sliding window: n-fold addition for every n. */
  method SlidingWindow<G(!new)>(gr: Group<G>, p: G, n: nat) returns (q: G)
    requires IsGroup(gr)
    ensures q == Pow(gr, p, n)
  {
    hide *;
    var k := Bin(n);
    BinSpec(n);
    var l, r := |k|, 5;
    if r >= l {
      q := Multiply(gr, p, n);
      return;
    }
    assert n > 0;
    var table := WindowTable(gr, p);
    var t := Window(k, 0, r);
    WindowValue(k, 0, t);
    assert k[0..t] == k[..t];
    q := table[FromDigits(k[..t])];
    var j := t;
    while j < l
      invariant 0 < j <= l
      invariant q == Pow(gr, p, FromDigits(k[..j]))
    {
      ghost var x := FromDigits(k[..j]);
      if k[j] == 0 {
        ReadOne(k, j);
        PowSqr(gr, p, x);
        q := gr.sqr(q);
        j := j + 1;
      } else {
        t := Window(k, j, if r < l - j then r else l - j);
        WindowValue(k, j, t);
        var h := FromDigits(k[j..j + t]);
        ReadMore(k, j, t);
        var shifted := Multiply(gr, q, Pow2(t));
        PowPow(gr, p, x, Pow2(t));
        PowAdd(gr, p, x * Pow2(t), h);
        q := gr.mul(shifted, table[h]);
        j := j + t;
      }
    }
    assert k[..l] == k;
  }

  lemma {:induction false} PowPow<G(!new)>(gr: Group<G>, g: G, m: nat, n: nat)
    requires IsGroup(gr)
    ensures m * n >= 0 && Pow(gr, Pow(gr, g, m), n) == Pow(gr, g, m * n)
  {
    if n == 0 {
      assert m * n == 0;
    } else {
      PowPow(gr, g, m, n - 1);
      PowAdd(gr, g, m, m * (n - 1));
      assert m * n == m + m * (n - 1);
    }
  }

  // ----- the addition-subtraction ladder -----

  /** Shr reads the leading digits of a padded binary string. */
  function Padded(n: nat, len: nat): (d: seq<nat>)
    ensures |d| == len
  {
    seq(len, i requires 0 <= i < len => Shr(n, len - 1 - i) % 2)
  }

  /** Number of binary digits; 1 for 0, as bin prints "0". */
  function BinLen(n: nat): nat { if n < 2 then 1 else 1 + BinLen(n / 2) }

  lemma {:induction false} BinLenSpec(n: nat)
    ensures n < Pow2(BinLen(n))
    ensures n > 0 ==> Pow2(BinLen(n) - 1) <= n
  {
    if n >= 2 { BinLenSpec(n / 2); }
  }

  /** FQ12.__pow__. Above 10 it walks the digits of 3k and k together, multiplying by g or by its
      inverse where they differ; the last digit pair is skipped. */
  method AddSubPow<G(!new)>(gr: Group<G>, g: G, k: nat) returns (t: G)
    requires IsGroup(gr)
    ensures k > 0 ==> t == Pow(gr, g, k)
    ensures k == 0 ==> t == g
    ensures t == Pow(gr, g, k) <==> k > 0 || g == gr.one
  {
    hide *;
    PowOne(gr, g);
    if k > 10 {
      var len := BinLen(3 * k);
      var h, s := Padded(3 * k, len), Padded(k, len);
      t := g;
      var nf := gr.inv(g);
      LadderStart(k, len);
      for i := 1 to len - 1
        invariant t == Pow(gr, g, Partial(k, len, i - 1))
      {
        var e := Partial(k, len, i - 1);
        LadderStep(k, len, i);
        PowSqr(gr, g, e);
        t := gr.sqr(t);
        PowNext(gr, g, 2 * e);
        if h[i] == 1 && s[i] == 0 {
          t := gr.mul(t, g);
        } else if h[i] == 0 && s[i] == 1 {
          t := gr.mul(t, nf);
        }
      }
      LadderEnd(k, len);
    } else {
      t := g;
      var d := Bin(k);
      BinSpec(k);
      for i := 1 to |d|
        invariant t == Pow(gr, g, if k == 0 then 1 else FromDigits(d[..i]))
      {
        ReadOne(d, i);
        PowSqr(gr, g, FromDigits(d[..i]));
        PowNext(gr, g, 2 * FromDigits(d[..i]));
        t := if d[i] == 1 then gr.mul(gr.sqr(t), g) else gr.sqr(t);
      }
      assert d[..|d|] == d;
    }
  }

  /** The exponent after digit i: the leading digits of 3k less those of k. */
  function Partial(k: nat, len: nat, i: nat): (e: nat)
    requires i < len
    ensures e >= Shr(k, len - 1 - i)
  {
    ShrTriple(k, len - 1 - i);
    Shr(3 * k, len - 1 - i) - Shr(k, len - 1 - i)
  }

  lemma {:induction false} ShrTriple(k: nat, j: nat)
    ensures 3 * Shr(k, j) <= Shr(3 * k, j) <= 3 * Shr(k, j) + 2
  {
    if j > 0 { ShrTriple(k, j - 1); }
  }

  lemma LadderStart(k: nat, len: nat)
    requires k > 10 && len == BinLen(3 * k)
    ensures len >= 2 && Partial(k, len, 0) == 1
  {
    BinLenSpec(3 * k);
    Pow2Constants();
    ShrTop(3 * k, len - 1);
    ShrTriple(k, len - 1);
  }

  lemma ShrTop(n: nat, j: nat)
    requires Pow2(j) <= n < Pow2(j + 1)
    ensures Shr(n, j) == 1
  {
    ShrSmall(n, j, 1);
    Pow2Constants();
    ShrLower(n, j, 0);
  }

  lemma {:induction false} ShrLower(n: nat, j: nat, k: nat)
    requires Pow2(j + k) <= n
    ensures Pow2(k) <= Shr(n, j)
  {
    if j > 0 { ShrLower(n, j - 1, k + 1); }
  }

  lemma LadderStep(k: nat, len: nat, i: nat)
    requires 0 < i < len - 1
    ensures var h, s := Padded(3 * k, len)[i], Padded(k, len)[i];
            && h <= 1 && s <= 1
            && Partial(k, len, i) == 2 * Partial(k, len, i - 1) + h - s
            && (h == 0 && s == 1 ==> Partial(k, len, i - 1) > 0)
  {
    var j := len - 1 - i;
    ShrStep(3 * k, j);
    ShrStep(k, j);
    ShrTriple(k, j + 1);
  }

  /** 3k and k have the same parity, so dropping the last digits leaves (3k - k) / 2. */
  lemma LadderEnd(k: nat, len: nat)
    requires len >= 2
    ensures Partial(k, len, len - 2) == k
  {
    assert Shr(3 * k, 1) == 3 * k / 2;
    assert Shr(k, 1) == k / 2;
  }
}

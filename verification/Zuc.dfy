/** The ZUC-256 stream cipher of the firmware. The S-boxes are parameters: nothing proved here depends on
    their entries. Shift-register cells are integers below 2^31; `>>`, `<<` and masks on them are written
    as division, multiplication and remainder, with the 32-bit wrap of the C type explicit. */
module Zuc {
  import opened Common
  import opened Modular
  import opened Limbs
  import opened Bits
  import opened ZucWords

  const P31 := 0x7FFF_FFFF

  // ----- arithmetic modulo 2^31 - 1 -----

  /** add31 on 32-bit words. */
  function Add31(a: nat, b: nat): nat {
    var x := (a + b) % 0x1_0000_0000;
    ((x + x / 0x8000_0000) % 0x1_0000_0000) % 0x8000_0000
  }

  /** mul31: rotation of a 31-bit word. The two shifted parts have no bit in common. */
  function Mul31(a: nat, n: nat): nat
    requires n < 31
  {
    Pow2Pos(31 - n);
    ((a * Pow2(n)) % 0x1_0000_0000 + a / Pow2(31 - n)) % 0x8000_0000
  }

  /** The parts the source joins with `|` share no bit, for the five rotations the register uses. */
  lemma RotationParts(a: bv32)
    requires a < 0x8000_0000
    ensures (a << 8) & (a >> 23) == 0
    ensures (a << 15) & (a >> 16) == 0
    ensures (a << 17) & (a >> 14) == 0
    ensures (a << 20) & (a >> 11) == 0
    ensures (a << 21) & (a >> 10) == 0
  {
  }

  /** A cell of the register: never 0, so the standard's replacement of 0 is never needed. */
  predicate Cell(x: int) { 1 <= x <= P31 }

  lemma AddCells(a: nat, b: nat)
    requires Cell(a) && b <= P31
    ensures Cell(Add31(a, b)) && Cong(Add31(a, b), a + b, P31)
  {
    var x := a + b;
    assert x % 0x1_0000_0000 == x;
    if x >= 0x8000_0000 {
      assert x / 0x8000_0000 == 1;
      assert Add31(a, b) == x - P31;
      CongIntro(x - P31, x, P31, -1);
    } else {
      assert x / 0x8000_0000 == 0;
      assert Add31(a, b) == x;
    }
  }

  lemma MulCell(a: nat, n: nat)
    requires Cell(a) && n < 31
    ensures Cell(Mul31(a, n)) && Cong(Mul31(a, n), Pow2(n) * a, P31)
  {
    hide Pow2, Cong;
    Pow2Pos(n);
    Pow2Pos(31 - n);
    Pow2Add(31 - n, n);
    Pow2Constants();
    RotateSplit(a, Pow2(n), Pow2(31 - n));
  }

  /** Rotation by the split of a at q, where p * q == 2^31. */
  lemma RotateSplit(a: nat, p: nat, q: nat)
    requires Cell(a) && p >= 1 && q >= 1 && q * p == 0x8000_0000
    ensures var r := ((a * p) % 0x1_0000_0000 + a / q) % 0x8000_0000;
            Cell(r) && Cong(r, p * a, P31)
  {
    hide Cong;
    var h, l := a / q, a % q;
    SplitProduct(a, p, q, h, l);
    WrapProduct(h, l * p, a * p);
    if l * p + h == 0 { Nonzero(l, p); }
    assert p * a == a * p;
    CongIntro(p * a, l * p + h, P31, h);
    CongSymmetric(p * a, l * p + h, P31);
  }

  lemma CongSymmetric(a: int, b: int, m: int)
    requires m > 0 && Cong(a, b, m)
    ensures Cong(b, a, m)
  {
  }

  lemma SplitProduct(a: nat, p: nat, q: nat, h: nat, l: nat)
    requires Cell(a) && p >= 1 && q >= 1 && q * p == 0x8000_0000 && h == a / q && l == a % q
    ensures a == h * q + l && a * p == h * 0x8000_0000 + l * p
    ensures l * p >= 0 && l * p + p <= 0x8000_0000 && h < p
  {
    assert a == h * q + l;
    assert a * p == h * 0x8000_0000 + l * p by {
      assert (h * q + l) * p == (h * q) * p + l * p;
      assert (h * q) * p == h * (q * p);
    }
    MulMono(l + 1, q, p);
    assert (l + 1) * p == l * p + p;
    MulMono(0, l, p);
    if h >= p {
      MulMono(p, h, q);
      assert false;
    }
  }

  lemma WrapProduct(h: nat, lp: nat, x: nat)
    requires x == h * 0x8000_0000 + lp && lp + h < 0x8000_0000 && lp < 0x8000_0000
    ensures (x % 0x1_0000_0000 + h) % 0x8000_0000 == lp + h
  {
    var e, o := h / 2, h % 2;
    assert x == e * 0x1_0000_0000 + (o * 0x8000_0000 + lp);
    DivModUnique(x, 0x1_0000_0000, e, o * 0x8000_0000 + lp);
    DivModUnique(o * 0x8000_0000 + lp + h, 0x8000_0000, o, lp + h);
  }

  lemma Nonzero(l: nat, p: nat)
    requires p >= 1 && l * p == 0
    ensures l == 0
  {
    if l >= 1 { MulMono(1, l, p); }
  }

  // ----- the shift register -----

  /** The tap sum of the standard. */
  function Taps(s: seq<nat>): nat
    requires |s| == 16
  {
    s[0] + 0x100 * s[0] + 0x10_0000 * s[4] + 0x20_0000 * s[10] + 0x2_0000 * s[13] + 0x8000 * s[15]
  }

  function NewCell(s: seq<nat>): nat
    requires |s| == 16
  {
    Add31(Add31(Add31(Add31(Add31(s[0], Mul31(s[0], 8)), Mul31(s[4], 20)), Mul31(s[10], 21)),
                Mul31(s[13], 17)), Mul31(s[15], 15))
  }

  ghost predicate Cells(s: seq<nat>) {
    |s| == 16 && forall i :: 0 <= i < 16 ==> Cell(s[i])
  }

  lemma PowersOfTwo()
    ensures Pow2(8) == 0x100 && Pow2(20) == 0x10_0000 && Pow2(21) == 0x20_0000
    ensures Pow2(17) == 0x2_0000 && Pow2(15) == 0x8000
  {
    Pow2Constants();
    Pow2Add(16, 4);
    Pow2Add(16, 1);
    Pow2Add(20, 1);
    assert Pow2(16) == 2 * Pow2(15);
  }

  /** Each new cell is a cell, congruent to the tap sum. */
  lemma NewCellSpec(s: seq<nat>)
    requires Cells(s)
    ensures Cell(NewCell(s)) && Cong(NewCell(s), Taps(s), P31)
  {
    hide Add31, Mul31, Pow2;
    PowersOfTwo();
    var a0 := s[0];
    var a1 := AddTap(a0, a0, s[0], 8);
    var a2 := AddTap(a1, a0 + 0x100 * s[0], s[4], 20);
    var a3 := AddTap(a2, a0 + 0x100 * s[0] + 0x10_0000 * s[4], s[10], 21);
    var a4 := AddTap(a3, a0 + 0x100 * s[0] + 0x10_0000 * s[4] + 0x20_0000 * s[10], s[13], 17);
    var a5 := AddTap(a4, a0 + 0x100 * s[0] + 0x10_0000 * s[4] + 0x20_0000 * s[10] + 0x2_0000 * s[13], s[15], 15);
  }

  lemma TapSum(s: seq<nat>)
    requires Cells(s)
    ensures IsNewCell(s, NewCell(s))
  {
    hide NewCell;
    NewCellSpec(s);
  }

  lemma AddTap(acc: nat, sum: nat, cell: nat, n: nat) returns (r: nat)
    requires Cell(acc) && Cong(acc, sum, P31) && Cell(cell) && n < 31
    ensures r == Add31(acc, Mul31(cell, n)) && Cell(r) && Cong(r, sum + Pow2(n) * cell, P31)
  {
    hide Add31, Mul31, Pow2;
    MulCell(cell, n);
    AddCells(acc, Mul31(cell, n));
    CongAdd(acc, sum, Mul31(cell, n), Pow2(n) * cell, P31);
    r := Add31(acc, Mul31(cell, n));
  }

  function Shifted(s: seq<nat>, cell: nat): seq<nat>
    requires |s| == 16
  {
    s[1..] + [cell]
  }

  // ----- the nonlinear part -----

  datatype State = State(cells: seq<nat>, r1: bv32, r2: bv32)

  function X0(s: seq<nat>): bv32 requires |s| == 16 { ((Word(s[15]) << 1) & 0xFFFF_0000) | (Word(s[14]) & 0xFFFF) }

  function X1(s: seq<nat>): bv32 requires |s| == 16 { ((Word(s[11]) << 16) & 0xFFFF_0000) | ((Word(s[9]) >> 15) & 0xFFFF) }

  function X2(s: seq<nat>): bv32 requires |s| == 16 { ((Word(s[7]) << 16) & 0xFFFF_0000) | ((Word(s[5]) >> 15) & 0xFFFF) }

  function X3(s: seq<nat>): bv32 requires |s| == 16 { ((Word(s[2]) << 16) & 0xFFFF_0000) | ((Word(s[0]) >> 15) & 0xFFFF) }

  /** F on a state, through the bit reorganisation. */
  function F(t: Tables, st: State): (bv32, bv32, bv32)
    requires |st.cells| == 16
  {
    Mix(t, X0(st.cells), X1(st.cells), X2(st.cells), st.r1, st.r2)
  }

  lemma Reorganised(s: seq<nat>)
    requires Cells(s)
    ensures IsReorganised(s, X0(s), X1(s), X2(s), X3(s))
  {
    hide Num, Word, X0, X1, X2, X3;
    UpperLower(s, 15, 14);
    LowerUpper(s, 11, 9);
    LowerUpper(s, 7, 5);
    LowerUpper(s, 2, 0);
    XParts(s);
  }

  lemma XParts(s: seq<nat>)
    requires |s| == 16
    ensures X0(s) == UpLow(Word(s[15]), Word(s[14])) && X1(s) == LowUp(Word(s[11]), Word(s[9]))
    ensures X2(s) == LowUp(Word(s[7]), Word(s[5])) && X3(s) == LowUp(Word(s[2]), Word(s[0]))
  {
    hide Word;
  }

  function UpLow(a: bv32, b: bv32): bv32 { ((a << 1) & 0xFFFF_0000) | (b & 0xFFFF) }

  function LowUp(a: bv32, b: bv32): bv32 { ((a << 16) & 0xFFFF_0000) | ((b >> 15) & 0xFFFF) }

  lemma UpLowParts(a: bv32, b: bv32)
    requires a < 0x8000_0000
    ensures UpLow(a, b) == Glue(Upper(a), Low(b))
  {
  }

  lemma LowUpParts(a: bv32, b: bv32)
    ensures LowUp(a, b) == Glue(Low(a), Upper(b))
  {
  }

  lemma UpperLower(s: seq<nat>, i: nat, j: nat)
    requires Cells(s) && i < 16 && j < 16
    ensures Num(UpLow(Word(s[i]), Word(s[j]))) == (s[i] / 0x8000) * 0x1_0000 + s[j] % 0x1_0000
  {
    hide Num, Num16, Word, UpLow, Low, Upper, Glue;
    var a, b := Word(s[i]), Word(s[j]);
    WordNum(s[i]);
    WordNum(s[j]);
    NumBound(a);
    UpLowParts(a, b);
    GlueNum(Upper(a), Low(b));
    UpperNum(a);
    LowNum(b);
  }

  lemma LowerUpper(s: seq<nat>, i: nat, j: nat)
    requires Cells(s) && i < 16 && j < 16
    ensures Num(LowUp(Word(s[i]), Word(s[j]))) == (s[i] % 0x1_0000) * 0x1_0000 + s[j] / 0x8000
  {
    hide Num, Num16, Word, LowUp, Low, Upper, Glue;
    var a, b := Word(s[i]), Word(s[j]);
    WordNum(s[i]);
    WordNum(s[j]);
    NumBound(b);
    LowUpParts(a, b);
    GlueNum(Low(a), Upper(b));
    LowNum(a);
    UpperNum(b);
  }

  // ----- the generator as a step function -----

  /** One working step; the word it outputs is Output(t, st). */
  function Work(t: Tables, st: State): State
    requires |st.cells| == 16
  {
    var f := F(t, st);
    State(Shifted(st.cells, NewCell(st.cells)), f.1, f.2)
  }

  function Output(t: Tables, st: State): bv32
    requires |st.cells| == 16
  {
    F(t, st).0 ^ X3(st.cells)
  }

  /** The bit reorganisation of section 3.3 of the ETSI/SAGE ZUC specification, as numbers: sixteen bits of one
      cell above sixteen of another, from the upper end of a cell (a division by 2^15) or its lower one (a
      remainder modulo 2^16). */
  ghost predicate IsReorganised(s: seq<nat>, x0: bv32, x1: bv32, x2: bv32, x3: bv32)
    requires |s| == 16
  {
    && Num(x0) == (s[15] / 0x8000) * 0x1_0000 + s[14] % 0x1_0000
    && Num(x1) == (s[11] % 0x1_0000) * 0x1_0000 + s[9] / 0x8000
    && Num(x2) == (s[7] % 0x1_0000) * 0x1_0000 + s[5] / 0x8000
    && Num(x3) == (s[2] % 0x1_0000) * 0x1_0000 + s[0] / 0x8000
  }

  /** The new cell of a working step, with the coefficients 2^8 + 1, 2^20, 2^21, 2^17 and 2^15. */
  ghost predicate IsNewCell(s: seq<nat>, cell: nat)
    requires |s| == 16
  {
    && 1 <= cell <= 0x7FFF_FFFF
    && Cong(cell, 0x101 * s[0] + 0x10_0000 * s[4] + 0x20_0000 * s[10] + 0x2_0000 * s[13] + 0x8000 * s[15], 0x7FFF_FFFF)
  }

  /** A working step with output z, told without the functions that compute it: through words that are the bit
      reorganisation, the output is F's word xored with the fourth, the registers are mixed, and the cells move
      down under a new one. */
  ghost predicate IsStep(t: Tables, st: State, z: bv32, next: State) {
    && |st.cells| == 16 && |next.cells| == 16 && next.cells[..15] == st.cells[1..] && IsNewCell(st.cells, next.cells[15])
    && exists x0, x1, x2, x3, w ::
         && IsReorganised(st.cells, x0, x1, x2, x3) && IsOutput(x0, st.r1, st.r2, w) && z == w ^ x3
         && IsMixed(t, x1, x2, st.r1, st.r2, next.r1, next.r2)
  }

  /** A feedback step of initialisation: the same, with half of F's word added to the new cell and no output. */
  ghost predicate IsWarmStep(t: Tables, st: State, next: State) {
    && |st.cells| == 16 && |next.cells| == 16 && next.cells[..15] == st.cells[1..] && 1 <= next.cells[15] <= 0x7FFF_FFFF
    && exists x0, x1, x2, x3, w ::
         && IsReorganised(st.cells, x0, x1, x2, x3) && IsOutput(x0, st.r1, st.r2, w)
         && IsMixed(t, x1, x2, st.r1, st.r2, next.r1, next.r2)
         && var s := st.cells;
            Cong(next.cells[15], 0x101 * s[0] + 0x10_0000 * s[4] + 0x20_0000 * s[10] + 0x2_0000 * s[13] + 0x8000 * s[15]
                                 + Num(w) / 2, 0x7FFF_FFFF)
  }

  lemma WarmStepIs(t: Tables, st: State)
    requires Cells(st.cells)
    ensures IsWarmStep(t, st, Warm(t, st))
  {
    hide Mix, X0, X1, X2, X3, NewCell, IsReorganised, IsOutput, IsMixed, Add31, Cong;
    var s := st.cells;
    WarmCell(t, st);
    Reorganised(s);
    MixIs(t, X0(s), X1(s), X2(s), st.r1, st.r2);
    assert Warm(t, st).cells[..15] == s[1..];
    assert Half(F(t, st).0) == Num(F(t, st).0) / 2;
  }

  lemma StepIs(t: Tables, st: State)
    requires Cells(st.cells)
    ensures IsStep(t, st, Output(t, st), Work(t, st))
  {
    hide Mix, X0, X1, X2, X3, NewCell, IsReorganised, IsOutput, IsMixed, IsNewCell;
    var s := st.cells;
    Reorganised(s);
    TapSum(s);
    MixIs(t, X0(s), X1(s), X2(s), st.r1, st.r2);
    assert Work(t, st).cells[..15] == s[1..];
  }

  /** w >> 1 */
  function Half(w: bv32): nat { (w as nat) / 2 }

  /** One initialisation step: the upper 31 bits of the F output are fed back. */
  function Warm(t: Tables, st: State): State
    requires |st.cells| == 16
  {
    var f := F(t, st);
    State(Shifted(st.cells, Add31(NewCell(st.cells), Half(f.0))), f.1, f.2)
  }

  function WarmN(t: Tables, st: State, n: nat): (r: State)
    requires |st.cells| == 16
    ensures |r.cells| == 16
  {
    if n == 0 then st else Warm(t, WarmN(t, st, n - 1))
  }

  function WorkN(t: Tables, st: State, n: nat): (r: State)
    requires |st.cells| == 16
    ensures |r.cells| == 16
  {
    if n == 0 then st else Work(t, WorkN(t, st, n - 1))
  }

  lemma HalfWord(w: bv32)
    ensures Half(w) <= P31
  {
  }

  /** The feedback of initialisation: congruent to the tap sum plus u, and again a cell. */
  lemma WarmCell(t: Tables, st: State)
    requires Cells(st.cells)
    ensures Cells(Warm(t, st).cells)
    ensures Cong(Warm(t, st).cells[15], Taps(st.cells) + Half(F(t, st).0), P31)
  {
    hide Add31, Mul31, F, NewCell, Taps, Half;
    var u := Half(F(t, st).0);
    HalfWord(F(t, st).0);
    NewCellSpec(st.cells);
    AddCells(NewCell(st.cells), u);
    CongAdd(NewCell(st.cells), Taps(st.cells), u, u, P31);
  }

  lemma WorkCell(t: Tables, st: State)
    requires Cells(st.cells)
    ensures Cells(Work(t, st).cells)
    ensures Cong(Work(t, st).cells[15], Taps(st.cells), P31)
  {
    hide Add31, Mul31, F, NewCell, Taps;
    NewCellSpec(st.cells);
  }

  // ----- loading key and IV -----

  /** load2: 8, 7, 8 and 8 bits side by side. */
  function Load2(a: bv8, b: nat, c: bv8, d: bv8): nat {
    N(a) * 0x80_0000 + (b % 0x80) * 0x1_0000 + N(c) * 0x100 + N(d)
  }

  function N(b: bv8): (n: nat)
    ensures n < 0x100
  {
    b as nat
  }

  lemma LoadCell(a: bv8, b: nat, c: bv8, d: bv8)
    requires b % 0x80 != 0
    ensures Cell(Load2(a, b, c, d))
  {
  }

  const D2: seq<nat> := [0x64, 0x43, 0x7B, 0x2A, 0x11, 0x05, 0x51, 0x42, 0x1A, 0x31, 0x18, 0x66, 0x14, 0x2E, 0x01, 0x5C]

  const D3: seq<nat> := [0x22, 0x2F, 0x24, 0x2A, 0x6D, 0x40, 0x40, 0x40, 0x40, 0x40, 0x40, 0x40, 0x40, 0x52, 0x10, 0x30]

  function Load16(k: Bytes, iv: Bytes): (s: seq<nat>)
    requires |k| == 32 && |iv| == 16
    ensures |s| == 16
  {
    [Load2(k[0], D2[0], k[16], k[24]), Load2(k[1], D2[1], k[17], k[25]), Load2(k[2], D2[2], k[18], k[26]),
     Load2(k[3], D2[3], k[19], k[27]), Load2(k[4], D2[4], k[20], k[28]), Load2(k[5], D2[5], k[21], k[29]),
     Load2(k[6], D2[6], k[22], k[30]), Load2(k[7], D2[7], iv[0], iv[8]), Load2(k[8], D2[8], iv[1], iv[9]),
     Load2(k[9], D2[9], iv[2], iv[10]), Load2(k[10], D2[10], iv[3], iv[11]), Load2(k[11], D2[11], iv[4], iv[12]),
     Load2(k[12], D2[12], iv[5], iv[13]), Load2(k[13], D2[13], iv[6], iv[14]), Load2(k[14], D2[14], iv[7], iv[15]),
     Load2(k[15], D2[15], k[23], k[31])]
  }

  /** A constant with its six low bits clear, joined with six bits of the IV. */
  function OrIv(d: nat, b: bv8): nat { d + N(b) % 0x40 }

  function Load25(k: Bytes, iv: Bytes): (s: seq<nat>)
    requires |k| == 32 && |iv| == 25
    ensures |s| == 16
  {
    [Load2(k[0], D3[0], k[21], k[16]), Load2(k[1], D3[1], k[22], k[17]), Load2(k[2], D3[2], k[23], k[18]),
     Load2(k[3], D3[3], k[24], k[19]), Load2(k[4], D3[4], k[25], k[20]),
     Load2(iv[0], OrIv(D3[5], iv[17]), k[5], k[26]), Load2(iv[1], OrIv(D3[6], iv[18]), k[6], k[27]),
     Load2(iv[10], OrIv(D3[7], iv[19]), k[7], iv[2]), Load2(k[8], OrIv(D3[8], iv[20]), iv[3], iv[11]),
     Load2(k[9], OrIv(D3[9], iv[21]), iv[12], iv[4]), Load2(iv[5], OrIv(D3[10], iv[22]), k[10], k[28]),
     Load2(k[11], OrIv(D3[11], iv[23]), iv[6], iv[13]), Load2(k[12], OrIv(D3[12], iv[24]), iv[7], iv[14]),
     Load2(k[13], D3[13], iv[5], iv[8]), Load2(k[14], D3[14] + N(k[31]) / 0x10, iv[16], iv[9]),
     Load2(k[15], D3[15] + N(k[31]) % 0x10, k[30], k[29])]
  }

  lemma LoadedCells16(k: Bytes, iv: Bytes)
    requires |k| == 32 && |iv| == 16
    ensures Cells(Load16(k, iv))
  {
    hide Load2, N;
    forall a: bv8, b: nat, c: bv8, d: bv8 | b % 0x80 != 0 ensures Cell(Load2(a, b, c, d)) { LoadCell(a, b, c, d); }
  }

  lemma LoadedCells25(k: Bytes, iv: Bytes)
    requires |k| == 32 && |iv| == 25
    ensures Cells(Load25(k, iv))
  {
    hide Load2, OrIv, N;
    var hi, lo := N(k[31]) / 0x10, N(k[31]) % 0x10;
    assert (0x10 + hi) % 0x80 != 0 && (0x30 + lo) % 0x80 != 0;
    forall b: bv8 ensures OrIv(0x40, b) % 0x80 != 0 { OrIvNonzero(b); }
    forall a: bv8, b: nat, c: bv8, d: bv8 | b % 0x80 != 0 ensures Cell(Load2(a, b, c, d)) { LoadCell(a, b, c, d); }
  }

  /** A cell as its four fields, of 8, 7, 8 and 8 bits. */
  ghost predicate Fields(cell: nat, a: bv8, b: nat, c: bv8, d: bv8) {
    && cell / 0x80_0000 == N(a) && (cell / 0x1_0000) % 0x80 == b
    && (cell / 0x100) % 0x100 == N(c) && cell % 0x100 == N(d)
  }

  lemma Load2Fields(a: bv8, b: nat, c: bv8, d: bv8)
    requires b < 0x80
    ensures Fields(Load2(a, b, c, d), a, b, c, d)
  {
    hide N;
    FieldsOf(N(a), b, N(c), N(d), Load2(a, b, c, d));
  }

  lemma FieldsOf(a: nat, b: nat, c: nat, d: nat, v: nat)
    requires a < 0x100 && b < 0x80 && c < 0x100 && d < 0x100
    requires v == a * 0x80_0000 + (b % 0x80) * 0x1_0000 + c * 0x100 + d
    ensures v / 0x80_0000 == a && (v / 0x1_0000) % 0x80 == b && (v / 0x100) % 0x100 == c && v % 0x100 == d
  {
    ModSmall(b, 0x80);
    DivModUnique(v, 0x80_0000, a, b * 0x1_0000 + c * 0x100 + d);
    DivModUnique(v, 0x1_0000, a * 0x80 + b, c * 0x100 + d);
    DivModUnique(v, 0x100, (a * 0x80 + b) * 0x100 + c, d);
    DivModUnique(a * 0x80 + b, 0x80, a, b);
    DivModUnique((a * 0x80 + b) * 0x100 + c, 0x100, a * 0x80 + b, c);
  }

  /** Where the bytes of the key and a 16-byte IV go: key bytes 0..15 on top; below the constants, key bytes
      16..22 and 24..30, then IV bytes 0..7 and 8..15, then key bytes 23 and 31. */
  lemma Placed16(k: Bytes, iv: Bytes)
    requires |k| == 32 && |iv| == 16
    ensures var s := Load16(k, iv);
            && Fields(s[0], k[0], 0x64, k[16], k[24]) && Fields(s[1], k[1], 0x43, k[17], k[25])
            && Fields(s[2], k[2], 0x7B, k[18], k[26]) && Fields(s[3], k[3], 0x2A, k[19], k[27])
            && Fields(s[4], k[4], 0x11, k[20], k[28]) && Fields(s[5], k[5], 0x05, k[21], k[29])
            && Fields(s[6], k[6], 0x51, k[22], k[30]) && Fields(s[7], k[7], 0x42, iv[0], iv[8])
            && Fields(s[8], k[8], 0x1A, iv[1], iv[9]) && Fields(s[9], k[9], 0x31, iv[2], iv[10])
            && Fields(s[10], k[10], 0x18, iv[3], iv[11]) && Fields(s[11], k[11], 0x66, iv[4], iv[12])
            && Fields(s[12], k[12], 0x14, iv[5], iv[13]) && Fields(s[13], k[13], 0x2E, iv[6], iv[14])
            && Fields(s[14], k[14], 0x01, iv[7], iv[15]) && Fields(s[15], k[15], 0x5C, k[23], k[31])
  {
    hide Load2, N, Fields;
    forall a: bv8, b: nat, c: bv8, d: bv8 | b < 0x80 ensures Fields(Load2(a, b, c, d), a, b, c, d) { Load2Fields(a, b, c, d); }
  }

  /** And with a 25-byte IV, eight of whose bytes give six bits each to the constants. */
  lemma Placed25(k: Bytes, iv: Bytes)
    requires |k| == 32 && |iv| == 25
    ensures var s := Load25(k, iv);
            && Fields(s[0], k[0], 0x22, k[21], k[16]) && Fields(s[1], k[1], 0x2F, k[22], k[17])
            && Fields(s[2], k[2], 0x24, k[23], k[18]) && Fields(s[3], k[3], 0x2A, k[24], k[19])
            && Fields(s[4], k[4], 0x6D, k[25], k[20]) && Fields(s[5], iv[0], 0x40 + N(iv[17]) % 0x40, k[5], k[26])
            && Fields(s[6], iv[1], 0x40 + N(iv[18]) % 0x40, k[6], k[27]) && Fields(s[7], iv[10], 0x40 + N(iv[19]) % 0x40, k[7], iv[2])
            && Fields(s[8], k[8], 0x40 + N(iv[20]) % 0x40, iv[3], iv[11]) && Fields(s[9], k[9], 0x40 + N(iv[21]) % 0x40, iv[12], iv[4])
            && Fields(s[10], iv[5], 0x40 + N(iv[22]) % 0x40, k[10], k[28]) && Fields(s[11], k[11], 0x40 + N(iv[23]) % 0x40, iv[6], iv[13])
            && Fields(s[12], k[12], 0x40 + N(iv[24]) % 0x40, iv[7], iv[14]) && Fields(s[13], k[13], 0x52, iv[5], iv[8])
            && Fields(s[14], k[14], 0x10 + N(k[31]) / 0x10, iv[16], iv[9]) && Fields(s[15], k[15], 0x30 + N(k[31]) % 0x10, k[30], k[29])
  {
    hide Load2, N, Fields;
    forall a: bv8, b: nat, c: bv8, d: bv8 | b < 0x80 ensures Fields(Load2(a, b, c, d), a, b, c, d) { Load2Fields(a, b, c, d); }
  }

  lemma OrIvNonzero(b: bv8)
    ensures OrIv(0x40, b) % 0x80 != 0
  {
  }

  /** The state before the first step. */
  function Loaded(k: Bytes, iv: Bytes): (st: State)
    requires |k| == 32 && (|iv| == 16 || |iv| == 25)
    ensures |st.cells| == 16 && st.r1 == 0 && st.r2 == 0
  {
    State(if |iv| == 16 then Load16(k, iv) else Load25(k, iv), 0, 0)
  }

  lemma LoadedCells(k: Bytes, iv: Bytes)
    requires |k| == 32 && (|iv| == 16 || |iv| == 25)
    ensures Cells(Loaded(k, iv).cells)
  {
    hide Load16, Load25, Cells;
    if |iv| == 16 { LoadedCells16(k, iv); } else { LoadedCells25(k, iv); }
  }

  /** The state after initialisation: loading, 32 feedback steps, one discarded working step. */
  function Init(t: Tables, k: Bytes, iv: Bytes): (st: State)
    requires |k| == 32 && (|iv| == 16 || |iv| == 25)
    ensures |st.cells| == 16
  {
    Work(t, WarmN(t, Loaded(k, iv), 32))
  }

  // ----- the invariant of every run -----

  /** Step n of initialisation left sixteen cells, and was a feedback step. */
  ghost predicate Warmed(t: Tables, st: State, n: nat)
    requires |st.cells| == 16
  {
    && Cells(WarmN(t, st, n).cells)
    && (n > 0 ==> IsWarmStep(t, WarmN(t, st, n - 1), WarmN(t, st, n)))
  }

  lemma {:induction false} WarmRun(t: Tables, st: State, n: nat)
    requires Cells(st.cells)
    ensures Warmed(t, st, n)
  {
    hide Warm, F, Half, Taps, IsWarmStep;
    if n > 0 {
      WarmRun(t, st, n - 1);
      WarmCell(t, WarmN(t, st, n - 1));
      WarmStepIs(t, WarmN(t, st, n - 1));
    }
  }

  lemma {:induction false} WorkRun(t: Tables, st: State, n: nat)
    requires Cells(st.cells)
    ensures Cells(WorkN(t, st, n).cells)
    ensures n > 0 ==> var before := WorkN(t, st, n - 1); IsStep(t, before, Output(t, before), WorkN(t, st, n))
  {
    hide Work, Output, IsStep;
    if n > 0 {
      WorkRun(t, st, n - 1);
      WorkCell(t, WorkN(t, st, n - 1));
      StepIs(t, WorkN(t, st, n - 1));
    }
  }

  /** For every key, IV and number of output words: each of the 32 initialisation steps is a feedback step, the
      discarded one and every later one a working step of the standard, and all sixteen cells lie in 1..2^31-1
      throughout. */
  lemma EveryRun(t: Tables, k: Bytes, iv: Bytes, n: nat)
    requires |k| == 32 && (|iv| == 16 || |iv| == 25)
    ensures forall i :: 0 <= i <= 32 ==> Warmed(t, Loaded(k, iv), i)
    ensures exists z :: IsStep(t, WarmN(t, Loaded(k, iv), 32), z, Init(t, k, iv))
    ensures Cells(WorkN(t, Init(t, k, iv), n).cells)
    ensures n > 0 ==> var before := WorkN(t, Init(t, k, iv), n - 1);
                      IsStep(t, before, Output(t, before), WorkN(t, Init(t, k, iv), n))
  {
    hide Work, Warm, WarmN, WorkN, Loaded, Output, IsStep, IsWarmStep;
    LoadedCells(k, iv);
    var st := Loaded(k, iv);
    forall i | 0 <= i <= 32 ensures Warmed(t, st, i) { WarmRun(t, st, i); }
    assert Warmed(t, st, 32);
    WorkCell(t, WarmN(t, st, 32));
    StepIs(t, WarmN(t, st, 32));
    WorkRun(t, Init(t, k, iv), n);
  }

  // ----- encryption -----

  /** Byte i of the keystream: words are output most significant byte first. */
  function KeyByte(t: Tables, st: State, i: nat): bv8
    requires |st.cells| == 16
  {
    Byte(Output(t, WorkN(t, st, i / 4)), 24 - 8 * (i % 4))
  }

  function Crypt(t: Tables, st: State, data: Bytes): (r: Bytes)
    requires |st.cells| == 16
    ensures |r| == |data| && forall i :: 0 <= i < |data| ==> r[i] == data[i] ^ KeyByte(t, st, i)
  {
    seq(|data|, i requires 0 <= i < |data| => data[i] ^ KeyByte(t, st, i))
  }

  /** The bytes of a keystream word, most significant first. */
  lemma KeyBytes(t: Tables, st: State, j: nat)
    requires |st.cells| == 16
    ensures var w := Output(t, WorkN(t, st, j));
            && KeyByte(t, st, 4 * j) == (w >> 24) as bv8 && KeyByte(t, st, 4 * j + 1) == ((w >> 16) & 0xFF) as bv8
            && KeyByte(t, st, 4 * j + 2) == ((w >> 8) & 0xFF) as bv8 && KeyByte(t, st, 4 * j + 3) == (w & 0xFF) as bv8
  {
    hide Output, WorkN, Byte, KeyByte;
    KeyByteAt(t, st, j, 0);
    KeyByteAt(t, st, j, 1);
    KeyByteAt(t, st, j, 2);
    KeyByteAt(t, st, j, 3);
    BytesOf(Output(t, WorkN(t, st, j)));
  }

  lemma KeyByteAt(t: Tables, st: State, j: nat, m: nat)
    requires |st.cells| == 16 && m < 4
    ensures KeyByte(t, st, 4 * j + m) == Byte(Output(t, WorkN(t, st, j)), 24 - 8 * m)
  {
    hide Output, WorkN, Byte;
    assert (4 * j + m) / 4 == j && (4 * j + m) % 4 == m;
  }

  /** Encrypting twice from the same state is the identity. */
  lemma CryptTwice(t: Tables, st: State, data: Bytes)
    requires |st.cells| == 16
    ensures Crypt(t, st, Crypt(t, st, data)) == data
  {
    hide KeyByte;
    var c := Crypt(t, st, data);
    forall i | 0 <= i < |data| ensures Crypt(t, st, c)[i] == data[i] {
      XorBack(data[i], KeyByte(t, st, i));
    }
  }

  lemma XorBack(a: bv8, b: bv8)
    ensures (a ^ b) ^ b == a
  {
  }

  lemma {:induction false} WorkNAdd(t: Tables, st: State, m: nat, n: nat)
    requires |st.cells| == 16
    ensures WorkN(t, st, m + n) == WorkN(t, WorkN(t, st, m), n)
  {
    hide Work;
    if n > 0 { WorkNAdd(t, st, m, n - 1); }
  }

  /** A buffer may be encrypted in pieces cut at multiples of four bytes. */
  lemma CryptSplit(t: Tables, st: State, a: Bytes, b: Bytes)
    requires |st.cells| == 16 && |a| % 4 == 0
    ensures Crypt(t, st, a + b) == Crypt(t, st, a) + Crypt(t, WorkN(t, st, |a| / 4), b)
  {
    hide KeyByte, WorkN, Crypt;
    var rest := WorkN(t, st, |a| / 4);
    var whole, parts := Crypt(t, st, a + b), Crypt(t, st, a) + Crypt(t, rest, b);
    forall i | 0 <= i < |whole| ensures whole[i] == parts[i] {
      if i >= |a| { KeyByteShift(t, st, |a|, i - |a|); }
    }
  }

  /** The keystream after n bytes is that of the state n / 4 words later. */
  lemma KeyByteShift(t: Tables, st: State, n: nat, j: nat)
    requires |st.cells| == 16 && n % 4 == 0
    ensures KeyByte(t, st, n + j) == KeyByte(t, WorkN(t, st, n / 4), j)
  {
    hide Output, Byte, WorkN;
    WordIndex(n, j);
    WorkNAdd(t, st, n / 4, j / 4);
  }

  lemma WordIndex(n: nat, j: nat)
    requires n % 4 == 0
    ensures (n + j) / 4 == n / 4 + j / 4 && (n + j) % 4 == j % 4
  {
  }

  // ----- the cipher object -----

  /** zuc256_init: a context for an IV of 16 or 25 bytes, no context (-1) for any other length. */
  method InitCipher(t: Tables, k: Bytes, iv: Bytes) returns (z: Zuc256?)
    requires |k| == 32
    ensures z == null <==> |iv| != 16 && |iv| != 25
    ensures z != null ==> fresh(z) && fresh(z.s) && z.Valid() && z.t == t && z.View() == Init(t, k, iv)
  {
    z := null;
    if |iv| == 16 || |iv| == 25 {
      z := new Zuc256(t, k, iv);
    }
  }

  class Zuc256 {
    const t: Tables
    const s: array<nat>
    var r1: bv32
    var r2: bv32

    ghost predicate Valid()
      reads this, s
    {
      s.Length == 16 && Cells(s[..])
    }

    function View(): State
      reads this, s
    {
      State(s[..], r1, r2)
    }

    /** Loading and warm-up, for the IV lengths that are accepted. */
    constructor (t: Tables, k: Bytes, iv: Bytes)
      requires |k| == 32 && (|iv| == 16 || |iv| == 25)
      ensures Valid() && fresh(s) && this.t == t && View() == Init(t, k, iv)
    {
      hide Load16, Load25, Work, WarmN, Cells, Cell;
      LoadedCells(k, iv);
      var load := if |iv| == 16 then Load16(k, iv) else Load25(k, iv);
      this.t := t;
      s := new nat[16](i requires 0 <= i < 16 => load[i]);
      r1, r2 := 0, 0;
      new;
      assert s[..] == load;
      WarmUp();
      var _ := KeystreamWord();
    }

    /** The 32 feedback steps of zuc256_init_state. */
    method WarmUp()
      requires Valid()
      modifies this`r1, this`r2, s
      ensures Valid() && View() == WarmN(t, old(View()), 32)
    {
      hide Mix, X0, X1, X2, Add31, NewCell, Half, Cells;
      for i := 0 to 32
        invariant Valid() && View() == WarmN(t, old(View()), i)
      {
        var w := FFunc(X0(s[..]), X1(s[..]), X2(s[..]));
        LfsrInit(w);
      }
    }

    /** F_func: returns the word and updates R1 and R2. */
    method FFunc(x0: bv32, x1: bv32, x2: bv32) returns (w: bv32)
      modifies this`r1, this`r2
      ensures (w, r1, r2) == Mix(t, x0, x1, x2, old(r1), old(r2))
    {
      hide Substitute, L1, L2, Middle;
      w := (x0 ^ r1) + r2;
      var w1 := r1 + x1;
      var w2 := r2 ^ x2;
      r1 := Substitute(t, L1(Middle(w1, w2)));
      r2 := Substitute(t, L2(Middle(w2, w1)));
    }

    /** lfsr_init, with u == w >> 1: the feedback step after FFunc. */
    method LfsrInit(w: bv32)
      requires Valid()
      modifies s
      ensures Valid() && s[..] == Shifted(old(s[..]), Add31(NewCell(old(s[..])), Half(w)))
    {
      hide Add31, Mul31, NewCell, Half, Taps;
      NewCellSpec(s[..]);
      HalfWord(w);
      AddCells(NewCell(s[..]), Half(w));
      Push(Add31(NewCell(s[..]), Half(w)));
    }

    method LfsrWork()
      requires Valid()
      modifies s
      ensures Valid() && s[..] == Shifted(old(s[..]), NewCell(old(s[..])))
    {
      hide Add31, Mul31, NewCell, Half, Taps;
      NewCellSpec(s[..]);
      Push(NewCell(s[..]));
    }

    /** Moves every cell down one place and writes the new one on top. */
    method Push(cell: nat)
      requires Valid() && Cell(cell)
      modifies s
      ensures Valid() && s[..] == Shifted(old(s[..]), cell)
    {
      ghost var before := s[..];
      forall i | 0 <= i < 15 { s[i] := s[i + 1]; }
      s[15] := cell;
      assert s[..] == before[1..] + [cell];
    }

    /** One keystream word, and the step of the standard. */
    method KeystreamWord() returns (z: bv32)
      requires Valid()
      modifies this`r1, this`r2, s
      ensures Valid() && z == Output(t, old(View())) && View() == Work(t, old(View()))
      ensures IsStep(t, old(View()), z, View())
    {
      hide Mix, X0, X1, X2, X3, NewCell, IsStep;
      StepIs(t, View());
      var x3 := X3(s[..]);
      var w := FFunc(X0(s[..]), X1(s[..]), X2(s[..]));
      z := w ^ x3;
      LfsrWork();
    }

    /** zuc256_crypt on the same range of two buffers, which may be one. */
    method CryptRange(input: array<bv8>, out: array<bv8>, off: nat, len: nat)
      requires Valid() && off + len <= input.Length && off + len <= out.Length
      requires s != input as object && s != out as object
      modifies this`r1, this`r2, s, out
      ensures Valid() && View() == WorkN(t, old(View()), (len + 3) / 4)
      ensures out[off..off + len] == Crypt(t, old(View()), old(input[off..off + len]))
      ensures out[..off] == old(out[..off]) && out[off + len..] == old(out[off + len..])
    {
      hide Work, Output, Byte, F, KeyByte, IsStep;
      ghost var st, data := View(), input[off..off + len];
      var done := 0;
      while done < len
        invariant 0 <= done <= len && (done % 4 == 0 || done == len)
        invariant Valid() && View() == WorkN(t, st, (done + 3) / 4)
        invariant forall i :: done <= i < len ==> input[off + i] == data[i]
        invariant forall i :: 0 <= i < done ==> out[off + i] == data[i] ^ KeyByte(t, st, i)
        invariant forall k :: 0 <= k < out.Length && !(off <= k < off + len) ==> out[k] == old(out[k])
      {
        var w := KeystreamWord();
        done := XorWord(w, input, out, off, len, done, st, data);
      }
      assert out[off..off + len] == Crypt(t, st, data);
    }

    /** Up to four bytes under one keystream word, most significant byte first. */
    method XorWord(w: bv32, input: array<bv8>, out: array<bv8>, off: nat, len: nat, start: nat,
                   ghost st: State, ghost data: Bytes)
      returns (done: nat)
      requires off + len <= input.Length && off + len <= out.Length && |data| == len
      requires start < len && start % 4 == 0 && |st.cells| == 16 && w == Output(t, WorkN(t, st, start / 4))
      requires forall i :: start <= i < len ==> input[off + i] == data[i]
      requires forall i :: 0 <= i < start ==> out[off + i] == data[i] ^ KeyByte(t, st, i)
      modifies out
      ensures done == if start + 4 <= len then start + 4 else len
      ensures forall i :: done <= i < len ==> input[off + i] == data[i]
      ensures forall i :: 0 <= i < done ==> out[off + i] == data[i] ^ KeyByte(t, st, i)
      ensures forall k :: 0 <= k < out.Length && !(off <= k < off + len) ==> out[k] == old(out[k])
    {
      hide Output, Byte, WorkN;
      done := start;
      var i := 0;
      while i < 4 && done < len
        invariant 0 <= i <= 4 && done == start + i && done <= len
        invariant forall j :: done <= j < len ==> input[off + j] == data[j]
        invariant forall j :: 0 <= j < done ==> out[off + j] == data[j] ^ KeyByte(t, st, j)
        invariant forall k :: 0 <= k < out.Length && !(off <= k < off + len) ==> out[k] == old(out[k])
      {
        assert KeyByte(t, st, done) == Byte(w, 24 - 8 * i);
        out[off + done] := input[off + done] ^ Byte(w, 24 - 8 * i);
        done := done + 1;
        i := i + 1;
      }
    }
  }
}

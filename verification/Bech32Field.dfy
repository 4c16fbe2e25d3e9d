/**
 * What the Bech32 checksum is for (comments on PolyMod in src/bech32.cpp, section "Checksum" of BIP 173). The register
 * is a polynomial over GF(32) modulo the generator, and three consecutive powers of a primitive element of GF(1024)
 * are zeros of the generator. So any one to three wrong symbols within 1023 are detected.
 */
module Bech32Field {
  import opened BitOps
  import opened Field
  import B = Bech32

  // ----- symbols by their numbers --------------------------------------------------------------------------

  const N0 := Sym(false, false, false, false, false)
  const N1 := Sym(true, false, false, false, false)
  const N3 := Sym(true, true, false, false, false)
  const N5 := Sym(true, false, true, false, false)
  const N7 := Sym(true, true, true, false, false)
  const N8 := Sym(false, false, false, true, false)
  const N9 := Sym(true, false, false, true, false)
  const N10 := Sym(false, true, false, true, false)
  const N11 := Sym(true, true, false, true, false)
  const N12 := Sym(false, false, true, true, false)
  const N14 := Sym(false, true, true, true, false)
  const N15 := Sym(true, true, true, true, false)
  const N17 := Sym(true, false, false, false, true)
  const N18 := Sym(false, true, false, false, true)
  const N19 := Sym(true, true, false, false, true)
  const N20 := Sym(false, false, true, false, true)
  const N21 := Sym(true, false, true, false, true)
  const N22 := Sym(false, true, true, false, true)
  const N23 := Sym(true, true, true, false, true)
  const N24 := Sym(false, false, false, true, true)
  const N25 := Sym(true, false, false, true, true)
  const N27 := Sym(true, true, false, true, true)
  const N28 := Sym(false, false, true, true, true)
  const N29 := Sym(true, false, true, true, true)
  const N30 := Sym(false, true, true, true, true)
  const N31 := Sym(true, true, true, true, true)

  // ----- the register as a polynomial --------------------------------------------------------------------

  /** The low five bits of a number. */
  function SymOf(n: nat): Sym {
    Sym(n % 2 == 1, n / 2 % 2 == 1, n / 4 % 2 == 1, n / 8 % 2 == 1, n / 16 % 2 == 1)
  }

  /** A polynomial of degree five over GF(32), lowest coefficient first. */
  datatype Reg = Reg(s0: Sym, s1: Sym, s2: Sym, s3: Sym, s4: Sym, s5: Sym)

  const NONE := Reg(NIL, NIL, NIL, NIL, NIL, NIL)

  function RegOf(c: nat): Reg {
    Reg(SymOf(c), SymOf(c / 0x20), SymOf(c / 0x400), SymOf(c / 0x8000), SymOf(c / 0x10_0000), SymOf(c / 0x200_0000))
  }

  function AddReg(p: Reg, q: Reg): Reg {
    Reg(Add(p.s0, q.s0), Add(p.s1, q.s1), Add(p.s2, q.s2), Add(p.s3, q.s3), Add(p.s4, q.s4), Add(p.s5, q.s5))
  }

  function ScaleReg(s: Sym, p: Reg): Reg {
    Reg(Mul(s, p.s0), Mul(s, p.s1), Mul(s, p.s2), Mul(s, p.s3), Mul(s, p.s4), Mul(s, p.s5))
  }

  /** x^6 modulo the generator x^6 + {29}x^5 + {22}x^4 + {20}x^3 + {21}x^2 + {29}x + {18}. */
  const GENERATOR := Reg(N18, N29, N21, N20, N22, N29)

  /** p(x) * x + v without its leading term, and p(x) * x + v modulo the generator. */
  function Shift(p: Reg, v: Sym): Reg { Reg(v, p.s0, p.s1, p.s2, p.s3, p.s4) }
  function TimesX(p: Reg, v: Sym): Reg { AddReg(Shift(p, v), ScaleReg(p.s5, GENERATOR)) }

  lemma Powers()
    ensures Pow2(0) == 1 && Pow2(1) == 2 && Pow2(2) == 4 && Pow2(3) == 8 && Pow2(4) == 16
    ensures Pow2(5) == 0x20 && Pow2(10) == 0x400 && Pow2(15) == 0x8000 && Pow2(20) == 0x10_0000 && Pow2(25) == 0x200_0000
  {
    assert Pow2(5) == 0x20;
    Pow2Add(5, 5);
    Pow2Add(10, 5);
    Pow2Add(10, 10);
    Pow2Add(20, 5);
  }

  lemma SymBits(n: nat)
    ensures SymOf(n) == Sym(BitAt(n, 0), BitAt(n, 1), BitAt(n, 2), BitAt(n, 3), BitAt(n, 4))
  {
    hide BitAt, Pow2;
    Powers();
    BitAtIff(n, 0);
    BitAtIff(n, 1);
    BitAtIff(n, 2);
    BitAtIff(n, 3);
    BitAtIff(n, 4);
  }

  lemma SymXor(m: nat, n: nat)
    ensures SymOf(BitXor(m, n)) == Add(SymOf(m), SymOf(n))
  {
    SymBits(m);
    SymBits(n);
    SymBits(BitXor(m, n));
    hide BitAt, BitXor, SymOf;
    XorAt(m, n, 0);
    XorAt(m, n, 1);
    XorAt(m, n, 2);
    XorAt(m, n, 3);
    XorAt(m, n, 4);
  }

  lemma RegXor(c: nat, d: nat)
    ensures RegOf(BitXor(c, d)) == AddReg(RegOf(c), RegOf(d))
  {
    hide BitXor, SymOf, Add, Pow2;
    Powers();
    SymXor(c, d);
    XorDiv(c, d, 5);
    SymXor(c / 0x20, d / 0x20);
    XorDiv(c, d, 10);
    SymXor(c / 0x400, d / 0x400);
    XorDiv(c, d, 15);
    SymXor(c / 0x8000, d / 0x8000);
    XorDiv(c, d, 20);
    SymXor(c / 0x10_0000, d / 0x10_0000);
    XorDiv(c, d, 25);
    SymXor(c / 0x200_0000, d / 0x200_0000);
  }

  lemma Parity(q: nat, n: nat)
    ensures (2 * q + n) % 2 == n % 2
  {}

  lemma SymLow(q: nat, n: nat)
    ensures SymOf(32 * q + n) == SymOf(n)
  {
    var m := 32 * q + n;
    assert m / 2 == 2 * (8 * q) + n / 2;
    assert m / 4 == 2 * (4 * q) + n / 4;
    assert m / 8 == 2 * (2 * q) + n / 8;
    assert m / 16 == 2 * q + n / 16;
    Parity(16 * q, n);
    Parity(8 * q, n / 2);
    Parity(4 * q, n / 4);
    Parity(2 * q, n / 8);
    Parity(q, n / 16);
  }

  lemma Down(a: nat, n: nat)
    ensures (32 * a + n) / 32 == a + n / 32
  {}

  /** Symbols packed into a number. */
  lemma RegPacked(a0: nat, d1: nat)
    requires a0 < 32
    ensures RegOf(32 * d1 + a0) == Shift(RegOf(d1), SymOf(a0))
  {
    var c := 32 * d1 + a0;
    hide SymOf;
    SymLow(d1, a0);
    Down(d1, a0);
    B.Shifts(c);
    B.Shifts(d1);
  }

  lemma Level(c: nat, a: nat, y: nat)
    requires c == 32 * a + y
    ensures SymOf(c) == SymOf(y) && c / 32 == a + y / 32
  {
    SymLow(a, y);
    Down(a, y);
  }

  /** The lower five symbols do not depend on the top one. */
  lemma LowSymbols(c: nat, q: nat, y: nat)
    requires c == 0x200_0000 * q + y
    ensures var p, r := RegOf(c), RegOf(y); p.s0 == r.s0 && p.s1 == r.s1 && p.s2 == r.s2 && p.s3 == r.s3 && p.s4 == r.s4
  {
    hide SymOf;
    B.Shifts(c);
    B.Shifts(y);
    Level(c, 0x10_0000 * q, y);
    Level(c / 0x20, 0x8000 * q, y / 0x20);
    Level(c / 0x400, 0x400 * q, y / 0x400);
    Level(c / 0x8000, 0x20 * q, y / 0x8000);
    Level(c / 0x10_0000, q, y / 0x10_0000);
  }

  /** The register moved up by one symbol. */
  lemma ShiftedReg(c: nat, q: nat, y: nat, v: nat)
    requires v < 32 && c == 0x200_0000 * q + y
    ensures RegOf(32 * y + v) == Shift(RegOf(c), SymOf(v))
  {
    hide RegOf, SymOf;
    LowSymbols(c, q, y);
    RegPacked(v, y);
  }

  function PickReg(b: bool, p: Reg): Reg { if b then p else NONE }

  lemma MixReg(d: nat, c0: nat, bit: nat, k: nat)
    ensures RegOf(B.Mix(d, c0, bit, k)) == AddReg(RegOf(d), PickReg(BitAt(c0, bit), RegOf(k)))
  {
    hide BitAt, BitXor, RegOf;
    RegXor(d, k);
    AddNone(RegOf(d));
  }

  lemma AddNone(p: Reg)
    ensures AddReg(p, NONE) == p
  {}

  /** Six symbols in a number. */
  lemma Literal(a5: nat, a4: nat, a3: nat, a2: nat, a1: nat, a0: nat)
    requires a0 < 32 && a1 < 32 && a2 < 32 && a3 < 32 && a4 < 32 && a5 < 32
    ensures RegOf(B.Packed([a5, a4, a3, a2, a1, a0])) == Reg(SymOf(a0), SymOf(a1), SymOf(a2), SymOf(a3), SymOf(a4), SymOf(a5))
  {
    hide SymOf;
    var d5 := 32 * 0 + a5;
    var d4 := 32 * d5 + a4;
    var d3 := 32 * d4 + a3;
    var d2 := 32 * d3 + a2;
    var d1 := 32 * d2 + a1;
    RegPacked(a5, 0);
    RegPacked(a4, d5);
    RegPacked(a3, d4);
    RegPacked(a2, d3);
    RegPacked(a1, d2);
    RegPacked(a0, d1);
  }

  /** The constants of the loop are the generator times the powers of a. */
  lemma Constants()
    ensures RegOf(0x3b6a57b2) == GENERATOR
    ensures RegOf(0x26508e6d) == TimesAReg(GENERATOR)
    ensures RegOf(0x1ea119fa) == TimesAReg(TimesAReg(GENERATOR))
    ensures RegOf(0x3d4233dd) == TimesAReg(TimesAReg(TimesAReg(GENERATOR)))
    ensures RegOf(0x2a1462b3) == TimesAReg(TimesAReg(TimesAReg(TimesAReg(GENERATOR))))
  {
    hide RegOf, TimesAReg, RegSyms;
    Multiple(0x3b6a57b2, 29, 22, 20, 21, 29, 18);
    Multiple(0x26508e6d, 19, 5, 1, 3, 19, 13);
    Multiple(0x1ea119fa, 15, 10, 2, 6, 15, 26);
    Multiple(0x3d4233dd, 30, 20, 4, 12, 30, 29);
    Multiple(0x2a1462b3, 21, 1, 8, 24, 21, 19);
    Doubles();
  }

  lemma Doubles()
    ensures GENERATOR == RegSyms(29, 22, 20, 21, 29, 18)
    ensures TimesAReg(RegSyms(29, 22, 20, 21, 29, 18)) == RegSyms(19, 5, 1, 3, 19, 13)
    ensures TimesAReg(RegSyms(19, 5, 1, 3, 19, 13)) == RegSyms(15, 10, 2, 6, 15, 26)
    ensures TimesAReg(RegSyms(15, 10, 2, 6, 15, 26)) == RegSyms(30, 20, 4, 12, 30, 29)
    ensures TimesAReg(RegSyms(30, 20, 4, 12, 30, 29)) == RegSyms(21, 1, 8, 24, 21, 19)
  {}

  function RegSyms(a5: nat, a4: nat, a3: nat, a2: nat, a1: nat, a0: nat): Reg {
    Reg(SymOf(a0), SymOf(a1), SymOf(a2), SymOf(a3), SymOf(a4), SymOf(a5))
  }

  lemma Multiple(c: nat, a5: nat, a4: nat, a3: nat, a2: nat, a1: nat, a0: nat)
    requires a0 < 32 && a1 < 32 && a2 < 32 && a3 < 32 && a4 < 32 && a5 < 32
    requires c == 32 * (32 * (32 * (32 * (32 * a5 + a4) + a3) + a2) + a1) + a0
    ensures RegOf(c) == RegSyms(a5, a4, a3, a2, a1, a0)
  {
    hide SymOf;
    Literal(a5, a4, a3, a2, a1, a0);
  }

  function TimesAReg(p: Reg): Reg {
    Reg(TimesA(p.s0), TimesA(p.s1), TimesA(p.s2), TimesA(p.s3), TimesA(p.s4), TimesA(p.s5))
  }

  /** A product as a sum over the bits of its first factor, added up in the order of the loop. */
  lemma MulBits(d: Sym, x: Sym, y: Sym)
    ensures var y1 := TimesA(y);
            var y2 := TimesA(y1);
            var y3 := TimesA(y2);
            Add(Add(Add(Add(Add(d, Pick(x.b0, y)), Pick(x.b1, y1)), Pick(x.b2, y2)), Pick(x.b3, y3)), Pick(x.b4, TimesA(y3))) == Add(d, Mul(x, y))
  {
    var t4 := Pick(x.b4, y);
    var t3 := Round(x.b3, y, t4);
    var t2 := Round(x.b2, y, t3);
    var t1 := Round(x.b1, y, t2);
    MulDef(x, y);
    hide Mul, Add, TimesA, Pick, Round;
    var y1 := TimesA(y);
    var y2 := TimesA(y1);
    var y3 := TimesA(y2);
    var y4 := TimesA(y3);
    var b1, b2, b3, b4 := x.b1, x.b2, x.b3, x.b4;
    Unroll(b3, y, t4);
    Unroll(b2, y, t3);
    Unroll(b1, y, t2);
    Unroll(x.b0, y, t1);
    Deeper(b4, y);
    Deeper(b4, y1);
    Deeper(b4, y2);
    Deeper(b4, y3);
    Deeper(b3, y);
    Deeper(b3, y1);
    Deeper(b3, y2);
    Deeper(b2, y);
    Deeper(b2, y1);
    Deeper(b1, y);
    TimesAAdd(Pick(b3, y), Pick(b4, y1));
    TimesAAdd(Pick(b3, y1), Pick(b4, y2));
    TimesAAdd(Pick(b3, y2), Pick(b4, y3));
    TimesAAdd(Pick(b2, y), Add(Pick(b3, y1), Pick(b4, y2)));
    TimesAAdd(Pick(b2, y1), Add(Pick(b3, y2), Pick(b4, y3)));
    TimesAAdd(Pick(b1, y), Add(Pick(b2, y1), Add(Pick(b3, y2), Pick(b4, y3))));
    Regroup(d, Pick(x.b0, y), Pick(b1, y1), Pick(b2, y2), Pick(b3, y3), Pick(b4, y4));
  }

  lemma Unroll(b: bool, y: Sym, t: Sym)
    ensures Round(b, y, t) == Add(Pick(b, y), TimesA(t))
  {}

  lemma Deeper(b: bool, y: Sym)
    ensures TimesA(Pick(b, y)) == Pick(b, TimesA(y))
  {}

  lemma TimesAAdd(x: Sym, y: Sym)
    ensures TimesA(Add(x, y)) == Add(TimesA(x), TimesA(y))
  {}

  lemma Regroup(d: Sym, p0: Sym, p1: Sym, p2: Sym, p3: Sym, p4: Sym)
    ensures Add(Add(Add(Add(Add(d, p0), p1), p2), p3), p4) == Add(d, Add(p0, Add(p1, Add(p2, Add(p3, p4)))))
  {}

  lemma PickSyms(b: bool, p: Reg)
    ensures PickReg(b, p) == Reg(Pick(b, p.s0), Pick(b, p.s1), Pick(b, p.s2), Pick(b, p.s3), Pick(b, p.s4), Pick(b, p.s5))
  {}

  /** Multiples of a polynomial added up as the bits of x say. */
  function Chosen(d: Reg, x: Sym, p0: Reg, p1: Reg, p2: Reg, p3: Reg, p4: Reg): Reg {
    AddReg(AddReg(AddReg(AddReg(AddReg(d, PickReg(x.b0, p0)), PickReg(x.b1, p1)), PickReg(x.b2, p2)), PickReg(x.b3, p3)), PickReg(x.b4, p4))
  }

  /** Adding the multiples by the powers of a adds x times the polynomial. */
  lemma ChosenProduct(d: Reg, x: Sym, p: Reg)
    ensures var p1 := TimesAReg(p);
            var p2 := TimesAReg(p1);
            var p3 := TimesAReg(p2);
            Chosen(d, x, p, p1, p2, p3, TimesAReg(p3)) == AddReg(d, ScaleReg(x, p))
  {
    var p1 := TimesAReg(p);
    var p2 := TimesAReg(p1);
    var p3 := TimesAReg(p2);
    PickSyms(x.b0, p);
    PickSyms(x.b1, p1);
    PickSyms(x.b2, p2);
    PickSyms(x.b3, p3);
    PickSyms(x.b4, TimesAReg(p3));
    hide Add, Mul, TimesA, Pick, PickReg;
    MulBits(d.s0, x, p.s0);
    MulBits(d.s1, x, p.s1);
    MulBits(d.s2, x, p.s2);
    MulBits(d.s3, x, p.s3);
    MulBits(d.s4, x, p.s4);
    MulBits(d.s5, x, p.s5);
  }

  /** A round of PolyMod, constant by constant. */
  lemma StepChosen(c: nat, v: nat)
    ensures var c0, d := c / B.TOP, BitXor(32 * (c % B.TOP), v);
            RegOf(B.Step(c, v)) == Chosen(RegOf(d), SymOf(c0), RegOf(0x3b6a57b2), RegOf(0x26508e6d), RegOf(0x1ea119fa), RegOf(0x3d4233dd), RegOf(0x2a1462b3))
  {
    hide RegOf, SymOf, BitXor, BitAt, AddReg, PickReg, B.Mix;
    var c0, d := c / B.TOP, BitXor(32 * (c % B.TOP), v);
    var d1 := B.Mix(d, c0, 0, 0x3b6a57b2);
    var d2 := B.Mix(d1, c0, 1, 0x26508e6d);
    var d3 := B.Mix(d2, c0, 2, 0x1ea119fa);
    var d4 := B.Mix(d3, c0, 3, 0x3d4233dd);
    MixReg(d, c0, 0, 0x3b6a57b2);
    MixReg(d1, c0, 1, 0x26508e6d);
    MixReg(d2, c0, 2, 0x1ea119fa);
    MixReg(d3, c0, 3, 0x3d4233dd);
    MixReg(d4, c0, 4, 0x2a1462b3);
    SymBits(c0);
  }

  /** A round of PolyMod multiplies by x, adds the next symbol and reduces modulo the generator. */
  lemma StepTimesX(c: nat, v: nat)
    requires v < 32
    ensures RegOf(B.Step(c, v)) == TimesX(RegOf(c), SymOf(v))
  {
    hide RegOf, SymOf, BitXor, Chosen, B.Step, AddReg, ScaleReg, TimesAReg, Shift;
    StepChosen(c, v);
    TopSymbol(c);
    Divided(c, B.TOP);
    Joined(c % B.TOP, v);
    ShiftedReg(c, c / B.TOP, c % B.TOP, v);
    Constants();
    ChosenProduct(Shift(RegOf(c), SymOf(v)), RegOf(c).s5, GENERATOR);
  }

  lemma Divided(c: nat, d: nat)
    requires d > 0
    ensures c == d * (c / d) + c % d
  {}

  lemma Joined(y: nat, v: nat)
    requires v < 32
    ensures BitXor(32 * y, v) == 32 * y + v
  {
    hide BitXor, Pow2;
    Powers();
    XorDisjoint(y, v, 5);
  }

  lemma TopSymbol(c: nat)
    ensures RegOf(c).s5 == SymOf(c / B.TOP)
  {}

  // ----- evaluation at a zero of the generator --------------------------------------------------------------

  function Embed(s: Sym): Ext { Ext(s, NIL) }

  /** The value of a polynomial, in Horner's scheme. */
  function Eval(z: Ext, p: Reg): Ext {
    Next(z, Next(z, Next(z, Next(z, Next(z, Embed(p.s5), p.s4), p.s3), p.s2), p.s1), p.s0)
  }

  function Next(z: Ext, x: Ext, s: Sym): Ext { Sum(Product(z, x), Embed(s)) }

  lemma NextSum(z: Ext, x: Ext, y: Ext, s: Sym, t: Sym)
    ensures Next(z, Sum(x, y), Add(s, t)) == Sum(Next(z, x, s), Next(z, y, t)) && Embed(Add(s, t)) == Sum(Embed(s), Embed(t))
  {
    EmbedSum(s, t);
    ProductSum(x, y, z);
    Swap4(Product(z, x), Product(z, y), Embed(s), Embed(t));
    hide Product, Sum, Embed;
  }

  lemma EmbedSum(s: Sym, t: Sym)
    ensures Embed(Add(s, t)) == Sum(Embed(s), Embed(t)) && Embed(NIL) == ZERO
  {}

  lemma NextScale(z: Ext, x: Ext, s: Sym, t: Sym)
    ensures Next(z, Scale(s, x), Mul(s, t)) == Scale(s, Next(z, x, t)) && Embed(Mul(s, t)) == Scale(s, Embed(t))
  {
    EmbedScale(s, t);
    ProductScale(s, z, x);
    ScaleLaws(s, s, Product(z, x), Embed(t));
    hide Product, Sum, Embed, Scale;
  }

  lemma EmbedScale(s: Sym, t: Sym)
    ensures Embed(Mul(s, t)) == Scale(s, Embed(t))
  {
    MulUnits(s);
    hide Mul;
  }

  lemma EvalSum(z: Ext, p: Reg, q: Reg)
    ensures Eval(z, AddReg(p, q)) == Sum(Eval(z, p), Eval(z, q))
  {
    hide Next, Embed, Add, Sum;
    var p5, q5 := Embed(p.s5), Embed(q.s5);
    var p4, q4 := Next(z, p5, p.s4), Next(z, q5, q.s4);
    var p3, q3 := Next(z, p4, p.s3), Next(z, q4, q.s3);
    var p2, q2 := Next(z, p3, p.s2), Next(z, q3, q.s2);
    var p1, q1 := Next(z, p2, p.s1), Next(z, q2, q.s1);
    NextSum(z, p5, q5, p.s5, q.s5);
    NextSum(z, p5, q5, p.s4, q.s4);
    NextSum(z, p4, q4, p.s3, q.s3);
    NextSum(z, p3, q3, p.s2, q.s2);
    NextSum(z, p2, q2, p.s1, q.s1);
    NextSum(z, p1, q1, p.s0, q.s0);
  }

  lemma EvalScale(z: Ext, s: Sym, p: Reg)
    ensures Eval(z, ScaleReg(s, p)) == Scale(s, Eval(z, p))
  {
    hide Next, Embed, Mul, Scale;
    var p5 := Embed(p.s5);
    var p4 := Next(z, p5, p.s4);
    var p3 := Next(z, p4, p.s3);
    var p2 := Next(z, p3, p.s2);
    var p1 := Next(z, p2, p.s1);
    NextScale(z, p5, s, p.s5);
    NextScale(z, p5, s, p.s4);
    NextScale(z, p4, s, p.s3);
    NextScale(z, p3, s, p.s2);
    NextScale(z, p2, s, p.s1);
    NextScale(z, p1, s, p.s0);
  }

  /** The generator vanishes at z. */
  ghost predicate Root(z: Ext) {
    Next(z, Next(z, Next(z, Next(z, Next(z, Sum(z, Embed(GENERATOR.s5)), GENERATOR.s4), GENERATOR.s3), GENERATOR.s2), GENERATOR.s1), GENERATOR.s0) == ZERO
  }

  lemma NextTop(z: Ext, x: Ext, y: Ext, s: Sym)
    ensures Next(z, Sum(x, y), s) == Sum(Product(z, x), Next(z, y, s))
  {
    NextSum(z, x, y, NIL, s);
    NextNil(z, x);
    assert Add(NIL, s) == s;
    hide Next, Sum, Product, Add;
  }

  lemma RootIff(z: Ext)
    ensures Root(z) <==> Raise(z, 6) == Eval(z, GENERATOR)
  {
    hide Next, Sum, Product, Embed, Raise;
    var g := GENERATOR;
    var x2 := Product(z, z);
    var x3 := Product(z, x2);
    var x4 := Product(z, x3);
    var x5 := Product(z, x4);
    var y5 := Embed(g.s5);
    var y4 := Next(z, y5, g.s4);
    var y3 := Next(z, y4, g.s3);
    var y2 := Next(z, y3, g.s2);
    var y1 := Next(z, y2, g.s1);
    NextTop(z, z, y5, g.s4);
    NextTop(z, x2, y4, g.s3);
    NextTop(z, x3, y3, g.s2);
    NextTop(z, x4, y2, g.s1);
    NextTop(z, x5, y1, g.s0);
    RaiseOne(z);
    PowerSix(z);
    SumLaws(Raise(z, 6), Eval(z, g), ZERO);
  }

  /** The leading term of a polynomial. */
  lemma EvalTop(z: Ext, s: Sym)
    ensures Product(z, Eval(z, Reg(NIL, NIL, NIL, NIL, NIL, s))) == Scale(s, Raise(z, 6))
  {
    var e := Embed(s);
    assert e == Scale(s, UNIT) by { MulUnits(s); }
    hide Embed, Scale, Product, Sum;
    NextNil(z, e);
    var x1 := Product(z, e);
    var x2 := Product(z, x1);
    var x3 := Product(z, x2);
    var x4 := Product(z, x3);
    NextNil(z, x1);
    NextNil(z, x2);
    NextNil(z, x3);
    NextNil(z, x4);
    ProductScale(s, z, Raise(z, 0));
    ProductScale(s, z, Raise(z, 1));
    ProductScale(s, z, Raise(z, 2));
    ProductScale(s, z, Raise(z, 3));
    ProductScale(s, z, Raise(z, 4));
    ProductScale(s, z, Raise(z, 5));
    PowerSix(z);
    hide Next, Raise;
  }

  lemma PowerSix(z: Ext)
    ensures Raise(z, 0) == UNIT && Raise(z, 1) == Product(z, Raise(z, 0)) && Raise(z, 2) == Product(z, Raise(z, 1))
    ensures Raise(z, 3) == Product(z, Raise(z, 2)) && Raise(z, 4) == Product(z, Raise(z, 3))
    ensures Raise(z, 5) == Product(z, Raise(z, 4)) && Raise(z, 6) == Product(z, Raise(z, 5))
  {
    hide Product;
  }

  lemma NextNil(z: Ext, x: Ext)
    ensures Next(z, x, NIL) == Product(z, x)
  {
    EmbedSum(NIL, NIL);
    SumLaws(Product(z, x), ZERO, ZERO);
    hide Product, Sum, Embed;
  }

  /** Multiplying by x modulo the generator multiplies the value at a zero of the generator. */
  lemma EvalTimesX(z: Ext, p: Reg, v: Sym)
    requires Root(z)
    ensures Eval(z, TimesX(p, v)) == Sum(Product(z, Eval(z, p)), Embed(v))
  {
    hide Root, Shift, Eval, Product, Sum, Embed, Scale, AddReg, ScaleReg, Raise;
    var low, top := p.(s5 := NIL), Reg(NIL, NIL, NIL, NIL, NIL, p.s5);
    SplitTop(p);
    EvalShift(z, p, v);
    RootIff(z);
    EvalSum(z, low, top);
    EvalTop(z, p.s5);
    EvalSum(z, Shift(p, v), ScaleReg(p.s5, GENERATOR));
    EvalScale(z, p.s5, GENERATOR);
    ProductSum(Eval(z, low), Eval(z, top), z);
    var a, b, c := Product(z, Eval(z, low)), Embed(v), Scale(p.s5, Raise(z, 6));
    SumLaws(a, b, c);
    SumLaws(b, c, a);
    SumLaws(a, c, b);
  }

  lemma SplitTop(p: Reg)
    ensures AddReg(p.(s5 := NIL), Reg(NIL, NIL, NIL, NIL, NIL, p.s5)) == p
  {}

  lemma EvalShift(z: Ext, p: Reg, v: Sym)
    ensures Eval(z, Shift(p, v)) == Sum(Product(z, Eval(z, p.(s5 := NIL))), Embed(v))
  {
    EmbedSum(NIL, NIL);
    ProductUnits(z);
    SumLaws(Embed(p.s4), ZERO, ZERO);
    assert Next(z, Embed(NIL), p.s4) == Embed(p.s4) by { hide Product, Sum; NextZero(z, p.s4); }
    hide Product, Sum, Embed;
  }

  lemma NextZero(z: Ext, s: Sym)
    ensures Next(z, ZERO, s) == Embed(s)
  {
    ProductUnits(z);
    SumLaws(Embed(s), ZERO, ZERO);
    hide Product, Sum;
  }

  // ----- three zeros in geometric progression -----------------------------------------------------------------

  /** A primitive element of GF(1024), and its powers with the exponents 997, 998 and 999. */
  const ALPHA := Ext(N23, N9)
  const RHO1 := Ext(N24, N30)
  const RHO2 := Ext(N21, N27)
  const RHO3 := Ext(N20, N24)

  lemma Progression()
    ensures Product(RHO1, ALPHA) == RHO2 && Product(RHO2, ALPHA) == RHO3 && RHO1 != ZERO && ALPHA != ZERO
  {}

  lemma Root1()
    ensures Root(RHO1)
  {
    assert Sum(RHO1, Embed(N29)) == Ext(N5, N30);
    assert Next(RHO1, Ext(N5, N30), N22) == Ext(N9, N11);
    assert Next(RHO1, Ext(N9, N11), N20) == Ext(N30, N11);
    Root1Rest();
    hide Next;
  }

  lemma Root1Rest()
    ensures Next(RHO1, Ext(N30, N11), N21) == Ext(N18, N15)
    ensures Next(RHO1, Ext(N18, N15), N29) == Ext(N29, N18)
    ensures Next(RHO1, Ext(N29, N18), N18) == ZERO
  {}

  lemma Root2()
    ensures Root(RHO2)
  {
    assert Sum(RHO2, Embed(N29)) == Ext(N8, N27);
    assert Next(RHO2, Ext(N8, N27), N22) == Ext(N23, N8);
    assert Next(RHO2, Ext(N23, N8), N20) == Ext(N27, N22);
    Root2Rest();
    hide Next;
  }

  lemma Root2Rest()
    ensures Next(RHO2, Ext(N27, N22), N21) == Ext(N17, N22)
    ensures Next(RHO2, Ext(N17, N22), N29) == Ext(N22, N14)
    ensures Next(RHO2, Ext(N22, N14), N18) == ZERO
  {}

  lemma Root3()
    ensures Root(RHO3)
  {
    assert Sum(RHO3, Embed(N29)) == Ext(N9, N24);
    assert Next(RHO3, Ext(N9, N24), N22) == Ext(N14, N3);
    assert Next(RHO3, Ext(N14, N3), N20) == Ext(N18, N9);
    Root3Rest();
    hide Next;
  }

  lemma Root3Rest()
    ensures Next(RHO3, Ext(N18, N9), N21) == Ext(N27, N25)
    ensures Next(RHO3, Ext(N27, N25), N29) == Ext(N20, N1)
    ensures Next(RHO3, Ext(N20, N1), N18) == ZERO
  {}

  // ----- the order of the primitive element --------------------------------------------------------------------

  /** The square of u + v * w is u^2 + v^2 + v^2 * w. */
  lemma SquareExt(x: Ext)
    ensures Product(x, x) == Ext(Add(Square(x.u), Square(x.v)), Square(x.v))
  {
    MulComm(x.u, x.v);
    hide Mul;
  }

  lemma Doubling(n: nat, y: Ext, z: Ext)
    requires Raise(ALPHA, n) == y
    requires z == Ext(Add(Squared(y.u), Squared(y.v)), Squared(y.v))
    ensures Raise(ALPHA, 2 * n) == z
  {
    hide Mul, Square, Product, Raise;
    RaiseAdd(ALPHA, n, n);
    SquareExt(y);
    SquareBits(y.u);
    SquareBits(y.v);
  }

  function Squared(x: Sym): Sym { Sym(x.b0, x.b3 != x.b4, x.b1, x.b4, (x.b2 != x.b3) != x.b4) }

  lemma Squares()
    ensures Raise(ALPHA, 1) == ALPHA && Raise(ALPHA, 4) == Ext(N7, N31) && Raise(ALPHA, 8) == Ext(N8, N29) && Raise(ALPHA, 16) == Ext(N11, N25)
    ensures Raise(ALPHA, 32) == Ext(N30, N9) && Raise(ALPHA, 64) == Ext(N15, N19) && Raise(ALPHA, 256) == Ext(N21, N29) && Raise(ALPHA, 1024) == ALPHA
  {
    hide Raise, Product;
    RaiseOne(ALPHA);
    Doubling(1, ALPHA, Ext(N28, N19));
    Doubling(2, Ext(N28, N19), Ext(N7, N31));
    Doubling(4, Ext(N7, N31), Ext(N8, N29));
    Doubling(8, Ext(N8, N29), Ext(N11, N25));
    Doubling(16, Ext(N11, N25), Ext(N30, N9));
    Doubling(32, Ext(N30, N9), Ext(N15, N19));
    Doubling(64, Ext(N15, N19), Ext(N24, N31));
    Doubling(128, Ext(N24, N31), Ext(N21, N29));
    Doubling(256, Ext(N21, N29), Ext(N18, N25));
    Doubling(512, Ext(N18, N25), ALPHA);
  }

  lemma Joining(m: nat, n: nat, y: Ext, z: Ext, r: Ext)
    requires Raise(ALPHA, m) == y && Raise(ALPHA, n) == z && Product(y, z) == r
    ensures Raise(ALPHA, m + n) == r
  {
    RaiseAdd(ALPHA, m, n);
  }

  lemma Products()
    ensures Product(Ext(N30, N9), ALPHA) == Ext(N23, N0)
    ensures Product(Ext(N7, N31), ALPHA) == Ext(N15, N20)
    ensures Product(Ext(N8, N29), Ext(N15, N20)) == Ext(N25, N1)
    ensures Product(Ext(N11, N25), Ext(N25, N1)) == Ext(N12, N27)
  {}

  lemma MoreProducts()
    ensures Product(Ext(N15, N19), Ext(N12, N27)) == Ext(N28, N21)
    ensures Product(Ext(N11, N25), Ext(N15, N20)) == Ext(N10, N3)
    ensures Product(Ext(N15, N19), Ext(N10, N3)) == Ext(N1, N23)
    ensures Product(Ext(N21, N29), Ext(N1, N23)) == Ext(N1, N1)
  {}

  /** No power with an exponent 1023 / p for a prime p is one. */
  lemma Divisors()
    ensures Raise(ALPHA, 33) != UNIT && Raise(ALPHA, 93) != UNIT && Raise(ALPHA, 341) != UNIT
  {
    hide Raise, Product;
    Squares();
    Products();
    MoreProducts();
    Joining(32, 1, Ext(N30, N9), ALPHA, Ext(N23, N0));
    Joining(4, 1, Ext(N7, N31), ALPHA, Ext(N15, N20));
    Joining(8, 5, Ext(N8, N29), Ext(N15, N20), Ext(N25, N1));
    Joining(16, 13, Ext(N11, N25), Ext(N25, N1), Ext(N12, N27));
    Joining(64, 29, Ext(N15, N19), Ext(N12, N27), Ext(N28, N21));
    Joining(16, 5, Ext(N11, N25), Ext(N15, N20), Ext(N10, N3));
    Joining(64, 21, Ext(N15, N19), Ext(N10, N3), Ext(N1, N23));
    Joining(256, 85, Ext(N21, N29), Ext(N1, N23), Ext(N1, N1));
  }

  lemma WholeOrder()
    ensures Raise(ALPHA, 1023) == UNIT
  {
    hide Product, Sum, Raise;
    Progression();
    var x := Raise(ALPHA, 1023);
    Squares();
    Joining(1, 1023, ALPHA, x, Product(ALPHA, x));
    ProductSum(x, UNIT, ALPHA);
    ProductUnits(ALPHA);
    SumLaws(ALPHA, ALPHA, ALPHA);
    SumLaws(x, UNIT, ZERO);
    if Sum(x, UNIT) != ZERO {
      ProductNonzero(ALPHA, Sum(x, UNIT));
    }
  }

  /** A number that a prime of 1023 does not divide has an inverse modulo it. */
  lemma Inverted(p: nat, d: nat, r: nat, s: nat) returns (t: nat)
    requires p > 0 && r == d % p && r * s % p == 1
    ensures d * s == p * t + 1
  {
    var q, k := d / p, r * s / p;
    assert d == p * q + r && r * s == p * k + 1;
    t := q * s + k;
    calc {
      d * s;
      (p * q + r) * s;
      p * q * s + r * s;
      p * (q * s) + p * k + 1;
      p * t + 1;
    }
  }

  function Inverse3(r: nat): nat { if r == 1 then 1 else 2 }

  function Inverse11(r: nat): nat {
    if r == 1 then 1 else if r == 2 then 6 else if r == 3 then 4 else if r == 4 then 3 else if r == 5 then 9
    else if r == 6 then 2 else if r == 7 then 8 else if r == 8 then 7 else if r == 9 then 5 else 10
  }

  const INVERSES31: seq<nat> :=
    [0, 1, 16, 21, 8, 25, 26, 9, 4, 7, 28, 17, 13, 12, 20, 29, 2, 11, 19, 18, 14, 3, 24, 27, 22, 5, 6, 23, 10, 15, 30]

  lemma Inverses31(r: nat)
    requires 1 <= r <= 30
    ensures r * INVERSES31[r] % 31 == 1
  {}

  /** No power of the primitive element below the 1023rd is one. */
  lemma Primitive(d: nat)
    requires 1 <= d <= 1022
    ensures Raise(ALPHA, d) != UNIT
  {
    hide Raise;
    if Raise(ALPHA, d) == UNIT {
      Divisors();
      if d % 3 != 0 {
        var t := Inverted(3, d, d % 3, Inverse3(d % 3));
        NotUnit(d, 3, 341, Inverse3(d % 3), t);
      } else if d % 11 != 0 {
        var t := Inverted(11, d, d % 11, Inverse11(d % 11));
        NotUnit(d, 11, 93, Inverse11(d % 11), t);
      } else {
        assert d % 31 != 0;
        Inverses31(d % 31);
        var t := Inverted(31, d, d % 31, INVERSES31[d % 31]);
        NotUnit(d, 31, 33, INVERSES31[d % 31], t);
      }
    }
  }

  lemma NotUnit(d: nat, p: nat, m: nat, s: nat, t: nat)
    requires Raise(ALPHA, d) == UNIT && m * p == 1023 && d * s == p * t + 1
    ensures Raise(ALPHA, m) == UNIT
  {
    hide Raise;
    WholeOrder();
    RaiseMul(ALPHA, m, p);
    RaiseMul(ALPHA, m, d);
    RaiseMul(ALPHA, d, m);
    assert m * d == d * m;
    RaiseOfUnit(m);
    OnlyUnit(Raise(ALPHA, m), p, d, s, t);
  }

  lemma PowersDiffer(m: nat, n: nat)
    requires m < n < m + 1023
    ensures Raise(ALPHA, m) != Raise(ALPHA, n)
  {
    hide Raise, Product, Sum;
    var x, y := Raise(ALPHA, m), Raise(ALPHA, n - m);
    Primitive(n - m);
    RaiseAdd(ALPHA, m, n - m);
    Progression();
    RaiseNonzero(ALPHA, m);
    SumLaws(y, UNIT, ZERO);
    ProductNonzero(x, Sum(y, UNIT));
    ProductSum(y, UNIT, x);
    ProductUnits(x);
    SumLaws(Product(x, y), x, ZERO);
  }

  // ----- three terms that vanish at three zeros ----------------------------------------------------------------

  /** Three terms whose first three moments vanish, with the first base different from the others. */
  lemma FirstVanishes(y1: Ext, y2: Ext, y3: Ext, x1: Ext, x2: Ext, x3: Ext)
    requires Sum(y1, Sum(y2, y3)) == ZERO
    requires Sum(Product(y1, x1), Sum(Product(y2, x2), Product(y3, x3))) == ZERO
    requires Sum(Product(Product(y1, x1), x1), Sum(Product(Product(y2, x2), x2), Product(Product(y3, x3), x3))) == ZERO
    requires x1 != x2 && x1 != x3
    ensures y1 == ZERO
  {
    hide Product, Sum;
    var a, b := Sum(x1, x3), Sum(x2, x3);
    Eliminate(y1, y2, y3, x1, x2, x3);
    Eliminate(Product(y1, x1), Product(y2, x2), Product(y3, x3), x1, x2, x3);
    var u, v := Product(y1, a), Product(y2, b);
    assert u == v by { SumLaws(u, v, ZERO); }
    Exchange(y1, x1, a);
    Exchange(y2, x2, b);
    SumLaws(Product(u, x1), Product(v, x2), ZERO);
    assert Product(u, x1) == Product(u, x2);
    ProductSum(x1, x2, u);
    SumLaws(Product(u, x1), Product(u, x2), ZERO);
    SumLaws(x1, x2, ZERO);
    SumLaws(x1, x3, ZERO);
    if u != ZERO {
      ProductNonzero(u, Sum(x1, x2));
    }
    if y1 != ZERO {
      ProductNonzero(y1, a);
    }
  }

  lemma Exchange(y: Ext, x: Ext, a: Ext)
    ensures Product(Product(y, x), a) == Product(Product(y, a), x)
  {
    hide Product;
    ProductAssoc(y, x, a);
    ProductComm(x, a);
    ProductAssoc(y, a, x);
  }

  /** Taking x3 times the sum of the terms from the sum of their products removes the third. */
  lemma Eliminate(y1: Ext, y2: Ext, y3: Ext, x1: Ext, x2: Ext, x3: Ext)
    requires Sum(y1, Sum(y2, y3)) == ZERO
    requires Sum(Product(y1, x1), Sum(Product(y2, x2), Product(y3, x3))) == ZERO
    ensures Sum(Product(y1, Sum(x1, x3)), Product(y2, Sum(x2, x3))) == ZERO
  {
    hide Product, Sum;
    ProductSum(x1, x3, y1);
    ProductSum(x2, x3, y2);
    SumLaws(y1, Sum(y2, y3), ZERO);
    SumLaws(y1, y2, y3);
    SumLaws(Sum(y1, y2), y3, ZERO);
    assert y3 == Sum(y1, y2);
    ProductSum(y1, y2, x3);
    Swap4(Product(y1, x1), Product(y1, x3), Product(y2, x2), Product(y2, x3));
    SumLaws(Product(y1, x1), Product(y2, x2), Product(y3, x3));
  }

  // ----- the value of a list --------------------------------------------------------------------------------------

  /** The list as a polynomial, its last symbol the constant term. */
  function Value(z: Ext, e: seq<nat>): Ext {
    if e == [] then ZERO else Next(z, Value(z, e[..|e| - 1]), SymOf(e[|e| - 1]))
  }

  /** The register after a list, from zero, has the value of the list at the zeros of the generator. */
  lemma {:induction false} RunValue(z: Ext, e: seq<nat>)
    requires Root(z) && B.Symbols(e)
    ensures Eval(z, RegOf(B.Run(0, e))) == Value(z, e)
  {
    hide Eval, RegOf, SymOf, Root, TimesX, B.Step, Sum, Product, Embed;
    if e == [] {
      EvalNone(z);
    } else {
      var n := |e| - 1;
      RunValue(z, e[..n]);
      StepTimesX(B.Run(0, e[..n]), e[n]);
      EvalTimesX(z, RegOf(B.Run(0, e[..n])), SymOf(e[n]));
    }
  }

  lemma EvalNone(z: Ext)
    ensures Eval(z, RegOf(0)) == ZERO
  {
    assert RegOf(0) == NONE;
    EmbedSum(NIL, NIL);
    NextNil(z, ZERO);
    ProductUnits(z);
    hide Next, Embed, Product;
  }

  /** A symbol times a power. */
  function Term(z: Ext, s: Sym, n: nat): Ext { Scale(s, Raise(z, n)) }

  lemma EmbedProduct(s: Sym, x: Ext)
    ensures Product(x, Embed(s)) == Scale(s, x)
  {
    ProductScale(s, x, UNIT);
    ProductUnits(x);
    assert Embed(s) == Scale(s, UNIT) by { MulUnits(s); }
    hide Product, Scale, Embed;
  }

  lemma TermUp(z: Ext, s: Sym, m: nat, n: nat)
    ensures Product(Raise(z, m), Term(z, s, n)) == Term(z, s, m + n)
  {
    hide Product, Scale, Raise;
    ProductScale(s, Raise(z, m), Raise(z, n));
    RaiseAdd(z, m, n);
  }

  lemma {:induction false} ValueCat(z: Ext, e: seq<nat>, f: seq<nat>)
    ensures Value(z, e + f) == Sum(Product(Raise(z, |f|), Value(z, e)), Value(z, f))
    decreases |f|
  {
    hide Product, Sum, SymOf, Embed;
    if f == [] {
      assert e + f == e;
      ProductUnits(Value(z, e));
      SumLaws(Value(z, e), ZERO, ZERO);
    } else {
      var n := |f| - 1;
      var s := SymOf(f[n]);
      assert (e + f)[..|e| + n] == e + f[..n];
      ValueCat(z, e, f[..n]);
      ProductSum(Product(Raise(z, n), Value(z, e)), Value(z, f[..n]), z);
      ProductAssoc(z, Raise(z, n), Value(z, e));
      SumLaws(Product(z, Product(Raise(z, n), Value(z, e))), Product(z, Value(z, f[..n])), Embed(s));
    }
  }

  ghost predicate ZeroBut(e: seq<nat>, i: nat) {
    forall j :: 0 <= j < |e| && j != i ==> e[j] == 0
  }

  lemma {:induction false} ValueZeros(z: Ext, e: seq<nat>)
    requires forall j :: 0 <= j < |e| ==> e[j] == 0
    ensures Value(z, e) == ZERO
  {
    hide Next;
    if e != [] {
      ValueZeros(z, e[..|e| - 1]);
      assert SymOf(0) == NIL;
      NextNil(z, ZERO);
      ProductUnits(z);
    }
  }

  lemma ValueSpike(z: Ext, e: seq<nat>, i: nat)
    requires i < |e| && ZeroBut(e, i)
    ensures Value(z, e) == Term(z, SymOf(e[i]), |e| - 1 - i)
  {
    hide SymOf, Product, Sum, Embed, Raise, Scale;
    var pre, post := e[..i] + [e[i]], e[i + 1..];
    assert e == pre + post;
    ValueCat(z, pre, post);
    ValueZeros(z, post);
    ValueZeros(z, e[..i]);
    assert pre[..i] == e[..i];
    NextZero(z, SymOf(e[i]));
    EmbedProduct(SymOf(e[i]), Raise(z, |post|));
    SumLaws(Term(z, SymOf(e[i]), |post|), ZERO, ZERO);
  }

  lemma ValueThree(z: Ext, e: seq<nat>, i: nat, j: nat, k: nat)
    requires i < j < k < |e| && forall m :: 0 <= m < |e| && m != i && m != j && m != k ==> e[m] == 0
    ensures var n := |e| - 1;
            Value(z, e) == Sum(Term(z, SymOf(e[i]), n - i), Sum(Term(z, SymOf(e[j]), n - j), Term(z, SymOf(e[k]), n - k)))
  {
    hide SymOf, Product, Sum, Raise, Scale, Value;
    var n := |e| - 1;
    var first, second, third := e[..j], e[j..k], e[k..];
    assert e == first + (second + third);
    ValueCat(z, first, second + third);
    ValueCat(z, second, third);
    ValueSpike(z, first, i);
    ValueSpike(z, second, 0);
    ValueSpike(z, third, 0);
    TermUp(z, SymOf(e[i]), |e| - j, j - 1 - i);
    TermUp(z, SymOf(e[j]), |e| - k, k - 1 - j);
  }

  // ----- up to three errors are detected ---------------------------------------------------------------------------

  lemma TermNext(z: Ext, s: Sym, n: nat)
    ensures Term(Product(z, ALPHA), s, n) == Product(Term(z, s, n), Raise(ALPHA, n))
  {
    hide Product, Scale, Raise;
    RaiseProduct(z, ALPHA, n);
    ProductScale(s, Raise(z, n), Raise(ALPHA, n));
  }

  /** A combination of three terms that vanishes at all three zeros has no first term. */
  lemma FirstTerm(s1: Sym, s2: Sym, s3: Sym, n1: nat, n2: nat, n3: nat)
    requires Sum(Term(RHO1, s1, n1), Sum(Term(RHO1, s2, n2), Term(RHO1, s3, n3))) == ZERO
    requires Sum(Term(RHO2, s1, n1), Sum(Term(RHO2, s2, n2), Term(RHO2, s3, n3))) == ZERO
    requires Sum(Term(RHO3, s1, n1), Sum(Term(RHO3, s2, n2), Term(RHO3, s3, n3))) == ZERO
    requires Raise(ALPHA, n1) != Raise(ALPHA, n2) && Raise(ALPHA, n1) != Raise(ALPHA, n3)
    ensures s1 == NIL
  {
    hide Product, Sum, Raise, Term;
    Progression();
    TermNext(RHO1, s1, n1);
    TermNext(RHO1, s2, n2);
    TermNext(RHO1, s3, n3);
    TermNext(RHO2, s1, n1);
    TermNext(RHO2, s2, n2);
    TermNext(RHO2, s3, n3);
    FirstVanishes(Term(RHO1, s1, n1), Term(RHO1, s2, n2), Term(RHO1, s3, n3), Raise(ALPHA, n1), Raise(ALPHA, n2), Raise(ALPHA, n3));
    if s1 != NIL {
      TermNonzero(RHO1, s1, n1);
    }
  }

  lemma TermNonzero(z: Ext, s: Sym, n: nat)
    requires z != ZERO && s != NIL
    ensures Term(z, s, n) != ZERO
  {
    hide Scale, Raise;
    RaiseNonzero(z, n);
    ScaledNonzero(s, Raise(z, n));
  }

  lemma Rotate(x: Ext, y: Ext, z: Ext)
    ensures Sum(x, Sum(y, z)) == Sum(y, Sum(z, x)) == Sum(z, Sum(x, y))
  {
    hide Sum;
    SumLaws(x, y, z);
    SumLaws(y, z, x);
    SumLaws(z, x, y);
    SumLaws(x, Sum(y, z), ZERO);
    SumLaws(y, Sum(z, x), ZERO);
    SumLaws(z, Sum(x, y), ZERO);
  }

  lemma NoTerms(s1: Sym, s2: Sym, s3: Sym, n1: nat, n2: nat, n3: nat)
    requires Sum(Term(RHO1, s1, n1), Sum(Term(RHO1, s2, n2), Term(RHO1, s3, n3))) == ZERO
    requires Sum(Term(RHO2, s1, n1), Sum(Term(RHO2, s2, n2), Term(RHO2, s3, n3))) == ZERO
    requires Sum(Term(RHO3, s1, n1), Sum(Term(RHO3, s2, n2), Term(RHO3, s3, n3))) == ZERO
    requires n3 < n2 < n1 < n3 + 1023
    ensures s1 == s2 == s3 == NIL
  {
    hide Product, Sum, Raise, Term;
    PowersDiffer(n2, n1);
    PowersDiffer(n3, n1);
    PowersDiffer(n3, n2);
    Rotate(Term(RHO1, s1, n1), Term(RHO1, s2, n2), Term(RHO1, s3, n3));
    Rotate(Term(RHO2, s1, n1), Term(RHO2, s2, n2), Term(RHO2, s3, n3));
    Rotate(Term(RHO3, s1, n1), Term(RHO3, s2, n2), Term(RHO3, s3, n3));
    FirstTerm(s1, s2, s3, n1, n2, n3);
    FirstTerm(s2, s3, s1, n2, n3, n1);
    FirstTerm(s3, s1, s2, n3, n1, n2);
  }

  lemma SymZero(n: nat)
    requires n < 32 && SymOf(n) == NIL
    ensures n == 0
  {}

  lemma ValueVanishes(z: Ext, e: seq<nat>, i: nat, j: nat, k: nat)
    requires Root(z) && B.Symbols(e) && i < j < k < |e| && B.Run(0, e) == 0
    requires forall m :: 0 <= m < |e| && m != i && m != j && m != k ==> e[m] == 0
    ensures var n := |e| - 1; Sum(Term(z, SymOf(e[i]), n - i), Sum(Term(z, SymOf(e[j]), n - j), Term(z, SymOf(e[k]), n - k))) == ZERO
  {
    hide SymOf, Sum, Term, Root, Eval, RegOf, Value;
    RunValue(z, e);
    EvalNone(z);
    ValueThree(z, e, i, j, k);
  }

  /** A list with nonzero symbols in at most three places leaves a register of zero only if it is zero. */
  lemma ZeroRegister(e: seq<nat>, i: nat, j: nat, k: nat)
    requires B.Symbols(e) && i < j < k < |e| && k < i + 1023 && B.Run(0, e) == 0
    requires forall m :: 0 <= m < |e| && m != i && m != j && m != k ==> e[m] == 0
    ensures e[i] == e[j] == e[k] == 0
  {
    hide SymOf, Sum, Term, Root, B.Run;
    Root1();
    Root2();
    Root3();
    ValueVanishes(RHO1, e, i, j, k);
    ValueVanishes(RHO2, e, i, j, k);
    ValueVanishes(RHO3, e, i, j, k);
    var n := |e| - 1;
    NoTerms(SymOf(e[i]), SymOf(e[j]), SymOf(e[k]), n - i, n - j, n - k);
    SymZero(e[i]);
    SymZero(e[j]);
    SymZero(e[k]);
  }

  /** Lists of symbols that differ in at most three places, less than 1023 apart, and in at least one of them, leave different registers. */
  lemma ThreeErrorsDetected(s: seq<nat>, t: seq<nat>, i: nat, j: nat, k: nat)
    requires |s| == |t| && B.Symbols(s) && B.Symbols(t) && i < j < k < |s| && k < i + 1023
    requires forall m :: 0 <= m < |s| && m != i && m != j && m != k ==> s[m] == t[m]
    requires s[i] != t[i] || s[j] != t[j] || s[k] != t[k]
    ensures B.Run(1, s) != B.Run(1, t)
  {
    hide B.Run, BitXor, Pow2;
    var e := B.XorSeq(s, t);
    Powers();
    forall m | 0 <= m < |e|
      ensures e[m] < 32 && (e[m] == 0 <==> s[m] == t[m])
    {
      OrBound(s[m], t[m], 5);
      XorCancel(s[m], t[m]);
    }
    B.RunLinear(1, 1, s, t);
    XorSelf(1);
    XorCancel(B.Run(1, s), B.Run(1, t));
    if B.Run(1, s) == B.Run(1, t) {
      ZeroRegister(e, i, j, k);
    }
  }

  /** Three places that include the given ones. */
  lemma Places(d: set<nat>, n: nat) returns (i: nat, j: nat, k: nat)
    requires |d| <= 3 <= n && forall x :: x in d ==> x < n
    ensures i < j < k < n && forall x :: x in d ==> x == i || x == j || x == k
    decreases 3 - |d|
  {
    if |d| < 3 {
      var x := Fresh(d, n);
      i, j, k := Places(d + {x}, n);
    } else {
      var a, b, c := Members(d);
      i, j, k := Ordered(a, b, c);
    }
  }

  lemma Members(d: set<nat>) returns (a: nat, b: nat, c: nat)
    requires |d| == 3
    ensures d == {a, b, c} && a != b && a != c && b != c
  {
    a :| a in d;
    var d1 := d - {a};
    assert |d1| == 2;
    b :| b in d1;
    var d2 := d1 - {b};
    assert |d2| == 1;
    c :| c in d2;
    assert |d2 - {c}| == 0;
    assert d == d2 - {c} + {a, b, c};
  }

  lemma Ordered(a: nat, b: nat, c: nat) returns (i: nat, j: nat, k: nat)
    requires a != b && a != c && b != c
    ensures i < j < k && {i, j, k} == {a, b, c} && k in {a, b, c} && a in {i, j, k} && b in {i, j, k} && c in {i, j, k}
  {
    i, j, k := a, b, c;
    if i > j { i, j := j, i; }
    if j > k { j, k := k, j; }
    if i > j { i, j := j, i; }
  }

  lemma Fresh(d: set<nat>, n: nat) returns (x: nat)
    requires |d| < 3 <= n
    ensures x < n && x !in d
  {
    x := if 0 !in d then 0 else if 1 !in d then 1 else 2;
    if 0 in d && 1 in d && 2 in d {
      assert |d| >= |{0, 1, 2}| by { assert d == {0, 1, 2} + (d - {0, 1, 2}); }
    }
  }

  /** Any one to three wrong symbols among at most 1023 are detected. */
  lemma ErrorsDetected(s: seq<nat>, t: seq<nat>, d: set<nat>)
    requires 3 <= |s| == |t| <= 1023 && B.Symbols(s) && B.Symbols(t)
    requires 1 <= |d| <= 3 && forall m: nat :: m in d <==> m < |s| && s[m] != t[m]
    ensures B.Run(1, s) != B.Run(1, t)
  {
    hide B.Run;
    var i, j, k := Places(d, |s|);
    var m :| m in d;
    ThreeErrorsDetected(s, t, i, j, k);
  }
}

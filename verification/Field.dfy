/**
 * The fields behind the Bech32 checksum (comments in src/bech32.cpp, section "Checksum" of BIP 173): GF(32), whose
 * elements are the symbols of five bits, and GF(1024), which holds the roots of the generator polynomial.
 */
module Field {

  // ----- GF(32) ---------------------------------------------------------------------------------------

  /** A polynomial in a over GF(2) of degree four, lowest coefficient first, with a^5 = a^3 + 1. */
  datatype Sym = Sym(b0: bool, b1: bool, b2: bool, b3: bool, b4: bool)

  const NIL := Sym(false, false, false, false, false)
  const ONE := Sym(true, false, false, false, false)

  function Add(x: Sym, y: Sym): Sym {
    Sym(x.b0 != y.b0, x.b1 != y.b1, x.b2 != y.b2, x.b3 != y.b3, x.b4 != y.b4)
  }

  function TimesA(x: Sym): Sym {
    Sym(x.b4, x.b0, x.b1, x.b2 != x.b4, x.b3)
  }

  function Pick(b: bool, x: Sym): Sym { if b then x else NIL }

  /** The product, with the bits of x in Horner's scheme. */
  function Mul(x: Sym, y: Sym): Sym {
    Add(Pick(x.b0, y), TimesA(Add(Pick(x.b1, y), TimesA(Add(Pick(x.b2, y), TimesA(Add(Pick(x.b3, y), TimesA(Pick(x.b4, y)))))))))
  }

  /** One round of Horner's scheme. */
  function Round(b: bool, y: Sym, t: Sym): Sym { Add(Pick(b, y), TimesA(t)) }

  lemma MulDef(x: Sym, y: Sym)
    ensures Mul(x, y) == Round(x.b0, y, Round(x.b1, y, Round(x.b2, y, Round(x.b3, y, Pick(x.b4, y)))))
  {}

  lemma RoundAdd(b: bool, x: Sym, y: Sym, s: Sym, t: Sym)
    ensures Round(b, Add(x, y), Add(s, t)) == Add(Round(b, x, s), Round(b, y, t))
    ensures Pick(b, Add(x, y)) == Add(Pick(b, x), Pick(b, y))
  {}

  lemma RoundTimesA(b: bool, y: Sym, t: Sym)
    ensures Round(b, TimesA(y), TimesA(t)) == TimesA(Round(b, y, t)) && Pick(b, TimesA(y)) == TimesA(Pick(b, y))
  {}

  /** The product is linear in its second factor. */
  lemma MulAddRight(z: Sym, x: Sym, y: Sym)
    ensures Mul(z, Add(x, y)) == Add(Mul(z, x), Mul(z, y))
  {
    MulDef(z, x);
    MulDef(z, y);
    MulDef(z, Add(x, y));
    hide Mul, Add, Round, Pick;
    var s4, t4 := Pick(z.b4, x), Pick(z.b4, y);
    var s3, t3 := Round(z.b3, x, s4), Round(z.b3, y, t4);
    var s2, t2 := Round(z.b2, x, s3), Round(z.b2, y, t3);
    var s1, t1 := Round(z.b1, x, s2), Round(z.b1, y, t2);
    RoundAdd(z.b4, x, y, s4, t4);
    RoundAdd(z.b3, x, y, s4, t4);
    RoundAdd(z.b2, x, y, s3, t3);
    RoundAdd(z.b1, x, y, s2, t2);
    RoundAdd(z.b0, x, y, s1, t1);
  }

  lemma MulTimesARight(z: Sym, y: Sym)
    ensures Mul(z, TimesA(y)) == TimesA(Mul(z, y))
  {
    MulDef(z, y);
    MulDef(z, TimesA(y));
    hide Mul, TimesA, Round, Pick;
    var t4 := Pick(z.b4, y);
    var t3 := Round(z.b3, y, t4);
    var t2 := Round(z.b2, y, t3);
    var t1 := Round(z.b1, y, t2);
    RoundTimesA(z.b4, y, t4);
    RoundTimesA(z.b3, y, t4);
    RoundTimesA(z.b2, y, t3);
    RoundTimesA(z.b1, y, t2);
    RoundTimesA(z.b0, y, t1);
  }

  lemma MulPickRight(b: bool, z: Sym, y: Sym)
    ensures Mul(z, Pick(b, y)) == Pick(b, Mul(z, y))
  {
    MulUnits(z);
  }

  lemma MulUnits(x: Sym)
    ensures Mul(ONE, x) == x == Mul(x, ONE) && Mul(NIL, x) == NIL == Mul(x, NIL)
  {}

  lemma RoundDef(b: bool, y: Sym, t: Sym)
    ensures Round(b, y, t) == Add(Pick(b, y), TimesA(t))
  {}

  /** A symbol is its own bits in Horner's scheme. */
  lemma Bits(x: Sym)
    ensures x == Round(x.b0, ONE, Round(x.b1, ONE, Round(x.b2, ONE, Round(x.b3, ONE, Pick(x.b4, ONE)))))
  {
    MulDef(x, ONE);
    MulUnits(x);
  }

  lemma MulComm(x: Sym, y: Sym)
    ensures Mul(x, y) == Mul(y, x)
  {
    MulDef(x, y);
    Bits(x);
    hide Mul, Round, Pick;
    var t4 := Pick(x.b4, ONE);
    var t3 := Round(x.b3, ONE, t4);
    var t2 := Round(x.b2, ONE, t3);
    var t1 := Round(x.b1, ONE, t2);
    MulPickRight(x.b4, y, ONE);
    MulUnits(y);
    MulRoundTimes(y, x.b3, ONE, t4);
    MulRoundTimes(y, x.b2, ONE, t3);
    MulRoundTimes(y, x.b1, ONE, t2);
    MulRoundTimes(y, x.b0, ONE, t1);
  }

  lemma MulAdd(x: Sym, y: Sym, z: Sym)
    ensures Mul(Add(x, y), z) == Add(Mul(x, z), Mul(y, z)) && Mul(z, Add(x, y)) == Add(Mul(z, x), Mul(z, y))
  {
    hide Mul, Add;
    MulAddRight(z, x, y);
    MulComm(z, x);
    MulComm(z, y);
    MulComm(z, Add(x, y));
  }

  lemma MulAssoc(x: Sym, y: Sym, z: Sym)
    ensures Mul(Mul(x, y), z) == Mul(x, Mul(y, z))
  {
    MulDef(x, y);
    MulDef(x, Mul(z, y));
    hide Mul, Round, Pick;
    var t4 := Pick(x.b4, y);
    var t3 := Round(x.b3, y, t4);
    var t2 := Round(x.b2, y, t3);
    var t1 := Round(x.b1, y, t2);
    MulPickRight(x.b4, z, y);
    MulRoundTimes(z, x.b3, y, t4);
    MulRoundTimes(z, x.b2, y, t3);
    MulRoundTimes(z, x.b1, y, t2);
    MulRoundTimes(z, x.b0, y, t1);
    MulComm(Mul(x, y), z);
    MulComm(y, z);
  }

  lemma MulRoundTimes(z: Sym, b: bool, y: Sym, t: Sym)
    ensures Mul(z, Round(b, y, t)) == Round(b, Mul(z, y), Mul(z, t))
  {
    RoundDef(b, y, t);
    RoundDef(b, Mul(z, y), Mul(z, t));
    hide Mul, Add, TimesA, Pick, Round;
    MulAddRight(z, Pick(b, y), TimesA(t));
    MulPickRight(b, z, y);
    MulTimesARight(z, t);
  }

  /** There are no zero divisors. */
  lemma MulNonzero(x: Sym, y: Sym)
    requires x != NIL && y != NIL
    ensures Mul(x, y) != NIL
  {}

  function Square(x: Sym): Sym { Mul(x, x) }

  /** Squaring is linear over GF(2). */
  lemma SquareBits(x: Sym)
    ensures Square(x) == Sym(x.b0, x.b3 != x.b4, x.b1, x.b4, (x.b2 != x.b3) != x.b4)
  {}

  // ----- GF(1024) -------------------------------------------------------------------------------------

  /** u + v * w, with w^2 = w + 1. */
  datatype Ext = Ext(u: Sym, v: Sym)

  const ZERO := Ext(NIL, NIL)
  const UNIT := Ext(ONE, NIL)

  function Sum(x: Ext, y: Ext): Ext { Ext(Add(x.u, y.u), Add(x.v, y.v)) }
  function Scale(s: Sym, x: Ext): Ext { Ext(Mul(s, x.u), Mul(s, x.v)) }
  function TimesW(x: Ext): Ext { Ext(x.v, Add(x.u, x.v)) }
  function Product(x: Ext, y: Ext): Ext { Sum(Scale(x.u, y), TimesW(Scale(x.v, y))) }

  lemma SumLaws(x: Ext, y: Ext, z: Ext)
    ensures Sum(x, y) == Sum(y, x) && Sum(Sum(x, y), z) == Sum(x, Sum(y, z))
    ensures Sum(x, ZERO) == x == Sum(ZERO, x) && Sum(x, x) == ZERO && (Sum(x, y) == ZERO <==> x == y)
  {}

  lemma ScaleLaws(s: Sym, t: Sym, x: Ext, y: Ext)
    ensures Scale(Add(s, t), x) == Sum(Scale(s, x), Scale(t, x)) && Scale(s, Sum(x, y)) == Sum(Scale(s, x), Scale(s, y))
    ensures Scale(Mul(s, t), x) == Scale(s, Scale(t, x)) && Scale(s, TimesW(x)) == TimesW(Scale(s, x))
    ensures Scale(ONE, x) == x && Scale(NIL, x) == ZERO && Scale(s, Scale(t, x)) == Scale(t, Scale(s, x))
  {
    hide Mul, Add;
    MulAdd(s, t, x.u);
    MulAdd(s, t, x.v);
    MulAdd(x.u, y.u, s);
    MulAdd(x.v, y.v, s);
    MulAdd(x.u, x.v, s);
    MulAssoc(s, t, x.u);
    MulAssoc(s, t, x.v);
    MulAssoc(t, s, x.u);
    MulAssoc(t, s, x.v);
    MulComm(s, t);
    MulUnits(x.u);
    MulUnits(x.v);
  }

  lemma TimesWLaws(x: Ext, y: Ext)
    ensures TimesW(Sum(x, y)) == Sum(TimesW(x), TimesW(y)) && TimesW(TimesW(x)) == Sum(x, TimesW(x)) && TimesW(ZERO) == ZERO
  {}

  lemma ProductComm(x: Ext, y: Ext)
    ensures Product(x, y) == Product(y, x)
  {
    MulComm(x.u, y.u);
    MulComm(x.u, y.v);
    MulComm(x.v, y.u);
    MulComm(x.v, y.v);
    hide Mul;
  }

  lemma Swap4(a: Ext, b: Ext, c: Ext, d: Ext)
    ensures Sum(Sum(a, b), Sum(c, d)) == Sum(Sum(a, c), Sum(b, d))
  {}

  lemma ProductSum(x: Ext, y: Ext, z: Ext)
    ensures Product(Sum(x, y), z) == Sum(Product(x, z), Product(y, z)) && Product(z, Sum(x, y)) == Sum(Product(z, x), Product(z, y))
  {
    ScaleLaws(x.u, y.u, z, z);
    ScaleLaws(x.v, y.v, z, z);
    hide Scale, TimesW, Sum;
    assert Sum(x, y) == Ext(Add(x.u, y.u), Add(x.v, y.v)) by { SumDef(x, y); }
    TimesWLaws(Scale(x.v, z), Scale(y.v, z));
    Swap4(Scale(x.u, z), Scale(y.u, z), TimesW(Scale(x.v, z)), TimesW(Scale(y.v, z)));
    ProductComm(z, x);
    ProductComm(z, y);
    ProductComm(z, Sum(x, y));
  }

  lemma SumDef(x: Ext, y: Ext)
    ensures Sum(x, y) == Ext(Add(x.u, y.u), Add(x.v, y.v))
  {}

  lemma ProductScale(s: Sym, x: Ext, y: Ext)
    ensures Product(Scale(s, x), y) == Scale(s, Product(x, y)) && Product(x, Scale(s, y)) == Scale(s, Product(x, y))
  {
    ScaleLaws(s, x.u, y, y);
    ScaleLaws(s, x.v, y, y);
    ScaleLaws(s, s, Scale(x.u, y), TimesW(Scale(x.v, y)));
    ScaleLaws(s, s, Scale(x.v, y), y);
    ScaleDef(s, x);
    hide Scale, TimesW, Sum;
  }

  lemma ScaleDef(s: Sym, x: Ext)
    ensures Scale(s, x) == Ext(Mul(s, x.u), Mul(s, x.v))
  {}

  lemma ProductTimesW(x: Ext, y: Ext)
    ensures Product(TimesW(x), y) == TimesW(Product(x, y))
  {
    var p, q := Scale(x.u, y), Scale(x.v, y);
    ScaleLaws(x.u, x.v, y, y);
    TimesWDef(x);
    hide Scale, TimesW, Sum;
    TimesWLaws(p, q);
    TimesWLaws(p, TimesW(q));
    TimesWLaws(q, q);
    SumLaws(q, TimesW(p), TimesW(q));
    SumLaws(TimesW(p), q, TimesW(q));
  }

  lemma TimesWDef(x: Ext)
    ensures TimesW(x) == Ext(x.v, Add(x.u, x.v))
  {}

  lemma ProductAssoc(x: Ext, y: Ext, z: Ext)
    ensures Product(Product(x, y), z) == Product(x, Product(y, z))
  {
    hide Scale, TimesW, Sum;
    ProductDef(x, y);
    ProductDef(x, Product(y, z));
    hide Product;
    ProductSum(Scale(x.u, y), TimesW(Scale(x.v, y)), z);
    ProductScale(x.u, y, z);
    ProductTimesW(Scale(x.v, y), z);
    ProductScale(x.v, y, z);
  }

  lemma ProductDef(x: Ext, y: Ext)
    ensures Product(x, y) == Sum(Scale(x.u, y), TimesW(Scale(x.v, y)))
  {}

  lemma ProductUnits(x: Ext)
    ensures Product(UNIT, x) == x == Product(x, UNIT) && Product(ZERO, x) == ZERO == Product(x, ZERO)
  {
    MulUnits(x.u);
    MulUnits(x.v);
    hide Mul;
  }

  /** The product of x and its conjugate lies in GF(32), and is zero only for zero. */
  function Conjugate(x: Ext): Ext { Ext(Add(x.u, x.v), x.v) }
  function Norm(x: Ext): Sym { Add(Add(Square(x.u), Mul(x.u, x.v)), Square(x.v)) }

  lemma NormNonzero(x: Ext)
    requires x != ZERO
    ensures Norm(x) != NIL
  {
    SquareBits(x.u);
    SquareBits(x.v);
    hide Square;
  }

  lemma ConjugateProduct(x: Ext)
    ensures Product(Conjugate(x), x) == Ext(Norm(x), NIL)
  {
    MulComm(x.u, x.v);
    MulAdd(x.u, x.v, x.u);
    MulAdd(x.u, x.v, x.v);
    MulComm(x.u, Add(x.u, x.v));
    hide Mul;
  }

  lemma ProductNonzero(x: Ext, y: Ext)
    requires x != ZERO && y != ZERO
    ensures Product(x, y) != ZERO
  {
    NormNonzero(x);
    ConjugateProduct(x);
    ProductAssoc(Conjugate(x), x, y);
    ScaledNonzero(Norm(x), y);
    ProductUnits(Conjugate(x));
    hide Product, Norm;
  }

  lemma ScaledNonzero(s: Sym, y: Ext)
    requires s != NIL && y != ZERO
    ensures Product(Ext(s, NIL), y) == Scale(s, y) != ZERO
  {
    ScaleLaws(s, NIL, y, y);
    TimesWLaws(y, y);
    SumLaws(Scale(s, y), ZERO, ZERO);
    ScaleDef(s, y);
    hide Mul, Scale, TimesW, Sum;
    assert y.u != NIL || y.v != NIL;
    if y.u != NIL {
      MulNonzero(s, y.u);
    } else {
      MulNonzero(s, y.v);
    }
  }

  // ----- powers ----------------------------------------------------------------------------------------

  function Raise(x: Ext, n: nat): Ext {
    if n == 0 then UNIT else Product(x, Raise(x, n - 1))
  }

  lemma {:induction false} RaiseAdd(x: Ext, m: nat, n: nat)
    ensures Raise(x, m + n) == Product(Raise(x, m), Raise(x, n))
  {
    hide Product;
    if m == 0 {
      ProductUnits(Raise(x, n));
    } else {
      RaiseAdd(x, m - 1, n);
      ProductAssoc(x, Raise(x, m - 1), Raise(x, n));
    }
  }

  lemma {:induction false} RaiseOfUnit(n: nat)
    ensures Raise(UNIT, n) == UNIT
  {
    hide Product;
    if n > 0 {
      RaiseOfUnit(n - 1);
      ProductUnits(UNIT);
    }
  }

  lemma {:induction false} RaiseMul(x: Ext, m: nat, n: nat)
    ensures Raise(x, m * n) == Raise(Raise(x, m), n)
  {
    hide Product;
    if n > 0 {
      RaiseMul(x, m, n - 1);
      assert m * n == m + m * (n - 1);
      RaiseAdd(x, m, m * (n - 1));
    }
  }

  lemma {:induction false} RaiseProduct(x: Ext, y: Ext, n: nat)
    ensures Raise(Product(x, y), n) == Product(Raise(x, n), Raise(y, n))
  {
    hide Product;
    if n == 0 {
      ProductUnits(UNIT);
    } else {
      var p, q := Raise(x, n - 1), Raise(y, n - 1);
      RaiseProduct(x, y, n - 1);
      ProductAssoc(x, y, Product(p, q));
      ProductAssoc(y, p, q);
      ProductComm(y, p);
      ProductAssoc(p, y, q);
      ProductAssoc(x, p, Product(y, q));
    }
  }

  lemma {:induction false} RaiseNonzero(x: Ext, n: nat)
    requires x != ZERO
    ensures Raise(x, n) != ZERO
  {
    hide Product;
    if n > 0 {
      RaiseNonzero(x, n - 1);
      ProductNonzero(x, Raise(x, n - 1));
    }
  }

  /** If x^p = x^k = 1 and k is invertible modulo p, then x = 1. */
  lemma OnlyUnit(x: Ext, p: nat, k: nat, s: nat, t: nat)
    requires Raise(x, p) == UNIT && Raise(x, k) == UNIT && k * s == p * t + 1
    ensures x == UNIT
  {
    hide Product, Raise;
    RaiseMul(x, k, s);
    RaiseMul(x, p, t);
    RaiseOfUnit(s);
    RaiseOfUnit(t);
    RaiseAdd(x, p * t, 1);
    RaiseOne(x);
    ProductUnits(x);
  }

  lemma RaiseOne(x: Ext)
    ensures Raise(x, 1) == x
  {
    ProductUnits(x);
    hide Product;
    assert Raise(x, 0) == UNIT;
  }
}

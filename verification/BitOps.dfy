/** Powers of two, single bits and bitwise operations on naturals. */
module BitOps {
  import opened Power

  function Pow2(k: nat): (p: nat)
    ensures p > 0
  {
    PowPositive(2, k);
    Pow(2, k)
  }

  lemma Pow2Add(i: nat, j: nat)
    ensures Pow2(i + j) == Pow2(i) * Pow2(j)
  {
    PowAdd(2, i, j);
  }

  lemma Pow2Small()
    ensures Pow2(0) == 1 && Pow2(1) == 2 && Pow2(8) == 256 && Pow2(16) == 65536
  {
    assert Pow(2, 4) == 16;
    Pow2Add(4, 4);
    Pow2Add(8, 8);
  }

  // ----- bitwise operations ------------------------------------------------------------------------------

  /** Bitwise or of two naturals. */
  function BitOr(x: nat, y: nat): nat
    decreases x + y
  {
    if x == 0 then y else if y == 0 then x
    else 2 * BitOr(x / 2, y / 2) + if x % 2 == 1 || y % 2 == 1 then 1 else 0
  }

  /** Or of numbers without a common bit is their sum. */
  lemma {:induction false} OrDisjoint(x: nat, y: nat, k: nat)
    requires x % Pow2(k) == 0 && y < Pow2(k)
    ensures BitOr(x, y) == x + y && BitOr(y, x) == x + y
  {
    if x != 0 && y != 0 {
      if k > 0 {
        assert Pow2(k) == 2 * Pow2(k - 1);
        assert x == Pow2(k) * (x / Pow2(k));
        var h := x / Pow2(k);
        assert 2 * Pow2(k - 1) * h == 2 * (Pow2(k - 1) * h);
        assert x / 2 == Pow2(k - 1) * h && x % 2 == 0;
        DivModUnique(x / 2, Pow2(k - 1), h, 0);
        OrDisjoint(x / 2, y / 2, k - 1);
      }
    }
  }

  /** Bitwise and of two naturals. */
  function BitAnd(x: nat, y: nat): (r: nat)
    ensures r <= x && r <= y
  {
    if x == 0 || y == 0 then 0
    else 2 * BitAnd(x / 2, y / 2) + if x % 2 == 1 && y % 2 == 1 then 1 else 0
  }

  /** Bitwise exclusive or of two naturals. */
  function BitXor(x: nat, y: nat): nat
    decreases x + y
  {
    if x == 0 then y else if y == 0 then x
    else 2 * BitXor(x / 2, y / 2) + if x % 2 != y % 2 then 1 else 0
  }

  lemma {:induction false} BitAndSelf(x: nat)
    ensures BitAnd(x, x) == x
  {
    if x > 0 {
      BitAndSelf(x / 2);
    }
  }

  // ----- single bits ---------------------------------------------------------------------------------------

  /** Bit b of a number. */
  predicate BitAt(w: nat, b: nat) {
    if b == 0 then w % 2 == 1 else BitAt(w / 2, b - 1)
  }

  /** Shifting the bit down and masking it. */
  lemma {:induction false} BitAtIff(w: nat, b: nat)
    ensures BitAt(w, b) <==> w / Pow2(b) % 2 == 1
  {
    if b > 0 {
      BitAtIff(w / 2, b - 1);
      DivDiv(w, 2, Pow2(b - 1));
    }
  }

  lemma {:induction false} ZeroAt(b: nat)
    ensures !BitAt(0, b)
  {
    if b > 0 {
      ZeroAt(b - 1);
    }
  }

  lemma {:induction false} OrAt(x: nat, y: nat, b: nat)
    ensures BitAt(BitOr(x, y), b) <==> BitAt(x, b) || BitAt(y, b)
    decreases b
  {
    ZeroAt(b);
    if b > 0 && x != 0 && y != 0 {
      OrAt(x / 2, y / 2, b - 1);
    }
  }

  lemma {:induction false} AndAt(x: nat, y: nat, b: nat)
    ensures BitAt(BitAnd(x, y), b) <==> BitAt(x, b) && BitAt(y, b)
    decreases b
  {
    ZeroAt(b);
    if b > 0 && x != 0 && y != 0 {
      AndAt(x / 2, y / 2, b - 1);
    }
  }

  lemma {:induction false} XorAt(x: nat, y: nat, b: nat)
    ensures BitAt(BitXor(x, y), b) <==> BitAt(x, b) != BitAt(y, b)
    decreases b
  {
    ZeroAt(b);
    if b > 0 && x != 0 && y != 0 {
      XorAt(x / 2, y / 2, b - 1);
    }
  }

  /** The complement of a number of n bits. */
  lemma {:induction false} NotAt(x: nat, n: nat, b: nat)
    requires x < Pow2(n) && b < n
    ensures BitAt(Pow2(n) - 1 - x, b) <==> !BitAt(x, b)
    decreases n
  {
    var p := Pow2(n - 1);
    assert Pow2(n) == 2 * p;
    assert (2 * p - 1 - x) / 2 == p - 1 - x / 2;
    if b > 0 {
      NotAt(x / 2, n - 1, b - 1);
    }
  }

  /** A single bit. */
  lemma {:induction false} Pow2At(k: nat, b: nat)
    ensures BitAt(Pow2(k), b) <==> b == k
  {
    if k == 0 {
      if b > 0 {
        ZeroAt(b - 1);
      }
    } else {
      assert Pow2(k) == 2 * Pow2(k - 1);
      if b > 0 {
        Pow2At(k - 1, b - 1);
      }
    }
  }

  lemma {:induction false} OrBound(x: nat, y: nat, n: nat)
    requires x < Pow2(n) && y < Pow2(n)
    ensures BitOr(x, y) < Pow2(n) && BitXor(x, y) < Pow2(n)
  {
    if n > 0 && x != 0 && y != 0 {
      assert Pow2(n) == 2 * Pow2(n - 1);
      OrBound(x / 2, y / 2, n - 1);
    }
  }

  // ----- exclusive or as addition ----------------------------------------------------------------------------

  lemma {:induction false} XorHalf(x: nat, y: nat)
    ensures BitXor(x, y) / 2 == BitXor(x / 2, y / 2) && BitXor(x, y) % 2 == (x + y) % 2
  {
    if x == 0 || y == 0 {
      XorZero(x / 2);
      XorZero(y / 2);
    } else {
      XorStep(x, y);
      hide BitXor;
      BitSum(x, y);
      Halves(BitXor(x / 2, y / 2), (x + y) % 2);
    }
  }

  lemma XorStep(x: nat, y: nat)
    requires x != 0 && y != 0
    ensures BitXor(x, y) == 2 * BitXor(x / 2, y / 2) + if x % 2 != y % 2 then 1 else 0
  {}

  lemma BitSum(x: nat, y: nat)
    ensures (x + y) % 2 == if x % 2 != y % 2 then 1 else 0
  {}

  lemma Halves(r: nat, b: nat)
    requires b < 2
    ensures (2 * r + b) / 2 == r && (2 * r + b) % 2 == b
  {}

  /** Numbers with equal halves and equal last bits are equal. */
  lemma SameHalf(x: nat, y: nat)
    requires x / 2 == y / 2 && x % 2 == y % 2
    ensures x == y
  {}

  lemma {:induction false} XorComm(x: nat, y: nat)
    ensures BitXor(x, y) == BitXor(y, x)
    decreases x + y
  {
    if x != 0 && y != 0 {
      XorComm(x / 2, y / 2);
    }
  }

  lemma {:induction false} XorAssoc(x: nat, y: nat, z: nat)
    ensures BitXor(BitXor(x, y), z) == BitXor(x, BitXor(y, z))
    decreases x + y + z
  {
    if x == 0 || y == 0 || z == 0 {
      XorZero(BitXor(x, y));
    } else {
      XorAssoc(x / 2, y / 2, z / 2);
      hide BitXor;
      XorHalf(x, y);
      XorHalf(y, z);
      XorHalf(BitXor(x, y), z);
      XorHalf(x, BitXor(y, z));
      SameHalf(BitXor(BitXor(x, y), z), BitXor(x, BitXor(y, z)));
    }
  }

  lemma XorZero(x: nat)
    ensures BitXor(x, 0) == x && BitXor(0, x) == x
  {}

  lemma {:induction false} XorSelf(x: nat)
    ensures BitXor(x, x) == 0
  {
    if x > 0 {
      XorSelf(x / 2);
    }
  }

  /** Exclusive or is zero only for equal numbers. */
  lemma XorCancel(x: nat, y: nat)
    ensures BitXor(BitXor(x, y), y) == x
    ensures BitXor(x, y) == 0 <==> x == y
  {
    hide BitXor;
    XorAssoc(x, y, y);
    XorSelf(y);
    XorZero(x);
    XorZero(y);
  }

  lemma XorSwap(a: nat, b: nat, c: nat, d: nat)
    ensures BitXor(BitXor(a, b), BitXor(c, d)) == BitXor(BitXor(a, c), BitXor(b, d))
  {
    hide BitXor;
    XorAssoc(a, b, BitXor(c, d));
    XorAssoc(b, c, d);
    XorComm(b, c);
    XorAssoc(c, b, d);
    XorAssoc(a, c, BitXor(b, d));
  }

  lemma XorDouble(x: nat, y: nat)
    ensures BitXor(2 * x, 2 * y) == 2 * BitXor(x, y)
  {
    if x != 0 && y != 0 {
      assert 2 * x / 2 == x && 2 * y / 2 == y;
    }
  }

  lemma Twice(p: nat, x: nat)
    ensures 2 * p * x == 2 * (p * x)
  {}

  lemma {:induction false} XorShift(x: nat, y: nat, k: nat)
    ensures BitXor(Pow2(k) * x, Pow2(k) * y) == Pow2(k) * BitXor(x, y)
  {
    if k > 0 {
      XorShift(x, y, k - 1);
      var p := Pow2(k - 1);
      XorDouble(p * x, p * y);
      assert Pow2(k) == 2 * p;
      hide BitXor, Pow2;
      Twice(p, x);
      Twice(p, y);
      Twice(p, BitXor(x, y));
    } else {
      assert Pow2(k) == 1;
    }
  }

  lemma {:induction false} XorMod(x: nat, y: nat, k: nat)
    ensures BitXor(x, y) % Pow2(k) == BitXor(x % Pow2(k), y % Pow2(k))
  {
    if k == 0 {
      assert Pow2(k) == 1;
    } else {
      XorMod(x / 2, y / 2, k - 1);
      hide BitXor;
      ModHalf(x, k);
      ModHalf(y, k);
      ModHalf(BitXor(x, y), k);
      XorHalf(x, y);
      XorHalf(x % Pow2(k), y % Pow2(k));
      SameHalf(BitXor(x, y) % Pow2(k), BitXor(x % Pow2(k), y % Pow2(k)));
    }
  }

  lemma ModHalf(x: nat, k: nat)
    requires k > 0
    ensures x % Pow2(k) / 2 == x / 2 % Pow2(k - 1) && x % Pow2(k) % 2 == x % 2
  {
    var p := Pow2(k - 1);
    assert Pow2(k) == 2 * p;
    var q, r := x / 2 / p, x / 2 % p;
    assert x == 2 * (p * q + r) + x % 2 == 2 * p * q + (2 * r + x % 2);
    DivModUnique(x, 2 * p, q, 2 * r + x % 2);
  }

  /** Exclusive or of numbers without a common bit is their sum. */
  lemma {:induction false} XorDisjoint(x: nat, y: nat, k: nat)
    requires y < Pow2(k)
    ensures BitXor(Pow2(k) * x, y) == Pow2(k) * x + y
  {
    if y == 0 {
      XorZero(Pow2(k) * x);
    } else {
      var p := Pow2(k - 1);
      assert Pow2(k) == 2 * p;
      XorDisjoint(x, y / 2, k - 1);
      hide BitXor, Pow2;
      Twice(p, x);
      XorHalf(2 * (p * x), y);
      Halves(p * x, 0);
      SameHalf(BitXor(2 * (p * x), y), 2 * (p * x) + y);
    }
  }

  /** Without the lowest k bits. */
  ghost function Upper(x: nat, k: nat): nat {
    x / Pow2(k)
  }

  lemma UpperStep(x: nat, k: nat)
    ensures Upper(x, 0) == x && (k > 0 ==> Upper(x, k) == Upper(x / 2, k - 1))
  {
    if k > 0 {
      DivDiv(x, 2, Pow2(k - 1));
    }
  }

  lemma {:induction false} XorUpper(x: nat, y: nat, k: nat)
    ensures Upper(BitXor(x, y), k) == BitXor(Upper(x, k), Upper(y, k))
    decreases k
  {
    hide BitXor, Upper;
    UpperStep(x, k);
    UpperStep(y, k);
    UpperStep(BitXor(x, y), k);
    if k > 0 {
      XorUpper(x / 2, y / 2, k - 1);
      XorHalf(x, y);
    }
  }

  lemma XorDiv(x: nat, y: nat, k: nat)
    ensures BitXor(x, y) / Pow2(k) == BitXor(x / Pow2(k), y / Pow2(k))
  {
    hide BitXor, Pow2;
    XorUpper(x, y, k);
  }
}

/**
 * The compact target format (SetCompact, GetCompact in src/arith_uint256.cpp) and the work of a block
 * computed from it (GetBlockProof in src/chain.cpp).
 */
module Compact {
  import opened Power
  import opened BitOps
  import opened Limbs
  import opened Arith

  const WIDTH := 8
  const SIGN_BIT := 0x80_0000
  const EXPONENT_UNIT := 0x100_0000

  function Exponent(c: nat): nat { c / EXPONENT_UNIT }
  function Mantissa(c: nat): nat { c % SIGN_BIT }
  predicate Signed(c: nat) { c / SIGN_BIT % 2 == 1 }

  /** Powers of 256. */
  function Byte(k: nat): (p: nat)
    ensures p > 0
  {
    PowPositive(256, k);
    Pow(256, k)
  }

  lemma ByteAdd(i: nat, j: nat)
    ensures Byte(i + j) == Byte(i) * Byte(j)
  {
    PowAdd(256, i, j);
  }

  lemma ByteSmall()
    ensures Byte(0) == 1 && Byte(1) == 256 && Byte(2) == 0x1_0000 && Byte(3) == 0x100_0000
  {
    ByteAdd(1, 1);
    ByteAdd(1, 2);
  }

  lemma ByteGrows(i: nat, j: nat)
    requires i <= j
    ensures Byte(i) <= Byte(j)
  {
    PowGrows(256, i, j);
  }

  lemma {:induction false} ByteIsPow2(k: nat)
    ensures Byte(k) == Pow2(8 * k)
  {
    if k > 0 {
      ByteIsPow2(k - 1);
      Pow2Small();
      Pow2Add(8, 8 * (k - 1));
    }
  }

  lemma WidthBytes()
    ensures Weight(WIDTH) == Byte(32)
  {
    ByteIsPow2(32);
    WeightPow2(WIDTH);
  }

  function Times(a: nat, b: nat): nat { a * b }

  function Over(a: nat, b: nat): nat
    requires b > 0
  {
    a / b
  }

  /** The number a compact value stands for: mantissa times 256 to the exponent minus three. */
  function Decoded(c: nat): nat {
    if Exponent(c) <= 3 then Over(Mantissa(c), Byte(3 - Exponent(c))) else Times(Mantissa(c), Byte(Exponent(c) - 3))
  }

  /** The overflow test of SetCompact. */
  predicate Oversized(nWord: nat, nSize: nat) {
    nWord != 0 && (nSize > 34 || (nWord > 0xff && nSize > 33) || (nWord > 0xffff && nSize > 32))
  }

  /** The overflow test is exact. */
  lemma OversizedIff(nWord: nat, nSize: nat)
    requires 3 < nSize && nWord < SIGN_BIT
    ensures Oversized(nWord, nSize) <==> nWord * Byte(nSize - 3) >= Byte(32)
  {
    hide Byte;
    ByteSmall();
    if nSize > 34 {
      ByteGrows(32, nSize - 3);
      if nWord > 0 {
        MulMonotone(1, nWord, Byte(nSize - 3));
      }
    } else {
      var room := 35 - nSize;
      ByteAdd(nSize - 3, room);
      if nSize == 34 {
        Fits(nWord, 256, Byte(nSize - 3));
      } else if nSize == 33 {
        Fits(nWord, 0x1_0000, Byte(nSize - 3));
      } else {
        ByteGrows(3, room);
        Fits(nWord, Byte(room), Byte(nSize - 3));
      }
    }
  }

  lemma Fits(x: int, y: int, w: nat)
    requires w > 0
    ensures x * w >= w * y <==> x >= y
  {
    if x >= y {
      MulMonotone(y, x, w);
    } else {
      OneMore(x, y, w);
    }
  }

  /**
   * SetCompact: the value modulo 2^256, with the overflow flag set exactly when that lost something, and
   * the sign flag for nonzero values with the sign bit.
   */
  method SetCompact(a: array<Limb>, nCompact: nat) returns (fNegative: bool, fOverflow: bool)
    requires a.Length == WIDTH && nCompact < BASE
    modifies a
    ensures Value(a[..]) == Decoded(nCompact) % Weight(WIDTH)
    ensures fOverflow <==> Decoded(nCompact) >= Weight(WIDTH)
    ensures fNegative <==> Decoded(nCompact) != 0 && Signed(nCompact)
  {
    hide Value, Weight, Byte, Pow2, Decoded;
    var nSize := nCompact / EXPONENT_UNIT;
    var nWord := nCompact % SIGN_BIT;
    if nSize <= 3 {
      DecodedSmall(nCompact);
      nWord := nWord / Pow2(8 * (3 - nSize));
      Assign64(a, nWord);
    } else {
      DecodedLarge(nCompact);
      Assign64(a, nWord);
      ShiftLeft(a, 8 * (nSize - 3));
    }
    fNegative := nWord != 0 && nCompact / SIGN_BIT % 2 != 0;
    fOverflow := nWord != 0 && (nSize > 34 || (nWord > 0xff && nSize > 33) || (nWord > 0xffff && nSize > 32));
  }

  lemma DecodedSmall(c: nat)
    requires Exponent(c) <= 3
    ensures Decoded(c) == Mantissa(c) / Pow2(8 * (3 - Exponent(c))) < SIGN_BIT
    ensures Decoded(c) < Weight(WIDTH) && Decoded(c) % Weight(WIDTH) == Decoded(c)
  {
    hide Byte, Weight, Pow2;
    ByteIsPow2(3 - Exponent(c));
    SmallDecoded(Mantissa(c), 3 - Exponent(c));
    WidthBytes();
    DivModUnique(Decoded(c), Weight(WIDTH), 0, Decoded(c));
  }

  lemma DecodedLarge(c: nat)
    requires Exponent(c) > 3
    ensures Decoded(c) == Pow2(8 * (Exponent(c) - 3)) * Mantissa(c)
    ensures Oversized(Mantissa(c), Exponent(c)) <==> Decoded(c) >= Weight(WIDTH)
    ensures Decoded(c) == 0 <==> Mantissa(c) == 0
  {
    hide Byte, Weight, Pow2, Oversized;
    ByteIsPow2(Exponent(c) - 3);
    OversizedIff(Mantissa(c), Exponent(c));
    ZeroProduct(Mantissa(c), Byte(Exponent(c) - 3));
    WidthBytes();
  }

  lemma SmallDecoded(w: nat, k: nat)
    requires w < SIGN_BIT
    ensures 0 <= w / Byte(k) <= w < Byte(32)
  {
    hide Byte;
    ByteSmall();
    ByteGrows(3, 32);
    Quotient(w, Byte(k));
  }

  lemma Quotient(x: nat, d: nat)
    requires d > 0
    ensures 0 <= x / d <= x
  {
    MulLarger(x / d, d);
  }

  lemma ZeroProduct(x: nat, y: nat)
    requires y > 0
    ensures x * y == 0 <==> x == 0
  {
    if x > 0 {
      MulMonotone(1, x, y);
    }
  }

  // ----- encoding ----------------------------------------------------------------------------------------------

  /** The number of bytes of a number. */
  ghost predicate ByteLength(v: nat, s: nat) {
    v < Byte(s) && (s > 0 ==> Byte(s - 1) <= v)
  }

  lemma ByteLengthUnique(v: nat, s: nat, t: nat)
    requires ByteLength(v, s) && ByteLength(v, t)
    ensures s == t
  {
    hide Byte;
    if s < t {
      ByteGrows(s, t - 1);
    } else if t < s {
      ByteGrows(t, s - 1);
    }
  }

  /** Bits to bytes. */
  lemma BytesOfBits(v: nat, n: nat)
    requires BitLength(v, n)
    ensures ByteLength(v, (n + 7) / 8)
  {
    hide Byte, Pow2;
    var s := (n + 7) / 8;
    ByteIsPow2(s);
    Grows2(n, 8 * s);
    if s > 0 {
      ByteIsPow2(s - 1);
      Grows2(8 * (s - 1), n - 1);
    }
  }

  /** The leading three bytes of a number of s bytes. */
  function Lead(v: nat, s: nat): nat {
    if s <= 3 then v * Byte(3 - s) else v / Byte(s - 3)
  }

  /** The compact form of a non-negative number of s bytes; the mantissa gives way to the sign bit. */
  function Encoded(v: nat, s: nat): nat {
    if Lead(v, s) >= SIGN_BIT then (s + 1) * EXPONENT_UNIT + Lead(v, s) / 256 else s * EXPONENT_UNIT + Lead(v, s)
  }

  lemma LeadBounds(v: nat, s: nat)
    requires ByteLength(v, s)
    ensures Lead(v, s) < EXPONENT_UNIT && (s > 0 ==> 0x1_0000 <= Lead(v, s))
  {
    hide Byte;
    ByteSmall();
    if s <= 3 {
      ByteAdd(s, 3 - s);
      OneMore(v, Byte(s), Byte(3 - s));
      if s > 0 {
        ByteAdd(s - 1, 3 - s);
        MulMonotone(Byte(s - 1), v, Byte(3 - s));
      }
    } else {
      ByteAdd(3, s - 3);
      ByteAdd(2, s - 3);
      QuotientBelow(v, Byte(s - 3), EXPONENT_UNIT);
      QuotientAbove(v, Byte(s - 3), 0x1_0000);
    }
  }

  lemma QuotientBelow(v: nat, d: nat, q: nat)
    requires d > 0 && v < q * d
    ensures v / d < q
  {
    if v / d >= q {
      MulMonotone(q, v / d, d);
    }
  }

  lemma QuotientAbove(v: nat, d: nat, q: nat)
    requires d > 0 && q * d <= v
    ensures q <= v / d
  {
    if v / d < q {
      OneMore(v / d, q, d);
    }
  }

  /** What the fields of an encoding are: the sign bit is never set. */
  lemma EncodedFields(v: nat, s: nat)
    requires ByteLength(v, s)
    ensures var c := Encoded(v, s);
            && !Signed(c)
            && Exponent(c) == (if Lead(v, s) >= SIGN_BIT then s + 1 else s)
            && Mantissa(c) == (if Lead(v, s) >= SIGN_BIT then Lead(v, s) / 256 else Lead(v, s))
            && (v > 0 ==> Mantissa(c) >= 0x8000)
  {
    hide Lead, Exponent, Mantissa, Signed, ByteLength;
    LeadBounds(v, s);
    var lead := Lead(v, s);
    if lead >= SIGN_BIT {
      FieldsOf(s + 1, lead / 256);
    } else {
      FieldsOf(s, lead);
    }
    if v > 0 {
      NoLead(v, s);
    }
  }

  lemma NoLead(v: nat, s: nat)
    requires ByteLength(v, s) && v > 0
    ensures s > 0
  {
    ByteSmall();
  }

  lemma FieldsOf(e: nat, m: nat)
    requires m < SIGN_BIT
    ensures var c := e * EXPONENT_UNIT + m; !Signed(c) && Exponent(c) == e && Mantissa(c) == m
  {
    DivModUnique(e * EXPONENT_UNIT + m, EXPONENT_UNIT, e, m);
    DivModUnique(e * EXPONENT_UNIT + m, SIGN_BIT, 2 * e, m);
  }

  /** The value of the last place of the mantissa. */
  function Unit(c: nat): (u: nat)
    ensures u > 0
  {
    if Exponent(c) <= 3 then 1 else Byte(Exponent(c) - 3)
  }

  /** Decoding an encoding gives the number truncated to its leading bytes. */
  lemma EncodedDecodes(v: nat, s: nat)
    requires ByteLength(v, s)
    ensures Decoded(Encoded(v, s)) == v - v % Unit(Encoded(v, s))
  {
    hide Byte, Encoded, Decoded, Lead;
    if s <= 2 {
      EncodedFields(v, s);
      DecodedExact(v, s);
    } else if Lead(v, s) >= SIGN_BIT {
      DecodedShifted(v, s);
    } else {
      DecodedPlain(v, s);
    }
  }

  lemma DecodedShifted(v: nat, s: nat)
    requires ByteLength(v, s) && s > 2 && Lead(v, s) >= SIGN_BIT
    ensures Decoded(Encoded(v, s)) == v - v % Unit(Encoded(v, s))
  {
    hide Byte, Encoded, ByteLength;
    EncodedFields(v, s);
    ByteSmall();
    ByteAdd(s - 3, 1);
    CutTwice(v, Byte(s - 3));
  }

  lemma DecodedPlain(v: nat, s: nat)
    requires ByteLength(v, s) && s > 2 && Lead(v, s) < SIGN_BIT
    ensures Decoded(Encoded(v, s)) == v - v % Unit(Encoded(v, s))
  {
    hide Byte, Encoded, ByteLength;
    EncodedFields(v, s);
    ByteSmall();
    if s > 3 {
      CutOnce(v, Byte(s - 3));
    }
  }

  lemma DecodedExact(v: nat, s: nat)
    requires ByteLength(v, s) && s <= 2
    ensures Decoded(Encoded(v, s)) == v
  {
    hide Byte, Encoded;
    EncodedFields(v, s);
    ByteSmall();
    if Lead(v, s) < SIGN_BIT {
      DivModUnique(v * Byte(3 - s), Byte(3 - s), v, 0);
    } else {
      ByteAdd(1, 2 - s);
      assert v * (256 * Byte(2 - s)) == 256 * (v * Byte(2 - s));
      DivModUnique(v * Byte(3 - s), 256, v * Byte(2 - s), 0);
      DivModUnique(v * Byte(2 - s), Byte(2 - s), v, 0);
    }
  }

  /** Encoding what an encoding decodes to gives the same encoding. */
  lemma EncodedIdempotent(v: nat, s: nat)
    requires ByteLength(v, s)
    ensures var w := Decoded(Encoded(v, s)); ByteLength(w, s) && Encoded(w, s) == Encoded(v, s)
  {
    hide Byte, Encoded;
    EncodedFields(v, s);
    EncodedDecodes(v, s);
    ByteSmall();
    var c, w := Encoded(v, s), Decoded(Encoded(v, s));
    if Exponent(c) > 3 {
      SameLead(v, s, Unit(c));
      EncodedSame(v, w, s);
    } else {
      assert w == v;
    }
  }

  lemma EncodedSame(v: nat, w: nat, s: nat)
    requires Lead(w, s) == Lead(v, s) || (Lead(v, s) >= SIGN_BIT && Lead(w, s) == Lead(v, s) / 256 * 256 >= SIGN_BIT)
    ensures Encoded(w, s) == Encoded(v, s)
  {}

  lemma SameLead(v: nat, s: nat, u: nat)
    requires ByteLength(v, s) && s >= 3
    requires u == if Lead(v, s) >= SIGN_BIT then Byte(s - 2) else Byte(s - 3)
    ensures var w := v - v % u;
            && ByteLength(w, s)
            && Lead(w, s) == (if Lead(v, s) >= SIGN_BIT then Lead(v, s) / 256 * 256 else Lead(v, s))
  {
    hide Byte;
    LeadBounds(v, s);
    ByteSmall();
    var d := Byte(s - 3);
    assert d > 0;
    ByteAdd(s - 3, 1);
    ByteAdd(s - 3, 2);
    ByteAdd(s - 3, 3);
    assert Lead(v, s) == v / d;
    if Lead(v, s) >= SIGN_BIT {
      CutTwice(v, d);
      MulMonotone(0x1_0000, v / d / 256 * 256, d);
    } else {
      CutOnce(v, d);
      MulMonotone(0x1_0000, v / d, d);
    }
  }

  lemma CutOnce(v: nat, d: nat)
    requires d > 0
    ensures v - v % d == v / d * d && (v - v % d) / d == v / d
  {
    DivModUnique(v - v % d, d, v / d, 0);
  }

  lemma CutTwice(v: nat, d: nat)
    requires d > 0
    ensures d * 256 > 0 && v - v % (d * 256) == (v / d / 256 * 256) * d
    ensures (v - v % (d * 256)) / d == v / d / 256 * 256
  {
    DivDiv(v, d, 256);
    var q := v / d / 256;
    assert v - v % (d * 256) == d * 256 * q;
    assert d * 256 * q == d * (q * 256);
    DivModUnique(v - v % (d * 256), d, q * 256, 0);
  }

  /** GetCompact: the compact form, with the sign bit only for a negative number with a nonzero mantissa. */
  method GetCompact(a: array<Limb>, fNegative: bool) returns (nCompact: nat, ghost s: nat)
    requires a.Length == WIDTH
    ensures ByteLength(Value(a[..]), s) && s <= 32 && nCompact < BASE
    ensures nCompact == Encoded(Value(a[..]), s) + if fNegative && Mantissa(Encoded(Value(a[..]), s)) != 0 then SIGN_BIT else 0
  {
    hide Value, Weight, Byte, Pow2, BitLength, BitOr, Lead, ByteLength, Encoded;
    ghost var v := Value(a[..]);
    var bits := Bits(a);
    var nSize := (bits + 7) / 8;
    BytesOfBits(v, bits);
    s := nSize;
    LeadDef(v, s);
    if nSize <= 3 {
      var low := GetLow64(a);
      SmallLow(v, nSize);
      nCompact := low * Pow2(8 * (3 - nSize)) % BASE;
    } else {
      var bn := Copy(a);
      ShiftRight(bn, 8 * (nSize - 3));
      nCompact := GetLow64(bn);
    }
    Packed(v, s);
    if nCompact / SIGN_BIT % 2 == 1 {
      nCompact := nCompact / 256;
      nSize := nSize + 1;
    }
    assert nCompact < SIGN_BIT && nSize < 256;
    nCompact := BitOr(nCompact, nSize * EXPONENT_UNIT);
    if fNegative && nCompact % SIGN_BIT != 0 {
      OrSign(nCompact);
      nCompact := BitOr(nCompact, SIGN_BIT);
    }
  }

  /** The steps from the leading bytes to the encoding. */
  lemma Packed(v: nat, s: nat)
    requires ByteLength(v, s) && s <= 32
    ensures var m := Lead(v, s);
            && 0 <= m < EXPONENT_UNIT && m % BASE == m % WORD == m
            && (m / SIGN_BIT % 2 == 1 <==> m >= SIGN_BIT)
            && BitOr(if m >= SIGN_BIT then m / 256 else m, (if m >= SIGN_BIT then s + 1 else s) * EXPONENT_UNIT) == Encoded(v, s)
    ensures !Signed(Encoded(v, s)) && Encoded(v, s) < 34 * EXPONENT_UNIT
  {
    hide Lead, BitOr;
    LeadBounds(v, s);
    var m := Lead(v, s);
    OrField(if m >= SIGN_BIT then m / 256 else m, if m >= SIGN_BIT then s + 1 else s);
    EncodedFields(v, s);
  }

  lemma LeadDef(v: nat, s: nat)
    ensures Lead(v, s) == if s <= 3 then v * Pow2(8 * (3 - s)) else v / Pow2(8 * (s - 3))
  {
    if s <= 3 {
      ByteIsPow2(3 - s);
    } else {
      ByteIsPow2(s - 3);
    }
  }

  lemma SmallLow(v: nat, s: nat)
    requires ByteLength(v, s) && s <= 3
    ensures v % WORD == v
  {
    hide Byte;
    ByteSmall();
    ByteGrows(s, 3);
    DivModUnique(v, WORD, 0, v);
  }

  lemma OrField(m: nat, e: nat)
    requires m < SIGN_BIT
    ensures BitOr(m, e * EXPONENT_UNIT) == e * EXPONENT_UNIT + m
  {
    hide BitOr, Pow2;
    ByteIsPow2(3);
    ByteSmall();
    DivModUnique(e * EXPONENT_UNIT, EXPONENT_UNIT, e, 0);
    OrDisjoint(e * EXPONENT_UNIT, m, 24);
  }

  /** The sign bit of an encoding is free. */
  lemma OrSign(c: nat)
    requires !Signed(c)
    ensures BitOr(c, SIGN_BIT) == c + SIGN_BIT
  {
    hide Pow2, BitOr;
    Pow2Sign();
    OrBit(c, 23);
  }

  lemma Pow2Sign()
    ensures Pow2(23) == SIGN_BIT
  {
    Pow2Small();
    Pow2Add(16, 7);
    assert Pow(2, 7) == 128;
  }

  lemma {:induction false} OrBit(x: nat, k: nat)
    requires x / Pow2(k) % 2 == 0
    ensures BitOr(x, Pow2(k)) == x + Pow2(k)
  {
    if k == 0 {
      Pow2Small();
      OrOne(x);
    } else if x > 0 {
      assert Pow2(k) == 2 * Pow2(k - 1);
      DivDiv(x, 2, Pow2(k - 1));
      OrBit(x / 2, k - 1);
    }
  }

  lemma OrOne(x: nat)
    requires x % 2 == 0
    ensures BitOr(x, 1) == x + 1
  {
    if x > 0 {
      assert BitOr(x / 2, 0) == x / 2;
    }
  }

  /** Setting an object from its own compact form truncates it, with neither flag. */
  method Requantize(a: array<Limb>) returns (nCompact: nat, fNegative: bool, fOverflow: bool)
    requires a.Length == WIDTH
    modifies a
    ensures !fNegative && !fOverflow && nCompact < BASE && !Signed(nCompact)
    ensures Value(a[..]) == old(Value(a[..])) - old(Value(a[..])) % Unit(nCompact)
  {
    hide Value, Weight, Byte, Encoded, Decoded, Unit;
    ghost var v, s := Value(a[..]), 0;
    ValueBound(a[..]);
    nCompact, s := GetCompact(a, false);
    EncodedFields(v, s);
    EncodedDecodes(v, s);
    fNegative, fOverflow := SetCompact(a, nCompact);
    DivModUnique(Decoded(nCompact), Weight(WIDTH), 0, Decoded(nCompact));
  }

  // ----- chain work -----------------------------------------------------------------------------------------------

  /** GetBlockProof: the expected number of hashes, floor(2^256 / (target + 1)), for every valid target. */
  method GetBlockProof(nBits: nat) returns (work: array<Limb>)
    requires nBits < BASE
    ensures fresh(work) && work.Length == WIDTH
    ensures var target := Decoded(nBits);
            Value(work[..]) ==
            if target == 0 || Signed(nBits) || target >= Weight(WIDTH) then 0 else Weight(WIDTH) / (target + 1)
  {
    hide Value, Weight, Byte, Decoded;
    work := new Limb[WIDTH];
    var bnTarget := new Limb[WIDTH];
    var fNegative, fOverflow := SetCompact(bnTarget, nBits);
    ghost var target := Decoded(nBits);
    var isZero := EqualTo64(bnTarget, 0);
    if target < Weight(WIDTH) {
      DivModUnique(target, Weight(WIDTH), 0, target);
    }
    if fNegative || fOverflow || isZero {
      Assign64(work, 0);
      return;
    }
    work := Complement(bnTarget);
    var one := new Limb[WIDTH];
    Assign64(one, 1);
    AddAssign(bnTarget, one);
    NotAllOnes(nBits);
    DivModUnique(target + 1, Weight(WIDTH), 0, target + 1);
    var ok := DivAssign(work, bnTarget);
    ProofIdentity(Weight(WIDTH), target);
    AddAssign(work, one);
    DivModUnique(Weight(WIDTH) / (target + 1), Weight(WIDTH), 0, Weight(WIDTH) / (target + 1));
  }

  /** ==, with a 64-bit value. */
  method EqualTo64(a: array<Limb>, b: nat) returns (r: bool)
    requires a.Length >= 2 && b < WORD
    ensures r <==> Value(a[..]) == b
  {
    hide Value, Weight;
    var i := a.Length - 1;
    while i >= 2
      invariant 1 <= i < a.Length && forall j :: i < j < a.Length ==> a[j] == 0
    {
      if a[i] != 0 {
        TooLarge(a[..], i);
        return false;
      }
      i := i - 1;
    }
    ValueOfTwo(a[..]);
    if a[1] != b / BASE {
      return false;
    }
    return a[0] == b % BASE;
  }

  lemma TooLarge(s: seq<Limb>, i: nat)
    requires 2 <= i < |s| && s[i] != 0
    ensures Value(s) >= WORD
  {
    hide Value, Weight;
    ValueSplit(s, 2);
    ValueZero(s[2..]);
    assert s[2..][i - 2] == s[i];
    WeightNext(0);
    WeightNext(1);
    MulMonotone(1, Value(s[2..]), Weight(2));
  }

  lemma NotAllOnes(c: nat)
    ensures Decoded(c) + 1 != Weight(WIDTH)
  {
    hide Byte, Weight;
    WidthBytes();
    ByteSmall();
    ByteAdd(3, 29);
    ByteGrows(0, 29);
    if Exponent(c) <= 3 {
      Quotient(Mantissa(c), Byte(3 - Exponent(c)));
      MulMonotone(1, Byte(29), Byte(3));
    } else {
      ByteGrows(1, Exponent(c) - 3);
      ByteAdd(1, Exponent(c) - 4);
      ByteAdd(1, 31);
      var x, y := Mantissa(c) * Byte(Exponent(c) - 4), Byte(31);
      assert Mantissa(c) * (256 * Byte(Exponent(c) - 4)) == 256 * x;
    }
  }

  lemma ProofIdentity(m: nat, t: nat)
    requires 0 < t && t + 1 < m
    ensures (m - 1 - t) / (t + 1) + 1 == m / (t + 1) < m
  {
    var d := t + 1;
    var q, r := m / d, m % d;
    assert m - d == d * (q - 1) + r;
    DivModUnique(m - d, d, q - 1, r);
    if q >= m {
      MulMonotone(m, q, d);
      MulMonotone(2, d, m);
    }
  }
}

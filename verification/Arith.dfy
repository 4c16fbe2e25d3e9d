/**
 * Unsigned big integers as arrays of 32-bit limbs (src/arith_uint256.h, src/arith_uint256.cpp). An object
 * is its limb array; every operator works in place, for any positive number of limbs.
 */
module Arith {
  import opened Power
  import opened BitOps
  import opened Limbs

  const WORD: nat := 0x1_0000_0000_0000_0000  // 64-bit intermediates stay below this

  // ----- copies and constants --------------------------------------------------------------------------

  method Copy(b: array<Limb>) returns (a: array<Limb>)
    ensures fresh(a) && a[..] == b[..]
  {
    a := new Limb[b.Length];
    for i := 0 to b.Length
      invariant a[..i] == b[..i]
    {
      a[i] := b[i];
    }
    assert a[..] == a[..b.Length] && b[..] == b[..b.Length];
  }

  /** Assignment of a 64-bit value. */
  method Assign64(a: array<Limb>, b: nat)
    requires a.Length >= 2 && b < WORD
    modifies a
    ensures Value(a[..]) == b
  {
    a[0] := b % BASE;
    a[1] := b / BASE;
    for i := 2 to a.Length
      invariant a[0] == b % BASE && a[1] == b / BASE && forall j :: 2 <= j < i ==> a[j] == 0
    {
      a[i] := 0;
    }
    ValueOfTwo(a[..]);
  }

  lemma ValueOfTwo(s: seq<Limb>)
    requires |s| >= 2 && forall j :: 2 <= j < |s| ==> s[j] == 0
    ensures Value(s) == s[0] + BASE * s[1]
  {
    hide Weight;
    ValueSplit(s, 2);
    ValueZero(s[2..]);
    ValueNext(s, 0);
    ValueNext(s, 1);
    WeightNext(0);
    assert s[..0] == [] && Weight(1) == BASE;
  }

  /** Assignment of zero. */
  method SetZero(a: array<Limb>)
    modifies a
    ensures Value(a[..]) == 0 && forall i :: 0 <= i < a.Length ==> a[i] == 0
  {
    for i := 0 to a.Length
      invariant forall j :: 0 <= j < i ==> a[j] == 0
    {
      a[i] := 0;
    }
    ValueZero(a[..]);
  }

  method GetLow64(a: array<Limb>) returns (r: nat)
    requires a.Length >= 2
    ensures r == Value(a[..]) % WORD
  {
    r := BitOr(a[0], a[1] * BASE);
    Low64(a[..]);
    Pow2Limb();
    DivModUnique(a[1] * BASE, BASE, a[1], 0);
    OrDisjoint(a[1] * BASE, a[0], 32);
  }

  lemma Low64(s: seq<Limb>)
    requires |s| >= 2
    ensures Value(s) % WORD == s[0] + BASE * s[1]
  {
    hide Weight;
    ValueSplit(s, 2);
    ValueOfTwo(s[..2]);
    WeightNext(0);
    WeightNext(1);
    DivModUnique(Value(s), WORD, Value(s[2..]), s[0] + BASE * s[1]);
  }

  // ----- addition and subtraction ---------------------------------------------------------------------------

  /** += (the operands may be the same object): the sum modulo the width. */
  method AddAssign(a: array<Limb>, b: array<Limb>)
    requires a.Length == b.Length
    modifies a
    ensures Value(a[..]) == (old(Value(a[..])) + old(Value(b[..]))) % Weight(a.Length)
  {
    hide Weight, Value;
    ghost var a0, b0 := a[..], b[..];
    var carry := 0;
    ValueEmpty(a0);
    ValueEmpty(b0);
    ValueEmpty(a[..]);
    for i := 0 to a.Length
      invariant 0 <= carry <= 1
      invariant forall j :: i <= j < a.Length ==> a[j] == a0[j] && b[j] == b0[j]
      invariant Value(a[..i]) + carry * Weight(i) == Value(a0[..i]) + Value(b0[..i])
    {
      ghost var low := a[..i];
      var n := carry + a[i] + b[i];
      assert n < WORD;
      a[i] := n % BASE;
      AddStep(a[..], low, a0, b0, i, carry);
      carry := n / BASE;
    }
    assert a[..] == a[..a.Length] && a0[..a.Length] == a0 && b0[..a.Length] == b0;
    ValueBound(a[..]);
    Reduce(Value(a[..]), Weight(a.Length), carry, Value(a0) + Value(b0));
  }

  lemma ValueEmpty(s: seq<Limb>)
    ensures Value(s[..0]) == 0
  {}

  lemma AddStep(s: seq<Limb>, low: seq<Limb>, a: seq<Limb>, b: seq<Limb>, i: nat, carry: nat)
    requires i < |a| == |b| == |s| && s[..i] == low
    requires s[i] == (carry + a[i] + b[i]) % BASE
    requires Value(low) + carry * Weight(i) == Value(a[..i]) + Value(b[..i])
    ensures Value(s[..i + 1]) + (carry + a[i] + b[i]) / BASE * Weight(i + 1) == Value(a[..i + 1]) + Value(b[..i + 1])
  {
    hide Weight, Value;
    ValueNext(s, i);
    ValueNext(a, i);
    ValueNext(b, i);
    WeightNext(i);
    CarryStep(carry + a[i] + b[i], Weight(i));
    var w := Weight(i);
    assert (carry + a[i] + b[i]) * w == carry * w + a[i] * w + b[i] * w;
  }

  /** ~ */
  method Complement(a: array<Limb>) returns (r: array<Limb>)
    ensures fresh(r) && r.Length == a.Length && Value(r[..]) == Weight(a.Length) - 1 - Value(a[..])
  {
    hide Weight, Value;
    r := new Limb[a.Length];
    ValueEmpty(a[..]);
    ValueEmpty(r[..]);
    WeightNext(0);
    for i := 0 to a.Length
      invariant Value(r[..i]) == Weight(i) - 1 - Value(a[..i])
    {
      ghost var low := r[..i];
      r[i] := BASE - 1 - a[i];
      assert r[..i] == low;
      ValueNext(r[..], i);
      ValueNext(a[..], i);
      WeightNext(i);
      assert r[..][..i + 1] == r[..i + 1] && a[..][..i + 1] == a[..i + 1] && r[..][..i] == low && a[..][..i] == a[..i];
      assert (BASE - 1 - a[i]) * Weight(i) == BASE * Weight(i) - Weight(i) - a[i] * Weight(i);
    }
    assert r[..] == r[..a.Length] && a[..] == a[..a.Length];
  }

  /** Prefix ++ */
  method Increment(a: array<Limb>)
    modifies a
    ensures Value(a[..]) == (old(Value(a[..])) + 1) % Weight(a.Length)
  {
    hide Weight, Value;
    ghost var a0 := a[..];
    ValueEmpty(a[..]);
    ValueEmpty(a0);
    WeightNext(0);
    var i := 0;
    while i < a.Length
      invariant 0 <= i <= a.Length
      invariant forall j :: i <= j < a.Length ==> a[j] == a0[j]
      invariant Value(a[..i]) + Weight(i) == Value(a0[..i]) + 1
    {
      ghost var low := a[..i];
      a[i] := (a[i] + 1) % BASE;
      assert a[..i] == low;
      IncrementStep(a[..], a0, i);
      assert a[..][..i + 1] == a[..i + 1];
      if a[i] != 0 {
        ValueSplit(a[..], i + 1);
        ValueSplit(a0, i + 1);
        assert a[..][i + 1..] == a0[i + 1..];
        ValueBound(a[..]);
        Reduce(Value(a[..]), Weight(a.Length), 0, Value(a0) + 1);
        return;
      }
      i := i + 1;
    }
    assert a[..] == a[..a.Length] && a0[..a.Length] == a0;
    ValueBound(a[..]);
    Reduce(Value(a[..]), Weight(a.Length), 1, Value(a0) + 1);
  }

  lemma IncrementStep(s: seq<Limb>, a: seq<Limb>, i: nat)
    requires i < |a| == |s| && s[i] == (a[i] + 1) % BASE
    requires Value(s[..i]) + Weight(i) == Value(a[..i]) + 1
    ensures Value(s[..i + 1]) + (a[i] + 1) / BASE * Weight(i + 1) == Value(a[..i + 1]) + 1
    ensures (a[i] + 1) / BASE == if s[i] == 0 then 1 else 0
  {
    hide Weight, Value;
    ValueNext(s, i);
    ValueNext(a, i);
    WeightNext(i);
    var x: int := a[i];
    CarryStep(x + 1, Weight(i));
    assert (a[i] + 1) * Weight(i) == a[i] * Weight(i) + Weight(i);
  }

  /** Unary minus. */
  method Negate(a: array<Limb>) returns (r: array<Limb>)
    ensures fresh(r) && r.Length == a.Length && Value(r[..]) == (0 - Value(a[..])) % Weight(a.Length)
  {
    hide Weight, Value;
    ValueBound(a[..]);
    r := Complement(a);
    Increment(r);
    ShiftMod(0 - Value(a[..]), Weight(a.Length));
  }

  /** Adding the modulus does not matter. */
  lemma ShiftMod(x: int, m: nat)
    requires m > 0
    ensures (m + x) % m == x % m
  {
    DivModUnique(m + x, m, x / m + 1, x % m);
  }

  /** -= : the difference modulo the width. */
  method SubAssign(a: array<Limb>, b: array<Limb>)
    requires a.Length == b.Length
    modifies a
    ensures Value(a[..]) == (old(Value(a[..])) - old(Value(b[..]))) % Weight(a.Length)
  {
    hide Weight, Value;
    ghost var va: int, vb: int := Value(a[..]), Value(b[..]);
    var minus := Negate(b);
    AddAssign(a, minus);
    AddMod(va, 0 - vb, Weight(a.Length));
  }

  lemma AddMod(x: int, y: int, m: nat)
    requires m > 0
    ensures (x + y % m) % m == (x + y) % m
  {
    var q, r := (x + y) / m, (x + y) % m;
    assert y == m * (y / m) + y % m;
    assert x + y == m * q + r;
    assert m * (q - y / m) == m * q - m * (y / m);
    DivModUnique(x + y % m, m, q - y / m, r);
  }

  // ----- multiplication -------------------------------------------------------------------------------------

  /** *= by a 32-bit value. */
  method MulAssign32(a: array<Limb>, b32: Limb)
    modifies a
    ensures Value(a[..]) == (old(Value(a[..])) * b32) % Weight(a.Length)
  {
    hide Weight, Value;
    ghost var a0 := a[..];
    var carry := 0;
    ValueEmpty(a0);
    ValueEmpty(a[..]);
    for i := 0 to a.Length
      invariant 0 <= carry < BASE
      invariant forall j :: i <= j < a.Length ==> a[j] == a0[j]
      invariant Value(a[..i]) + carry * Weight(i) == Value(a0[..i]) * b32
    {
      ghost var low := a[..i];
      LimbProduct(carry, 0, b32, a[i]);
      var n := carry + b32 * a[i];
      a[i] := n % BASE;
      MulStep(a[..], low, a0, i, b32, carry);
      carry := n / BASE;
    }
    assert a[..] == a[..a.Length] && a0[..a.Length] == a0;
    ValueBound(a[..]);
    Reduce(Value(a[..]), Weight(a.Length), carry, Value(a0) * b32);
  }

  /** No 64-bit overflow, and the carry fits 32 bits. */
  lemma LimbProduct(carry: int, p: int, x: int, y: int)
    requires 0 <= carry < BASE && 0 <= p < BASE && 0 <= x < BASE && 0 <= y < BASE
    ensures 0 <= carry + p + x * y < WORD && 0 <= (carry + p + x * y) / BASE < BASE
  {
    MulMonotone(x, BASE - 1, y);
    MulMonotone(y, BASE - 1, BASE - 1);
    MulMonotone(0, x, y);
  }

  lemma MulStep(s: seq<Limb>, low: seq<Limb>, a: seq<Limb>, i: nat, b32: Limb, carry: nat)
    requires i < |a| == |s| && s[..i] == low
    requires carry + b32 * a[i] >= 0 && s[i] == (carry + b32 * a[i]) % BASE
    requires Value(low) + carry * Weight(i) == Value(a[..i]) * b32
    ensures Value(s[..i + 1]) + (carry + b32 * a[i]) / BASE * Weight(i + 1) == Value(a[..i + 1]) * b32
  {
    hide Weight, Value;
    ValueNext(s, i);
    ValueNext(a, i);
    WeightNext(i);
    var w := Weight(i);
    CarryStep(carry + b32 * a[i], w);
    Product3(carry, b32, a[i], w, Value(a[..i]));
  }

  lemma Product3(c: int, b: int, x: int, w: int, v: int)
    ensures (c + b * x) * w == c * w + b * x * w && (v + x * w) * b == v * b + b * x * w
  {
    assert x * w * b == b * x * w;
  }

  /**
   * *= : the product modulo the width for distinct objects. For an object multiplied by itself the right
   * operand is the already cleared left one, so the result is zero.
   */
  method MulAssign(p: array<Limb>, b: array<Limb>)
    requires p.Length == b.Length
    modifies p
    ensures p != b ==> Value(p[..]) == (old(Value(p[..])) * old(Value(b[..]))) % Weight(p.Length)
    ensures p == b ==> Value(p[..]) == 0
  {
    hide Weight, Value;
    var a := Copy(p);
    SetZero(p);
    ghost var b0, k: int := b[..], 0;
    ValueEmpty(a[..]);
    for j := 0 to p.Length
      invariant a[..] == old(p[..]) && b[..] == b0
      invariant p == b ==> forall i :: 0 <= i < p.Length ==> p[i] == 0
      invariant p != b ==> Value(p[..]) + k * Weight(p.Length) == Value(a[..j]) * Value(b0)
    {
      ghost var v := Value(p[..]);
      ghost var c := AddProduct(p, b, a[j], j);
      assert a[..][..j] == a[..j] && a[..][..j + 1] == a[..j + 1] && b0[..p.Length - j] == b[..p.Length - j];
      if p != b {
        RowMod(v, Value(p[..]), c, k, a[..], b0, j);
      }
      k := k + c + a[j] * Value(b0[p.Length - j..]);
    }
    assert a[..a.Length] == a[..];
    ValueZero(p[..]);
    if p != b {
      ValueBound(p[..]);
      Reduce(Value(p[..]), Weight(p.Length), k, Value(a[..]) * Value(b0));
    }
  }

  /** The inner loop: add x times b, moved up by j limbs; c is what is cut off. */
  method AddProduct(p: array<Limb>, b: array<Limb>, x: Limb, j: nat) returns (ghost c: nat)
    requires j < p.Length == b.Length
    modifies p
    ensures p != b ==> Value(p[..]) + c * Weight(p.Length) == old(Value(p[..])) + x * (Weight(j) * Value(b[..p.Length - j]))
    ensures p == b && (forall i :: 0 <= i < p.Length ==> old(p[i]) == 0) ==> forall i :: 0 <= i < p.Length ==> p[i] == 0
  {
    hide Weight, Value;
    ghost var p0 := p[..];
    var carry := 0;
    var i := 0;
    ValueEmpty(b[..]);
    assert b[..][..0] == b[..0] && p0[..j] == p[..j];
    while i + j < p.Length
      invariant 0 <= i <= p.Length - j && 0 <= carry < BASE
      invariant forall l :: i + j <= l < p.Length ==> p[l] == p0[l]
      invariant p != b ==> Value(p[..i + j]) + carry * Weight(i + j) == Value(p0[..i + j]) + x * (Weight(j) * Value(b[..i]))
      invariant p == b && (forall l :: 0 <= l < p.Length ==> p0[l] == 0) ==> carry == 0 && forall l :: 0 <= l < p.Length ==> p[l] == 0
    {
      ghost var low := p[..i + j];
      LimbProduct(carry, p[i + j], x, b[i]);
      var n := carry + p[i + j] + x * b[i];
      p[i + j] := n % BASE;
      if p != b {
        RowStep(p[..], low, p0, b[..], x, i, j, carry);
        assert p[..][..i + j + 1] == p[..i + j + 1] && b[..][..i + 1] == b[..i + 1] && b[..][..i] == b[..i];
      }
      carry := n / BASE;
      i := i + 1;
    }
    c := carry;
    assert p[..] == p[..p.Length] && p0[..p.Length] == p0;
  }

  lemma RowStep(s: seq<Limb>, low: seq<Limb>, p: seq<Limb>, b: seq<Limb>, x: Limb, i: nat, j: nat, carry: nat)
    requires i + j < |s| == |p| == |b| && s[..i + j] == low && carry + p[i + j] + x * b[i] >= 0
    requires s[i + j] == (carry + p[i + j] + x * b[i]) % BASE
    requires Value(low) + carry * Weight(i + j) == Value(p[..i + j]) + x * (Weight(j) * Value(b[..i]))
    ensures Value(s[..i + j + 1]) + (carry + p[i + j] + x * b[i]) / BASE * Weight(i + j + 1) ==
            Value(p[..i + j + 1]) + x * (Weight(j) * Value(b[..i + 1]))
  {
    hide Weight, Value;
    ValueNext(s, i + j);
    ValueNext(p, i + j);
    ValueNext(b, i);
    WeightNext(i + j);
    WeightAdd(j, i);
    var w := Weight(i + j);
    CarryStep(carry + p[i + j] + x * b[i], w);
    RowTerms(carry, p[i + j], x, b[i], Weight(j), Weight(i), Value(b[..i]));
  }

  lemma RowTerms(c: int, p: int, x: int, b: int, wj: int, wi: int, v: int)
    ensures (c + p + x * b) * (wj * wi) == c * (wj * wi) + p * (wj * wi) + x * b * (wj * wi)
    ensures x * (wj * (v + b * wi)) == x * (wj * v) + x * b * (wj * wi)
  {
    Distribute(wj, v, b, wi);
    assert x * (b * (wj * wi)) == x * b * (wj * wi);
  }

  lemma RowMod(v: int, v': int, c: int, k: int, a: seq<Limb>, b: seq<Limb>, j: nat)
    requires j < |a| == |b|
    requires v + k * Weight(|a|) == Value(a[..j]) * Value(b)
    requires v' + c * Weight(|a|) == v + a[j] * (Weight(j) * Value(b[..|a| - j]))
    ensures v' + (k + c + a[j] * Value(b[|a| - j..])) * Weight(|a|) == Value(a[..j + 1]) * Value(b)
  {
    hide Weight, Value;
    ValueNext(a, j);
    ValueSplit(b, |a| - j);
    WeightAdd(j, |a| - j);
    RowAlgebra(k, c, a[j], Value(a[..j]), Weight(j), Weight(|a| - j), Value(b[..|a| - j]), Value(b[|a| - j..]));
  }

  lemma RowAlgebra(k: int, c: int, x: int, va: int, wj: int, wr: int, lo: int, hi: int)
    ensures (va + x * wj) * (lo + wr * hi) == va * (lo + wr * hi) + x * (wj * lo) + (x * hi) * (wj * wr)
    ensures (k + c + x * hi) * (wj * wr) == k * (wj * wr) + c * (wj * wr) + (x * hi) * (wj * wr)
  {
    assert x * wj * (lo + wr * hi) == x * wj * lo + x * wj * (wr * hi);
    assert x * wj * lo == x * (wj * lo);
    assert x * wj * (wr * hi) == (x * hi) * (wj * wr);
  }

  // ----- shifts ----------------------------------------------------------------------------------------------

  /** The two parts of a limb moved up by r < 32 bits. */
  function Lo(x: Limb, r: nat): nat { x * Pow2(r) % BASE }
  function Hi(x: Limb, r: nat): nat { x * Pow2(r) / BASE }

  lemma UpParts(x: Limb, r: nat)
    requires r < 32
    ensures Lo(x, r) % Pow2(r) == 0 && Hi(x, r) < Pow2(r) && Lo(x, r) + Hi(x, r) < BASE
    ensures r != 0 ==> x / Pow2(32 - r) == Hi(x, r)
    ensures r == 0 ==> Hi(x, r) == 0
    ensures x * Pow2(r) == Lo(x, r) + BASE * Hi(x, r)
  {
    hide Pow2;
    var p, q := Pow2(r), Pow2(32 - r);
    Pow2Limb();
    Pow2Add(r, 32 - r);
    var h, l := x / q, x % q;
    UpAlgebra(x, p, q, h, l);
    DivModUnique(x * p, BASE, h, l * p);
    DivModUnique(l * p, p, l, 0);
    if r == 0 {
      Pow2Small();
    }
  }

  lemma UpAlgebra(x: nat, p: nat, q: nat, h: nat, l: nat)
    requires p * q == BASE && q > 0 && p > 0 && x == q * h + l && 0 <= l < q && x < BASE
    ensures x * p == BASE * h + l * p && h < p && 0 <= l * p <= BASE - p
  {
    assert x * p == p * q * h + l * p;
    if h >= p {
      MulMonotone(p, h, q);
    }
    MulMonotone(l, q - 1, p);
    assert (q - 1) * p == p * q - p;
  }

  /** Limb j of the shifted number once the first i limbs are done. */
  ghost function UpLimb(a: seq<Limb>, k: nat, r: nat, i: nat, j: nat): nat
    requires i <= |a|
  {
    (if k <= j < i + k then Lo(a[j - k], r) else 0) + (if k + 1 <= j < i + k + 1 then Hi(a[j - k - 1], r) else 0)
  }

  ghost predicate ShiftedUp(p: seq<Limb>, a: seq<Limb>, k: nat, r: nat, i: nat) {
    |p| == |a| && i <= |a| && forall j :: 0 <= j < |p| ==> p[j] == UpLimb(a, k, r, i, j)
  }

  lemma UpNone(p: seq<Limb>, a: seq<Limb>, k: nat, r: nat)
    requires |p| == |a| && forall j :: 0 <= j < |p| ==> p[j] == 0
    ensures ShiftedUp(p, a, k, r, 0)
  {}

  /** What one round of the loop finds and leaves. */
  lemma UpRound(p: seq<Limb>, a: seq<Limb>, k: nat, r: nat, i: nat)
    requires ShiftedUp(p, a, k, r, i) && i < |a| && r < 32
    ensures i + k + 1 < |p| ==> BitOr(p[i + k + 1], a[i] / Pow2(32 - r)) == a[i] / Pow2(32 - r) < BASE
    ensures i + k < |p| ==> BitOr(p[i + k], a[i] * Pow2(r) % BASE) < BASE
    ensures var p1 := if i + k + 1 < |p| && r != 0 then p[i + k + 1 := a[i] / Pow2(32 - r)] else p;
            var p2 := if i + k < |p| then p1[i + k := BitOr(p[i + k], a[i] * Pow2(r) % BASE)] else p1;
            ShiftedUp(p2, a, k, r, i + 1)
  {
    hide Pow2, Lo, Hi;
    UpParts(a[i], r);
    UpOr(a, i, r);
    assert i + k < |p| ==> p[i + k] == if i >= 1 then Hi(a[i - 1], r) else 0;
    assert i + k + 1 < |p| ==> p[i + k + 1] == 0;
  }

  /** <<= : times a power of two modulo the width. */
  method ShiftLeft(pn: array<Limb>, shift: nat)
    modifies pn
    ensures Value(pn[..]) == (Pow2(shift) * old(Value(pn[..]))) % Weight(pn.Length)
  {
    hide Weight, Value, Pow2, ShiftedUp, BitOr;
    var a := Copy(pn);
    SetZero(pn);
    var k, r := shift / 32, shift % 32;
    UpNone(pn[..], a[..], k, r);
    for i := 0 to pn.Length
      invariant a[..] == old(pn[..]) && ShiftedUp(pn[..], a[..], k, r, i)
    {
      UpRound(pn[..], a[..], k, r, i);
      if i + k + 1 < pn.Length && r != 0 {
        pn[i + k + 1] := BitOr(pn[i + k + 1], a[i] / Pow2(32 - r));
      }
      if i + k < pn.Length {
        pn[i + k] := BitOr(pn[i + k], a[i] * Pow2(r) % BASE);
      }
    }
    ShiftUpValue(pn[..], a[..], k, r, shift);
  }

  lemma UpOr(a: seq<Limb>, i: nat, r: nat)
    requires i < |a| && r < 32
    ensures var h := if i >= 1 then Hi(a[i - 1], r) else 0;
            BitOr(h, a[i] * Pow2(r) % BASE) == h + Lo(a[i], r) < BASE
  {
    hide Pow2, Hi, BitOr;
    var h := if i >= 1 then Hi(a[i - 1], r) else 0;
    UpParts(a[i], r);
    if i >= 1 {
      UpParts(a[i - 1], r);
    }
    OrDisjoint(Lo(a[i], r), h, r);
    LoRoom(a[i], r, h);
  }

  lemma LoRoom(x: Limb, r: nat, h: nat)
    requires r < 32 && h < Pow2(r)
    ensures Lo(x, r) + h < BASE
  {
    hide Pow2;
    var p, q := Pow2(r), Pow2(32 - r);
    Pow2Limb();
    Pow2Add(r, 32 - r);
    UpAlgebra(x, p, q, x / q, x % q);
    DivModUnique(x * p, BASE, x / q, x % q * p);
  }

  lemma {:induction false} UpValue(p: seq<Limb>, a: seq<Limb>, k: nat, r: nat, m: nat)
    requires k + m <= |p| && r < 32 && ShiftedUp(p, a, k, r, |a|)
    ensures Value(p[..k + m]) + (if m > 0 then Hi(a[m - 1], r) else 0) * Weight(k + m) == Pow2(r) * (Weight(k) * Value(a[..m]))
  {
    hide Weight, Value, Pow2, Lo, Hi;
    if m == 0 {
      ValueZero(p[..k]);
      ValueEmpty(a);
    } else {
      var n := m - 1;
      UpValue(p, a, k, r, n);
      ValueNext(p, k + n);
      ValueNext(a, n);
      WeightNext(k + n);
      WeightAdd(k, n);
      UpParts(a[n], r);
      var h := if n > 0 then Hi(a[n - 1], r) else 0;
      UpTerms(Lo(a[n], r), Hi(a[n], r), h, a[n], Pow2(r), Weight(k), Weight(n), Value(a[..n]));
    }
  }

  lemma UpTerms(lo: int, hi: int, h: int, x: int, p: int, wk: int, wn: int, v: int)
    requires x * p == lo + BASE * hi
    ensures (lo + h) * (wk * wn) + hi * (BASE * (wk * wn)) == h * (wk * wn) + p * (wk * (x * wn))
    ensures p * (wk * (v + x * wn)) == p * (wk * v) + p * (wk * (x * wn))
  {
    var w := wk * wn;
    assert p * (wk * (x * wn)) == (x * p) * w;
    assert (lo + BASE * hi) * w == lo * w + hi * (BASE * w);
    assert wk * (v + x * wn) == wk * v + wk * (x * wn);
  }

  lemma ShiftUpValue(p: seq<Limb>, a: seq<Limb>, k: nat, r: nat, shift: nat)
    requires r < 32 && shift == 32 * k + r && ShiftedUp(p, a, k, r, |a|)
    ensures Value(p) == (Pow2(shift) * Value(a)) % Weight(|p|)
  {
    hide Weight, Value, Pow2, Lo, Hi, UpLimb;
    WeightPow2(k);
    Pow2Add(32 * k, r);
    ValueBound(p);
    var n := |p|;
    if k >= n {
      UpZero(p, a, k, r);
      WeightAdd(n, k - n);
      UpOver(Pow2(r), Weight(n), Weight(k - n), Value(a));
      Reduce(0, Weight(n), Pow2(r) * (Weight(k - n) * Value(a)), Pow2(shift) * Value(a));
    } else {
      UpValue(p, a, k, r, n - k);
      assert p[..n] == p;
      ValueSplit(a, n - k);
      WeightAdd(k, n - k);
      UpTop(Hi(a[n - k - 1], r), Pow2(r), Weight(k), Weight(n - k), Value(a[..n - k]), Value(a[n - k..]));
      Reduce(Value(p), Weight(n), Hi(a[n - k - 1], r) + Pow2(r) * Value(a[n - k..]), Pow2(shift) * Value(a));
    }
  }

  lemma UpZero(p: seq<Limb>, a: seq<Limb>, k: nat, r: nat)
    requires k >= |p| && ShiftedUp(p, a, k, r, |a|)
    ensures Value(p) == 0
  {
    hide Value, Lo, Hi;
    ValueZero(p);
  }

  lemma UpOver(p: int, wn: int, wr: int, v: int)
    ensures p * (wr * v) * wn == (wn * wr) * p * v
  {
    assert p * (wr * v) * wn == p * ((wr * v) * wn);
    assert (wr * v) * wn == (wn * wr) * v;
    assert (wn * wr) * p * v == p * ((wn * wr) * v);
  }

  lemma UpTop(c: int, p: int, wk: int, wr: int, lo: int, hi: int)
    ensures (wk * p) * (lo + wr * hi) + c * (wk * wr) == p * (wk * lo) + (c + p * hi) * (wk * wr)
  {
    assert (wk * p) * (lo + wr * hi) == (wk * p) * lo + (wk * p) * (wr * hi);
    assert (wk * p) * lo == p * (wk * lo);
    assert (wk * p) * (wr * hi) == (p * hi) * (wk * wr);
  }

  /** The contribution of the limb above to a limb moved down by r bits. */
  function Spill(x: Limb, r: nat): nat
    requires r < 32
  {
    if r == 0 then 0 else x * Pow2(32 - r) % BASE
  }

  lemma DownParts(x: Limb, y: Limb, r: nat)
    requires r < 32
    ensures Spill(y, r) % Pow2(32 - r) == 0 && x / Pow2(r) < Pow2(32 - r) && x / Pow2(r) + Spill(y, r) < BASE
    ensures (x / Pow2(r) + Spill(y, r)) * Pow2(r) == x - x % Pow2(r) + (y % Pow2(r)) * BASE
  {
    hide Pow2;
    var p, q := Pow2(r), Pow2(32 - r);
    Pow2Limb();
    Pow2Add(r, 32 - r);
    Pow2Small();
    UpAlgebra(x, q, p, x / p, x % p);
    UpAlgebra(y, q, p, y / p, y % p);
    DivModUnique(y * q, BASE, y / p, y % p * q);
    DivModUnique(y % p * q, q, y % p, 0);
    assert r == 0 ==> y % p == 0;
    assert (x / p + y % p * q) * p == x / p * p + y % p * (q * p);
  }

  ghost function DownLimb(a: seq<Limb>, k: nat, r: nat, i: nat, j: nat): nat
    requires i <= |a| && r < 32
  {
    (if j + k < i then a[j + k] / Pow2(r) else 0) + (if j + k + 1 < i then Spill(a[j + k + 1], r) else 0)
  }

  ghost predicate ShiftedDown(p: seq<Limb>, a: seq<Limb>, k: nat, r: nat, i: nat)
    requires r < 32
  {
    |p| == |a| && i <= |a| && forall j :: 0 <= j < |p| ==> p[j] == DownLimb(a, k, r, i, j)
  }

  lemma DownNone(p: seq<Limb>, a: seq<Limb>, k: nat, r: nat)
    requires r < 32 && |p| == |a| && forall j :: 0 <= j < |p| ==> p[j] == 0
    ensures ShiftedDown(p, a, k, r, 0)
  {}

  lemma DownRound(p: seq<Limb>, a: seq<Limb>, k: nat, r: nat, i: nat)
    requires r < 32 && ShiftedDown(p, a, k, r, i) && i < |a|
    ensures i >= k + 1 && r != 0 ==> BitOr(p[i - k - 1], a[i] * Pow2(32 - r) % BASE) < BASE
    ensures i >= k ==> BitOr(p[i - k], a[i] / Pow2(r)) == a[i] / Pow2(r)
    ensures var p1 := if i >= k + 1 && r != 0 then p[i - k - 1 := BitOr(p[i - k - 1], a[i] * Pow2(32 - r) % BASE)] else p;
            var p2 := if i >= k then p1[i - k := a[i] / Pow2(r)] else p1;
            ShiftedDown(p2, a, k, r, i + 1)
  {
    hide Pow2, BitOr;
    if i >= k {
      assert p[i - k] == 0;
      OrZero(a[i] / Pow2(r));
    }
    if i >= k + 1 {
      DownParts(a[i - 1], a[i], r);
      assert p[i - k - 1] == a[i - 1] / Pow2(r);
      OrDisjoint(Spill(a[i], r), a[i - 1] / Pow2(r), 32 - r);
    }
  }

  lemma OrZero(x: nat)
    ensures BitOr(0, x) == x
  {}

  /** >>= : the quotient by a power of two. */
  method ShiftRight(pn: array<Limb>, shift: nat)
    modifies pn
    ensures Value(pn[..]) == old(Value(pn[..])) / Pow2(shift)
  {
    hide Weight, Value, Pow2, ShiftedDown, BitOr;
    var a := Copy(pn);
    SetZero(pn);
    var k, r := shift / 32, shift % 32;
    DownNone(pn[..], a[..], k, r);
    for i := 0 to pn.Length
      invariant a[..] == old(pn[..]) && ShiftedDown(pn[..], a[..], k, r, i)
    {
      DownRound(pn[..], a[..], k, r, i);
      if i - k - 1 >= 0 && r != 0 {
        pn[i - k - 1] := BitOr(pn[i - k - 1], a[i] * Pow2(32 - r) % BASE);
      }
      if i - k >= 0 {
        pn[i - k] := BitOr(pn[i - k], a[i] / Pow2(r));
      }
    }
    ShiftDownValue(pn[..], a[..], k, r, shift);
  }

  /** The bits of limb j that fall off at the bottom. */
  ghost function Rest(a: seq<Limb>, j: nat, r: nat): nat {
    if j < |a| then a[j] % Pow2(r) else 0
  }

  lemma {:induction false} DownValue(p: seq<Limb>, a: seq<Limb>, k: nat, r: nat, m: nat)
    requires r < 32 && k + m <= |a| && ShiftedDown(p, a, k, r, |a|)
    ensures Value(p[..m]) * Pow2(r) + Rest(a, k, r) == Value(a[k..k + m]) + Rest(a, k + m, r) * Weight(m)
  {
    hide Weight, Value, Pow2, Spill;
    if m == 0 {
      ValueEmpty(p);
      ValueEmpty(a[k..]);
      assert a[k..][..0] == a[k..k];
      WeightNext(0);
    } else {
      var n := m - 1;
      DownValue(p, a, k, r, n);
      ValueNext(p, n);
      ValueNext(a[k..], n);
      assert a[k..][..n] == a[k..k + n] && a[k..][..n + 1] == a[k..k + m];
      WeightNext(n);
      DownLimbValue(p, a, k, r, n);
      DownTerms(Value(p[..n]), p[n], a[k + n], Rest(a, k + n, r), Rest(a, k + m, r), Pow2(r), Weight(n));
    }
  }

  lemma DownLimbValue(p: seq<Limb>, a: seq<Limb>, k: nat, r: nat, n: nat)
    requires r < 32 && k + n < |a| && ShiftedDown(p, a, k, r, |a|)
    ensures p[n] * Pow2(r) == a[k + n] - Rest(a, k + n, r) + Rest(a, k + n + 1, r) * BASE
  {
    hide Pow2;
    if k + n + 1 < |a| {
      DownParts(a[k + n], a[k + n + 1], r);
    } else {
      assert p[n] == a[k + n] / Pow2(r);
    }
  }

  lemma DownTerms(v: int, x: int, y: int, r0: int, r1: int, p: int, w: int)
    requires x * p == y - r0 + r1 * BASE
    ensures (v + x * w) * p == v * p + y * w - r0 * w + r1 * (BASE * w)
  {
    assert (v + x * w) * p == v * p + (x * p) * w;
    assert (y - r0 + r1 * BASE) * w == y * w - r0 * w + r1 * (BASE * w);
  }

  lemma ShiftDownValue(p: seq<Limb>, a: seq<Limb>, k: nat, r: nat, shift: nat)
    requires r < 32 && shift == 32 * k + r && ShiftedDown(p, a, k, r, |a|)
    ensures Value(p) == Value(a) / Pow2(shift)
  {
    hide Weight, Value, Pow2, DownLimb, ShiftedDown;
    WeightPow2(k);
    Pow2Add(32 * k, r);
    var n := |a|;
    DivDiv(Value(a), Weight(k), Pow2(r));
    DownSize(p, a, k, r);
    if k >= n {
      DownZero(p, a, k, r, 0);
      assert p[0..] == p;
      ValueBound(a);
      WeightGrows(n, k);
      DivModUnique(Value(a), Weight(k), 0, Value(a));
    } else {
      DownQuotient(p, a, k, r);
      ValueSplit(a, k);
      ValueBound(a[..k]);
      DivModUnique(Value(a), Weight(k), Value(a[k..]), Value(a[..k]));
    }
  }

  lemma DownQuotient(p: seq<Limb>, a: seq<Limb>, k: nat, r: nat)
    requires r < 32 && k < |a| && ShiftedDown(p, a, k, r, |a|)
    ensures Value(p) == Value(a[k..]) / Pow2(r)
  {
    hide Weight, Value, Pow2, DownLimb, ShiftedDown;
    var n := |a|;
    DownSize(p, a, k, r);
    DownValue(p, a, k, r, n - k);
    assert a[k..n] == a[k..];
    ValueSplit(p, n - k);
    DownZero(p, a, k, r, n - k);
    DivModUnique(Value(a[k..]), Pow2(r), Value(p), Rest(a, k, r));
  }

  lemma DownSize(p: seq<Limb>, a: seq<Limb>, k: nat, r: nat)
    requires r < 32 && ShiftedDown(p, a, k, r, |a|)
    ensures |p| == |a|
  {}

  lemma DownZero(p: seq<Limb>, a: seq<Limb>, k: nat, r: nat, m: nat)
    requires r < 32 && ShiftedDown(p, a, k, r, |a|) && m <= |a| <= m + k
    ensures Value(p[m..]) == 0
  {
    hide Value;
    ValueZero(p[m..]);
  }

  lemma WeightGrows(m: nat, n: nat)
    requires m <= n
    ensures Weight(m) <= Weight(n)
  {
    PowGrows(BASE, m, n);
  }

  // ----- comparison and length --------------------------------------------------------------------------------

  lemma DecidedAt(s: seq<Limb>, t: seq<Limb>, i: nat)
    requires i < |s| == |t| && s[i] < t[i] && forall j :: i < j < |s| ==> s[j] == t[j]
    ensures Value(s) < Value(t)
  {
    hide Weight, Value;
    assert s[i + 1..] == t[i + 1..];
    ValueSplit(s, i + 1);
    ValueSplit(t, i + 1);
    ValueNext(s, i);
    ValueNext(t, i);
    ValueBound(s[..i]);
    OneMore(s[i], t[i], Weight(i));
  }

  lemma OneMore(x: int, y: int, w: nat)
    requires x < y
    ensures x * w + w <= y * w
  {
    MulMonotone(x + 1, y, w);
    assert (x + 1) * w == x * w + w;
  }

  /** CompareTo */
  method CompareTo(a: array<Limb>, b: array<Limb>) returns (r: int)
    requires a.Length == b.Length
    ensures r == if Value(a[..]) < Value(b[..]) then -1 else if Value(a[..]) > Value(b[..]) then 1 else 0
  {
    hide Weight, Value;
    var i := a.Length - 1;
    while i >= 0
      invariant -1 <= i < a.Length && forall j :: i < j < a.Length ==> a[j] == b[j]
    {
      if a[i] < b[i] {
        DecidedAt(a[..], b[..], i);
        return -1;
      }
      if a[i] > b[i] {
        DecidedAt(b[..], a[..], i);
        return 1;
      }
      i := i - 1;
    }
    assert a[..] == b[..];
    return 0;
  }

  /** The number of bits of a number. */
  ghost predicate BitLength(v: nat, n: nat) {
    v < Pow2(n) && (n > 0 ==> Pow2(n - 1) <= v)
  }

  lemma BitLengthUnique(v: nat, m: nat, n: nat)
    requires BitLength(v, m) && BitLength(v, n)
    ensures m == n
  {
    if m < n {
      PowGrows(2, m, n - 1);
    } else if n < m {
      PowGrows(2, n, m - 1);
    }
  }

  /** bits */
  method Bits(a: array<Limb>) returns (r: nat)
    ensures BitLength(Value(a[..]), r) && r <= 32 * a.Length
  {
    hide Weight, Value, Pow2, BitLength;
    var pos := a.Length - 1;
    while pos >= 0
      invariant -1 <= pos < a.Length && forall j :: pos < j < a.Length ==> a[j] == 0
    {
      if a[pos] != 0 {
        Pow2Limb();
        var nbits := 31;
        while nbits > 0
          invariant 0 <= nbits <= 31 && a[pos] < Pow2(nbits + 1)
        {
          if a[pos] / Pow2(nbits) % 2 == 1 {
            TopBit(a[..], pos, nbits);
            return 32 * pos + nbits + 1;
          }
          NoBit(a[pos], nbits);
          nbits := nbits - 1;
        }
        Pow2Small();
        TopBit(a[..], pos, 0);
        return 32 * pos + 1;
      }
      pos := pos - 1;
    }
    ValueZero(a[..]);
    NoBits();
    return 0;
  }

  lemma NoBits()
    ensures BitLength(0, 0)
  {}

  lemma NoBit(x: nat, n: nat)
    requires x < Pow2(n + 1) && x / Pow2(n) % 2 != 1
    ensures x < Pow2(n)
  {
    Pow2Add(1, n);
    Pow2Small();
    hide Pow2;
    if x >= Pow2(n) {
      DivModUnique(x, Pow2(n), 1, x - Pow2(n));
    }
  }

  lemma TopBit(s: seq<Limb>, pos: nat, n: nat)
    requires pos < |s| && forall j :: pos < j < |s| ==> s[j] == 0
    requires n < 32 && s[pos] < Pow2(n + 1) && s[pos] / Pow2(n) > 0
    ensures BitLength(Value(s), 32 * pos + n + 1)
  {
    hide Weight, Value, Pow2;
    ValueSplit(s, pos + 1);
    ValueZero(s[pos + 1..]);
    ValueNext(s, pos);
    ValueBound(s[..pos]);
    WeightPow2(pos);
    Pow2Add(32 * pos, n);
    Pow2Add(32 * pos, n + 1);
    var w, x := Weight(pos), s[pos];
    AtLeastOne(x, Pow2(n));
    MulMonotone(Pow2(n), x, w);
    MulMonotone(x, Pow2(n + 1) - 1, w);
    assert (Pow2(n + 1) - 1) * w == w * Pow2(n + 1) - w;
  }

  lemma AtLeastOne(x: nat, d: nat)
    requires d > 0 && x / d > 0
    ensures x >= d
  {}

  // ----- division -----------------------------------------------------------------------------------------------

  lemma ValueUpdate(s: seq<Limb>, i: nat, x: Limb)
    requires i < |s|
    ensures Value(s[i := x]) == Value(s) + x * Weight(i) - s[i] * Weight(i)
  {
    hide Weight, Value;
    var t := s[i := x];
    ValueSplit(s, i + 1);
    ValueSplit(t, i + 1);
    ValueNext(s, i);
    ValueNext(t, i);
    assert t[..i] == s[..i] && t[i + 1..] == s[i + 1..];
  }

  /** Setting a bit below which and at which the number has none adds its weight. */
  lemma SetBit(s: seq<Limb>, shift: nat)
    requires shift < 32 * |s| && Value(s) % Pow2(shift + 1) == 0
    ensures BitOr(s[shift / 32], Pow2(shift % 32)) < BASE
    ensures Value(s[shift / 32 := BitOr(s[shift / 32], Pow2(shift % 32))]) == Value(s) + Pow2(shift)
    ensures (Value(s) + Pow2(shift)) % Pow2(shift) == 0 && Value(s) % Pow2(shift) == 0
  {
    hide Weight, Value, Pow2, BitOr;
    var i, r := shift / 32, shift % 32;
    var v, p := Value(s), Pow2(shift);
    StillDivisible(v, shift);
    LowLimbBits(s, i, r);
    FreeBit(s[i], r);
    WeightPow2(i);
    Pow2Add(32 * i, r);
    ValueUpdate(s, i, s[i] + Pow2(r));
    assert (s[i] + Pow2(r)) * Weight(i) == s[i] * Weight(i) + Pow2(r) * Weight(i);
  }

  lemma StillDivisible(v: nat, shift: nat)
    requires v % Pow2(shift + 1) == 0
    ensures (v + Pow2(shift)) % Pow2(shift) == 0 && v % Pow2(shift) == 0
  {
    hide Pow2;
    Pow2Small();
    Pow2Add(1, shift);
    var h, p := v / Pow2(shift + 1), Pow2(shift);
    assert v == Pow2(shift + 1) * h == p * (2 * h);
    DivModUnique(v, p, 2 * h, 0);
    assert p * (2 * h + 1) == v + p;
    DivModUnique(v + p, p, 2 * h + 1, 0);
  }

  lemma FreeBit(x: Limb, r: nat)
    requires r < 32 && x % Pow2(r + 1) == 0
    ensures BitOr(x, Pow2(r)) == x + Pow2(r) < BASE
  {
    hide Pow2, BitOr;
    Pow2Small();
    Pow2Add(1, r);
    OrDisjoint(x, Pow2(r), r + 1);
    Pow2Limb();
    var p, q := Pow2(r + 1), Pow2(31 - r);
    Pow2Add(r + 1, 31 - r);
    var h := x / p;
    assert x == p * h;
    if h >= q {
      MulMonotone(q, h, p);
    }
    MulMonotone(h + 1, q, p);
    assert (h + 1) * p == x + p;
  }

  /** A number divisible by a high power of two has zero low limbs and low bits. */
  lemma LowLimbBits(s: seq<Limb>, i: nat, r: nat)
    requires i < |s| && r < 32 && Value(s) % Pow2(32 * i + r + 1) == 0
    ensures s[i] % Pow2(r + 1) == 0
  {
    hide Weight, Value, Pow2;
    ValueSplit(s, i);
    ValueSplit(s, i + 1);
    ValueNext(s, i);
    ValueBound(s[..i]);
    WeightPow2(i);
    WeightNext(i);
    Pow2Add(32 * i, r + 1);
    var w, p, q, lo, hi := Weight(i), Pow2(r + 1), Pow2(31 - r), Value(s[..i]), Value(s[i + 1..]);
    Pow2Add(r + 1, 31 - r);
    Pow2Limb();
    var m := Value(s) / (w * p);
    LowBitsAlgebra(w, p, q, lo, s[i], hi, m, Value(s));
  }

  lemma LowBitsAlgebra(w: nat, p: nat, q: nat, lo: nat, x: nat, hi: nat, m: nat, v: nat)
    requires 0 < w && 0 < p && p * q == BASE && lo < w
    requires v == lo + x * w + BASE * w * hi && v == w * p * m
    ensures x % p == 0
  {
    calc {
      v;
      lo + x * w + BASE * w * hi;
      { assert w * (x + BASE * hi) == x * w + BASE * w * hi; }
      w * (x + BASE * hi) + lo;
    }
    assert w * p * m == w * (p * m) + 0;
    DivModUnique(v, w, x + BASE * hi, lo);
    DivModUnique(v, w, p * m, 0);
    assert x == p * m - p * q * hi == p * (m - q * hi);
    DivModUnique(x, p, m - q * hi, 0);
  }

  /**
   * /= : floor division for every nonzero divisor, also of an object by itself. A zero divisor throws,
   * after the left operand has been cleared.
   */
  method DivAssign(pn: array<Limb>, b: array<Limb>) returns (ok: bool)
    requires pn.Length == b.Length
    modifies pn
    ensures ok <==> old(Value(b[..])) != 0
    ensures if ok then Value(pn[..]) == old(Value(pn[..])) / old(Value(b[..])) else Value(pn[..]) == 0
  {
    hide Weight, Value, Pow2, BitLength, BitOr;
    var div := Copy(b);
    var num := Copy(pn);
    SetZero(pn);
    ghost var va, vb := Value(num[..]), Value(div[..]);
    var num_bits := Bits(num);
    var div_bits := Bits(div);
    DivisorBits(va, num_bits, vb, div_bits);
    if div_bits == 0 {
      return false;
    }
    if div_bits > num_bits {
      DivModUnique(va, vb, 0, va);
      return true;
    }
    var shift := num_bits - div_bits;
    Aligned(va, num_bits, vb, div_bits, pn.Length);
    ShiftLeft(div, shift);
    DivModUnique(0, Pow2(shift + 1), 0, 0);
    while shift >= 0
      invariant -1 <= shift < 32 * pn.Length
      invariant Value(num[..]) + Value(pn[..]) * vb == va && Value(num[..]) < vb * Pow2(shift + 1)
      invariant shift >= 0 ==> Value(div[..]) == vb * Pow2(shift)
      invariant Value(pn[..]) % Pow2(shift + 1) == 0
    {
      DivStep(pn, num, div, shift, va, vb);
      shift := shift - 1;
    }
    Pow2Small();
    DivModUnique(va, vb, Value(pn[..]), Value(num[..]));
    return true;
  }

  /** One bit of the quotient. */
  method DivStep(pn: array<Limb>, num: array<Limb>, div: array<Limb>, shift: nat, ghost va: nat, ghost vb: nat)
    requires pn.Length == num.Length == div.Length && num != div && num != pn && div != pn && shift < 32 * pn.Length
    requires Value(num[..]) + Value(pn[..]) * vb == va && Value(num[..]) < vb * Pow2(shift + 1)
    requires Value(div[..]) == vb * Pow2(shift) && Value(pn[..]) % Pow2(shift + 1) == 0
    modifies pn, num, div
    ensures Value(num[..]) + Value(pn[..]) * vb == va && Value(num[..]) < vb * Pow2(shift)
    ensures shift > 0 ==> Value(div[..]) == vb * Pow2(shift - 1)
    ensures Value(pn[..]) % Pow2(shift) == 0
  {
    hide Weight, Value, Pow2, BitOr;
    ghost var vn, vq, vd := Value(num[..]), Value(pn[..]), vb * Pow2(shift);
    SetBit(pn[..], shift);
    Halve(vb, shift);
    var order := CompareTo(num, div);
    if order >= 0 {
      ValueBound(num[..]);
      DivModUnique(vn - vd, Weight(pn.Length), 0, vn - vd);
      SubAssign(num, div);
      pn[shift / 32] := BitOr(pn[shift / 32], Pow2(shift % 32));
      assert (vq + Pow2(shift)) * vb == vq * vb + vd;
    }
    ShiftRight(div, 1);
  }

  lemma DivisorBits(va: nat, n: nat, vb: nat, m: nat)
    requires BitLength(va, n) && BitLength(vb, m)
    ensures m == 0 <==> vb == 0
    ensures m > n ==> va < vb
  {
    hide Pow2;
    if m > n {
      Grows2(n, m - 1);
    }
    Pow2Small();
  }

  lemma Grows2(m: nat, n: nat)
    requires m <= n
    ensures Pow2(m) <= Pow2(n)
  {
    PowGrows(2, m, n);
  }

  /** The aligned divisor does not overflow, and one doubling more exceeds the numerator. */
  lemma Aligned(va: nat, n: nat, vb: nat, m: nat, width: nat)
    requires BitLength(va, n) && BitLength(vb, m) && 0 < m <= n <= 32 * width
    ensures (Pow2(n - m) * vb) % Weight(width) == vb * Pow2(n - m)
    ensures va < vb * Pow2(n - m + 1)
  {
    hide Pow2, Weight;
    Pow2Add(n - m + 1, m - 1);
    MulMonotone(Pow2(m - 1), vb, Pow2(n - m + 1));
    AlignedFits(n, vb, m, width);
  }

  lemma AlignedFits(n: nat, vb: nat, m: nat, width: nat)
    requires vb < Pow2(m) && m <= n <= 32 * width
    ensures (Pow2(n - m) * vb) % Weight(width) == vb * Pow2(n - m)
  {
    hide Pow2, Weight;
    WeightPow2(width);
    Pow2Add(n - m, m);
    Grows2(n, 32 * width);
    OneMore(vb, Pow2(m), Pow2(n - m));
    assert Pow2(n - m) * vb == vb * Pow2(n - m);
    DivModUnique(vb * Pow2(n - m), Weight(width), 0, vb * Pow2(n - m));
  }

  lemma Halve(vb: nat, shift: nat)
    ensures vb * Pow2(shift + 1) == 2 * (vb * Pow2(shift))
    ensures shift > 0 ==> vb * Pow2(shift) / Pow2(1) == vb * Pow2(shift - 1)
  {
    hide Pow2;
    Pow2Small();
    Pow2Add(1, shift);
    assert vb * (2 * Pow2(shift)) == 2 * (vb * Pow2(shift));
    if shift > 0 {
      Pow2Add(1, shift - 1);
      assert vb * (2 * Pow2(shift - 1)) == 2 * (vb * Pow2(shift - 1));
    }
  }
}

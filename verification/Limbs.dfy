/**
 * Numbers as little-endian lists of 32-bit limbs, the representation of base_uint (src/arith_uint256.h):
 * what a list is worth, and how the limb operations act on that.
 */
module Limbs {
  import opened Power
  import opened BitOps

  const BASE: nat := 0x1_0000_0000
  type Limb = x: int | 0 <= x < 0x1_0000_0000

  /** The weight of limb i. */
  ghost function Weight(i: nat): (w: nat)
    ensures w > 0
  {
    PowPositive(BASE, i);
    Pow(BASE, i)
  }

  lemma WeightNext(i: nat)
    ensures Weight(i + 1) == BASE * Weight(i) && Weight(0) == 1
  {}

  lemma WeightAdd(i: nat, j: nat)
    ensures Weight(i + j) == Weight(i) * Weight(j)
  {
    PowAdd(BASE, i, j);
  }

  ghost function Value(s: seq<Limb>): (v: nat) {
    if s == [] then 0 else Value(s[..|s| - 1]) + s[|s| - 1] * Weight(|s| - 1)
  }

  lemma {:induction false} ValueBound(s: seq<Limb>)
    ensures Value(s) < Weight(|s|)
  {
    hide Weight;
    if s == [] {
      WeightNext(0);
    } else {
      var n := |s| - 1;
      ValueBound(s[..n]);
      WeightNext(n);
      MulMonotone(s[n], BASE - 1, Weight(n));
      assert (BASE - 1) * Weight(n) == BASE * Weight(n) - Weight(n);
    }
  }

  /** One more limb. */
  lemma ValueNext(s: seq<Limb>, i: nat)
    requires i < |s|
    ensures Value(s[..i + 1]) == Value(s[..i]) + s[i] * Weight(i)
  {
    hide Weight;
    assert s[..i + 1][..i] == s[..i];
  }

  lemma {:induction false} ValueSplit(s: seq<Limb>, i: nat)
    requires i <= |s|
    ensures Value(s) == Value(s[..i]) + Weight(i) * Value(s[i..])
  {
    hide Weight;
    if i == |s| {
      assert s[..i] == s && s[i..] == [];
    } else {
      var n := |s| - 1;
      var t := s[..n];
      ValueSplit(t, i);
      assert t[..i] == s[..i] && t[i..] == s[i..][..n - i];
      WeightAdd(i, n - i);
      Distribute(Weight(i), Value(t[i..]), s[n], Weight(n - i));
    }
  }

  lemma Distribute(w: int, x: int, y: int, z: int)
    ensures w * (x + y * z) == w * x + y * (w * z)
  {
    assert y * (w * z) == w * (y * z);
  }

  lemma {:induction false} ValueZero(s: seq<Limb>)
    ensures Value(s) == 0 <==> forall i :: 0 <= i < |s| ==> s[i] == 0
  {
    hide Weight;
    if s != [] {
      var n := |s| - 1;
      ValueZero(s[..n]);
      assert forall i :: 0 <= i < n ==> s[..n][i] == s[i];
      if s[n] > 0 {
        MulMonotone(1, s[n], Weight(n));
      }
    }
  }

  /** Equal numbers have equal limbs. */
  lemma {:induction false} ValueInjective(s: seq<Limb>, t: seq<Limb>)
    requires |s| == |t| && Value(s) == Value(t)
    ensures s == t
  {
    hide Weight;
    if s != [] {
      var n := |s| - 1;
      ValueBound(s[..n]);
      ValueBound(t[..n]);
      SameParts(Weight(n), s[n], Value(s[..n]), t[n], Value(t[..n]));
      ValueInjective(s[..n], t[..n]);
      assert s == s[..n] + [s[n]] && t == t[..n] + [t[n]];
    }
  }

  lemma SameParts(w: nat, x: nat, low: nat, y: nat, low': nat)
    requires low < w && low' < w && low + w * x == low' + w * y
    ensures x == y && low == low'
  {
    DivModUnique(low + w * x, w, x, low);
    DivModUnique(low + w * x, w, y, low');
  }

  /** A number given up to a multiple of the modulus. */
  lemma Reduce(v: nat, m: nat, k: int, x: int)
    requires v < m && v + k * m == x
    ensures v == x % m
  {
    assert m * k == k * m;
    DivModUnique(x, m, k, v);
  }

  /** Splitting a sum into a limb and a carry, at weight w. */
  lemma CarryStep(n: nat, w: int)
    ensures n * w == (n % BASE) * w + (n / BASE) * (BASE * w)
  {
    assert n == n % BASE + BASE * (n / BASE);
    Distribute(w, n % BASE, n / BASE, BASE);
    assert (n % BASE + (n / BASE) * BASE) * w == w * (n % BASE + (n / BASE) * BASE);
  }

  // ----- weights as powers of two ----------------------------------------------------------------------

  lemma Pow2Limb()
    ensures Pow2(32) == BASE
  {
    Pow2Small();
    Pow2Add(16, 16);
  }

  /** Limb weights are powers of two. */
  lemma {:induction false} WeightPow2(i: nat)
    ensures Weight(i) == Pow2(32 * i)
  {
    if i > 0 {
      WeightPow2(i - 1);
      WeightNext(i - 1);
      Pow2Limb();
      Pow2Add(32, 32 * (i - 1));
    }
  }
}

/**
 * Bech32 (src/bech32.cpp, after section "Checksum" of BIP 173): the checksum polynomial as a linear map,
 * and what encoding and decoding guarantee.
 */
module Bech32 {
  import opened Power
  import opened BitOps

  // ----- the checksum register ------------------------------------------------------------------------

  /** The register holds six symbols of five bits. */
  const REGISTER: nat := 0x4000_0000
  const TOP: nat := 0x200_0000

  lemma Sizes()
    ensures Pow2(5) == 32 && Pow2(25) == TOP && Pow2(30) == REGISTER
  {
    assert Pow(2, 5) == 32;
    Pow2Add(5, 5);
    Pow2Add(10, 10);
    Pow2Add(20, 5);
    Pow2Add(25, 5);
  }

  /** Add a multiple of the generator if a bit of the symbol shifted out is set. */
  function Mix(d: nat, c0: nat, bit: nat, k: nat): nat {
    if BitAt(c0, bit) then BitXor(d, k) else d
  }

  /** One round of PolyMod. */
  function Step(c: nat, v: nat): nat {
    var c0 := c / TOP;
    var d := BitXor(32 * (c % TOP), v);
    Mix(Mix(Mix(Mix(Mix(d, c0, 0, 0x3b6a57b2), c0, 1, 0x26508e6d), c0, 2, 0x1ea119fa), c0, 3, 0x3d4233dd), c0, 4, 0x2a1462b3)
  }

  lemma MixLinear(d: nat, e: nat, c0: nat, e0: nat, bit: nat, k: nat)
    ensures Mix(BitXor(d, e), BitXor(c0, e0), bit, k) == BitXor(Mix(d, c0, bit, k), Mix(e, e0, bit, k))
  {
    hide BitXor, BitAt;
    XorAt(c0, e0, bit);
    XorSwap(d, k, e, k);
    XorSelf(k);
    XorZero(BitXor(d, e));
    XorAssoc(d, e, k);
    XorAssoc(d, k, e);
    XorComm(e, k);
  }

  /** A round is linear over exclusive or. */
  lemma StepLinear(c: nat, d: nat, v: nat, w: nat)
    ensures Step(BitXor(c, d), BitXor(v, w)) == BitXor(Step(c, v), Step(d, w))
  {
    hide BitXor, BitAt, Mix, Pow2;
    Sizes();
    XorDiv(c, d, 25);
    XorMod(c, d, 25);
    XorShift(c % TOP, d % TOP, 5);
    XorSwap(32 * (c % TOP), v, 32 * (d % TOP), w);
    var c0, d0 := c / TOP, d / TOP;
    var x, y := BitXor(32 * (c % TOP), v), BitXor(32 * (d % TOP), w);
    MixLinear(x, y, c0, d0, 0, 0x3b6a57b2);
    var x1, y1 := Mix(x, c0, 0, 0x3b6a57b2), Mix(y, d0, 0, 0x3b6a57b2);
    MixLinear(x1, y1, c0, d0, 1, 0x26508e6d);
    var x2, y2 := Mix(x1, c0, 1, 0x26508e6d), Mix(y1, d0, 1, 0x26508e6d);
    MixLinear(x2, y2, c0, d0, 2, 0x1ea119fa);
    var x3, y3 := Mix(x2, c0, 2, 0x1ea119fa), Mix(y2, d0, 2, 0x1ea119fa);
    MixLinear(x3, y3, c0, d0, 3, 0x3d4233dd);
    var x4, y4 := Mix(x3, c0, 3, 0x3d4233dd), Mix(y3, d0, 3, 0x3d4233dd);
    MixLinear(x4, y4, c0, d0, 4, 0x2a1462b3);
  }

  lemma MixBound(d: nat, c0: nat, bit: nat, k: nat)
    requires d < REGISTER && k < REGISTER
    ensures Mix(d, c0, bit, k) < REGISTER
  {
    Sizes();
    hide BitXor, BitAt, Pow2;
    OrBound(d, k, 30);
  }

  /** A round stays within the register. */
  lemma StepBound(c: nat, v: nat)
    requires v < 32
    ensures Step(c, v) < REGISTER
  {
    hide BitXor, BitAt, Mix, Pow2;
    Sizes();
    var c0, d := c / TOP, BitXor(32 * (c % TOP), v);
    XorDisjoint(c % TOP, v, 5);
    MixBound(d, c0, 0, 0x3b6a57b2);
    var d1 := Mix(d, c0, 0, 0x3b6a57b2);
    MixBound(d1, c0, 1, 0x26508e6d);
    var d2 := Mix(d1, c0, 1, 0x26508e6d);
    MixBound(d2, c0, 2, 0x1ea119fa);
    var d3 := Mix(d2, c0, 2, 0x1ea119fa);
    MixBound(d3, c0, 3, 0x3d4233dd);
    var d4 := Mix(d3, c0, 3, 0x3d4233dd);
    MixBound(d4, c0, 4, 0x2a1462b3);
  }

  /** While nothing is shifted out the register is a number in base 32. */
  lemma StepPlain(c: nat, v: nat)
    requires c < TOP && v < 32
    ensures Step(c, v) == 32 * c + v
  {
    hide BitXor, BitAt, Pow2;
    Sizes();
    XorDisjoint(c, v, 5);
    ZeroAt(0);
    ZeroAt(1);
    ZeroAt(2);
    ZeroAt(3);
    ZeroAt(4);
    assert c / TOP == 0 && c % TOP == c;
  }

  // ----- a round loses nothing ---------------------------------------------------------------------------

  /** The last symbol after a round: the last symbols of the generator multiples that were added. */
  lemma MixLast(d: nat, c0: nat, bit: nat, k: nat)
    ensures Mix(d, c0, bit, k) % 32 == BitXor(d % 32, if BitAt(c0, bit) then k % 32 else 0)
  {
    hide BitXor, BitAt, Pow2;
    Sizes();
    XorMod(d, k, 5);
    XorZero(d % 32);
  }

  function Pick(b: bool, k: nat): nat { if b then k else 0 }

  /** The last symbol of the sum of the multiples. */
  function Last(b0: bool, b1: bool, b2: bool, b3: bool, b4: bool): nat {
    BitXor(BitXor(BitXor(BitXor(BitXor(0, Pick(b0, 18)), Pick(b1, 13)), Pick(b2, 26)), Pick(b3, 29)), Pick(b4, 19))
  }

  lemma SmallSums()
    ensures BitXor(18, 13) == 31 && BitXor(18, 26) == 8 && BitXor(13, 26) == 23 && BitXor(31, 26) == 5 && BitXor(29, 19) == 14
  {
    XorSteps(18, 13, 9, 6, 4, 3, 2, 1);
    XorSteps(18, 26, 9, 13, 4, 6, 2, 3);
    XorSteps(13, 26, 6, 13, 3, 6, 1, 3);
    XorSteps(31, 26, 15, 13, 7, 6, 3, 3);
    XorSteps(29, 19, 14, 9, 7, 4, 3, 2);
    assert BitXor(2, 1) == 3 && BitXor(2, 3) == 1 && BitXor(1, 3) == 2 && BitXor(3, 3) == 0 && BitXor(3, 2) == 1;
  }

  lemma XorSteps(x: nat, y: nat, x1: nat, y1: nat, x2: nat, y2: nat, x3: nat, y3: nat)
    requires x / 2 == x1 > 0 && y / 2 == y1 > 0 && x1 / 2 == x2 > 0 && y1 / 2 == y2 > 0 && x2 / 2 == x3 && y2 / 2 == y3
    ensures BitXor(x, y) == 8 * BitXor(x3, y3) + 4 * ((x2 + y2) % 2) + 2 * ((x1 + y1) % 2) + (x + y) % 2
  {
    hide BitXor;
    XorHalf(x, y);
    XorHalf(x1, y1);
    XorHalf(x2, y2);
  }

  lemma FirstThree(b0: bool, b1: bool, b2: bool) returns (x: nat)
    ensures x == BitXor(BitXor(BitXor(0, Pick(b0, 18)), Pick(b1, 13)), Pick(b2, 26))
    ensures x in {0, 18, 13, 31, 26, 8, 23, 5} && (x == 0 <==> !b0 && !b1 && !b2)
  {
    hide BitXor;
    SmallSums();
    XorZero(Pick(b0, 18));
    XorZero(Pick(b1, 13));
    XorZero(Pick(b2, 26));
    var y := BitXor(Pick(b0, 18), Pick(b1, 13));
    XorZero(y);
    x := BitXor(y, Pick(b2, 26));
  }

  /** The last symbols of the five multiples are linearly independent. */
  lemma Independent(b0: bool, b1: bool, b2: bool, b3: bool, b4: bool)
    ensures Last(b0, b1, b2, b3, b4) == 0 ==> !b0 && !b1 && !b2 && !b3 && !b4
  {
    hide BitXor;
    var x := FirstThree(b0, b1, b2);
    SmallSums();
    XorAssoc(x, Pick(b3, 29), Pick(b4, 19));
    XorZero(Pick(b3, 29));
    XorZero(Pick(b4, 19));
    XorCancel(x, BitXor(Pick(b3, 29), Pick(b4, 19)));
  }

  lemma StepLast(c: nat)
    ensures var c0 := c / TOP; Step(c, 0) % 32 == Last(BitAt(c0, 0), BitAt(c0, 1), BitAt(c0, 2), BitAt(c0, 3), BitAt(c0, 4))
  {
    hide BitXor, BitAt, Mix, Pow2;
    var c0, d := c / TOP, BitXor(32 * (c % TOP), 0);
    XorZero(32 * (c % TOP));
    assert d % 32 == 0;
    MixLast(d, c0, 0, 0x3b6a57b2);
    var d1 := Mix(d, c0, 0, 0x3b6a57b2);
    MixLast(d1, c0, 1, 0x26508e6d);
    var d2 := Mix(d1, c0, 1, 0x26508e6d);
    MixLast(d2, c0, 2, 0x1ea119fa);
    var d3 := Mix(d2, c0, 2, 0x1ea119fa);
    MixLast(d3, c0, 3, 0x3d4233dd);
    var d4 := Mix(d3, c0, 3, 0x3d4233dd);
    MixLast(d4, c0, 4, 0x2a1462b3);
  }

  /** A number of n bits with none of them set is zero. */
  lemma {:induction false} NoBits(x: nat, n: nat)
    requires x < Pow2(n) && forall b :: 0 <= b < n ==> !BitAt(x, b)
    ensures x == 0
  {
    if n > 0 {
      assert !BitAt(x, 0);
      forall b | 0 <= b < n - 1
        ensures !BitAt(x / 2, b)
      {
        assert BitAt(x, b + 1) == BitAt(x / 2, b);
      }
      NoBits(x / 2, n - 1);
    }
  }

  /** A round without input takes nothing but zero to zero. */
  lemma StepNonzero(c: nat)
    requires 0 < c < REGISTER
    ensures Step(c, 0) != 0
  {
    Sizes();
    hide BitXor, Pow2, Mix, Last, Step;
    var c0 := c / TOP;
    if c0 == 0 {
      StepPlain(c, 0);
    } else if Step(c, 0) == 0 {
      StepLast(c);
      Independent(BitAt(c0, 0), BitAt(c0, 1), BitAt(c0, 2), BitAt(c0, 3), BitAt(c0, 4));
      forall b | 0 <= b < 5
        ensures !BitAt(c0, b)
      {
        assert b == 0 || b == 1 || b == 2 || b == 3 || b == 4;
      }
      NoBits(c0, 5);
    }
  }

  // ----- whole lists ---------------------------------------------------------------------------------------

  ghost predicate Symbols(s: seq<nat>) {
    forall i :: 0 <= i < |s| ==> s[i] < 32
  }

  /** The register after a list of values. */
  function Run(c: nat, s: seq<nat>): nat {
    if s == [] then c else Step(Run(c, s[..|s| - 1]), s[|s| - 1])
  }

  /** PolyMod */
  method PolyMod(v: seq<nat>) returns (c: nat)
    ensures c == Run(1, v)
  {
    hide Step;
    c := 1;
    for i := 0 to |v|
      invariant c == Run(1, v[..i])
    {
      assert v[..i + 1][..i] == v[..i];
      c := Step(c, v[i]);
    }
    assert v[..|v|] == v;
  }

  lemma RunLast(c: nat, s: seq<nat>, v: nat)
    ensures Run(c, s + [v]) == Step(Run(c, s), v)
  {
    assert (s + [v])[..|s|] == s;
  }

  lemma {:induction false} RunCat(c: nat, s: seq<nat>, t: seq<nat>)
    ensures Run(c, s + t) == Run(Run(c, s), t)
  {
    hide Step;
    if t == [] {
      assert s + t == s;
    } else {
      var n := |t| - 1;
      assert (s + t)[..|s| + n] == s + t[..n];
      RunCat(c, s, t[..n]);
    }
  }

  ghost function XorSeq(s: seq<nat>, t: seq<nat>): (r: seq<nat>)
    requires |s| == |t|
    ensures |r| == |s|
  {
    seq(|s|, i requires 0 <= i < |s| => BitXor(s[i], t[i]))
  }

  /** The register is linear in its start value and the list. */
  lemma {:induction false} RunLinear(c: nat, d: nat, s: seq<nat>, t: seq<nat>)
    requires |s| == |t|
    ensures Run(BitXor(c, d), XorSeq(s, t)) == BitXor(Run(c, s), Run(d, t))
  {
    hide Step, BitXor;
    if s != [] {
      var n := |s| - 1;
      RunLinear(c, d, s[..n], t[..n]);
      assert XorSeq(s, t)[..n] == XorSeq(s[..n], t[..n]);
      StepLinear(Run(c, s[..n]), Run(d, t[..n]), s[n], t[n]);
    }
  }

  lemma {:induction false} RunBound(c: nat, s: seq<nat>)
    requires c < REGISTER && Symbols(s)
    ensures Run(c, s) < REGISTER
  {
    hide Step;
    if s != [] {
      var n := |s| - 1;
      StepBound(Run(c, s[..n]), s[n]);
    }
  }

  // ----- error detection ---------------------------------------------------------------------------------------

  /** Zero input takes nothing but zero to zero, however long it is. */
  lemma {:induction false} ZerosKeep(c: nat, s: seq<nat>)
    requires c < REGISTER && forall i :: 0 <= i < |s| ==> s[i] == 0
    ensures Run(c, s) == 0 <==> c == 0
  {
    hide Step;
    if s != [] {
      var n := |s| - 1;
      ZerosKeep(c, s[..n]);
      RunBound(c, s[..n]);
      if Run(c, s[..n]) > 0 {
        StepNonzero(Run(c, s[..n]));
      } else {
        StepPlain(0, 0);
      }
    }
  }

  /** Two lists of any length that differ in exactly one symbol never leave the same register. */
  lemma SingleErrorDetected(s: seq<nat>, t: seq<nat>, i: nat)
    requires |s| == |t| && i < |s| && s[i] != t[i] && s[i] < 32 && t[i] < 32
    requires forall j :: 0 <= j < |s| && j != i ==> s[j] == t[j]
    ensures Run(1, s) != Run(1, t)
  {
    hide Step, BitXor;
    var e := XorSeq(s, t);
    XorSelf(1);
    RunLinear(1, 1, s, t);
    XorCancel(Run(1, s), Run(1, t));
    forall j | 0 <= j < |e| && j != i
      ensures e[j] == 0
    {
      XorSelf(s[j]);
    }
    XorCancel(s[i], t[i]);
    Sizes();
    OrBound(s[i], t[i], 5);
    OneErrorRun(e, i);
  }

  /** A single nonzero symbol leaves a nonzero register. */
  lemma OneErrorRun(e: seq<nat>, i: nat)
    requires i < |e| && 0 < e[i] < 32 && forall j :: 0 <= j < |e| && j != i ==> e[j] == 0
    ensures Run(0, e) != 0
  {
    hide Step, Run;
    assert e == e[..i] + [e[i]] + e[i + 1..];
    RunCat(0, e[..i] + [e[i]], e[i + 1..]);
    RunLast(0, e[..i], e[i]);
    ZerosKeep(0, e[..i]);
    StepPlain(0, e[i]);
    ZerosKeep(e[i], e[i + 1..]);
  }

  // ----- the checksum --------------------------------------------------------------------------------------------

  const ZEROS: seq<nat> := [0, 0, 0, 0, 0, 0]

  /** Six symbols packed into a number, the first one highest. */
  function Packed(x: seq<nat>): nat
    requires |x| == 6
  {
    32 * (32 * (32 * (32 * (32 * x[0] + x[1]) + x[2]) + x[3]) + x[4]) + x[5]
  }

  function Digits(m: nat): seq<nat> {
    [m / 0x200_0000 % 32, m / 0x10_0000 % 32, m / 0x8000 % 32, m / 0x400 % 32, m / 0x20 % 32, m % 32]
  }

  /** Shifting down by five bits at a time. */
  lemma Shifts(m: nat)
    ensures m / 0x400 == m / 32 / 32 && m / 0x8000 == m / 0x400 / 32 && m / 0x10_0000 == m / 0x8000 / 32
    ensures m / 0x200_0000 == m / 0x10_0000 / 32
  {
    DivDiv(m, 32, 32);
    DivDiv(m, 0x400, 32);
    DivDiv(m, 0x8000, 32);
    DivDiv(m, 0x10_0000, 32);
  }

  lemma PackedDigits(m: nat)
    requires m < REGISTER
    ensures Symbols(Digits(m)) && Packed(Digits(m)) == m
  {
    Shifts(m);
    var a5, a4, a3, a2, a1 := m / 0x20, m / 0x400, m / 0x8000, m / 0x10_0000, m / 0x200_0000;
    SplitLast(m);
    SplitLast(a5);
    SplitLast(a4);
    SplitLast(a3);
    SplitLast(a2);
    SplitLast(a1);
    assert a1 < 32;
    var d := Digits(m);
    assert d[0] == a1 && d[1] == a2 % 32 && d[2] == a3 % 32 && d[3] == a4 % 32 && d[4] == a5 % 32 && d[5] == m % 32;
    Horner(d, a1, a2, a3, a4, a5, m);
  }

  lemma SplitLast(a: nat)
    ensures a == 32 * (a / 32) + a % 32 && a % 32 < 32 && (a < 32 ==> a % 32 == a)
  {}

  lemma Horner(d: seq<nat>, a1: nat, a2: nat, a3: nat, a4: nat, a5: nat, m: nat)
    requires |d| == 6 && a1 == d[0] && a2 == 32 * a1 + d[1] && a3 == 32 * a2 + d[2] && a4 == 32 * a3 + d[3]
    requires a5 == 32 * a4 + d[4] && m == 32 * a5 + d[5]
    ensures Packed(d) == m
  {}

  lemma DigitsPacked(x: seq<nat>)
    requires |x| == 6 && Symbols(x)
    ensures Packed(x) < REGISTER && Digits(Packed(x)) == x
  {
    var p1 := x[0];
    var p2 := 32 * p1 + x[1];
    var p3 := 32 * p2 + x[2];
    var p4 := 32 * p3 + x[3];
    var p5 := 32 * p4 + x[4];
    var p6 := 32 * p5 + x[5];
    Shifts(p6);
    DivModUnique(p6, 32, p5, x[5]);
    DivModUnique(p5, 32, p4, x[4]);
    DivModUnique(p4, 32, p3, x[3]);
    DivModUnique(p3, 32, p2, x[2]);
    DivModUnique(p2, 32, p1, x[1]);
    assert Packed(x) == p6;
    hide Packed;
    assert Digits(p6) == [x[0], x[1], x[2], x[3], x[4], x[5]];
  }

  /** From an empty register, six symbols are packed as they are. */
  lemma RunPacked(x: seq<nat>)
    requires |x| == 6 && Symbols(x)
    ensures Run(0, x) == Packed(x)
  {
    hide Step;
    var p1 := x[0];
    var p2 := 32 * p1 + x[1];
    var p3 := 32 * p2 + x[2];
    var p4 := 32 * p3 + x[3];
    var p5 := 32 * p4 + x[4];
    RunSix(0, x);
    StepPlain(0, x[0]);
    StepPlain(p1, x[1]);
    StepPlain(p2, x[2]);
    StepPlain(p3, x[3]);
    StepPlain(p4, x[4]);
    StepPlain(p5, x[5]);
  }

  lemma RunSix(c: nat, x: seq<nat>)
    requires |x| == 6
    ensures Run(c, x) == Step(Step(Step(Step(Step(Step(c, x[0]), x[1]), x[2]), x[3]), x[4]), x[5])
  {
    hide Step;
    RunLast(c, [], x[0]);
    RunLast(c, [x[0]], x[1]);
    RunLast(c, [x[0], x[1]], x[2]);
    RunLast(c, [x[0], x[1], x[2]], x[3]);
    RunLast(c, [x[0], x[1], x[2], x[3]], x[4]);
    RunLast(c, [x[0], x[1], x[2], x[3], x[4]], x[5]);
    assert [] + [x[0]] == [x[0]];
    assert [x[0]] + [x[1]] == [x[0], x[1]];
    assert [x[0], x[1]] + [x[2]] == [x[0], x[1], x[2]];
    assert [x[0], x[1], x[2]] + [x[3]] == [x[0], x[1], x[2], x[3]];
    assert [x[0], x[1], x[2], x[3]] + [x[4]] == [x[0], x[1], x[2], x[3], x[4]];
    assert [x[0], x[1], x[2], x[3], x[4]] + [x[5]] == x;
  }

  /** Exactly one list of six symbols brings the register to 1. */
  lemma ChecksumUnique(c: nat, x: seq<nat>)
    requires c < REGISTER && |x| == 6 && Symbols(x)
    ensures Run(c, x) == 1 <==> x == Digits(BitXor(Run(c, ZEROS), 1))
  {
    hide Step, BitXor, Digits, Packed;
    var m := Run(c, ZEROS);
    RunBound(c, ZEROS);
    Sizes();
    assert 1 < Pow2(30);
    OrBound(m, 1, 30);
    XorZeros(x);
    XorZero(c);
    RunLinear(c, 0, ZEROS, x);
    RunPacked(x);
    DigitsPacked(x);
    PackedDigits(BitXor(m, 1));
    XorInverse(m, Packed(x), 1);
  }

  lemma XorZeros(x: seq<nat>)
    requires |x| == 6
    ensures XorSeq(ZEROS, x) == x
  {
    forall i | 0 <= i < 6
      ensures BitXor(ZEROS[i], x[i]) == x[i]
    {
      XorZero(x[i]);
    }
  }

  lemma XorInverse(m: nat, p: nat, y: nat)
    ensures BitXor(m, p) == y <==> p == BitXor(m, y)
  {
    hide BitXor;
    XorComm(m, p);
    XorComm(m, y);
    XorCancel(p, m);
    XorCancel(y, m);
  }
}

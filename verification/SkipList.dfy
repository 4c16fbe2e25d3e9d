/**
 * The skip heights of the block tree (InvertLowestOne, GetSkipHeight in src/chain.cpp), and how many steps
 * a walk down takes: about a quarter of the square of the number of bits of the height.
 */
module SkipList {
  import opened BitOps

  function InvertLowestOne(n: nat): nat {
    if n == 0 then 0 else BitAnd(n, n - 1)
  }

  /** The largest power of two that divides n. */
  ghost function LowestOne(n: nat): nat
    requires n > 0
  {
    if n % 2 == 1 then 1 else 2 * LowestOne(n / 2)
  }

  /** n & (n - 1) takes the lowest one away. */
  lemma {:induction false} InvertsLowestOne(n: nat)
    requires n > 0
    ensures InvertLowestOne(n) == n - LowestOne(n)
  {
    if n % 2 == 1 {
      BitAndSelf(n / 2);
    } else {
      InvertsLowestOne(n / 2);
      assert (n - 1) / 2 == n / 2 - 1;
    }
  }

  function GetSkipHeight(height: int): int {
    if height < 2 then 0
    else if height % 2 == 1 then InvertLowestOne(InvertLowestOne(height - 1)) + 1
    else InvertLowestOne(height)
  }

  /** The skip always goes back. */
  lemma SkipsBack(height: int)
    requires height >= 1
    ensures 0 <= GetSkipHeight(height) < height
  {
    if height >= 2 {
      var n := if height % 2 == 1 then height - 1 else height;
      assert BitAnd(n, n - 1) <= n - 1;
    }
  }

  // ----- the walk ----------------------------------------------------------------------------------------

  /** Where GetAncestor goes from height w on its way to t, with every skip pointer set. */
  function Go(w: nat, t: nat): (r: nat)
    requires t < w
    ensures t <= r < w
  {
    SkipsBack(w);
    var skip, prev := GetSkipHeight(w), GetSkipHeight(w - 1);
    if skip == t || (skip > t && !(prev < skip - 2 && prev >= t)) then skip else w - 1
  }

  function Steps(w: nat, t: nat): nat {
    if w <= t then 0 else 1 + Steps(Go(w, t), t)
  }

  lemma StepsGo(w: nat, t: nat)
    ensures Steps(w, t) == if w <= t then 0 else 1 + Steps(Go(w, t), t)
  {}

  // ----- taking the lowest one away -----------------------------------------------------------------------

  lemma Cleared(n: nat)
    ensures InvertLowestOne(2 * n) == 2 * InvertLowestOne(n) && InvertLowestOne(2 * n + 1) == 2 * n
    ensures InvertLowestOne(n) <= n && (n > 0 ==> InvertLowestOne(n) < n)
  {
    InvertsLowestOne(2 * n + 1);
    if n > 0 {
      InvertsLowestOne(2 * n);
      InvertsLowestOne(n);
    }
  }

  /** A multiple of 2^j. */
  ghost predicate Mult(w: nat, j: nat) {
    j == 0 || (w % 2 == 0 && Mult(w / 2, j - 1))
  }

  lemma {:induction false} MultLower(w: nat, i: nat, j: nat)
    requires Mult(w, j) && i <= j
    ensures Mult(w, i)
  {
    if i > 0 {
      MultLower(w / 2, i - 1, j - 1);
    }
  }

  lemma {:induction false} MultPositive(w: nat, j: nat)
    requires Mult(w, j) && w > 0
    ensures w >= Pow2(j) >= 1
  {
    Pow2Step(j);
    if j > 0 {
      MultPositive(w / 2, j - 1);
    }
  }

  lemma Pow2Step(j: nat)
    ensures Pow2(j) >= 1 && (j > 0 ==> Pow2(j) == 2 * Pow2(j - 1) >= 2)
  {
    if j > 0 {
      Pow2Add(1, j - 1);
      Pow2Small();
    }
  }

  lemma {:induction false} Pow2Grows(i: nat, j: nat)
    requires i <= j
    ensures Pow2(i) <= Pow2(j)
  {
    if i < j {
      Pow2Step(j);
      Pow2Grows(i, j - 1);
    }
  }

  /** Below a multiple of 2^j the lowest one of W - 2^i is 2^i. */
  lemma {:induction false} ClearBelow(w: nat, i: nat, j: nat)
    requires Mult(w, j) && i < j && w > 0
    ensures w >= Pow2(j) >= Pow2(i + 1) && Mult(w - Pow2(i), i) && InvertLowestOne(w - Pow2(i)) == w - Pow2(i + 1)
  {
    hide InvertLowestOne, Pow2;
    MultPositive(w, j);
    Pow2Grows(i + 1, j);
    Pow2Step(i);
    Pow2Step(i + 1);
    if i == 0 {
      Pow2Small();
      Cleared(w / 2 - 1);
    } else {
      ClearBelow(w / 2, i - 1, j - 1);
      Cleared(w / 2 - Pow2(i - 1));
      assert (w - Pow2(i)) / 2 == w / 2 - Pow2(i - 1);
    }
  }

  lemma {:induction false} ClearMult(w: nat, j: nat)
    requires Mult(w, j) && w > 0
    ensures Mult(InvertLowestOne(w), j) && InvertLowestOne(w) <= w - Pow2(j)
  {
    hide InvertLowestOne, Pow2;
    Cleared(w);
    Pow2Step(j);
    if j > 0 {
      ClearMult(w / 2, j - 1);
      Cleared(w / 2);
      assert InvertLowestOne(w) == 2 * InvertLowestOne(w / 2);
    } else {
      Pow2Small();
    }
  }

  /** Above a multiple of 2^k, and less than 2^k above it, a skip of an even height does not pass it. */
  lemma {:induction false} ClearAbove(w: nat, m: nat, k: nat)
    requires Mult(m, k) && m < w < m + Pow2(k)
    ensures InvertLowestOne(w) >= m
    decreases k
  {
    hide InvertLowestOne, Pow2;
    Pow2Step(k);
    Pow2Small();
    Cleared(w / 2);
    if w % 2 == 0 && k > 0 {
      ClearAbove(w / 2, m / 2, k - 1);
    } else {
      assert k > 0;
      assert w == 2 * (w / 2) + 1;
    }
  }

  // ----- odd and even heights -----------------------------------------------------------------------------

  /** An odd height skips whenever that does not pass the target. */
  lemma OddGo(w: nat, t: nat)
    requires t < w && w % 2 == 1
    ensures Go(w, t) == if GetSkipHeight(w) >= t then GetSkipHeight(w) else w - 1
  {
    hide InvertLowestOne;
    if w >= 3 {
      Cleared(InvertLowestOne(w - 1));
    }
  }

  lemma StepsOne(w: nat, t: nat)
    requires t + 1 == w
    ensures Steps(w, t) == 1
  {}

  // ----- from a multiple of 2^j into the 2^j heights below it -----------------------------------------------------

  ghost function Bound(j: nat): nat {
    if j == 0 then 1 else Bound(j - 1) + 3 + (j - 1) / 2
  }

  lemma {:induction false} BoundGrows(i: nat, j: nat)
    requires i <= j
    ensures 1 <= Bound(i) <= Bound(j)
  {
    if i < j {
      BoundGrows(i, j - 1);
    } else if i > 0 {
      BoundGrows(i - 1, i - 1);
    }
  }

  ghost predicate Under(w: nat, j: nat, t: nat) {
    w > 0 && Mult(w, j) && w <= t + Pow2(j) && t < w
  }

  lemma {:induction false} FromMultiple(w: nat, j: nat, t: nat)
    requires Under(w, j, t)
    ensures Steps(w, t) <= Bound(j)
    decreases j, 1, 0
  {
    hide InvertLowestOne, Pow2;
    if j == 0 {
      Pow2Small();
      StepsOne(w, t);
    } else {
      ClearMult(w, j);
      Pow2Step(j);
      MultPositive(w, j);
      assert GetSkipHeight(w) <= t;
      if GetSkipHeight(w) != t && t < w - 1 {
        Pow2Small();
        Chain(w, j, t, 1);
      }
    }
  }

  /** From w - 2^i + 1, an odd height: skips to w - 2^(i+2) + 1 while that is possible. */
  lemma {:induction false} Chain(w: nat, j: nat, t: nat, i: nat)
    requires Under(w, j, t) && i % 2 == 1 && i <= j && Pow2(i) <= w && t < w - Pow2(i) + 1
    ensures Steps(w - Pow2(i) + 1, t) <= (j - i) / 2 + 2 + Bound(j - 1)
    decreases j, 0, j - i
  {
    hide InvertLowestOne, Pow2, Bound;
    Pow2Step(i);
    BoundGrows(j - 1, j - 1);
    OddHeight(w, i, j);
    if i + 2 <= j {
      ChainMiddle(w, j, t, i);
    } else if i == j {
      StepsOne(w - Pow2(i) + 1, t);
    } else {
      ChainEnd(w, j, t);
    }
  }

  lemma OddHeight(w: nat, i: nat, j: nat)
    requires Mult(w, j) && 1 <= i <= j && Pow2(i) <= w
    ensures (w - Pow2(i) + 1) % 2 == 1
  {
    hide Pow2, Mult;
    Pow2Step(i);
    MultEven(w, j);
    OddDifference(w / 2, Pow2(i - 1));
  }

  lemma MultEven(w: nat, j: nat)
    requires Mult(w, j) && j > 0
    ensures w % 2 == 0 && w == 2 * (w / 2)
  {}

  lemma OddDifference(a: nat, b: nat)
    ensures (2 * a - 2 * b + 1) % 2 == 1
  {}

  lemma {:induction false} ChainMiddle(w: nat, j: nat, t: nat, i: nat)
    requires Under(w, j, t) && i % 2 == 1 && i + 2 <= j && Pow2(i) <= w && t < w - Pow2(i) + 1 && (w - Pow2(i) + 1) % 2 == 1
    ensures Steps(w - Pow2(i) + 1, t) <= (j - i) / 2 + 2 + Bound(j - 1)
    decreases j, 0, j - i, 0
  {
    hide InvertLowestOne, Pow2, Bound;
    var x := w - Pow2(i) + 1;
    Pow2Step(i);
    Pow2Step(i + 1);
    Pow2Step(i + 2);
    ClearBelow(w, i, j);
    ClearBelow(w, i + 1, j);
    BoundGrows(j - 1, j - 1);
    OddGo(x, t);
    assert GetSkipHeight(x) == w - Pow2(i + 2) + 1;
    if GetSkipHeight(x) > t {
      Chain(w, j, t, i + 2);
    } else if GetSkipHeight(x) < t {
      var v := w - Pow2(i);
      if t < v {
        FromInside(w, j, t, i);
      }
    }
  }

  /** From w - 2^i, with the target above w - 2^(i+2) + 1. */
  lemma {:induction false} FromInside(w: nat, j: nat, t: nat, i: nat)
    requires Under(w, j, t) && i % 2 == 1 && i + 2 <= j && Pow2(i + 2) <= w && w - Pow2(i + 2) + 1 < t < w - Pow2(i)
    ensures Pow2(i) <= w && Steps(w - Pow2(i), t) <= 1 + Bound(j - 1)
    decreases j, 0, 0
  {
    hide InvertLowestOne, Pow2, Bound;
    var v := w - Pow2(i);
    Pow2Step(i + 1);
    Pow2Step(i + 2);
    ClearBelow(w, i, j);
    BoundGrows(i, j - 1);
    BoundGrows(i + 1, j - 1);
    if t >= w - Pow2(i + 1) {
      FromMultiple(v, i, t);
    } else {
      ClearBelow(w, i + 1, j);
      assert GetSkipHeight(v) == w - Pow2(i + 1);
      NoDetour(w, j, t, i);
      FromMultiple(w - Pow2(i + 1), i + 1, t);
    }
  }

  /** The height below w - 2^i has no better skip. */
  lemma NoDetour(w: nat, j: nat, t: nat, i: nat)
    requires Under(w, j, t) && i % 2 == 1 && i + 2 <= j && Pow2(i + 2) <= w && w - Pow2(i + 2) + 1 < t < w - Pow2(i + 1)
    ensures Pow2(i) <= w && Go(w - Pow2(i), t) == w - Pow2(i + 1)
  {
    hide InvertLowestOne, Pow2;
    var v := w - Pow2(i);
    Pow2Step(i);
    Pow2Step(i + 1);
    Pow2Step(i + 2);
    ClearBelow(w, i, j);
    Pow2Small();
    SmallPowers();
    if i == 1 {
      ClearBelow(w, 2, j);
      MultLower(w, 3, j);
      DeepSkip(w);
    } else {
      MultLower(v, 3, i);
      Pow2Grows(3, i);
      Detour(v);
    }
  }

  lemma SmallPowers()
    ensures Pow2(1) == 2 && Pow2(2) == 4 && Pow2(3) == 8
  {
    Pow2Step(1);
    Pow2Step(2);
    Pow2Step(3);
    Pow2Small();
  }

  /** The skip from the height below a multiple of 8. */
  lemma Detour(v: nat)
    requires Mult(v, 3) && v > 0
    ensures v >= 8 && GetSkipHeight(v - 1) == v - 7
  {
    hide InvertLowestOne, Pow2, Mult;
    SmallPowers();
    MultPositive(v, 3);
    MultEven(v, 3);
    ClearBelow(v, 1, 3);
    ClearBelow(v, 2, 3);
    OddDifference(v / 2, 1);
  }

  lemma DeepSkip(w: nat)
    requires Mult(w, 3) && w > 0 && w - 3 >= 0 && InvertLowestOne(w - 4) == w - 8
    ensures GetSkipHeight(w - 3) <= if w == 8 then 1 else w - 15
  {
    hide InvertLowestOne, Pow2, Mult;
    SmallPowers();
    MultPositive(w, 3);
    MultEven(w, 3);
    OddDifference(w / 2, 2);
    Cleared(w - 8);
    if w > 8 {
      LessMult(w, 3);
      ClearMult(w - 8, 3);
    }
  }

  /** The last link of the chain, half way down. */
  lemma {:induction false} ChainEnd(w: nat, j: nat, t: nat)
    requires Under(w, j, t) && j >= 2 && Pow2(j - 1) <= w && t < w - Pow2(j - 1) + 1 && (w - Pow2(j - 1) + 1) % 2 == 1
    ensures Steps(w - Pow2(j - 1) + 1, t) <= 2 + Bound(j - 1)
    decreases j, 0, 0
  {
    hide InvertLowestOne, Pow2, Bound;
    var x := w - Pow2(j - 1) + 1;
    var c := w - Pow2(j);
    Pow2Step(j);
    ClearBelow(w, j - 1, j);
    OddGo(x, t);
    BoundGrows(j - 1, j - 1);
    Cleared(c);
    if c > 0 {
      LessMult(w, j);
      ClearMult(c, j);
    } else {
      assert InvertLowestOne(c) == 0;
    }
    if GetSkipHeight(x) >= t {
      if t == 0 {
        StepsOne(1, 0);
      }
    } else {
      var v := w - Pow2(j - 1);
      if t < v {
        FromMultiple(v, j - 1, t);
      }
    }
  }

  lemma {:induction false} LessMult(w: nat, j: nat)
    requires Mult(w, j) && w >= Pow2(j)
    ensures Mult(w - Pow2(j), j)
  {
    hide Pow2;
    Pow2Step(j);
    if j > 0 {
      LessMult(w / 2, j - 1);
      assert (w - Pow2(j)) / 2 == w / 2 - Pow2(j - 1);
    }
  }

  // ----- from any height ---------------------------------------------------------------------------------------------

  /** The number of ones of a number. */
  ghost function Ones(n: nat): nat {
    if n == 0 then 0 else n % 2 + Ones(n / 2)
  }

  lemma OnesDouble(n: nat)
    ensures Ones(2 * n) == Ones(n) && Ones(2 * n + 1) == Ones(n) + 1
  {}

  lemma {:induction false} OnesCleared(n: nat)
    requires n > 0
    ensures Ones(InvertLowestOne(n)) == Ones(n) - 1
  {
    hide InvertLowestOne;
    Cleared(n / 2);
    OnesDouble(n / 2);
    if n % 2 == 0 {
      OnesCleared(n / 2);
      OnesDouble(InvertLowestOne(n / 2));
      assert n == 2 * (n / 2);
    } else {
      assert n == 2 * (n / 2) + 1;
    }
  }

  lemma {:induction false} OnesBound(n: nat, bits: nat)
    requires n < Pow2(bits)
    ensures Ones(n) <= bits
    decreases bits
  {
    hide Pow2;
    Pow2Step(bits);
    if bits > 0 {
      OnesBound(n / 2, bits - 1);
    } else {
      Pow2Small();
    }
  }

  /** m is the multiple of 2^k between t and w; t lies in the 2^k heights below it, w less than 2^k above. */
  ghost predicate Between(w: nat, m: nat, k: nat, t: nat) {
    Under(m, k, t) && m <= w < m + Pow2(k)
  }

  /** Two different heights have such a multiple between them. */
  lemma {:induction false} Split(w: nat, t: nat) returns (m: nat, k: nat)
    requires t < w
    ensures Between(w, m, k, t)
  {
    hide Pow2;
    Pow2Small();
    if t + 1 == w {
      m, k := w, 0;
    } else {
      var m', k' := Split(w / 2, t / 2);
      m, k := 2 * m', k' + 1;
      Pow2Step(k);
    }
  }

  /** What an odd height skips to, when that is below the multiple, is at most one above the target. */
  lemma SkipBelow(v: nat, m: nat, k: nat, t: nat)
    requires Under(m, k, t) && v % 2 == 1 && m < v < m + Pow2(k) && t <= GetSkipHeight(v) < m
    ensures GetSkipHeight(v) <= t + 1
  {
    hide InvertLowestOne, Pow2, Mult;
    ClearMult(m, k);
    var c := InvertLowestOne(v - 1);
    Cleared(c);
    if m < v - 1 {
      ClearAbove(v - 1, m, k);
      if m < c {
        Cleared(v - 1);
        ClearAbove(c, m, k);
      }
    }
  }

  lemma StepsClose(w: nat, t: nat)
    requires t <= w <= t + 1
    ensures Steps(w, t) <= 1
  {}

  /** What an odd height skips to has fewer ones. */
  lemma OnesOdd(v: nat)
    requires v % 2 == 1 && v >= 3 && GetSkipHeight(v) >= 2
    ensures Ones(GetSkipHeight(v)) == Ones(v - 1) - 1
  {
    hide InvertLowestOne, Ones;
    var c := InvertLowestOne(v - 1);
    OnesCleared(v - 1);
    ClearedEven(v - 1);
    ClearedEven(c);
    if c > 0 {
      OnesCleared(c);
    } else {
      Cleared(0);
    }
    OnesDouble(InvertLowestOne(c) / 2);
  }

  lemma ClearedEven(n: nat)
    requires n % 2 == 0
    ensures InvertLowestOne(n) % 2 == 0 && InvertLowestOne(n) == 2 * (InvertLowestOne(n) / 2)
  {
    hide InvertLowestOne;
    Cleared(n / 2);
    assert n == 2 * (n / 2);
  }

  lemma OnesBefore(w: nat)
    requires w % 2 == 0 && w % 8 != 0
    ensures w >= 2 && Ones(w - 2) <= Ones(w)
  {
    hide Ones;
    var a := w / 8;
    OnesDouble(a);
    OnesDouble(2 * a);
    OnesDouble(2 * a + 1);
    OnesDouble(w / 2);
    OnesDouble(w / 2 - 1);
    assert w == 2 * (w / 2) && w - 2 == 2 * (w / 2 - 1);
    assert w / 2 == 2 * (2 * a) + 1 || w / 2 == 2 * (2 * a + 1) || w / 2 == 2 * (2 * a + 1) + 1;
    OnesDouble(2 * a);
    OnesDouble(2 * (2 * a) / 2);
  }

  /** From any height the walk comes down to the multiple, or next to the target, in two steps for each one of the height. */
  lemma {:induction false} FromAbove(w: nat, m: nat, k: nat, t: nat)
    requires Between(w, m, k, t)
    ensures Steps(w, t) <= 2 * Ones(w) + 2 + Bound(k)
    decreases w
  {
    hide InvertLowestOne, Pow2, Bound, Ones, Mult;
    if w == m {
      FromMultiple(m, k, t);
    } else if w % 2 == 1 {
      OddFromAbove(w, m, k, t);
    } else {
      EvenFromAbove(w, m, k, t);
    }
  }

  lemma BigMultiple(w: nat, m: nat, k: nat, t: nat)
    requires Between(w, m, k, t) && m < w
    ensures k > 0 && m % 2 == 0 && m >= 2
  {
    Pow2Small();
  }

  lemma {:induction false} OddFromAbove(w: nat, m: nat, k: nat, t: nat)
    requires Between(w, m, k, t) && m < w && w % 2 == 1
    ensures Steps(w, t) <= 2 * Ones(w) + 2 + Bound(k)
    decreases w, 0
  {
    hide InvertLowestOne, Pow2, Bound, Ones, Mult;
    BigMultiple(w, m, k, t);
    OddGo(w, t);
    OnesDouble(w / 2);
    assert w - 1 == 2 * (w / 2);
    var s := GetSkipHeight(w);
    if s < t {
      FromAbove(w - 1, m, k, t);
    } else if s < m {
      SkipBelow(w, m, k, t);
      StepsClose(s, t);
    } else {
      OnesOdd(w);
      SkipsBack(w);
      FromAbove(s, m, k, t);
    }
  }

  lemma {:induction false} EvenFromAbove(w: nat, m: nat, k: nat, t: nat)
    requires Between(w, m, k, t) && m < w && w % 2 == 0
    ensures Steps(w, t) <= 2 * Ones(w) + 2 + Bound(k)
    decreases w, 1
  {
    hide InvertLowestOne, Pow2, Bound, Ones, Mult;
    BigMultiple(w, m, k, t);
    ClearAbove(w, m, k);
    OnesCleared(w);
    Cleared(w);
    var s := GetSkipHeight(w);
    if Go(w, t) == s {
      FromAbove(s, m, k, t);
    } else {
      DetourFromAbove(w, m, k, t);
    }
  }

  /** An even height whose predecessor has the better skip. */
  lemma {:induction false} DetourFromAbove(w: nat, m: nat, k: nat, t: nat)
    requires Between(w, m, k, t) && m < w && w % 2 == 0 && m % 2 == 0 && m >= 2 && Go(w, t) == w - 1 != GetSkipHeight(w)
    requires GetSkipHeight(w) >= m
    ensures Steps(w, t) <= 2 * Ones(w) + 2 + Bound(k)
    decreases w, 0
  {
    hide InvertLowestOne, Pow2, Bound, Ones, Mult;
    var v := w - 1;
    var p := GetSkipHeight(v);
    assert t <= p < GetSkipHeight(w) - 2;
    NotEight(w);
    OnesBefore(w);
    OddGo(v, t);
    if p < m {
      SkipBelow(v, m, k, t);
      StepsClose(p, t);
      BoundGrows(k, k);
    } else {
      OnesOdd(v);
      SkipsBack(v);
      FromAbove(p, m, k, t);
    }
  }

  lemma NotEight(w: nat)
    requires w > 0 && w % 2 == 0 && GetSkipHeight(w - 1) < GetSkipHeight(w) - 2
    ensures w % 8 != 0
  {
    hide InvertLowestOne;
    if w % 8 == 0 {
      Eight(w);
      Detour(w);
      ClearMult(w, 3);
      SmallPowers();
    }
  }

  lemma MultDouble(w: nat, j: nat)
    ensures Mult(w, 0) && (Mult(w, j) ==> Mult(2 * w, j + 1))
  {}

  lemma Eight(w: nat)
    requires w % 8 == 0
    ensures Mult(w, 3)
  {
    hide Mult;
    var a := w / 8;
    MultDouble(a, 0);
    MultDouble(2 * a, 1);
    MultDouble(2 * (2 * a), 2);
    assert w == 2 * (2 * (2 * a));
  }

  lemma {:induction false} BoundClosed(j: nat)
    ensures 4 * Bound(j) <= j * j + 11 * j + 4
  {
    if j > 0 {
      BoundClosed(j - 1);
      assert (j - 1) * (j - 1) == j * j - 2 * j + 1;
    }
  }

  /** A walk from a height below 2^bits to any height takes at most a quarter of bits^2 + 17 bits + 2 steps. */
  lemma StepsBound(w: nat, t: nat, bits: nat)
    requires w < Pow2(bits)
    ensures 4 * Steps(w, t) <= bits * bits + 17 * bits + 2
  {
    hide Pow2, Bound, Ones;
    if t < w {
      var m, k := Split(w, t);
      FromAbove(w, m, k, t);
      OnesBound(w, bits);
      MultPositive(m, k);
      if bits <= k {
        Pow2Grows(bits, k);
      }
      BoundClosed(k);
      Squares(k, bits - 1);
      assert (bits - 1) * (bits - 1) == bits * bits - 2 * bits + 1;
    }
  }

  /** Few steps, by the number of bits of the height. */
  ghost predicate Few(w: nat, steps: nat) {
    forall bits: nat :: w < Pow2(bits) ==> 4 * steps <= bits * bits + 17 * bits + 2
  }

  lemma FewNone(w: nat)
    ensures Few(w, 0)
  {}

  lemma FewSteps(w: nat, t: nat)
    ensures Few(w, Steps(w, t))
  {
    forall bits: nat | w < Pow2(bits)
      ensures 4 * Steps(w, t) <= bits * bits + 17 * bits + 2
    {
      StepsBound(w, t, bits);
    }
  }

  lemma Squares(a: nat, b: nat)
    requires a <= b
    ensures a * a <= b * b
  {
    assert b * b == a * a + (b - a) * (b + a);
  }
}

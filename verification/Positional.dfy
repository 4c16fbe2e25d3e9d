/** Numbers written in a base, most significant digit first. */
module Positional {
  import opened Power

  ghost predicate Digits(s: seq<nat>, base: nat) {
    forall i :: 0 <= i < |s| ==> s[i] < base
  }

  function Num(s: seq<nat>, base: nat): nat {
    if s == [] then 0 else Num(s[..|s| - 1], base) * base + s[|s| - 1]
  }

  lemma NumLast(s: seq<nat>, d: nat, base: nat)
    ensures Num(s + [d], base) == Num(s, base) * base + d
  {
    assert (s + [d])[..|s|] == s;
  }

  lemma {:induction false} NumCat(s: seq<nat>, t: seq<nat>, base: nat)
    ensures Num(s + t, base) == Num(s, base) * Pow(base, |t|) + Num(t, base)
  {
    if t == [] {
      assert s + t == s;
    } else {
      var n := |t| - 1;
      NumCat(s, t[..n], base);
      hide Pow;
      assert (s + t)[..|s| + n] == s + t[..n];
      CatStep(Num(s, base), Num(t[..n], base), t[n], base, n);
    }
  }

  lemma CatStep(a: nat, b: nat, d: nat, base: nat, n: nat)
    ensures (a * Pow(base, n) + b) * base + d == a * Pow(base, n + 1) + (b * base + d)
  {
    assert a * Pow(base, n) * base == a * (base * Pow(base, n));
  }

  lemma NumFirst(d: nat, t: seq<nat>, base: nat)
    ensures Num([d] + t, base) == d * Pow(base, |t|) + Num(t, base)
  {
    NumCat([d], t, base);
    NumLast([], d, base);
    assert [] + [d] == [d];
  }

  lemma {:induction false} NumBound(s: seq<nat>, base: nat)
    requires Digits(s, base)
    ensures Num(s, base) < Pow(base, |s|)
  {
    if s != [] {
      var n := |s| - 1;
      NumBound(s[..n], base);
      BoundStep(Num(s[..n], base), s[n], base, Pow(base, n));
    }
  }

  lemma BoundStep(a: nat, d: nat, base: nat, p: nat)
    requires a < p && d < base
    ensures a * base + d < base * p
  {
    MulMonotone(a + 1, p, base);
    assert (a + 1) * base == a * base + base;
  }

  lemma {:induction false} NumZeros(s: seq<nat>, base: nat)
    requires forall i :: 0 <= i < |s| ==> s[i] == 0
    ensures Num(s, base) == 0
  {
    if s != [] {
      NumZeros(s[..|s| - 1], base);
    }
  }

  lemma Shrinks(n: nat, base: nat)
    requires base >= 2 && n > 0
    ensures 0 <= n / base < n && n == n / base * base + n % base
  {
    MulMonotone(2, base, n / base);
  }

  /** The digits of a number, without leading zeros. */
  function ToBase(n: nat, base: nat): (s: seq<nat>)
    requires base >= 2
    ensures Digits(s, base) && (s != [] ==> s[0] != 0) && (s == [] <==> n == 0)
  {
    if n == 0 then [] else
    Shrinks(n, base);
    ToBase(n / base, base) + [n % base]
  }

  lemma {:induction false} NumToBase(n: nat, base: nat)
    requires base >= 2
    ensures Num(ToBase(n, base), base) == n
  {
    if n > 0 {
      Shrinks(n, base);
      NumToBase(n / base, base);
      NumLast(ToBase(n / base, base), n % base, base);
    }
  }

  /** A digit list without leading zero is the only one of its number. */
  lemma {:induction false} ToBaseNum(s: seq<nat>, base: nat)
    requires base >= 2 && Digits(s, base) && (s != [] ==> s[0] != 0)
    ensures ToBase(Num(s, base), base) == s
  {
    if s != [] {
      hide Num, ToBase;
      var t, d := s[..|s| - 1], s[|s| - 1];
      ToBaseNum(t, base);
      assert s == t + [d];
      NumLast(t, d, base);
      NumPositive(s, base);
      ToBaseGo(Num(s, base), Num(t, base), d, base);
    }
  }

  lemma ToBaseGo(n: nat, q: nat, d: nat, base: nat)
    requires base >= 2 && n > 0 && n == q * base + d && d < base
    ensures ToBase(n, base) == ToBase(q, base) + [d]
  {
    DivModUnique(n, base, q, d);
  }

  lemma {:induction false} NumPositive(s: seq<nat>, base: nat)
    requires base >= 1 && s != [] && s[0] != 0
    ensures Num(s, base) > 0
  {
    if |s| > 1 {
      NumPositive(s[..|s| - 1], base);
      MulMonotone(1, Num(s[..|s| - 1], base), base);
    } else {
      assert s[..0] == [];
    }
  }

  // ----- comparing powers of different bases ------------------------------------------------------------

  lemma {:induction false} PowMonotone(x: nat, y: nat, k: nat)
    requires x <= y
    ensures Pow(x, k) <= Pow(y, k)
  {
    if k > 0 {
      PowMonotone(x, y, k - 1);
      MulMonotone(x, y, Pow(x, k - 1));
      MulMonotone(Pow(x, k - 1), Pow(y, k - 1), y);
    }
  }

  lemma {:induction false} PowMul(b: nat, m: nat, n: nat)
    ensures Pow(Pow(b, m), n) == Pow(b, m * n)
  {
    if n > 0 {
      PowMul(b, m, n - 1);
      PowAdd(b, m, m * (n - 1));
      assert m + m * (n - 1) == m * n;
    } else {
      assert m * n == 0;
    }
  }

  lemma PowStrict(b: nat, m: nat, n: nat)
    requires b >= 2 && m < n
    ensures Pow(b, m) < Pow(b, n)
  {
    PowGrows(b, m + 1, n);
    PowPositive(b, m);
  }

  /** If p digits of base a hold q digits of base b, then k digits of a hold n digits of b as soon as k / n exceeds p / q. */
  lemma RatioSuffices(a: nat, b: nat, p: nat, q: nat, n: nat, k: nat)
    requires a >= 2 && Pow(b, q) <= Pow(a, p) && p * n < q * k
    ensures Pow(b, n) < Pow(a, k)
  {
    hide Pow;
    var e, f := p * n, q * k;
    RatioUpper(a, b, p, q, n, e);
    RatioLower(a, q, k, f);
    RatioCompare(a, Pow(b, n), Pow(a, k), q, e, f);
  }

  lemma RatioCompare(a: nat, x: nat, y: nat, q: nat, e: nat, f: nat)
    requires a >= 2 && e < f && Pow(x, q) <= Pow(a, e) && Pow(a, f) == Pow(y, q)
    ensures x < y
  {
    hide Pow;
    PowStrict(a, e, f);
    if x >= y {
      PowMonotone(y, x, q);
    }
  }

  lemma RatioUpper(a: nat, b: nat, p: nat, q: nat, n: nat, e: nat)
    requires Pow(b, q) <= Pow(a, p) && e == p * n
    ensures Pow(Pow(b, n), q) <= Pow(a, e)
  {
    hide Pow;
    PowSwap(b, n, q);
    PowMonotone(Pow(b, q), Pow(a, p), n);
    PowMul(a, p, n);
  }

  lemma RatioLower(a: nat, q: nat, k: nat, f: nat)
    requires f == q * k
    ensures Pow(a, f) == Pow(Pow(a, k), q)
  {
    hide Pow;
    PowMul(a, q, k);
    PowSwap(a, q, k);
  }

  lemma PowSwap(b: nat, m: nat, n: nat)
    ensures Pow(Pow(b, m), n) == Pow(Pow(b, n), m)
  {
    hide Pow;
    PowMul(b, m, n);
    PowMul(b, n, m);
    assert m * n == n * m;
  }
}

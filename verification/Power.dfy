/** Powers of naturals, and division by them. */
module Power {

  function Pow(b: nat, e: nat): nat {
    if e == 0 then 1 else b * Pow(b, e - 1)
  }

  lemma {:induction false} PowPositive(b: nat, e: nat)
    requires b > 0
    ensures Pow(b, e) > 0
  {
    if e > 0 {
      PowPositive(b, e - 1);
    }
  }

  lemma {:induction false} PowAdd(b: nat, m: nat, n: nat)
    ensures Pow(b, m + n) == Pow(b, m) * Pow(b, n)
  {
    hide Pow;
    PowStep(b, m);
    PowStep(b, m + n);
    if m > 0 {
      PowAdd(b, m - 1, n);
      MulAssociative(b, Pow(b, m - 1), Pow(b, n));
    }
  }

  lemma PowStep(b: nat, e: nat)
    ensures Pow(b, e) == if e == 0 then 1 else b * Pow(b, e - 1)
  {}

  lemma MulAssociative(x: nat, y: nat, z: nat)
    ensures x * (y * z) == x * y * z
  {}

  lemma {:induction false} PowGrows(b: nat, m: nat, n: nat)
    requires b > 0 && m <= n
    ensures Pow(b, m) <= Pow(b, n)
  {
    PowAdd(b, m, n - m);
    PowPositive(b, m);
    PowPositive(b, n - m);
    MulLarger(Pow(b, m), Pow(b, n - m));
  }

  lemma MulLarger(x: nat, y: nat)
    requires y > 0
    ensures x <= x * y
  {}

  lemma MulMonotone(x: int, y: int, k: int)
    requires 0 <= k && x <= y
    ensures x * k <= y * k && k * x <= k * y
  {}

  // ----- quotient and remainder by a positive number ----------------------------------------------------

  /** The defining property of quotient and remainder, as a way to compute them. */
  lemma DivModUnique(x: int, d: int, q: int, r: int)
    requires d > 0 && x == d * q + r && 0 <= r < d
    ensures x / d == q && x % d == r
  {
    var q', r' := x / d, x % d;
    assert d * q' + r' == d * q + r;
    if q' > q {
      MulMonotone(1, q' - q, d);
    } else if q' < q {
      MulMonotone(1, q - q', d);
    }
  }

  lemma DivDiv(x: nat, a: nat, b: nat)
    requires a > 0 && b > 0
    ensures a * b > 0 && x / (a * b) == x / a / b
  {
    var q, r := x / a, x % a;
    var q', r' := q / b, q % b;
    MulLarger(a, b);
    calc {
      x;
      a * q + r;
      a * (b * q' + r') + r;
      a * (b * q') + a * r' + r;
      { assert a * (b * q') == (a * b) * q'; }
      (a * b) * q' + (a * r' + r);
    }
    assert a * r' + r < a * b by {
      MulMonotone(r', b - 1, a);
      assert a * (b - 1) == a * b - a;
    }
    assert 0 <= a * r' + r;
    DivModUnique(x, a * b, q', a * r' + r);
  }

  lemma DivMonotone(x: nat, y: nat, d: nat)
    requires d > 0 && x <= y
    ensures x / d <= y / d
  {
    if x / d > y / d {
      MulMonotone(y / d + 1, x / d, d);
    }
  }
}

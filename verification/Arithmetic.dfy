/** Products, powers, quotients and remainders of natural numbers. */
module Arithmetic {

  function Power(n: nat, k: nat): (r: nat)
    ensures n > 0 ==> r > 0
  {
    if k == 0 then 1 else n * Power(n, k - 1)
  }

  function Pow2(k: nat): (r: nat)
    ensures r > 0
  {
    Power(2, k)
  }

  lemma PowerZero(n: nat)
    ensures Power(n, 0) == 1
  {
  }

  lemma PowerNext(n: nat, k: nat)
    ensures Power(n, k + 1) == n * Power(n, k)
  {
  }

  lemma {:induction false} Pow2Sum(a: nat, b: nat)
    ensures Pow2(a + b) == Pow2(a) * Pow2(b)
    decreases b
  {
    if b > 0 {
      Pow2Sum(a, b - 1);
      assert Pow2(a + b) == 2 * Pow2(a + b - 1) && Pow2(b) == 2 * Pow2(b - 1);
      assert Pow2(a) * (2 * Pow2(b - 1)) == 2 * (Pow2(a) * Pow2(b - 1));
    }
  }

  lemma Scaled(p: nat, a: nat, b: nat)
    requires a <= b
    ensures p * a <= p * b
  {
  }

  lemma Spread(d: nat, a: nat, b: nat)
    requires a < b
    ensures d * a + d <= d * b
  {
    assert d * (b - a - 1) >= 0;
  }

  lemma DividedTwice(v: nat, a: nat, b: nat)
    requires a > 0 && b > 0
    ensures a * b > 0 && v / a / b == v / (a * b)
  {
    var q, r := v / a, v % a;
    var p, s := q / b, q % b;
    assert v == a * (b * p + s) + r;
    assert a * (b * p + s) == (a * b) * p + a * s;
    Spread(a, s, b);
    Positive(a, b);
    Quotient(a * b, v, p, a * s + r);
  }

  lemma Positive(a: nat, b: nat)
    requires a > 0 && b > 0
    ensures a * b > 0
  {
  }

  /** A quotient and a remainder below the divisor are the quotient and the remainder. */
  lemma Quotient(d: nat, n: nat, q: nat, r: nat)
    requires d > 0 && r < d && n == d * q + r
    ensures n / d == q && n % d == r
  {
    var e, f := n / d, n % d;
    assert n == d * e + f;
    if e < q {
      Spread(d, e, q);
    } else if q < e {
      Spread(d, q, e);
    }
  }
}

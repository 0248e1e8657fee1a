/** The p-adic distance of the prime-novelty experiment, and the strong triangle inequality. */
module Padic {
  import opened Arithmetic
  import opened PrimeNumbers

  function Difference(p: nat, q: nat): nat {
    if p > q then p - q else q - p
  }

  /** How often l divides n. */
  ghost function Valuation(n: nat, l: nat): (v: nat)
    requires n > 0 && l >= 2
  {
    if n % l == 0 then
      Halves(n, l);
      1 + Valuation(n / l, l)
    else 0
  }

  ghost function Size(l: nat, v: nat): (s: real)
    requires l >= 2
    ensures s > 0.0
  {
    if v == 0 then 1.0 else Size(l, v - 1) / l as real
  }

  ghost function Distance(p: nat, q: nat, l: nat): real
    requires l >= 2
  {
    if p == q then 0.0 else Size(l, Valuation(Difference(p, q), l))
  }

  /** Divides out the local prime, which must be at least two for the loop to end. */
  method PadicDistance(p: nat, q: nat, localPrime: nat) returns (distance: real)
    requires localPrime >= 2
    ensures distance == Distance(p, q, localPrime)
  {
    hide Size;
    var difference := Difference(p, q);
    if difference == 0 {
      return 0.0;
    }
    distance := 1.0;
    ghost var v := 0;
    SizeStep(localPrime, 0);
    while difference % localPrime == 0
      invariant difference > 0 && distance == Size(localPrime, v)
      invariant Valuation(Difference(p, q), localPrime) == v + Valuation(difference, localPrime)
      decreases difference
    {
      Halves(difference, localPrime);
      SizeStep(localPrime, v);
      difference := difference / localPrime;
      distance := distance / localPrime as real;
      v := v + 1;
    }
  }

  lemma SizeStep(l: nat, v: nat)
    requires l >= 2
    ensures Size(l, 0) == 1.0 && Size(l, v + 1) == Size(l, v) / l as real
  {
  }

  lemma Halves(n: nat, l: nat)
    requires n > 0 && l >= 2 && n % l == 0
    ensures 0 < n / l < n && n == l * (n / l)
  {
    assert n == l * (n / l);
    Scaled(n / l, 2, l);
  }

  /** The powers of l that divide n are those up to the valuation. */
  lemma {:induction false} PowerDividesIff(n: nat, l: nat, k: nat)
    requires n > 0 && l >= 2
    ensures Divides(Power(l, k), n) <==> k <= Valuation(n, l)
    decreases n
  {
    hide Divides;
    if k == 0 {
      DividesMultiple(1, n);
    } else if n % l == 0 {
      Halves(n, l);
      PowerDividesIff(n / l, l, k - 1);
      DividesScaled(l, Power(l, k - 1), n / l);
    } else {
      if Divides(Power(l, k), n) {
        FactorDivides(l, Power(l, k - 1), n);
      }
    }
  }

  lemma DividesScaled(l: nat, d: nat, n: nat)
    requires l > 0 && d > 0
    ensures Divides(l * d, l * n) <==> Divides(d, n)
  {
    if Divides(d, n) {
      assert l * n == (l * d) * (n / d);
      DividesMultiple(l * d, n / d);
    }
    if Divides(l * d, l * n) {
      var q := l * n / (l * d);
      assert l * n == (l * d) * q == l * (d * q);
      Cancel(l, n, d * q);
      DividesMultiple(d, q);
    }
  }

  lemma Cancel(l: nat, a: nat, b: nat)
    requires l > 0 && l * a == l * b
    ensures a == b
  {
    if a < b {
      Spread(l, a, b);
    } else if b < a {
      Spread(l, b, a);
    }
  }

  lemma FactorDivides(l: nat, d: nat, n: nat)
    requires l > 0 && d > 0 && Divides(l * d, n)
    ensures n % l == 0
  {
    DividesMultiple(l, d);
    DividesTransitive(l, l * d, n);
  }

  lemma DividesSum(d: nat, a: nat, b: nat)
    requires Divides(d, a) && Divides(d, b)
    ensures Divides(d, a + b) && (a >= b ==> Divides(d, a - b))
  {
    var p, q := a / d, b / d;
    assert a == d * p && b == d * q;
    assert a + b == d * (p + q);
    DividesMultiple(d, p + q);
    if a >= b {
      if p < q {
        Spread(d, p, q);
      }
      assert a - b == d * (p - q);
      DividesMultiple(d, p - q);
    }
  }

  lemma {:induction false} SizeDecreases(l: nat, v: nat, w: nat)
    requires l >= 2 && v <= w
    ensures Size(l, w) <= Size(l, v)
    decreases w
  {
    if v < w {
      SizeDecreases(l, v, w - 1);
      Shrinks(Size(l, w - 1), l, Size(l, w));
    }
  }

  lemma Shrinks(s: real, l: nat, t: real)
    requires t > 0.0 && l >= 2 && t == s / l as real
    ensures t <= s
  {
    LargerFactor(t, l as real, s);
  }

  lemma LargerFactor(t: real, x: real, s: real)
    requires t > 0.0 && x >= 2.0 && s == t * x
    ensures t <= s
  {
    assert t * (x - 1.0) >= 0.0;
  }

  lemma Separates(p: nat, q: nat, l: nat)
    requires l >= 2
    ensures Distance(p, q, l) >= 0.0 && (Distance(p, q, l) == 0.0 <==> p == q)
    ensures Distance(p, q, l) == Distance(q, p, l)
  {
  }

  /** The distance is an ultrametric: not negative, zero exactly between equal numbers, symmetric,
      and of three sides one is no longer than the longer of the other two. */
  lemma Ultrametric(p: nat, q: nat, r: nat, l: nat)
    requires l >= 2
    ensures Distance(p, q, l) >= 0.0 && (Distance(p, q, l) == 0.0 <==> p == q)
    ensures Distance(p, q, l) == Distance(q, p, l)
    ensures Distance(p, r, l) <= Distance(p, q, l) || Distance(p, r, l) <= Distance(q, r, l)
  {
    Separates(p, q, l);
    Strong(p, q, r, l);
  }

  lemma Strong(p: nat, q: nat, r: nat, l: nat)
    requires l >= 2
    ensures Distance(p, r, l) <= Distance(p, q, l) || Distance(p, r, l) <= Distance(q, r, l)
  {
    hide Valuation; hide Size; hide Divides; hide Power;
    if p != q && q != r && p != r {
      var a, b, c := Difference(p, q), Difference(q, r), Difference(p, r);
      var v, w := Valuation(a, l), Valuation(b, l);
      var k := if v < w then v else w;
      PowerDividesIff(a, l, k);
      PowerDividesIff(b, l, k);
      DividesSum(Power(l, k), a, b);
      DividesSum(Power(l, k), b, a);
      PowerDividesIff(c, l, k);
      SizeDecreases(l, k, Valuation(c, l));
    }
  }
}

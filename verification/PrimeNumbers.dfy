/** Prime numbers: smallest divisors, that there is always another prime, and what "the first
    primes" means. */
module PrimeNumbers {
  import opened Arithmetic

  ghost predicate Divides(d: nat, n: nat) {
    d > 0 && n % d == 0
  }

  ghost predicate Prime(n: nat) {
    n >= 2 && forall d :: 2 <= d < n ==> !Divides(d, n)
  }

  lemma DividesMultiple(d: nat, q: nat)
    requires d > 0
    ensures Divides(d, d * q)
  {
    Quotient(d, d * q, q, 0);
  }

  lemma DividesTransitive(a: nat, b: nat, c: nat)
    requires Divides(a, b) && Divides(b, c)
    ensures Divides(a, c)
  {
    var p, q := b / a, c / b;
    assert b == a * p && c == b * q;
    assert c == a * (p * q);
    DividesMultiple(a, p * q);
  }

  /** The least divisor above one: it is prime, and no larger than the root unless the number
      itself is prime. */
  ghost function LeastDivisor(n: nat, d: nat): (p: nat)
    requires 2 <= d <= n && forall e :: 2 <= e < d ==> !Divides(e, n)
    ensures d <= p <= n && Divides(p, n) && forall e :: 2 <= e < p ==> !Divides(e, n)
    decreases n - d
  {
    if d == n || Divides(d, n) then d else LeastDivisor(n, d + 1)
  }

  lemma LeastDivisorPrime(n: nat)
    requires n >= 2
    ensures Prime(LeastDivisor(n, 2))
    ensures !Prime(n) ==> LeastDivisor(n, 2) * LeastDivisor(n, 2) <= n
  {
    var p := LeastDivisor(n, 2);
    forall d | 2 <= d < p ensures !Divides(d, p) {
      if Divides(d, p) {
        DividesTransitive(d, p, n);
        assert false;
      }
    }
    if !Prime(n) {
      CofactorNotSmaller(n, p);
    }
  }

  lemma CofactorNotSmaller(n: nat, p: nat)
    requires n >= 2 && !Prime(n) && p == LeastDivisor(n, 2)
    ensures p * p <= n
  {
    var d :| 2 <= d < n && Divides(d, n);
    assert p <= d;
    var q := n / p;
    assert n == p * q;
    if q < p {
      SmallCofactor(n, p, q);
      assert false;
    }
    Scaled(p, p, q);
  }

  /** A cofactor between 2 and p would be a smaller divisor. */
  lemma SmallCofactor(n: nat, p: nat, q: nat)
    requires 2 <= p < n && n == p * q && q < p
    ensures 2 <= q && Divides(q, n)
  {
    assert q == 0 ==> p * q == 0;
    assert q == 1 ==> p * q == p;
    assert n == q * p;
    DividesMultiple(q, p);
  }

  // ---------------------------------------------------------------- there is always another

  ghost function Factorial(n: nat): (f: nat)
    ensures f > 0
  {
    if n == 0 then 1 else n * Factorial(n - 1)
  }

  lemma {:induction false} DividesFactorial(p: nat, n: nat)
    requires 1 <= p <= n
    ensures Divides(p, Factorial(n))
  {
    if p == n {
      DividesMultiple(n, Factorial(n - 1));
    } else {
      DividesFactorial(p, n - 1);
      assert Factorial(n) == Factorial(n - 1) * n;
      DividesMultiple(Factorial(n - 1), n);
      DividesTransitive(p, Factorial(n - 1), Factorial(n));
    }
  }

  /** Some prime is at least n. */
  lemma NextPrime(n: nat) returns (p: nat)
    ensures p >= n && Prime(p)
  {
    var m := Factorial(n) + 1;
    p := LeastDivisor(m, 2);
    LeastDivisorPrime(m);
    if p < n {
      DividesFactorial(p, n);
      NotBoth(p, Factorial(n));
      assert false;
    }
  }

  lemma NotBoth(p: nat, m: nat)
    requires p >= 2 && Divides(p, m)
    ensures !Divides(p, m + 1)
  {
    var q := m / p;
    assert m + 1 == p * q + 1;
    Quotient(p, m + 1, q, 1);
  }

  // ---------------------------------------------------------------- the first primes

  /** The primes below n, in order. */
  ghost function PrimesBelow(n: nat): (s: seq<nat>)
    ensures forall p: nat :: p in s <==> p < n && Prime(p)
    ensures forall i, j :: 0 <= i < j < |s| ==> s[i] < s[j]
  {
    if n == 0 then []
    else
      var r := PrimesBelow(n - 1);
      assert forall i :: 0 <= i < |r| ==> r[i] in r;
      if Prime(n - 1) then r + [n - 1] else r
  }

  lemma {:induction false} PrimesPrefix(m: nat, n: nat)
    requires m <= n
    ensures PrimesBelow(m) <= PrimesBelow(n)
    decreases n
  {
    if m < n {
      PrimesPrefix(m, n - 1);
    }
  }

  /** There are as many primes as one likes. */
  lemma {:induction false} EnoughPrimes(count: nat) returns (n: nat)
    ensures |PrimesBelow(n)| >= count
  {
    hide PrimesBelow; hide Prime;
    if count == 0 {
      n := 0;
    } else {
      var m := EnoughPrimes(count - 1);
      var p := NextPrime(m);
      PrimesPrefix(m, p);
      OneMorePrime(p);
      n := p + 1;
    }
  }

  lemma OneMorePrime(p: nat)
    requires Prime(p)
    ensures PrimesBelow(p + 1) == PrimesBelow(p) + [p]
  {
    hide Prime;
  }

  /** The list of the first primes: increasing, all prime, and none left out. */
  ghost predicate FirstPrimes(s: seq<nat>) {
    && (forall i, j :: 0 <= i < j < |s| ==> s[i] < s[j])
    && (forall i :: 0 <= i < |s| ==> Prime(s[i]))
    && (forall p, i :: 0 <= i < |s| && Prime(p) && p <= s[i] ==> p in s)
  }

  lemma PrefixIsFirst(n: nat, count: nat)
    requires count <= |PrimesBelow(n)|
    ensures FirstPrimes(PrimesBelow(n)[..count])
  {
    var all := PrimesBelow(n);
    var s := all[..count];
    forall i | 0 <= i < |s| ensures Prime(s[i]) {
      assert s[i] in all;
    }
    forall p, i | 0 <= i < |s| && Prime(p) && p <= s[i] ensures p in s {
      assert s[i] in all && p in all;
      var j :| 0 <= j < |all| && all[j] == p;
      NotAfter(all, j, i);
      assert s[j] == p;
    }
  }

  lemma NotAfter(s: seq<nat>, j: nat, i: nat)
    requires forall a, b :: 0 <= a < b < |s| ==> s[a] < s[b]
    requires j < |s| && i < |s| && s[j] <= s[i]
    ensures j <= i
  {
  }

  /** There is only one list of the first primes of each length. */
  lemma {:induction false} FirstPrimesUnique(s: seq<nat>, t: seq<nat>)
    requires FirstPrimes(s) && FirstPrimes(t) && |s| == |t|
    ensures s == t
  {
    hide FirstPrimes;
    if s != [] {
      var n := |s| - 1;
      FirstPrimesInit(s);
      FirstPrimesInit(t);
      FirstPrimesUnique(s[..n], t[..n]);
      LastNotBelow(s, t);
      LastNotBelow(t, s);
      SnocEqual(s, t);
    }
  }

  lemma SnocEqual(s: seq<nat>, t: seq<nat>)
    requires |s| == |t| > 0 && s[..|s| - 1] == t[..|t| - 1] && s[|s| - 1] == t[|t| - 1]
    ensures s == t
  {
    assert s == s[..|s| - 1] + [s[|s| - 1]] && t == t[..|t| - 1] + [t[|t| - 1]];
  }

  lemma FirstPrimesInit(s: seq<nat>)
    requires FirstPrimes(s) && s != []
    ensures FirstPrimes(s[..|s| - 1])
  {
    var n := |s| - 1;
    forall p, i | 0 <= i < n && Prime(p) && p <= s[i] ensures p in s[..n] {
      var j :| 0 <= j < |s| && s[j] == p;
      assert s[i] < s[n];
      assert s[..n][j] == p;
    }
  }

  lemma LastNotBelow(s: seq<nat>, t: seq<nat>)
    requires FirstPrimes(s) && FirstPrimes(t) && |s| == |t| > 0 && s[..|s| - 1] == t[..|t| - 1]
    ensures s[|s| - 1] <= t[|t| - 1]
  {
    var n := |s| - 1;
    assert forall j :: 0 <= j < n ==> s[..n][j] == s[j] && t[..n][j] == t[j];
    if t[n] < s[n] {
      var j :| 0 <= j < |s| && s[j] == t[n];
      assert false;
    }
  }
}

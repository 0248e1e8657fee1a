/** The two prime generators: trial division by the primes found so far, and a sieve whose bound
    doubles until it holds enough. */
module PrimeTables {
  import opened Arithmetic
  import opened PrimeNumbers
  import opened Telemetry

  /** If no prime up to the root divides it, a number is prime. */
  lemma NoSmallPrimeDivisor(n: nat)
    requires n >= 2 && forall p: nat :: Prime(p) && p * p <= n ==> !Divides(p, n)
    ensures Prime(n)
  {
    if !Prime(n) {
      LeastDivisorPrime(n);
      assert false;
    }
  }

  lemma SquareOrder(a: nat, b: nat)
    ensures a <= b ==> a * a <= b * b
    ensures a > b ==> a * a > b * b
  {
    if a <= b {
      Scaled(a, a, b);
      Scaled(b, a, b);
    } else {
      Spread(a, b, a);
      Scaled(b, b, a);
    }
  }

  /** p > n / p says that the square of p exceeds n. */
  lemma RootTest(p: nat, n: nat)
    requires p > 0
    ensures p > n / p <==> p * p > n
  {
    var q := n / p;
    assert n == p * q + n % p;
    if p > q {
      Spread(p, q, p);
    } else {
      Scaled(p, p, q);
    }
  }

  /** Divides by the primes found so far, stopping at the first whose square is too large. */
  method IsNextPrime(out: array<nat>, found: nat, candidate: nat) returns (isPrime: bool)
    requires candidate >= 2 && found <= out.Length && out[..found] == PrimesBelow(candidate)
    ensures isPrime <==> Prime(candidate)
  {
    hide PrimesBelow; hide Prime;
    ghost var s := out[..found];
    for p := 0 to found
      invariant forall j :: 0 <= j < p ==> !Divides(s[j], candidate)
    {
      assert out[p] == s[p] && s[p] in s;
      PrimeAtLeastTwo(s[p]);
      RootTest(out[p], candidate);
      if out[p] > candidate / out[p] {
        AllTried(s, p, candidate);
        return true;
      }
      if candidate % out[p] == 0 {
        NotPrime(s[p], candidate);
        return false;
      }
    }
    AllTried(s, found, candidate);
    return true;
  }

  lemma PrimeAtLeastTwo(p: nat)
    requires Prime(p)
    ensures p >= 2
  {
  }

  lemma NotPrime(d: nat, n: nat)
    requires 2 <= d < n && Divides(d, n)
    ensures !Prime(n)
  {
  }

  /** The primes that were not tried are too large to matter. */
  lemma AllTried(s: seq<nat>, p: nat, candidate: nat)
    requires candidate >= 2 && s == PrimesBelow(candidate) && p <= |s|
    requires forall j :: 0 <= j < p ==> !Divides(s[j], candidate)
    requires p < |s| ==> s[p] * s[p] > candidate
    ensures Prime(candidate)
  {
    hide PrimesBelow; hide Divides; hide Prime;
    forall q: nat | Prime(q) && q * q <= candidate ensures !Divides(q, candidate) {
      RootIsBelow(q, candidate);
      assert q in s;
      var j :| 0 <= j < |s| && s[j] == q;
      if p <= j {
        SquareOrder(s[p], s[j]);
      }
    }
    NoSmallPrimeDivisor(candidate);
  }

  lemma RootIsBelow(q: nat, n: nat)
    requires Prime(q) && q * q <= n
    ensures q < n
  {
    Scaled(q, 2, q);
  }

  /** crdt_first_primes: terminates for every count, because there is always another prime, and
      fills the table with the first primes. */
  method FirstPrimesByDivision(out: array<nat>, count: nat)
    requires count <= out.Length
    modifies out
    ensures FirstPrimes(out[..count])
    ensures out[count..] == old(out[count..])
  {
    hide PrimesBelow; hide Prime; hide FirstPrimes;
    ghost var limit := EnoughPrimes(count);
    ghost var o := out[..];
    var found, candidate := 0, 2;
    NoPrimesBelowTwo();
    while found < count
      invariant found <= count && candidate >= 2 && out[..found] == PrimesBelow(candidate)
      invariant out[count..] == o[count..]
      decreases if candidate < limit then limit - candidate else 0
    {
      LimitAhead(candidate, limit, count);
      var isPrime := IsNextPrime(out, found, candidate);
      PrimesStep(candidate);
      if isPrime {
        out[found] := candidate;
        found := found + 1;
        assert out[..found] == PrimesBelow(candidate) + [candidate];
      }
      candidate := candidate + 1;
    }
    assert out[..count] == PrimesBelow(candidate)[..count];
    PrefixIsFirst(candidate, count);
  }

  lemma NoPrimesBelowTwo()
    ensures PrimesBelow(2) == []
  {
    assert PrimesBelow(1) == [];
  }

  lemma PrimesStep(n: nat)
    ensures PrimesBelow(n + 1) == if Prime(n) then PrimesBelow(n) + [n] else PrimesBelow(n)
  {
    hide Prime;
  }

  /** While primes are missing, the candidate has not reached the limit that has them. */
  lemma LimitAhead(candidate: nat, limit: nat, count: nat)
    requires |PrimesBelow(candidate)| < count <= |PrimesBelow(limit)|
    ensures candidate < limit
  {
    hide PrimesBelow;
    if limit <= candidate {
      PrimesPrefix(limit, candidate);
    }
  }

  // ---------------------------------------------------------------- the sieve

  /** Struck out: a multiple, from its square on, of a prime below c. */
  ghost predicate Struck(m: nat, c: nat) {
    exists d: nat :: StruckBy(d, m) && d < c
  }

  ghost predicate StruckBy(d: nat, m: nat) {
    Prime(d) && d * d <= m && Divides(d, m)
  }

  lemma StruckIffComposite(m: nat, c: nat)
    requires m >= 2 && c * c > m
    ensures Struck(m, c) <==> !Prime(m)
  {
    hide Prime; hide Divides;
    if Struck(m, c) {
      var d: nat :| StruckBy(d, m) && d < c;
      RootIsBelow(d, m);
      PrimeAtLeastTwo(d);
      NotPrime(d, m);
    }
    if !Prime(m) {
      LeastDivisorPrime(m);
      var p := LeastDivisor(m, 2);
      SquareOrder(c, p);
      assert StruckBy(p, m);
    }
  }

  lemma StruckNext(m: nat, c: nat)
    ensures Struck(m, c + 1) <==> Struck(m, c) || StruckBy(c, m)
  {
    hide StruckBy;
    if Struck(m, c + 1) {
      var d: nat :| StruckBy(d, m) && d < c + 1;
    }
  }

  ghost predicate Sieved(composite: seq<bool>, c: nat) {
    forall m :: 2 <= m < |composite| ==> (composite[m] <==> Struck(m, c))
  }

  /** Strikes out the multiples of one candidate from its square on. */
  method Strike(composite: array<bool>, bound: nat, candidate: nat)
    requires composite.Length == bound + 1 && 2 <= candidate && candidate * candidate <= bound
    modifies composite
    ensures forall m :: 2 <= m <= bound ==>
              (composite[m] <==> old(composite[m]) || (candidate * candidate <= m && Divides(candidate, m)))
  {
    hide Divides;
    var multiple := candidate * candidate;
    ghost var q, limit, o := candidate, multiple, composite[..];
    while multiple <= bound
      invariant multiple == candidate * q && q >= candidate && limit == multiple
      invariant forall m :: 2 <= m <= bound ==> (composite[m] <==> o[m] || MultipleFrom(candidate, m, limit))
      decreases bound + 1 - multiple
    {
      MultiplesStep(candidate, q);
      composite[multiple] := true;
      limit := multiple + candidate;
      if multiple > bound - candidate {
        break;
      }
      multiple := multiple + candidate;
      q := q + 1;
    }
    assert limit > bound;
  }

  /** A multiple of candidate between its square and a limit. */
  ghost predicate MultipleFrom(candidate: nat, m: nat, limit: nat) {
    candidate * candidate <= m < limit && Divides(candidate, m)
  }

  /** The only multiple of c from c q up to the next one is c q itself. */
  lemma MultiplesStep(c: nat, q: nat)
    requires 2 <= c <= q
    ensures c * (q + 1) == c * q + c >= 2
    ensures forall m :: 2 <= m ==> (MultipleFrom(c, m, c * q + c) <==> MultipleFrom(c, m, c * q) || m == c * q)
  {
    hide Divides;
    forall m | 2 <= m ensures MultipleFrom(c, m, c * q + c) <==> MultipleFrom(c, m, c * q) || m == c * q {
      Scaled(c, c, q);
      DividesMultiple(c, q);
      if c * q < m < c * q + c {
        BetweenMultiples(c, q, m);
      }
    }
  }

  lemma BetweenMultiples(c: nat, q: nat, m: nat)
    requires c > 0 && c * q < m < c * q + c
    ensures !Divides(c, m)
  {
    Quotient(c, m, q, m - c * q);
  }

  /** Strikes out the composites up to the bound. */
  method Sieve(bound: nat) returns (composite: array<bool>)
    ensures fresh(composite) && composite.Length == bound + 1
    ensures forall m :: 2 <= m <= bound ==> (composite[m] <==> !Prime(m))
  {
    hide Prime; hide Struck; hide Divides;
    composite := new bool[bound + 1](_ => false);
    var candidate := 2;
    NothingStruck(bound);
    while candidate <= bound / candidate
      invariant candidate >= 2 && Sieved(composite[..], candidate)
      decreases bound - candidate
    {
      RootTest(candidate, bound);
      RootIsSmall(candidate, bound);
      StruckIffComposite(candidate, candidate);
      ghost var o := composite[..];
      if composite[candidate] {
        SkipComposite(o, candidate);
      } else {
        Strike(composite, bound, candidate);
        StrikePrime(o, candidate, composite[..]);
      }
      candidate := candidate + 1;
    }
    RootTest(candidate, bound);
    forall m | 2 <= m <= bound ensures composite[m] <==> !Prime(m) {
      assert composite[..][m] == composite[m];
      StruckIffComposite(m, candidate);
    }
  }

  lemma RootIsSmall(c: nat, n: nat)
    requires 2 <= c && c * c <= n
    ensures c < n && c * c > c
  {
    Scaled(c, 2, c);
  }

  lemma NothingStruck(bound: nat)
    ensures forall m :: 2 <= m <= bound ==> !Struck(m, 2)
  {
    forall m, d: nat | 2 <= m <= bound && d < 2 ensures !StruckBy(d, m) {
    }
  }

  lemma SkipComposite(composite: seq<bool>, c: nat)
    requires Sieved(composite, c) && !Prime(c)
    ensures Sieved(composite, c + 1)
  {
    hide Prime; hide Struck; hide Divides;
    forall m | 2 <= m < |composite| ensures composite[m] <==> Struck(m, c + 1) {
      StruckNext(m, c);
    }
  }

  lemma StrikePrime(o: seq<bool>, c: nat, composite: seq<bool>)
    requires Sieved(o, c) && Prime(c) && |composite| == |o|
    requires forall m :: 2 <= m < |o| ==> (composite[m] <==> o[m] || (c * c <= m && Divides(c, m)))
    ensures Sieved(composite, c + 1)
  {
    hide Prime; hide Struck; hide Divides;
    forall m | 2 <= m < |composite| ensures composite[m] <==> Struck(m, c + 1) {
      StruckNext(m, c);
    }
  }

  /** Copies the primes up to the bound into the table, until it is full. */
  method CollectPrimes(composite: array<bool>, bound: nat, primes: array<nat>) returns (found: nat)
    requires composite.Length == bound + 1
    requires forall m :: 2 <= m <= bound ==> (composite[m] <==> !Prime(m))
    modifies primes
    ensures found == (if |PrimesBelow(bound + 1)| < primes.Length then |PrimesBelow(bound + 1)| else primes.Length)
    ensures primes[..found] == PrimesBelow(bound + 1)[..found]
  {
    hide Prime; hide PrimesBelow;
    found := 0;
    var candidate := 2;
    NoPrimesBelowTwo();
    while candidate <= bound && found < primes.Length
      invariant 2 <= candidate && found <= primes.Length
      invariant if bound < 2 then candidate == 2 else candidate <= bound + 1
      invariant primes[..found] == PrimesBelow(candidate)
    {
      PrimesStep(candidate);
      if !composite[candidate] {
        primes[found] := candidate;
        found := found + 1;
        assert primes[..found] == PrimesBelow(candidate) + [candidate];
      }
      candidate := candidate + 1;
    }
    if bound < 2 {
      PrimesPrefix(bound + 1, 2);
    } else {
      PrimesPrefix(candidate, bound + 1);
    }
  }

  /** generate_primes: sieves up to a bound that doubles until enough primes are below it. The
      logarithmic first estimate is a parameter; any value gives the same table. */
  method GeneratePrimes(count: nat, estimate: nat, allocOk: bool) returns (ok: bool, primes: array<nat>)
    ensures ok ==> primes.Length == count && FirstPrimes(primes[..])
    ensures ok ==> allocOk && estimate < U64_MAX && 8 * count <= U64_MAX
    ensures !ok && allocOk ==>
              estimate > U64_MAX - 1 || count > U64_MAX / 8 || |PrimesBelow(U64_MAX / 2 + 1)| < count
    ensures fresh(primes)
  {
    hide PrimesBelow; hide Prime; hide FirstPrimes;
    var bound := estimate;
    primes := new nat[count];
    if estimate > U64_MAX - 1 || count > U64_MAX / 8 || !allocOk {
      return false, primes;
    }
    while true
      invariant fresh(primes) && primes.Length == count && bound <= U64_MAX
      decreases U64_MAX - bound
    {
      var composite := Sieve(bound);
      var found := CollectPrimes(composite, bound, primes);
      if found == count {
        PrefixIsFirst(bound + 1, count);
        assert primes[..] == primes[..found];
        return true, primes;
      }
      if bound > (U64_MAX - 1) / 2 {
        PrimesPrefix(U64_MAX / 2 + 1, bound + 1);
        return false, primes;
      }
      bound := bound * 2 + 1;
    }
  }
}

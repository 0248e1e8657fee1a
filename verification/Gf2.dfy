/** The CRC-32 of section 8 of RFC 1952 as a remainder of polynomials over GF(2): what it is,
    without a register. */
module Gf2 {
  import opened Arithmetic
  import opened Bytes
  import opened Crc32

  /** Polynomials are bit strings, highest degree first. */
  type Poly = seq<bool>

  /** The generator: x^32 + x^26 + x^23 + x^22 + x^16 + x^12 + x^11 + x^10 + x^8 + x^7 + x^5 + x^4
      + x^2 + x + 1. */
  predicate InGenerator(degree: int) {
    degree in {32, 26, 23, 22, 16, 12, 11, 10, 8, 7, 5, 4, 2, 1, 0}
  }

  /** Coefficient j, from the highest degree on, of the product of q and the generator. */
  ghost function Product(q: Poly, j: int): bool
    decreases |q|
  {
    if q == [] then false else (q[0] && InGenerator(32 - j)) != Product(q[1..], j - 1)
  }

  /** t is q times the generator plus r. */
  ghost predicate Division(t: Poly, q: Poly, r: Poly) {
    && |r| == 32 && |t| == |q| + 32
    && forall j :: 0 <= j < |t| ==> t[j] == (Product(q, j) != (j >= |q| && r[j - |q|]))
  }

  ghost predicate IsRemainder(t: Poly, r: Poly) {
    exists q :: Division(t, q, r)
  }

  /** The product starts with the first bit of q. */
  lemma {:induction false} ProductBefore(q: Poly, j: int)
    requires j < 0
    ensures !Product(q, j)
    decreases |q|
  {
    if q != [] {
      ProductBefore(q[1..], j - 1);
    }
  }

  lemma LeadingBit(t: Poly, q: Poly, r: Poly)
    requires Division(t, q, r) && q != []
    ensures t[0] == q[0]
  {
    ProductBefore(q[1..], -1);
  }

  /** t without its leading term, after the generator is subtracted if there is one. */
  ghost function Reduced(t: Poly): (u: Poly)
    requires |t| > 32
    ensures |u| == |t| - 1
    ensures forall j :: 0 <= j < |u| ==> u[j] == (t[j + 1] != (t[0] && InGenerator(31 - j)))
  {
    seq(|t| - 1, j requires 0 <= j < |t| - 1 => t[j + 1] != (t[0] && InGenerator(31 - j)))
  }

  lemma DivisionReduces(t: Poly, q: Poly, r: Poly)
    requires q != [] && |r| == 32 && |t| == |q| + 32 && t[0] == q[0]
    ensures Division(t, q, r) <==> Division(Reduced(t), q[1..], r)
  {
    ProductBefore(q[1..], -1);
    forall j | 0 <= j < |t| - 1
      ensures t[j + 1] == (Product(q, j + 1) != (j + 1 >= |q| && r[j + 1 - |q|]))
              <==> Reduced(t)[j] == (Product(q[1..], j) != (j >= |q| - 1 && r[j - (|q| - 1)]))
    {
    }
    if Division(Reduced(t), q[1..], r) {
      forall j | 0 <= j < |t| ensures t[j] == (Product(q, j) != (j >= |q| && r[j - |q|])) {
        assert j > 0 ==> Reduced(t)[j - 1] == (Product(q[1..], j - 1) != (j - 1 >= |q| - 1 && r[j - |q|]));
      }
    }
    if Division(t, q, r) {
      forall j | 0 <= j < |t| - 1
        ensures Reduced(t)[j] == (Product(q[1..], j) != (j >= |q| - 1 && r[j - (|q| - 1)]))
      {
        assert t[j + 1] == (Product(q, j + 1) != (j + 1 >= |q| && r[j + 1 - |q|]));
      }
    }
  }

  /** There is one remainder. */
  lemma {:induction false} RemainderUnique(t: Poly, q1: Poly, r1: Poly, q2: Poly, r2: Poly)
    requires Division(t, q1, r1) && Division(t, q2, r2)
    ensures q1 == q2 && r1 == r2
    decreases |t|
  {
    if q1 == [] {
      assert forall i :: 0 <= i < 32 ==> t[i] == r1[i] && t[i] == r2[i];
    } else {
      LeadingBit(t, q1, r1);
      LeadingBit(t, q2, r2);
      DivisionReduces(t, q1, r1);
      DivisionReduces(t, q2, r2);
      RemainderUnique(Reduced(t), q1[1..], r1, q2[1..], r2);
      assert q1 == [q1[0]] + q1[1..] && q2 == [q2[0]] + q2[1..];
    }
  }

  // ---------------------------------------------------------------- the register

  /** The bits with 32 zeros appended and the register added to the first 32. */
  ghost function Message(c: Word, bits: seq<bool>): (t: Poly)
    ensures |t| == |bits| + 32
    ensures forall j :: 0 <= j < |t| ==> t[j] == ((j < |bits| && bits[j]) != (j < 32 && c[j]))
  {
    seq(|bits| + 32, j requires 0 <= j < |bits| + 32 => (j < |bits| && bits[j]) != (j < 32 && c[j]))
  }

  /** The register polynomial is the generator without its leading term, lowest bit first. */
  lemma PolynomialIsGenerator()
    ensures InGenerator(32) && forall i :: 0 <= i < 32 ==> (POLYNOMIAL[i] <==> InGenerator(31 - i))
  {
  }

  /** Feeding one bit is one step of the division. */
  lemma FeedReduces(c: Word, bits: seq<bool>)
    requires bits != []
    ensures Reduced(Message(c, bits)) == Message(FeedBit(c, bits[0]), bits[1..])
  {
    var t, d := Message(c, bits), FeedBit(c, bits[0]);
    FeedBitShape(c, bits[0]);
    PolynomialIsGenerator();
    forall j | 0 <= j < |t| - 1 ensures Reduced(t)[j] == Message(d, bits[1..])[j] {
      assert t[0] == (bits[0] != c[0]);
      if j < 31 {
        assert d[j] == (c[j + 1] != (t[0] && POLYNOMIAL[j]));
      } else if j == 31 {
        assert d[31] == t[0];
      }
    }
  }

  /** The register after a bit string is a remainder. */
  lemma {:induction false} FeedIsRemainder(c: Word, bits: seq<bool>) returns (q: Poly)
    ensures Division(Message(c, bits), q, Feed(c, bits))
    decreases |bits|
  {
    if bits == [] {
      q := [];
    } else {
      var rest := FeedIsRemainder(FeedBit(c, bits[0]), bits[1..]);
      var t := Message(c, bits);
      q := [t[0]] + rest;
      assert q[1..] == rest;
      FeedReduces(c, bits);
      DivisionReduces(t, q, Feed(c, bits));
    }
  }

  /** The message with 32 zero bits appended and its first 32 bits flipped. */
  ghost function Flipped(bits: seq<bool>): (t: Poly)
    ensures |t| == |bits| + 32
    ensures forall j :: 0 <= j < |t| ==> t[j] == ((j < |bits| && bits[j]) != (j < 32))
  {
    seq(|bits| + 32, j requires 0 <= j < |bits| + 32 => (j < |bits| && bits[j]) != (j < 32))
  }

  ghost function Complement(c: Word): (d: Word)
    ensures forall i :: 0 <= i < 32 ==> d[i] == !c[i]
  {
    seq(32, i requires 0 <= i < 32 => !c[i])
  }

  /** The complement of the CRC, lowest bit first, is the remainder of the flipped message, and the
      only one. */
  lemma CrcIsRemainder(data: seq<Byte>)
    ensures IsRemainder(Flipped(BitString(data)), Complement(Crc(data)))
    ensures forall r :: IsRemainder(Flipped(BitString(data)), r) ==> r == Complement(Crc(data))
  {
    hide Feed; hide BitString; hide Division;
    var t, bits := Flipped(BitString(data)), BitString(data);
    var q := FeedIsRemainder(ONES, bits);
    assert Message(ONES, bits) == t;
    assert Complement(Crc(data)) == Feed(ONES, bits);
    forall r | IsRemainder(t, r) ensures r == Complement(Crc(data)) {
      var p :| Division(t, p, r);
      RemainderUnique(t, q, Complement(Crc(data)), p, r);
    }
  }

  /** Nothing has checksum 0. */
  lemma CrcOfNothing()
    ensures ValueOf(Crc([])) == 0
  {
    AllZero(Crc([]));
  }

  lemma {:induction false} AllZero(b: seq<bool>)
    requires forall i :: 0 <= i < |b| ==> !b[i]
    ensures ValueOf(b) == 0
  {
    if b != [] {
      AllZero(b[1..]);
    }
  }

  /** Bits go byte by byte, the lowest of each first. */
  lemma {:induction false} BitStringAt(data: seq<Byte>, k: nat, i: nat)
    requires k < |data| && i < 8
    ensures BitString(data)[8 * k + i] <==> (data[k] as nat / Pow2(i)) % 2 == 1
  {
    if k == 0 {
      BitAt(data[0] as nat, 8, i);
    } else {
      BitStringAt(data[1..], k - 1, i);
    }
  }
}

/** IEEE-754 binary64: the finite values as a grid in increasing order, and their 64-bit
    patterns. */
module Doubles {
  import opened Arithmetic
  import opened Bytes
  import opened Numbers

  const FRACTION: nat := 0x10_0000_0000_0000
  const SIGN: nat := 0x8000_0000_0000_0000
  const MAX_FINITE: nat := 0x7fef_ffff_ffff_ffff

  /** The smallest positive value, 2^-1074. */
  function Tiny(): (r: real)
    ensures r > 0.0
  {
    1.0 / Pow2(1074) as real
  }

  /** The magnitude of a pattern without sign, in multiples of 2^-1074: subnormal below the
      first binade, with the hidden bit above. */
  function Units(k: nat): nat {
    var exponent, fraction := k / FRACTION, k % FRACTION;
    if exponent == 0 then fraction else (FRACTION + fraction) * Pow2(exponent - 1)
  }

  lemma UnitsStep(k: nat)
    ensures Units(k) < Units(k + 1)
  {
    var e, f := k / FRACTION, k % FRACTION;
    if f + 1 < FRACTION {
      assert (k + 1) / FRACTION == e && (k + 1) % FRACTION == f + 1;
      if e > 0 {
        assert (FRACTION + f + 1) * Pow2(e - 1) == (FRACTION + f) * Pow2(e - 1) + Pow2(e - 1);
      }
    } else {
      assert (k + 1) / FRACTION == e + 1 && (k + 1) % FRACTION == 0;
      if e > 0 {
        assert Pow2(e) == 2 * Pow2(e - 1);
        assert FRACTION * Pow2(e) == (FRACTION + f + 1) * Pow2(e - 1);
        assert (FRACTION + f + 1) * Pow2(e - 1) == (FRACTION + f) * Pow2(e - 1) + Pow2(e - 1);
      }
    }
  }

  lemma {:induction false} UnitsIncreasing(a: nat, b: nat)
    requires a < b
    ensures Units(a) < Units(b)
    decreases b - a
  {
    hide Units;
    UnitsStep(b - 1);
    if a < b - 1 {
      UnitsIncreasing(a, b - 1);
    }
  }

  /** The value of the i-th finite number, counted from zero. */
  function Value(i: int): real {
    if i >= 0 then Units(i) as real * Tiny() else -(Units(-i) as real * Tiny())
  }

  lemma ValueIncreasing(i: int, j: int)
    requires i < j
    ensures Value(i) < Value(j)
  {
    hide Units; hide Tiny;
    ZeroUnits();
    if i >= 0 {
      UnitsIncreasing(i, j);
      Scale(Units(i), Units(j), Tiny());
    } else if j <= 0 {
      UnitsIncreasing(-j, -i);
      Scale(Units(-j), Units(-i), Tiny());
    } else {
      UnitsIncreasing(0, j);
      UnitsIncreasing(0, -i);
      Scale(0, Units(j), Tiny());
      Scale(0, Units(-i), Tiny());
    }
  }

  lemma ZeroUnits()
    ensures Units(0) == 0
  {
  }

  lemma Scale(a: nat, b: nat, t: real)
    requires a < b && t > 0.0
    ensures a as real * t < b as real * t
  {
  }

  function Points(): (s: seq<real>)
    ensures |s| == 2 * MAX_FINITE + 1
    ensures forall j :: 0 <= j < |s| ==> s[j] == Value(j - MAX_FINITE)
  {
    seq(2 * MAX_FINITE + 1, j requires 0 <= j < 2 * MAX_FINITE + 1 => Value(j - MAX_FINITE))
  }

  /** Half a unit beyond the largest finite value, where rounding overflows. */
  function Overflow(): real {
    (2 * Units(MAX_FINITE) + Pow2(2045)) as real / 2.0 * Tiny()
  }

  /** Binary64 as a grid; ties go to the neighbour with the even pattern. */
  function DoubleGrid(): Numbers {
    Grid(Points(), Overflow(), z => (FloorIndex(Points(), z) - MAX_FINITE) % 2 != 0)
  }

  lemma GridIsSensible()
    ensures Sensible(DoubleGrid())
  {
    hide Units; hide Tiny; hide Value; hide Points;
    var s := Points();
    forall i, j | 0 <= i < j < |s| ensures s[i] < s[j] {
      ValueIncreasing(i - MAX_FINITE, j - MAX_FINITE);
    }
    Extremes();
  }

  lemma Extremes()
    ensures Value(MAX_FINITE) < Overflow() && -Overflow() < Value(0 - MAX_FINITE)
  {
    hide Units; hide Tiny; hide Pow2;
    Beyond(Units(MAX_FINITE), Pow2(2045), Tiny());
  }

  lemma Beyond(u: nat, h: nat, t: real)
    requires h > 0 && t > 0.0
    ensures u as real * t < (2 * u + h) as real / 2.0 * t
  {
    var a, b := u as real, (2 * u + h) as real / 2.0;
    assert a < b;
  }

  /** The threshold is half way from the largest finite value to what would be the next. */
  lemma OverflowIsHalfway()
    ensures 2.0 * Overflow() == Value(MAX_FINITE) + Value(MAX_FINITE + 1)
  {
    hide Tiny; hide Pow2;
    var p, t := Pow2(2045), Tiny();
    TwoTimes(2045);
    assert Units(MAX_FINITE) == (2 * FRACTION - 1) * p;
    assert Units(MAX_FINITE + 1) == FRACTION * Pow2(2046);
    HalfOf(2 * Units(MAX_FINITE) + p, Units(MAX_FINITE), Units(MAX_FINITE + 1), t);
  }

  lemma NoTimes()
    ensures Pow2(0) == 1
  {
  }

  lemma TwoTimes(k: nat)
    ensures Pow2(k + 1) == 2 * Pow2(k)
  {
  }

  lemma HalfOf(n: nat, a: nat, b: nat, t: real)
    requires n == a + b
    ensures 2.0 * (n as real / 2.0 * t) == a as real * t + b as real * t
  {
  }

  // ---------------------------------------------------------------- patterns

  datatype Double = Special | Finite64(value: real)

  function FromBits(u: nat): Double {
    var magnitude := u % SIGN;
    if magnitude > MAX_FINITE then Special
    else if u < SIGN then Finite64(Value(magnitude)) else Finite64(Value(0 - magnitude))
  }

  /** The pattern of the i-th finite number; zero has no sign. */
  function PatternOf(i: int): (u: nat)
    requires -0x7fef_ffff_ffff_ffff <= i <= 0x7fef_ffff_ffff_ffff
    ensures u < 0x1_0000_0000_0000_0000
  {
    if i >= 0 then i else SIGN - i
  }

  /** The place of a value among the finite numbers, counted from zero. */
  function PlaceOf(x: real): (i: int)
    ensures -0x7fef_ffff_ffff_ffff <= i <= 0x7fef_ffff_ffff_ffff
  {
    var j := FloorIndex(Points(), x);
    if j < 0 then 0 else j - MAX_FINITE
  }

  function DoubleBits(x: real): (u: nat)
    ensures u < 0x1_0000_0000_0000_0000
  {
    PatternOf(PlaceOf(x))
  }

  // ---------------------------------------------------------------- the law of the format

  lemma FractionIsPower()
    ensures FRACTION == Pow2(52)
  {
    assert Pow2(13) == 8192;
    Pow2Sum(13, 13);
    Pow2Sum(26, 26);
  }

  /** The pattern of one. */
  lemma OneIsOne()
    ensures FromBits(0x3ff0_0000_0000_0000) == Finite64(1.0)
  {
    hide Pow2;
    assert 0x3ff0_0000_0000_0000 == 1023 * FRACTION;
    FractionIsPower();
    Pow2Sum(52, 1022);
    assert Units(1023 * FRACTION) == FRACTION * Pow2(1022) == Pow2(1074);
    Inverse(Pow2(1074) as real);
  }

  lemma Inverse(x: real)
    requires x > 0.0
    ensures x * (1.0 / x) == 1.0
  {
  }

  /** From a normal pattern, one more in the exponent doubles the value. */
  lemma ExponentDoubles(k: nat)
    requires FRACTION <= k
    ensures Value(k + FRACTION) == 2.0 * Value(k)
  {
    hide Tiny; hide Pow2;
    var e, f := k / FRACTION, k % FRACTION;
    assert (k + FRACTION) / FRACTION == e + 1 && (k + FRACTION) % FRACTION == f;
    TwoTimes(e - 1);
    DoubledProduct(FRACTION + f, Pow2(e - 1), Pow2(e));
    TwiceScaled(Units(k), Units(k + FRACTION), Tiny());
  }

  lemma DoubledProduct(a: nat, p: nat, q: nat)
    requires q == 2 * p
    ensures a * q == 2 * (a * p)
  {
  }

  lemma TwiceScaled(a: nat, b: nat, t: real)
    requires b == 2 * a
    ensures b as real * t == 2.0 * (a as real * t)
  {
  }

  /** The spacing above a pattern: the exponent decides, and the subnormals share that of the first
      binade. */
  function Spacing(e: nat): real {
    Pow2(if e == 0 then 0 else e - 1) as real * Tiny()
  }

  lemma StepsAreEven(k: nat)
    ensures Value(k + 1) - Value(k) == Spacing(k / FRACTION)
  {
    hide Tiny; hide Pow2; hide Units;
    UnitsSpacing(k);
    SumScaled(Units(k), Pow2(if k / FRACTION == 0 then 0 else k / FRACTION - 1), Units(k + 1), Tiny());
  }

  lemma UnitsAt(k: nat, e: nat, f: nat)
    requires k == FRACTION * e + f && f < FRACTION
    ensures k / FRACTION == e
    ensures Units(k) == if e == 0 then f else (FRACTION + f) * Pow2(e - 1)
  {
    Quotient(FRACTION, k, e, f);
  }

  lemma UnitsSpacing(k: nat)
    ensures Units(k + 1) == Units(k) + Pow2(if k / FRACTION == 0 then 0 else k / FRACTION - 1)
  {
    hide Pow2; hide Units;
    var e, f := k / FRACTION, k % FRACTION;
    var p := Pow2(if e == 0 then 0 else e - 1);
    NoTimes();
    UnitsAt(k, e, f);
    NextProduct(FRACTION + f, p);
    if f + 1 < FRACTION {
      UnitsAt(k + 1, e, f + 1);
    } else {
      UnitsAt(k + 1, e + 1, 0);
      if e > 0 {
        TwoTimes(e - 1);
        DoubledProduct(FRACTION, p, Pow2(e));
        TwiceProduct(FRACTION, p);
      }
    }
  }

  lemma TwiceProduct(a: nat, p: nat)
    ensures (2 * a) * p == 2 * (a * p)
  {
  }

  lemma NextProduct(a: nat, p: nat)
    ensures (a + 1) * p == a * p + p
  {
  }

  lemma SumScaled(a: nat, p: nat, b: nat, t: real)
    requires b == a + p
    ensures b as real * t - a as real * t == p as real * t
  {
  }

  /** Zero has the zero pattern, the top bit negates, and the largest exponent has no finite
      values. */
  lemma SignAndSpecials(u: nat)
    requires u < SIGN
    ensures FromBits(0) == Finite64(0.0)
    ensures FromBits(u).Special? == FromBits(u + SIGN).Special? == (u / FRACTION == 2047)
    ensures FromBits(u).Finite64? ==> FromBits(u + SIGN).value == -FromBits(u).value
  {
    hide Units; hide Tiny;
    ZeroUnits();
    assert (u + SIGN) % SIGN == u;
    assert MAX_FINITE == 2047 * FRACTION - 1 && SIGN == 2048 * FRACTION;
  }

  /** What is not negative has a pattern without sign. */
  lemma NoSign(x: real)
    requires Has(DoubleGrid(), x) && x >= 0.0
    ensures DoubleBits(x) < SIGN
  {
    hide Value; hide Points; hide FloorIndex;
    PlaceRoundTrip(x);
    ZeroIsZero();
    if PlaceOf(x) < 0 {
      ValueIncreasing(PlaceOf(x), 0);
    }
  }

  lemma ZeroIsZero()
    ensures Value(0) == 0.0
  {
    ZeroUnits();
  }

  /** Half way between two neighbours, rounding goes to the one with the even pattern. */
  lemma TiesToEven(i: int, z: real)
    requires -0x7fef_ffff_ffff_ffff <= i < 0x7fef_ffff_ffff_ffff && 2.0 * z == Value(i) + Value(i + 1)
    ensures Round(DoubleGrid(), z) == Finite(Value(if i % 2 == 0 then i else i + 1))
  {
    hide Value; hide Points; hide Overflow;
    GridIsSensible();
    ValueIncreasing(i, i + 1);
    var n, s := DoubleGrid(), Points();
    assert s[i + MAX_FINITE] == Value(i) && s[i + 1 + MAX_FINITE] == Value(i + 1);
    InRange(n, Value(i));
    InRange(n, Value(i + 1));
    FloorBetween(s, i + MAX_FINITE, z);
  }

  lemma PatternRoundTrip(i: int)
    requires -0x7fef_ffff_ffff_ffff <= i <= 0x7fef_ffff_ffff_ffff
    ensures FromBits(PatternOf(i)) == Finite64(Value(i))
  {
    hide Value;
  }

  lemma PlaceRoundTrip(x: real)
    requires Has(DoubleGrid(), x)
    ensures Value(PlaceOf(x)) == x
  {
    hide Value; hide Points; hide FloorIndex;
    GridIsSensible();
    var s := Points();
    var j :| 0 <= j < |s| && s[j] == x;
    FloorOfPoint(s, j);
  }

  lemma BitsRoundTrip(x: real)
    requires Has(DoubleGrid(), x)
    ensures FromBits(DoubleBits(x)) == Finite64(x)
  {
    hide Value; hide PlaceOf; hide PatternOf; hide FromBits; hide DoubleGrid;
    PatternRoundTrip(PlaceOf(x));
    PlaceRoundTrip(x);
  }

  /** Every finite pattern is a value of the grid; the signed zero reads as zero. */
  lemma FiniteIsOnGrid(u: nat)
    requires FromBits(u).Finite64?
    ensures Has(DoubleGrid(), FromBits(u).value)
  {
    hide Units; hide Tiny; hide Value; hide Points;
    var m := u % SIGN;
    var i: int := if u < SIGN then m else 0 - m;
    assert Points()[i + MAX_FINITE] == Value(i);
  }

  function EncodeDouble(x: real): (b: seq<Byte>)
    ensures |b| == 8
  {
    WriteLe(DoubleBits(x), 8)
  }

  function DecodeDouble(b: seq<Byte>): Double
    requires |b| == 8
  {
    FromBits(ReadLe(b))
  }

  lemma DoubleRoundTrip(x: real)
    requires Has(DoubleGrid(), x)
    ensures DecodeDouble(EncodeDouble(x)) == Finite64(x)
  {
    hide Units; hide Points; hide DoubleBits; hide FromBits; hide WriteLe; hide ReadLe;
    BitsRoundTrip(x);
    assert Pow256(8) == 0x1_0000_0000_0000_0000 by {
      assert Pow256(4) == 0x1_0000_0000;
    }
    ReadWrite(DoubleBits(x), 8);
  }
}

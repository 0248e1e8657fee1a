/** Grids of anchors at cell centres, in any dimension: every digit vector once, and how far a
    point of the domain can be from its nearest anchor. */
module Grid {
  import opened Arithmetic
  import opened Metrics
  import opened Numbers

  /** The mixed-radix digits of an anchor index, lowest coordinate first. */
  function Digits(n: nat, dimension: nat, idx: nat): (v: seq<nat>)
    requires n > 0
    ensures |v| == dimension && forall i :: 0 <= i < dimension ==> v[i] < n
    decreases dimension
  {
    if dimension == 0 then [] else [idx % n] + Digits(n, dimension - 1, idx / n)
  }

  ghost function IndexOf(n: nat, v: seq<nat>): nat {
    if v == [] then 0 else v[0] + n * IndexOf(n, v[1..])
  }

  /** Every digit vector is the digits of exactly one index of the grid. */
  lemma {:induction false} DigitsOfIndex(n: nat, v: seq<nat>)
    requires n > 0 && forall i :: 0 <= i < |v| ==> v[i] < n
    ensures IndexOf(n, v) < Power(n, |v|) && Digits(n, |v|, IndexOf(n, v)) == v
  {
    if v != [] {
      DigitsOfIndex(n, v[1..]);
      var r := IndexOf(n, v[1..]);
      Quotient(n, v[0] + n * r, r, v[0]);
      BelowPower(n, v[0], r, Power(n, |v| - 1));
    }
  }

  lemma {:induction false} IndexOfDigits(n: nat, dimension: nat, idx: nat)
    requires n > 0 && idx < Power(n, dimension)
    ensures IndexOf(n, Digits(n, dimension, idx)) == idx
    decreases dimension
  {
    hide Power;
    if dimension > 0 {
      PowerNext(n, dimension - 1);
      DivisionBelow(n, idx, Power(n, dimension - 1));
      IndexOfDigits(n, dimension - 1, idx / n);
      assert Digits(n, dimension, idx)[1..] == Digits(n, dimension - 1, idx / n);
      assert idx % n + n * (idx / n) == idx;
    } else {
      PowerZero(n);
    }
  }

  lemma BelowPower(n: nat, d: nat, r: nat, p: nat)
    requires d < n && r < p
    ensures d + n * r < n * p
  {
    Spread(n, r, p);
  }

  lemma DivisionBelow(n: nat, idx: nat, p: nat)
    requires n > 0 && idx < n * p
    ensures idx / n < p
  {
    assert idx == n * (idx / n) + idx % n;
    if p < idx / n {
      Spread(n, p, idx / n);
    }
  }

  // ---------------------------------------------------------------- anchors

  predicate DomainValid(min: Point, max: Point) {
    |min| == |max| && forall i :: 0 <= i < |min| ==> min[i] < max[i]
  }

  function Coordinate(lo: real, hi: real, n: nat, j: nat): real
    requires n > 0
  {
    lo + (j as real + 0.5) * ((hi - lo) / n as real)
  }

  function Centre(min: Point, max: Point, n: nat, v: seq<nat>): (p: Point)
    requires n > 0 && |v| == |min| == |max|
    ensures |p| == |v|
  {
    seq(|v|, i requires 0 <= i < |v| => Coordinate(min[i], max[i], n, v[i]))
  }

  ghost function GridAnchors(min: Point, max: Point, n: nat): (s: seq<Point>)
    requires n > 0 && |min| == |max|
    ensures |s| == Power(n, |min|)
  {
    seq(Power(n, |min|), idx requires 0 <= idx < Power(n, |min|) => Centre(min, max, n, Digits(n, |min|, idx)))
  }

  /** The cell of [lo, hi] that x falls in. */
  ghost function CellIndex(lo: real, hi: real, n: nat, x: real): (j: nat)
    requires n > 0 && lo < hi && lo <= x <= hi
    ensures j < n
  {
    WidthPositive(lo, hi, n);
    var t := (x - lo) / ((hi - lo) / n as real);
    if t < 0.0 then 0 else if t.Floor >= n then n - 1 else t.Floor
  }

  lemma CellIndexNear(lo: real, hi: real, n: nat, x: real)
    requires n > 0 && lo < hi && lo <= x <= hi
    ensures Distance(x, Coordinate(lo, hi, n, CellIndex(lo, hi, n, x))) <= 0.5 * ((hi - lo) / n as real)
  {
    hide Distance;
    var h := (hi - lo) / n as real;
    WidthPositive(lo, hi, n);
    var t := (x - lo) / h;
    FractionBounds(lo, hi, n, x);
    Undivided(x - lo, h);
    CentreNear(lo, h, x, t, CellIndex(lo, hi, n, x));
  }

  lemma Undivided(a: real, h: real)
    requires h > 0.0
    ensures (a / h) * h == a
  {
  }

  lemma WidthPositive(lo: real, hi: real, n: nat)
    requires n > 0 && lo < hi
    ensures (hi - lo) / n as real > 0.0 && ((hi - lo) / n as real) * n as real == hi - lo
  {
  }

  lemma FractionBounds(lo: real, hi: real, n: nat, x: real)
    requires n > 0 && lo < hi && lo <= x <= hi && (hi - lo) / n as real > 0.0
    ensures 0.0 <= (x - lo) / ((hi - lo) / n as real) <= n as real
  {
    var h := (hi - lo) / n as real;
    var t := (x - lo) / h;
    WidthPositive(lo, hi, n);
    assert t * h == x - lo;
    if t > n as real {
      OrderScaled(n as real, t, h);
    } else if t < 0.0 {
      OrderScaled(t, 0.0, h);
    }
  }

  lemma OrderScaled(a: real, b: real, h: real)
    requires a < b && h > 0.0
    ensures a * h < b * h
  {
  }

  lemma CentreNear(lo: real, h: real, x: real, t: real, j: nat)
    requires h > 0.0 && t * h == x - lo && j as real <= t <= j as real + 1.0
    ensures Distance(x, lo + (j as real + 0.5) * h) <= 0.5 * h
  {
    var e := t - (j as real + 0.5);
    assert x - (lo + (j as real + 0.5) * h) == e * h;
    HalfScaled(e, h);
  }

  lemma HalfScaled(e: real, h: real)
    requires -0.5 <= e <= 0.5 && h > 0.0
    ensures -(0.5 * h) <= e * h <= 0.5 * h
  {
  }

  ghost function CellDigits(min: Point, max: Point, n: nat, p: Point): (v: seq<nat>)
    requires n > 0 && DomainValid(min, max) && InBounds(p, min, max)
    ensures |v| == |p| && forall i :: 0 <= i < |v| ==> v[i] == CellIndex(min[i], max[i], n, p[i])
  {
    seq(|p|, i requires 0 <= i < |p| => CellIndex(min[i], max[i], n, p[i]))
  }

  lemma HalfWidth(lo: real, hi: real, n: nat)
    requires n > 0 && lo < hi
    ensures 0.5 * ((hi - lo) / n as real) == (1.0 / (2.0 * n as real)) * Distance(lo, hi)
  {
  }

  ghost predicate Reached(m: Metric, anchors: seq<Point>, p: Point, r: real) {
    exists a :: 0 <= a < |anchors| && |anchors[a]| == |p| && Dist(m, p, anchors[a]) <= r
  }

  /** Every point of the domain is within r of some anchor. */
  ghost predicate CoveringRadius(m: Metric, anchors: seq<Point>, min: Point, max: Point, r: real) {
    forall p :: InBounds(p, min, max) ==> Reached(m, anchors, p, r)
  }

  /** The radius that the library certifies for a grid. */
  function GridRadius(m: Metric, min: Point, max: Point, n: nat): real
    requires n > 0 && |min| == |max|
  {
    Dist(m, min, max) / (2.0 * n as real)
  }

  lemma CentreScaled(min: Point, max: Point, n: nat, p: Point)
    requires n > 0 && DomainValid(min, max) && InBounds(p, min, max)
    ensures ScaledBelow(p, Centre(min, max, n, CellDigits(min, max, n, p)), min, max, 1.0 / (2.0 * n as real))
  {
    hide Coordinate; hide Distance;
    forall i | 0 <= i < |p|
      ensures Distance(p[i], Centre(min, max, n, CellDigits(min, max, n, p))[i])
              <= (1.0 / (2.0 * n as real)) * Distance(min[i], max[i])
    {
      HalfWidth(min[i], max[i], n);
      CellIndexNear(min[i], max[i], n, p[i]);
    }
  }

  lemma AsQuotient(n: nat, d: real)
    requires n > 0
    ensures (1.0 / (2.0 * n as real)) * d == d / (2.0 * n as real) && 1.0 / (2.0 * n as real) >= 0.0
  {
  }

  /** A grid with n cells per axis covers its domain within norm / (2n), for the L1, Euclidean
      and L-infinity distances in any dimension. */
  lemma GridCovers(m: Metric, min: Point, max: Point, n: nat)
    requires Builtin(m) && n > 0 && DomainValid(min, max)
    ensures CoveringRadius(m, GridAnchors(min, max, n), min, max, GridRadius(m, min, max, n))
  {
    hide Dist; hide Builtin; hide Digits; hide IndexOf; hide Power; hide Centre; hide ScaledBelow; hide CellDigits;
    forall p | InBounds(p, min, max) ensures Reached(m, GridAnchors(min, max, n), p, GridRadius(m, min, max, n)) {
      var v := CellDigits(min, max, n, p);
      var idx := IndexOf(n, v);
      DigitsOfIndex(n, v);
      assert GridAnchors(min, max, n)[idx] == Centre(min, max, n, v);
      CentreScaled(min, max, n, p);
      AsQuotient(n, Dist(m, min, max));
      DistScaled(m, p, Centre(min, max, n, v), min, max, 1.0 / (2.0 * n as real));
    }
  }

  /** The anchors themselves lie in the domain. */
  lemma CoordinateInside(lo: real, hi: real, n: nat, j: nat)
    requires n > 0 && lo < hi && j < n
    ensures lo <= Coordinate(lo, hi, n, j) <= hi
  {
    var h := (hi - lo) / n as real;
    WidthPositive(lo, hi, n);
    OrderScaled(0.0, j as real + 0.5, h);
    OrderScaled(j as real + 0.5, n as real, h);
  }

  lemma AnchorsInside(min: Point, max: Point, n: nat, idx: nat)
    requires n > 0 && DomainValid(min, max) && idx < Power(n, |min|)
    ensures InBounds(GridAnchors(min, max, n)[idx], min, max)
  {
    hide Coordinate;
    var v := Digits(n, |min|, idx);
    forall i | 0 <= i < |min| ensures min[i] <= Centre(min, max, n, v)[i] <= max[i] {
      CoordinateInside(min[i], max[i], n, v[i]);
    }
  }
}

/** Points of a box, and the distances the caches are built on. */
module Metrics {
  import opened Numbers

  type Point = seq<real>

  predicate InBounds(p: Point, min: Point, max: Point) {
    |p| == |min| == |max| && forall i :: 0 <= i < |p| ==> min[i] <= p[i] <= max[i]
  }

  /** The square root is a parameter: anything that behaves like one. */
  datatype Metric =
    | L1
    | L2(sqrt: real -> real)
    | Linf
    | Other(d: (Point, Point) -> real)

  function SumDistance(p: Point, q: Point): (r: real)
    requires |p| == |q|
    ensures r >= 0.0
  {
    if p == [] then 0.0
    else SumDistance(p[..|p| - 1], q[..|q| - 1]) + Distance(p[|p| - 1], q[|q| - 1])
  }

  function SumSquares(p: Point, q: Point): (r: real)
    requires |p| == |q|
    ensures r >= 0.0
  {
    if p == [] then 0.0
    else SumSquares(p[..|p| - 1], q[..|q| - 1]) + Square(Distance(p[|p| - 1], q[|q| - 1]))
  }

  function Square(x: real): (r: real)
    ensures r >= 0.0
  {
    x * x
  }

  function MaxDistance(p: Point, q: Point): (r: real)
    requires |p| == |q|
    ensures r >= 0.0
  {
    if p == [] then 0.0
    else Larger(MaxDistance(p[..|p| - 1], q[..|q| - 1]), Distance(p[|p| - 1], q[|q| - 1]))
  }

  function Larger(x: real, y: real): real {
    if x < y then y else x
  }

  function Dist(m: Metric, p: Point, q: Point): real
    requires |p| == |q|
  {
    match m
    case L1 => SumDistance(p, q)
    case L2(sqrt) => sqrt(SumSquares(p, q))
    case Linf => MaxDistance(p, q)
    case Other(d) => d(p, q)
  }

  ghost predicate SquareRoot(f: real -> real) {
    forall x: real :: x >= 0.0 ==> RootAt(f, x)
  }

  ghost predicate RootAt(f: real -> real, x: real) {
    f(x) >= 0.0 && f(x) * f(x) == x
  }

  ghost predicate Builtin(m: Metric) {
    !m.Other? && (m.L2? ==> SquareRoot(m.sqrt))
  }

  ghost predicate TriangleAt(m: Metric, p: Point, q: Point, r: Point) {
    |p| == |q| == |r| ==> Dist(m, p, r) <= Dist(m, p, q) + Dist(m, q, r)
  }

  ghost predicate PairOk(m: Metric, p: Point, q: Point) {
    |p| == |q| ==> Dist(m, p, q) >= 0.0 && Dist(m, p, q) == Dist(m, q, p)
  }

  ghost predicate IsMetric(m: Metric) {
    && (forall p, q :: PairOk(m, p, q))
    && (forall p, q, r :: TriangleAt(m, p, q, r))
  }

  // ---------------------------------------------------------------- roots

  lemma SquareMonotone(a: real, b: real)
    requires a >= 0.0 && b >= 0.0
    ensures a <= b <==> a * a <= b * b
  {
    if a > b {
      Product(a - b, a + b);
      assert (a - b) * (a + b) == a * a - b * b;
    } else if a < b {
      Product(b - a, b + a);
      assert (b - a) * (b + a) == b * b - a * a;
    }
  }

  lemma Product(x: real, y: real)
    requires x > 0.0 && y > 0.0
    ensures x * y > 0.0
  {
  }

  /** A root is at most r exactly when its square is at most r squared. */
  lemma RootBelow(f: real -> real, x: real, r: real)
    requires SquareRoot(f) && x >= 0.0 && r >= 0.0
    ensures f(x) <= r <==> x <= Square(r)
  {
    assert RootAt(f, x);
    SquareMonotone(f(x), r);
  }

  // ---------------------------------------------------------------- triangle inequalities

  lemma {:induction false} SumTriangle(p: Point, q: Point, r: Point)
    requires |p| == |q| == |r|
    ensures SumDistance(p, r) <= SumDistance(p, q) + SumDistance(q, r)
  {
    if p != [] {
      var n := |p| - 1;
      SumTriangle(p[..n], q[..n], r[..n]);
    }
  }

  lemma {:induction false} MaxTriangle(p: Point, q: Point, r: Point)
    requires |p| == |q| == |r|
    ensures MaxDistance(p, r) <= MaxDistance(p, q) + MaxDistance(q, r)
  {
    if p != [] {
      var n := |p| - 1;
      MaxTriangle(p[..n], q[..n], r[..n]);
    }
  }

  /** One coordinate of the Euclidean triangle inequality: roots a, b of the sums so far. */
  lemma MinkowskiStep(a: real, b: real, x: real, y: real, c: real, d: real)
    requires a >= 0.0 && b >= 0.0 && x >= 0.0 && y >= 0.0 && c >= 0.0 && d >= 0.0
    requires c * c == a * a + x * x && d * d == b * b + y * y
    ensures (a + b) * (a + b) + (x + y) * (x + y) <= (c + d) * (c + d)
  {
    CauchyTwo(a, b, x, y, c, d);
    assert (a + b) * (a + b) + (x + y) * (x + y) == c * c + d * d + 2.0 * (a * b + x * y);
    assert (c + d) * (c + d) == c * c + d * d + 2.0 * (c * d);
  }

  lemma CauchyTwo(a: real, b: real, x: real, y: real, c: real, d: real)
    requires a >= 0.0 && b >= 0.0 && x >= 0.0 && y >= 0.0 && c >= 0.0 && d >= 0.0
    requires c * c == a * a + x * x && d * d == b * b + y * y
    ensures a * b + x * y <= c * d
  {
    var s := a * b + x * y;
    LagrangeTwo(a, b, x, y);
    assert (c * d) * (c * d) == (c * c) * (d * d);
    SquareMonotone(s, c * d);
  }

  lemma LagrangeTwo(a: real, b: real, x: real, y: real)
    ensures (a * b + x * y) * (a * b + x * y) <= (a * a + x * x) * (b * b + y * y)
  {
    var t := a * y - x * b;
    assert t * t >= 0.0;
    assert (a * a + x * x) * (b * b + y * y) == (a * b + x * y) * (a * b + x * y) + t * t;
  }

  lemma {:induction false} EuclideanTriangle(f: real -> real, p: Point, q: Point, r: Point)
    requires SquareRoot(f) && |p| == |q| == |r|
    ensures f(SumSquares(p, r)) <= f(SumSquares(p, q)) + f(SumSquares(q, r))
  {
    hide SquareRoot; hide SumSquares; hide Distance; hide Square;
    var c, d := f(SumSquares(p, q)), f(SumSquares(q, r));
    RootIsRoot(f, SumSquares(p, q));
    RootIsRoot(f, SumSquares(q, r));
    if p != [] {
      var n := |p| - 1;
      EuclideanTriangle(f, p[..n], q[..n], r[..n]);
      EuclideanStep(f, p, q, r, c, d);
    } else {
      NoSquares(p, r);
    }
    RootBelow(f, SumSquares(p, r), c + d);
  }

  lemma RootIsRoot(f: real -> real, x: real)
    requires SquareRoot(f) && x >= 0.0
    ensures f(x) >= 0.0 && Square(f(x)) == x
  {
    assert RootAt(f, x);
  }

  lemma NoSquares(p: Point, q: Point)
    requires |p| == |q| == 0
    ensures SumSquares(p, q) == 0.0
  {
  }

  lemma SquaresStep(p: Point, q: Point)
    requires |p| == |q| > 0
    ensures SumSquares(p, q) == SumSquares(p[..|p| - 1], q[..|q| - 1])
                                + Square(Distance(p[|p| - 1], q[|q| - 1]))
  {
    hide Distance; hide Square;
  }

  lemma RealTriangle(x: real, y: real, z: real)
    ensures 0.0 <= Distance(x, z) <= Distance(x, y) + Distance(y, z)
  {
  }

  lemma EuclideanStep(f: real -> real, p: Point, q: Point, r: Point, c: real, d: real)
    requires SquareRoot(f) && |p| == |q| == |r| > 0 && c >= 0.0 && d >= 0.0
    requires Square(c) == SumSquares(p, q) && Square(d) == SumSquares(q, r)
    requires f(SumSquares(p[..|p| - 1], r[..|p| - 1]))
             <= f(SumSquares(p[..|p| - 1], q[..|p| - 1])) + f(SumSquares(q[..|p| - 1], r[..|p| - 1]))
    ensures SumSquares(p, r) <= Square(c + d)
  {
    hide SquareRoot; hide SumSquares; hide Distance; hide Square;
    var n := |p| - 1;
    RealTriangle(p[n], q[n], r[n]);
    DistanceNotNegative(p[n], q[n]);
    DistanceNotNegative(q[n], r[n]);
    var s, a, b := SumSquares(p[..n], r[..n]), f(SumSquares(p[..n], q[..n])), f(SumSquares(q[..n], r[..n]));
    var x, y, z := Distance(p[n], q[n]), Distance(q[n], r[n]), Distance(p[n], r[n]);
    RootIsRoot(f, SumSquares(p[..n], q[..n]));
    RootIsRoot(f, SumSquares(q[..n], r[..n]));
    RootBelow(f, s, a + b);
    SquaresStep(p, q);
    SquaresStep(q, r);
    SquaresStep(p, r);
    MinkowskiSum(s, z, a, b, x, y, c, d);
  }

  lemma MinkowskiSum(s: real, z: real, a: real, b: real, x: real, y: real, c: real, d: real)
    requires a >= 0.0 && b >= 0.0 && x >= 0.0 && y >= 0.0 && c >= 0.0 && d >= 0.0
    requires s <= Square(a + b) && 0.0 <= z <= x + y
    requires Square(c) == Square(a) + Square(x) && Square(d) == Square(b) + Square(y)
    ensures s + Square(z) <= Square(c + d)
  {
    SquareMonotone(z, x + y);
    MinkowskiStep(a, b, x, y, c, d);
  }

  lemma {:induction false} Symmetric(p: Point, q: Point)
    requires |p| == |q|
    ensures SumDistance(p, q) == SumDistance(q, p) && SumSquares(p, q) == SumSquares(q, p)
    ensures MaxDistance(p, q) == MaxDistance(q, p)
  {
    if p != [] {
      Symmetric(p[..|p| - 1], q[..|q| - 1]);
    }
  }

  /** The L1, Euclidean and L-infinity distances are metrics in every dimension. */
  lemma BuiltinIsMetric(m: Metric)
    requires Builtin(m)
    ensures IsMetric(m)
  {
    hide SumDistance; hide SumSquares; hide MaxDistance; hide SquareRoot;
    forall p, q, r ensures TriangleAt(m, p, q, r) {
      if |p| == |q| == |r| {
        match m
        case L1 => SumTriangle(p, q, r);
        case L2(f) => EuclideanTriangle(f, p, q, r);
        case Linf => MaxTriangle(p, q, r);
      }
    }
    forall p, q ensures PairOk(m, p, q) {
      if |p| == |q| {
        Symmetric(p, q);
        if m.L2? {
          RootIsRoot(m.sqrt, SumSquares(p, q));
        }
      }
    }
  }

  // ---------------------------------------------------------------- coordinate-wise bounds

  /** Each coordinate of p and q is at most t times that of u and v apart. */
  ghost predicate ScaledBelow(p: Point, q: Point, u: Point, v: Point, t: real) {
    |p| == |q| == |u| == |v| && forall i :: 0 <= i < |p| ==> Distance(p[i], q[i]) <= t * Distance(u[i], v[i])
  }

  lemma ScaledSizes(p: Point, q: Point, u: Point, v: Point, t: real)
    requires ScaledBelow(p, q, u, v, t)
    ensures |p| == |q| == |u| == |v|
  {
  }

  lemma ScaledPrefix(p: Point, q: Point, u: Point, v: Point, t: real)
    requires ScaledBelow(p, q, u, v, t) && p != []
    ensures ScaledBelow(p[..|p| - 1], q[..|q| - 1], u[..|u| - 1], v[..|v| - 1], t)
    ensures Distance(p[|p| - 1], q[|q| - 1]) <= t * Distance(u[|u| - 1], v[|v| - 1])
  {
    hide Distance;
  }

  lemma {:induction false} SumScaled(p: Point, q: Point, u: Point, v: Point, t: real)
    requires ScaledBelow(p, q, u, v, t) && t >= 0.0
    ensures SumDistance(p, q) <= t * SumDistance(u, v)
  {
    hide ScaledBelow; hide Distance;
    ScaledSizes(p, q, u, v, t);
    if p != [] {
      var n := |p| - 1;
      ScaledPrefix(p, q, u, v, t);
      SumScaled(p[..n], q[..n], u[..n], v[..n], t);
      TimesSum(t, SumDistance(u[..n], v[..n]), Distance(u[n], v[n]));
    }
  }

  lemma TimesSum(t: real, a: real, b: real)
    ensures t * (a + b) == t * a + t * b
  {
  }

  lemma MaxStep(p: Point, q: Point)
    requires |p| == |q| > 0
    ensures MaxDistance(p, q) == Larger(MaxDistance(p[..|p| - 1], q[..|p| - 1]), Distance(p[|p| - 1], q[|p| - 1]))
  {
    hide Distance; hide Larger;
  }

  lemma ScaledLarger(t: real, a: real, b: real, c: real, d: real)
    requires t >= 0.0 && a <= t * c && b <= t * d
    ensures Larger(a, b) <= t * Larger(c, d)
  {
    Scale(t, c, Larger(c, d));
    Scale(t, d, Larger(c, d));
  }

  lemma Scale(t: real, a: real, b: real)
    requires t >= 0.0 && a <= b
    ensures t * a <= t * b
  {
  }

  lemma {:induction false} MaxScaled(p: Point, q: Point, u: Point, v: Point, t: real)
    requires ScaledBelow(p, q, u, v, t) && t >= 0.0
    ensures MaxDistance(p, q) <= t * MaxDistance(u, v)
  {
    hide ScaledBelow; hide Distance; hide MaxDistance; hide Larger;
    ScaledSizes(p, q, u, v, t);
    if p != [] {
      var n := |p| - 1;
      ScaledPrefix(p, q, u, v, t);
      MaxScaled(p[..n], q[..n], u[..n], v[..n], t);
      MaxStep(p, q);
      MaxStep(u, v);
      ScaledLarger(t, MaxDistance(p[..n], q[..n]), Distance(p[n], q[n]),
                   MaxDistance(u[..n], v[..n]), Distance(u[n], v[n]));
    } else {
      NoDistance(p, q);
      NoDistance(u, v);
    }
  }

  lemma NoDistance(p: Point, q: Point)
    requires |p| == |q| == 0
    ensures MaxDistance(p, q) == 0.0
  {
  }

  lemma {:induction false} SquaresScaled(p: Point, q: Point, u: Point, v: Point, t: real)
    requires ScaledBelow(p, q, u, v, t) && t >= 0.0
    ensures SumSquares(p, q) <= t * t * SumSquares(u, v)
  {
    hide ScaledBelow; hide Distance;
    ScaledSizes(p, q, u, v, t);
    if p != [] {
      var n := |p| - 1;
      ScaledPrefix(p, q, u, v, t);
      SquaresScaled(p[..n], q[..n], u[..n], v[..n], t);
      var x, y := Distance(p[n], q[n]), Distance(u[n], v[n]);
      DistanceNotNegative(p[n], q[n]);
      DistanceNotNegative(u[n], v[n]);
      SquareMonotone(x, t * y);
      ScaledSquare(t, y);
      TimesSum(t * t, SumSquares(u[..n], v[..n]), Square(y));
    } else {
      assert t * t * 0.0 == 0.0;
    }
  }

  lemma DistanceNotNegative(x: real, y: real)
    ensures Distance(x, y) >= 0.0
  {
  }

  lemma ScaledSquare(t: real, r: real)
    ensures Square(t * r) == t * t * Square(r)
    ensures t >= 0.0 && r >= 0.0 ==> t * r >= 0.0
  {
  }

  /** If every coordinate shrinks by t, so does a built-in distance. */
  lemma DistScaled(m: Metric, p: Point, q: Point, u: Point, v: Point, t: real)
    requires Builtin(m) && ScaledBelow(p, q, u, v, t) && t >= 0.0
    ensures Dist(m, p, q) <= t * Dist(m, u, v)
  {
    hide SumDistance; hide SumSquares; hide MaxDistance; hide SquareRoot; hide ScaledBelow;
    ScaledSizes(p, q, u, v, t);
    match m
    case L1 => SumScaled(p, q, u, v, t);
    case Linf => MaxScaled(p, q, u, v, t);
    case L2(f) =>
      SquaresScaled(p, q, u, v, t);
      var r := f(SumSquares(u, v));
      RootIsRoot(f, SumSquares(u, v));
      ScaledSquare(t, r);
      RootBelow(f, SumSquares(p, q), t * r);
  }

  // ---------------------------------------------------------------- what the distances are

  lemma {:induction false} NothingApart(p: Point)
    ensures SumDistance(p, p) == SumSquares(p, p) == MaxDistance(p, p) == 0.0
  {
    if p != [] {
      NothingApart(p[..|p| - 1]);
    }
  }

  lemma {:induction false} SumsSplit(p: Point, q: Point, k: nat)
    requires k <= |p| == |q|
    ensures var r := q[..k] + p[k..];
            && SumDistance(p, q) == SumDistance(p, r) + SumDistance(r, q)
            && SumSquares(p, q) == SumSquares(p, r) + SumSquares(r, q)
            && MaxDistance(p, q) == Larger(MaxDistance(p, r), MaxDistance(r, q))
    decreases |p|
  {
    var r, n := q[..k] + p[k..], |p| - 1;
    if k == |p| {
      assert r == q;
      NothingApart(q);
    } else {
      SumsSplit(p[..n], q[..n], k);
      assert p[..n][k..] == p[k..n] && q[..n][..k] == q[..k];
      assert r[..n] == q[..n][..k] + p[..n][k..] && r[n] == p[n];
    }
  }

  /** From p to q in two steps, first the coordinates below k: the sums add up, the squares of the
      Euclidean distances do, and of the maxima the larger one counts. */
  lemma OrthogonalSteps(m: Metric, p: Point, q: Point, k: nat)
    requires Builtin(m) && k <= |p| == |q|
    ensures var r := q[..k] + p[k..];
            var a, b, c := Dist(m, p, q), Dist(m, p, r), Dist(m, r, q);
            match m
            case L1 => a == b + c
            case L2(_) => a * a == b * b + c * c
            case Linf => a == Larger(b, c)
            case Other(_) => true
  {
    hide SumDistance; hide SumSquares; hide MaxDistance; hide SquareRoot;
    SumsSplit(p, q, k);
    if m.L2? {
      var r := q[..k] + p[k..];
      RootIsRoot(m.sqrt, SumSquares(p, q));
      RootIsRoot(m.sqrt, SumSquares(p, r));
      RootIsRoot(m.sqrt, SumSquares(r, q));
    }
  }

  lemma {:induction false} SumsAlong(p: Point, i: nat, t: real)
    requires i < |p|
    ensures var q := p[i := p[i] + t];
            var d := if t < 0.0 then -t else t;
            SumDistance(p, q) == MaxDistance(p, q) == d && SumSquares(p, q) == Square(d)
    decreases |p|
  {
    var q, n := p[i := p[i] + t], |p| - 1;
    if i == n {
      assert q[..n] == p[..n];
      NothingApart(p[..n]);
    } else {
      SumsAlong(p[..n], i, t);
      assert q[..n] == p[..n][i := p[i] + t];
    }
  }

  lemma RootOfSquare(f: real -> real, d: real)
    requires SquareRoot(f) && d >= 0.0
    ensures f(Square(d)) == d
  {
    hide SquareRoot;
    RootIsRoot(f, d * d);
    SquareMonotone(f(d * d), d);
    SquareMonotone(d, f(d * d));
  }

  /** Moving one coordinate by t is a distance of |t|. */
  lemma AlongAxis(m: Metric, p: Point, i: nat, t: real)
    requires Builtin(m) && i < |p|
    ensures Dist(m, p, p[i := p[i] + t]) == if t < 0.0 then -t else t
  {
    hide SumDistance; hide SumSquares; hide MaxDistance; hide SquareRoot;
    SumsAlong(p, i, t);
    if m.L2? {
      RootOfSquare(m.sqrt, if t < 0.0 then -t else t);
    }
  }
}

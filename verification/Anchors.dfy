/** The anchor generators: grids, their certified and sampled covering radii, the safe grid for
    a given epsilon, and the contract that quantization then gives. */
module Anchors {
  import opened Arithmetic
  import opened Crdt
  import opened Grid
  import opened Metrics
  import opened Numbers
  import opened Telemetry
  import opened Wrappers

  method CheckedMul(a: nat, b: nat) returns (ok: bool, product: nat)
    ensures ok <==> a * b <= U64_MAX
    ensures ok ==> product == a * b
  {
    if a != 0 {
      ProductFits(a, b);
      if b > U64_MAX / a {
        return false, 0;
      }
    }
    return true, a * b;
  }

  lemma ProductFits(a: nat, b: nat)
    requires a > 0
    ensures b > U64_MAX / a <==> a * b > U64_MAX
  {
    assert U64_MAX == a * (U64_MAX / a) + U64_MAX % a;
    if b > U64_MAX / a {
      Spread(a, U64_MAX / a, b);
    } else if b < U64_MAX / a {
      Spread(a, b, U64_MAX / a);
    }
  }

  lemma {:induction false} PowGrows(n: nat, k: nat, l: nat)
    requires n > 0 && k <= l
    ensures 0 < Power(n, k) <= Power(n, l)
    decreases l
  {
    if k < l {
      PowGrows(n, k, l - 1);
      assert (n - 1) * Power(n, l - 1) >= 0;
    } else if k > 0 {
      PowGrows(n, k - 1, k - 1);
    }
  }

  /** n to the power of the dimension, unless that overflows. */
  method TotalCells(n: nat, dimension: nat) returns (total: Option<nat>)
    requires n > 0
    ensures total == if Power(n, dimension) <= U64_MAX then Some(Power(n, dimension)) else None
  {
    hide Power;
    var t := 1;
    PowerZero(n);
    for i := 0 to dimension
      invariant t == Power(n, i)
    {
      PowerNext(n, i);
      PowGrows(n, i + 1, dimension);
      var ok, next := CheckedMul(t, n);
      if !ok {
        return None;
      }
      t := next;
    }
    PowGrows(n, dimension, dimension);
    return if t <= U64_MAX then Some(t) else None;
  }

  predicate GridAcceptable(min: Point, max: Point, n: nat) {
    |min| > 0 && n > 0 && DomainValid(min, max)
  }

  /** Writes every anchor of the grid, index by index. */
  method GenerateGridAnchors(min: Point, max: Point, n: nat, out: array<Point>) returns (status: Status, count: nat)
    requires GridAcceptable(min, max, n) && Power(n, |min|) <= U64_MAX ==> Power(n, |min|) <= out.Length
    modifies out
    ensures status == if !GridAcceptable(min, max, n) then InvalidArgument
                      else if Power(n, |min|) > U64_MAX then OutOfRange else OK
    ensures status == OK ==> count <= out.Length && out[..count] == GridAnchors(min, max, n)
    ensures status == OK ==> out[count..] == old(out[count..])
    ensures status != OK ==> out[..] == old(out[..])
  {
    hide Power; hide Digits; hide Coordinate;
    if |min| == 0 || n == 0 || !DomainValid(min, max) {
      return InvalidArgument, 0;
    }
    var total := TotalCells(n, |min|);
    if total.None? {
      return OutOfRange, 0;
    }
    count := total.value;
    ghost var o := out[..];
    for idx := 0 to count
      invariant forall k :: 0 <= k < idx ==> out[k] == Centre(min, max, n, Digits(n, |min|, k))
      invariant out[idx..] == o[idx..]
    {
      out[idx] := AnchorAt(min, max, n, idx);
    }
    assert out[..count] == GridAnchors(min, max, n);
    status := OK;
  }

  /** The coordinates of one anchor, peeling the index digit by digit. */
  method AnchorAt(min: Point, max: Point, n: nat, idx: nat) returns (p: Point)
    requires GridAcceptable(min, max, n)
    ensures p == Centre(min, max, n, Digits(n, |min|, idx))
  {
    hide Coordinate; hide Digits;
    p := [];
    var rem: nat := idx;
    ghost var v := Digits(n, |min|, idx);
    for i := 0 to |min|
      invariant |p| == i && v[i..] == Digits(n, |min| - i, rem)
      invariant forall k :: 0 <= k < i ==> p[k] == Coordinate(min[k], max[k], n, v[k])
    {
      DigitsNext(n, |min| - i, rem);
      var j := rem % n;
      assert v[i] == v[i..][0] && v[i + 1..] == v[i..][1..];
      rem := rem / n;
      p := p + [Coordinate(min[i], max[i], n, j)];
    }
  }

  lemma DigitsNext(n: nat, dimension: nat, rem: nat)
    requires n > 0 && dimension > 0
    ensures Digits(n, dimension, rem) == [rem % n] + Digits(n, dimension - 1, rem / n)
  {
  }

  // ---------------------------------------------------------------- radii

  /** The norm of the domain diagonal, in the metric of the grid. */
  method DiagonalNorm(m: Metric, lo: Point, hi: Point) returns (norm: real)
    requires !m.Other? && DomainValid(lo, hi)
    ensures norm == Dist(m, lo, hi)
  {
    hide SumDistance; hide SumSquares; hide MaxDistance; hide Distance; hide Larger;
    PrefixAll(lo, hi);
    PrefixNone(lo, hi);
    var acc := 0.0;
    match m
    case Linf =>
      for i := 0 to |lo|
        invariant acc == MaxDistance(lo[..i], hi[..i])
      {
        PrefixStep(lo, hi, i);
        var s := hi[i] - lo[i];
        Widths(lo, hi, i, acc);
        if s > acc {
          acc := s;
        }
      }
      return acc;
    case L1 =>
      for i := 0 to |lo|
        invariant acc == SumDistance(lo[..i], hi[..i])
      {
        PrefixStep(lo, hi, i);
        Widths(lo, hi, i, acc);
        acc := acc + (hi[i] - lo[i]);
      }
      return acc;
    case L2(sqrt) =>
      for i := 0 to |lo|
        invariant acc == SumSquares(lo[..i], hi[..i])
      {
        PrefixStep(lo, hi, i);
        Widths(lo, hi, i, acc);
        var s := hi[i] - lo[i];
        acc := acc + s * s;
      }
      return sqrt(acc);
  }

  lemma Widths(lo: Point, hi: Point, i: nat, acc: real)
    requires DomainValid(lo, hi) && i < |lo|
    ensures Distance(lo[i], hi[i]) == hi[i] - lo[i]
    ensures Larger(acc, hi[i] - lo[i]) == if hi[i] - lo[i] > acc then hi[i] - lo[i] else acc
  {
  }

  lemma PrefixAll(p: Point, q: Point)
    requires |p| == |q|
    ensures p[..|p|] == p && q[..|p|] == q
  {
  }

  lemma PrefixNone(p: Point, q: Point)
    requires |p| == |q|
    ensures SumDistance(p[..0], q[..0]) == SumSquares(p[..0], q[..0]) == MaxDistance(p[..0], q[..0]) == 0.0
  {
  }

  lemma PrefixStep(p: Point, q: Point, i: nat)
    requires i < |p| == |q|
    ensures SumDistance(p[..i + 1], q[..i + 1]) == SumDistance(p[..i], q[..i]) + Distance(p[i], q[i])
    ensures SumSquares(p[..i + 1], q[..i + 1])
            == SumSquares(p[..i], q[..i]) + Distance(p[i], q[i]) * Distance(p[i], q[i])
    ensures MaxDistance(p[..i + 1], q[..i + 1]) == Larger(MaxDistance(p[..i], q[..i]), Distance(p[i], q[i]))
  {
    hide Distance; hide Larger;
    assert p[..i + 1][..i] == p[..i] && q[..i + 1][..i] == q[..i];
  }

  /** The certified radius of a grid: an upper bound on the distance from any domain point to
      its nearest anchor. Only the built-in norms have one. */
  method GridCoveringRadius(m: Metric, min: Point, max: Point, n: nat) returns (status: Status, radius: real)
    ensures status == if !GridAcceptable(min, max, n) || m.Other? then InvalidArgument else OK
    ensures status == OK ==> radius == GridRadius(m, min, max, n)
    ensures status == OK && Builtin(m) ==> CoveringRadius(m, GridAnchors(min, max, n), min, max, radius)
  {
    hide Builtin; hide Dist; hide CoveringRadius;
    radius := 0.0;
    if |min| == 0 || n == 0 || !DomainValid(min, max) || m.Other? {
      return InvalidArgument, radius;
    }
    if Builtin(m) {
      GridCovers(m, min, max, n);
    }
    var norm := DiagonalNorm(m, min, max);
    return OK, norm / (2.0 * n as real);
  }

  /** p lies at the drawn fraction of every axis. */
  ghost predicate ProbeAt(min: Point, max: Point, draw: nat -> real, p: Point) {
    |p| == |min| == |max| && forall i :: 0 <= i < |p| ==> p[i] == min[i] + (max[i] - min[i]) * draw(i)
  }

  /** A probe point: the k-th draw per axis, uniform in [0, 1). */
  method Probe(min: Point, max: Point, draw: nat -> real) returns (p: Point)
    requires DomainValid(min, max) && forall k :: 0.0 <= draw(k) < 1.0
    ensures InBounds(p, min, max) && ProbeAt(min, max, draw, p)
  {
    hide ProbeStart;
    p := [];
    ProbeNone(min, max, draw);
    for i := 0 to |min|
      invariant |p| == i && ProbeStart(min, max, draw, p)
    {
      var x := min[i] + (max[i] - min[i]) * draw(i);
      ProbeNext(min, max, draw, p, x);
      p := p + [x];
    }
    ProbeDone(min, max, draw, p);
  }

  /** The first coordinates of a probe. */
  ghost predicate ProbeStart(min: Point, max: Point, draw: nat -> real, p: Point) {
    |p| <= |min| == |max| && forall i :: 0 <= i < |p| ==> OnSide(min[i], max[i], draw(i), p[i])
  }

  ghost predicate OnSide(lo: real, hi: real, t: real, x: real) {
    lo <= x <= hi && x == lo + (hi - lo) * t
  }

  lemma ProbeNone(min: Point, max: Point, draw: nat -> real)
    requires |min| == |max|
    ensures ProbeStart(min, max, draw, [])
  {
  }

  lemma SideOf(lo: real, hi: real, t: real, x: real)
    requires lo < hi && 0.0 <= t < 1.0 && x == lo + (hi - lo) * t
    ensures OnSide(lo, hi, t, x)
  {
    FractionOf(hi - lo, t, x - lo);
  }

  lemma ProbeNext(min: Point, max: Point, draw: nat -> real, p: Point, x: real)
    requires ProbeStart(min, max, draw, p) && |p| < |min| == |max| && min[|p|] < max[|p|] && 0.0 <= draw(|p|) < 1.0
    requires x == min[|p|] + (max[|p|] - min[|p|]) * draw(|p|)
    ensures ProbeStart(min, max, draw, p + [x])
  {
    hide ProbeStart; hide OnSide;
    SideOf(min[|p|], max[|p|], draw(|p|), x);
    ProbeLonger(min, max, draw, p, x);
  }

  lemma ProbeLonger(min: Point, max: Point, draw: nat -> real, p: Point, x: real)
    requires ProbeStart(min, max, draw, p) && |p| < |min| && OnSide(min[|p|], max[|p|], draw(|p|), x)
    ensures ProbeStart(min, max, draw, p + [x])
  {
    hide OnSide;
  }

  lemma ProbeDone(min: Point, max: Point, draw: nat -> real, p: Point)
    requires ProbeStart(min, max, draw, p) && |p| == |min|
    ensures InBounds(p, min, max) && ProbeAt(min, max, draw, p)
  {
  }

  lemma FractionOf(w: real, t: real, x: real)
    requires w > 0.0 && 0.0 <= t < 1.0 && x == w * t
    ensures 0.0 <= x <= w
  {
    Scale(w, 0.0, t);
    Scale(w, t, 1.0);
  }

  /** The least distance from p to an anchor. */
  ghost predicate LeastDistance(m: Metric, anchors: seq<Point>, p: Point, d: real)
    requires forall a :: 0 <= a < |anchors| ==> |anchors[a]| == |p|
  {
    Reached(m, anchors, p, d) && forall r :: Reached(m, anchors, p, r) ==> d <= r
  }

  /** The distance from p to the nearest of the anchors. */
  method NearestDistance(m: Metric, anchors: seq<Point>, p: Point) returns (best: real)
    requires anchors != [] && forall a :: 0 <= a < |anchors| ==> |anchors[a]| == |p|
    ensures LeastDistance(m, anchors, p, best)
  {
    hide Dist;
    best := Dist(m, p, anchors[0]);
    for a := 1 to |anchors|
      invariant forall b :: 0 <= b < a ==> best <= Dist(m, p, anchors[b])
      invariant exists b :: 0 <= b < a && Dist(m, p, anchors[b]) <= best
    {
      var d := Dist(m, p, anchors[a]);
      if d < best {
        best := d;
      }
    }
  }

  /** The points that are probed: the k-th with the k-th row of draws. */
  ghost predicate IsProbe(min: Point, max: Point, draw: (nat, nat) -> real, k: nat, p: Point) {
    ProbeAt(min, max, (i: nat) => draw(k, i), p)
  }

  /** The sampled radius: every probe is within it of an anchor, and it is 0 or attained. */
  ghost predicate Sampled(m: Metric, anchors: seq<Point>, min: Point, max: Point, probes: nat,
                          draw: (nat, nat) -> real, radius: real)
    requires forall a :: 0 <= a < |anchors| ==> |anchors[a]| == |min|
  {
    && radius >= 0.0
    && (forall k: nat, p :: k < probes && IsProbe(min, max, draw, k, p) ==> Reached(m, anchors, p, radius))
    && (radius == 0.0
        || exists k: nat, p :: k < probes && IsProbe(min, max, draw, k, p) && LeastDistance(m, anchors, p, radius))
  }

  lemma ProbeUnique(min: Point, max: Point, draw: (nat, nat) -> real, k: nat, p: Point, q: Point)
    requires IsProbe(min, max, draw, k, p) && IsProbe(min, max, draw, k, q)
    ensures p == q
  {
  }

  lemma ReachedWider(m: Metric, anchors: seq<Point>, p: Point, r: real, s: real)
    requires (forall a :: 0 <= a < |anchors| ==> |anchors[a]| == |p|) && Reached(m, anchors, p, r) && r <= s
    ensures Reached(m, anchors, p, s)
  {
    hide Dist;
  }

  lemma SampledNext(m: Metric, anchors: seq<Point>, min: Point, max: Point, k: nat,
                    draw: (nat, nat) -> real, radius: real, p: Point, best: real)
    requires forall a :: 0 <= a < |anchors| ==> |anchors[a]| == |min|
    requires Sampled(m, anchors, min, max, k, draw, radius)
    requires IsProbe(min, max, draw, k, p) && LeastDistance(m, anchors, p, best)
    ensures Sampled(m, anchors, min, max, k + 1, draw, if best > radius then best else radius)
  {
    hide Dist; hide Reached; hide IsProbe;
    ProbeSize(min, max, draw, k, p);
    var after := if best > radius then best else radius;
    forall j: nat, q | j < k + 1 && IsProbe(min, max, draw, j, q) ensures Reached(m, anchors, q, after) {
      ProbeSize(min, max, draw, j, q);
      if j == k {
        ProbeUnique(min, max, draw, k, p, q);
        ReachedWider(m, anchors, q, best, after);
      } else {
        ReachedWider(m, anchors, q, radius, after);
      }
    }
  }

  lemma ProbeSize(min: Point, max: Point, draw: (nat, nat) -> real, k: nat, p: Point)
    requires IsProbe(min, max, draw, k, p)
    ensures |p| == |min| == |max|
  {
  }

  /** Samples the radius. Every certified radius bounds it, so a certificate is never
      contradicted by sampling. */
  method EstimateCoveringRadius(m: Metric, anchors: seq<Point>, min: Point, max: Point, probes: nat,
                                draw: (nat, nat) -> real) returns (status: Status, radius: real)
    requires forall a :: 0 <= a < |anchors| ==> |anchors[a]| == |min|
    requires forall k, i :: 0.0 <= draw(k, i) < 1.0
    ensures status == if |min| == 0 || anchors == [] || probes == 0 || !DomainValid(min, max) then InvalidArgument
                      else OK
    ensures status == OK ==> Sampled(m, anchors, min, max, probes, draw, radius)
    ensures status == OK ==> forall r :: r >= 0.0 && CoveringRadius(m, anchors, min, max, r) ==> radius <= r
  {
    hide Dist; hide Reached; hide ProbeAt;
    radius := 0.0;
    if |min| == 0 || anchors == [] || probes == 0 || !DomainValid(min, max) {
      return InvalidArgument, radius;
    }
    for k := 0 to probes
      invariant Sampled(m, anchors, min, max, k, draw, radius)
      invariant forall r :: r >= 0.0 && CoveringRadius(m, anchors, min, max, r) ==> radius <= r
    {
      var p := Probe(min, max, (i: nat) => draw(k, i));
      var best := NearestDistance(m, anchors, p);
      SampledNext(m, anchors, min, max, k, draw, radius, p, best);
      if best > radius {
        radius := best;
      }
    }
    status := OK;
  }

  // ---------------------------------------------------------------- safe anchors

  function Ceiling(x: real): int {
    -((-x).Floor)
  }

  /** The least number of cells per axis whose cells have a diagonal within epsilon. */
  ghost predicate LeastCells(norm: real, epsilon: real, n: nat) {
    n > 0 && norm <= n as real * epsilon && (n > 1 ==> (n - 1) as real * epsilon < norm)
  }

  lemma CeilingIsLeast(norm: real, epsilon: real, n: nat)
    requires norm > 0.0 && epsilon > 0.0 && n == Ceiling(norm / epsilon)
    ensures LeastCells(norm, epsilon, n)
  {
    hide Ceiling;
    CeilingBounds(norm / epsilon);
    Undivided(norm, epsilon);
    PositiveQuotient(norm, epsilon);
    LeastScaled(norm, norm / epsilon, n, epsilon);
  }

  lemma CeilingBounds(x: real)
    ensures x <= Ceiling(x) as real < x + 1.0
  {
  }

  lemma LeastScaled(norm: real, need: real, n: nat, epsilon: real)
    requires 0.0 < need <= n as real < need + 1.0 && epsilon > 0.0 && need * epsilon == norm
    ensures LeastCells(norm, epsilon, n)
  {
    if need < n as real {
      OrderScaled(need, n as real, epsilon);
    }
    OrderScaled((n - 1) as real, need, epsilon);
  }

  lemma PositiveQuotient(a: real, b: real)
    requires a > 0.0 && b > 0.0
    ensures a / b > 0.0
  {
  }

  lemma HalfEpsilon(norm: real, epsilon: real, n: nat)
    requires n > 0 && norm <= n as real * epsilon
    ensures 2.0 * (norm / (2.0 * n as real)) <= epsilon
  {
    var w := 2.0 * n as real;
    Undivided(norm, w);
    if norm / w > epsilon / 2.0 {
      OrderScaled(epsilon / 2.0, norm / w, w);
    }
  }

  lemma SquaresPositive(min: Point, max: Point)
    requires |min| > 0 && DomainValid(min, max)
    ensures SumSquares(min, max) > 0.0
  {
    hide Distance; hide Square;
    var n := |min| - 1;
    Widths(min, max, n, 0.0);
    SquarePositive(Distance(min[n], max[n]));
  }

  lemma SquarePositive(w: real)
    requires w > 0.0
    ensures Square(w) > 0.0
  {
    ProductPositive(w, w, Square(w));
  }

  lemma ProductPositive(x: real, y: real, z: real)
    requires x > 0.0 && y > 0.0 && z == x * y
    ensures z > 0.0
  {
  }

  lemma PositiveNorm(m: Metric, min: Point, max: Point)
    requires Builtin(m) && |min| > 0 && DomainValid(min, max)
    ensures Dist(m, min, max) > 0.0
  {
    hide SquareRoot; hide Distance; hide SumSquares;
    var n := |min| - 1;
    Widths(min, max, n, 0.0);
    if m.L2? {
      RootIsRoot(m.sqrt, SumSquares(min, max));
      SquaresPositive(min, max);
      assert Square(0.0) == 0.0;
    } else {
      assert Dist(m, min, max) > 0.0;
    }
  }

  /** What a safe grid guarantees: the fewest cells per axis that do, all anchors written, and a
      covering radius of at most half of epsilon. */
  ghost predicate SafeGrid(m: Metric, epsilon: real, min: Point, max: Point, n: nat, anchors: seq<Point>,
                           radius: real) {
    && GridAcceptable(min, max, n) && LeastCells(Dist(m, min, max), epsilon, n)
    && anchors == GridAnchors(min, max, n) && radius == GridRadius(m, min, max, n)
    && 2.0 * radius <= epsilon && CoveringRadius(m, anchors, min, max, radius)
  }

  lemma GridIsSafe(m: Metric, epsilon: real, min: Point, max: Point, n: nat)
    requires Builtin(m) && GridAcceptable(min, max, n) && LeastCells(Dist(m, min, max), epsilon, n)
    ensures SafeGrid(m, epsilon, min, max, n, GridAnchors(min, max, n), GridRadius(m, min, max, n))
  {
    hide CoveringRadius; hide Dist; hide Builtin;
    GridCovers(m, min, max, n);
    HalfEpsilon(Dist(m, min, max), epsilon, n);
  }

  /** The grid strategy of the safe generator. When the grid has too many anchors their number
      and radius are still reported. */
  method GenerateSafeGrid(m: Metric, epsilon: real, min: Point, max: Point, maxAnchors: nat, out: array<Point>)
    returns (status: Status, count: nat, radius: Option<real>, ghost n: nat)
    requires maxAnchors <= out.Length && maxAnchors <= U64_MAX && (m.Other? || Builtin(m))
    modifies out
    ensures status == InvalidArgument <==>
              |min| == 0 || maxAnchors == 0 || epsilon <= 0.0 || !DomainValid(min, max) || m.Other?
    ensures status == OK || status == InvalidArgument || status == OutOfRange
    ensures status == OK ==> 0 < count <= maxAnchors && radius.Some?
                             && SafeGrid(m, epsilon, min, max, n, out[..count], radius.value)
    ensures status != InvalidArgument ==> LeastCells(Dist(m, min, max), epsilon, n)
    ensures status == OutOfRange <==>
              status != InvalidArgument && (n > U64_MAX / 2 || Power(n, |min|) > maxAnchors)
    ensures status == OutOfRange ==> (radius.Some? <==> n <= U64_MAX / 2 && Power(n, |min|) <= U64_MAX)
    ensures status == OutOfRange && radius.Some? ==>
              count == Power(n, |min|) && radius.value == GridRadius(m, min, max, n)
    ensures status != OK && radius.None? ==> count == 0
    ensures status != OK ==> out[..] == old(out[..])
  {
    hide CoveringRadius; hide Dist; hide Builtin; hide Power; hide GridAnchors; hide LeastCells;
    count, radius, n := 0, None, 0;
    if |min| == 0 || maxAnchors == 0 || epsilon <= 0.0 || !DomainValid(min, max) || m.Other? {
      return InvalidArgument, count, radius, n;
    }
    var norm := DiagonalNorm(m, min, max);
    PositiveNorm(m, min, max);
    var need := norm / epsilon;
    PositiveQuotient(norm, epsilon);
    n := Ceiling(need);
    CeilingIsLeast(norm, epsilon, n);
    if need > (U64_MAX / 2) as real {
      return OutOfRange, count, radius, n;
    }
    var nMin := Ceiling(need);
    if nMin == 0 {
      nMin := 1;
    }
    var total := TotalCells(nMin, |min|);
    if total.None? {
      return OutOfRange, count, radius, n;
    }
    GridIsSafe(m, epsilon, min, max, nMin);
    PowGrows(nMin, 0, |min|);
    PowerZero(nMin);
    radius := Some(norm / (2.0 * nMin as real));
    if total.value > maxAnchors {
      return OutOfRange, total.value, radius, n;
    }
    status, count := GenerateGridAnchors(min, max, nMin, out);
    GridSize(min, max, nMin);
  }

  lemma GridSize(min: Point, max: Point, n: nat)
    requires n > 0 && |min| == |max|
    ensures |GridAnchors(min, max, n)| == Power(n, |min|)
  {
  }

  // ---------------------------------------------------------------- the contract

  ghost predicate MeasuredBy(c: Config, m: Metric) {
    forall p, q :: |p| == |q| == c.dimension ==> c.distance(p, q) == Dist(m, p, q)
  }

  /** Two points that are quantized to the same cell are at most twice the covering radius of
      the anchors apart, in any metric. */
  lemma SameCellWithinDiameter(c: Config, m: Metric, radius: real, p: Point, q: Point)
    requires ConfigOk(c) && MeasuredBy(c, m) && IsMetric(m)
    requires CoveringRadius(m, c.anchors, c.domainMin, c.domainMax, radius)
    requires InDomain(c, p) && InDomain(c, q) && CellOf(c, p) == CellOf(c, q)
    ensures Dist(m, p, q) <= 2.0 * radius
  {
    hide Dist; hide CellOf; hide CoveringRadius; hide IsMetric;
    var a := c.anchors[CellOf(c, p)];
    AnchorWithin(c, m, radius, p);
    AnchorWithin(c, m, radius, q);
    MetricAt(m, p, a, q);
  }

  /** The contract: with the anchors of a safe grid for epsilon, points of one cell are at most
      epsilon apart. */
  lemma SameCellWithinEpsilon(c: Config, m: Metric, n: nat, radius: real, p: Point, q: Point)
    requires ConfigOk(c) && MeasuredBy(c, m) && Builtin(m)
    requires SafeGrid(m, c.epsilon, c.domainMin, c.domainMax, n, c.anchors, radius)
    requires InDomain(c, p) && InDomain(c, q) && CellOf(c, p) == CellOf(c, q)
    ensures Dist(m, p, q) <= c.epsilon
  {
    hide Dist; hide CellOf; hide CoveringRadius; hide IsMetric; hide Builtin; hide GridAnchors;
    BuiltinIsMetric(m);
    SameCellWithinDiameter(c, m, radius, p, q);
  }

  lemma MetricAt(m: Metric, p: Point, a: Point, q: Point)
    requires IsMetric(m) && |p| == |a| == |q|
    ensures Dist(m, p, q) <= Dist(m, p, a) + Dist(m, q, a)
    ensures Dist(m, p, q) >= 0.0 && Dist(m, p, q) == Dist(m, q, p)
  {
    hide Dist;
    assert TriangleAt(m, p, a, q) && PairOk(m, q, a) && PairOk(m, p, q);
  }

  lemma AnchorWithin(c: Config, m: Metric, radius: real, p: Point)
    requires ConfigOk(c) && MeasuredBy(c, m) && InDomain(c, p)
    requires CoveringRadius(m, c.anchors, c.domainMin, c.domainMax, radius)
    ensures |c.anchors[CellOf(c, p)]| == |p| && Dist(m, p, c.anchors[CellOf(c, p)]) <= radius
  {
    hide Dist;
    assert Reached(m, c.anchors, p, radius);
    var a :| 0 <= a < |c.anchors| && |c.anchors[a]| == |p| && Dist(m, p, c.anchors[a]) <= radius;
    assert InDomain(c, c.anchors[CellOf(c, p)]);
    assert AnchorDistance(c, p, CellOf(c, p)) <= AnchorDistance(c, p, a);
  }
}

/** The distance-to-anchors embedding: a point becomes the vector of its distances to the
    anchors, compared by their largest difference. */
module Embed {
  import opened Anchors
  import opened Arithmetic
  import opened Grid
  import opened Metrics
  import opened Numbers
  import opened Telemetry
  import opened Wrappers

  datatype Embedding = Embedding(
    dimension: nat, anchors: seq<Point>, metric: Metric,
    coveringRadius: real, certified: bool)

  ghost predicate Sized(anchors: seq<Point>, dimension: nat) {
    forall a :: 0 <= a < |anchors| ==> |anchors[a]| == dimension
  }

  /** phi(p). */
  ghost function Embedded(m: Metric, anchors: seq<Point>, p: Point): (v: seq<real>)
    requires Sized(anchors, |p|)
    ensures |v| == |anchors| && forall i :: 0 <= i < |v| ==> v[i] == Dist(m, p, anchors[i])
  {
    seq(|anchors|, i requires 0 <= i < |anchors| => Dist(m, p, anchors[i]))
  }

  // ---------------------------------------------------------------- distortion

  /** A coordinate difference is at most the largest one. */
  lemma {:induction false} CoordinateBelow(a: Point, b: Point, i: nat)
    requires i < |a| == |b|
    ensures Distance(a[i], b[i]) <= MaxDistance(a, b)
  {
    hide Distance;
    MaxStep(a, b);
    if i < |a| - 1 {
      CoordinateBelow(a[..|a| - 1], b[..|b| - 1], i);
    }
  }

  lemma {:induction false} MaxBelow(a: Point, b: Point, r: real)
    requires |a| == |b| && r >= 0.0 && forall i :: 0 <= i < |a| ==> Distance(a[i], b[i]) <= r
    ensures MaxDistance(a, b) <= r
  {
    hide Distance; hide MaxDistance;
    if a != [] {
      MaxStep(a, b);
      MaxBelow(a[..|a| - 1], b[..|b| - 1], r);
    } else {
      NoDistance(a, b);
    }
  }

  /** Embedding never increases a distance, whatever the anchors. */
  lemma EmbeddingContracts(m: Metric, anchors: seq<Point>, p: Point, q: Point)
    requires IsMetric(m) && |p| == |q| && Sized(anchors, |p|)
    ensures MaxDistance(Embedded(m, anchors, p), Embedded(m, anchors, q)) <= Dist(m, p, q)
  {
    hide Dist; hide IsMetric; hide MaxDistance;
    var a, b := Embedded(m, anchors, p), Embedded(m, anchors, q);
    assert PairOk(m, p, q) by { MetricPair(m, p, q); }
    forall i | 0 <= i < |a| ensures Distance(a[i], b[i]) <= Dist(m, p, q) {
      MetricAt(m, p, q, anchors[i]);
      MetricAt(m, q, p, anchors[i]);
      MetricAt(m, p, anchors[i], q);
      MetricPair(m, q, anchors[i]);
      MetricPair(m, p, anchors[i]);
    }
    MaxBelow(a, b, Dist(m, p, q));
  }

  lemma MetricPair(m: Metric, p: Point, q: Point)
    requires IsMetric(m)
    ensures PairOk(m, p, q)
  {
  }

  /** Over a domain that the anchors cover within delta, it loses at most 2 delta. */
  lemma EmbeddingLosesLittle(m: Metric, anchors: seq<Point>, min: Point, max: Point, delta: real, p: Point, q: Point)
    requires IsMetric(m) && CoveringRadius(m, anchors, min, max, delta)
    requires InBounds(p, min, max) && InBounds(q, min, max) && Sized(anchors, |p|)
    ensures Dist(m, p, q) <= MaxDistance(Embedded(m, anchors, p), Embedded(m, anchors, q)) + 2.0 * delta
  {
    hide Dist; hide IsMetric; hide MaxDistance;
    assert Reached(m, anchors, p, delta);
    var a :| 0 <= a < |anchors| && Dist(m, p, anchors[a]) <= delta;
    MetricAt(m, p, anchors[a], q);
    CoordinateBelow(Embedded(m, anchors, p), Embedded(m, anchors, q), a);
  }

  // ---------------------------------------------------------------- the object

  /** Ten for each anchor, but at least 1000 and at most 100000. */
  function ProbeCount(anchorCount: nat): (n: nat)
    ensures 1000 <= n <= 100000
    ensures n == 10 * anchorCount || (n == 1000 && anchorCount < 100) || (n == 100000 && anchorCount > 10000)
  {
    if anchorCount * 10 < 1000 then 1000 else if anchorCount * 10 > 100000 then 100000 else anchorCount * 10
  }

  predicate CreateAcceptable(anchors: seq<Point>, min: Point, max: Point, upperBound: real) {
    |min| > 0 && anchors != [] && upperBound >= 0.0 && DomainValid(min, max)
  }

  /** A bound is at least the sampled radius exactly when every probe is within it of an anchor. */
  lemma BoundMeetsSample(m: Metric, anchors: seq<Point>, min: Point, max: Point, probes: nat,
                         draw: (nat, nat) -> real, sampled: real, bound: real)
    requires Sized(anchors, |min|) && Sampled(m, anchors, min, max, probes, draw, sampled) && bound > 0.0
    ensures sampled <= bound
            <==> forall k: nat, p :: k < probes && IsProbe(min, max, draw, k, p) ==> Reached(m, anchors, p, bound)
  {
    hide Dist; hide Reached; hide IsProbe;
    if sampled <= bound {
      forall k: nat, p | k < probes && IsProbe(min, max, draw, k, p) ensures Reached(m, anchors, p, bound) {
        ProbeSize(min, max, draw, k, p);
        ReachedWider(m, anchors, p, sampled, bound);
      }
    }
  }

  /** Creates the embedding. A supplied bound certifies it unless sampling contradicts the
      bound, which a true covering radius never suffers; without a bound the sampled radius,
      a lower bound only, is kept as a diagnostic. */
  method Create(metric: Metric, anchors: seq<Point>, min: Point, max: Point, upperBound: real,
                draw: (nat, nat) -> real, allocOk: bool) returns (status: Status, embed: Option<Embedding>)
    requires Sized(anchors, |min|) && forall k, i :: 0.0 <= draw(k, i) < 1.0
    ensures status == OK <==> embed.Some?
    ensures status == OK || status == InvalidArgument || status == OutOfMemory
    ensures |min| == 0 || anchors == [] || upperBound < 0.0 || !DomainValid(min, max) ==> status == InvalidArgument
    ensures status == OutOfMemory <==> CreateAcceptable(anchors, min, max, upperBound) && !allocOk
    ensures CreateAcceptable(anchors, min, max, upperBound) && allocOk ==>
              upperBound == 0.0 || CoveringRadius(metric, anchors, min, max, upperBound) ==> status == OK
    ensures CreateAcceptable(anchors, min, max, upperBound) && allocOk && upperBound > 0.0 ==>
              (status == OK <==> forall k: nat, p :: k < ProbeCount(|anchors|) && IsProbe(min, max, draw, k, p) ==>
                                   Reached(metric, anchors, p, upperBound))
    ensures status == OK && !embed.value.certified ==>
              Sampled(metric, anchors, min, max, ProbeCount(|anchors|), draw, embed.value.coveringRadius)
    ensures status == OK ==>
              && embed.value.dimension == |min| && embed.value.anchors == anchors && embed.value.metric == metric
              && embed.value.certified == (upperBound > 0.0)
              && (embed.value.certified ==> embed.value.coveringRadius == upperBound)
    ensures status == OK && !embed.value.certified ==>
              forall r :: r >= 0.0 && CoveringRadius(metric, anchors, min, max, r) ==> embed.value.coveringRadius <= r
  {
    hide Dist; hide CoveringRadius; hide Reached; hide IsProbe; hide ProbeCount;
    if |min| == 0 || anchors == [] || upperBound < 0.0 || !DomainValid(min, max) {
      return InvalidArgument, None;
    }
    if !allocOk {
      return OutOfMemory, None;
    }
    var estimated, sampled := EstimateCoveringRadius(metric, anchors, min, max, ProbeCount(|anchors|), draw);
    if estimated != OK {
      return estimated, None;
    }
    if upperBound > 0.0 {
      BoundMeetsSample(metric, anchors, min, max, ProbeCount(|anchors|), draw, sampled, upperBound);
      if upperBound < sampled {
        return InvalidArgument, None;
      }
      return OK, Some(Embedding(|min|, anchors, metric, upperBound, true));
    }
    return OK, Some(Embedding(|min|, anchors, metric, sampled, false));
  }

  /** Writes phi(p); stops at a negative distance, which no metric has. */
  method EmbedPoint(e: Embedding, p: Point, out: array<real>) returns (status: Status)
    requires Sized(e.anchors, e.dimension) && |p| == e.dimension && |e.anchors| <= out.Length
    modifies out
    ensures status == OK ==> out[..|e.anchors|] == Embedded(e.metric, e.anchors, p)
    ensures status == OK <==> forall i :: 0 <= i < |e.anchors| ==> Dist(e.metric, p, e.anchors[i]) >= 0.0
    ensures status == OK || status == OutOfRange
    ensures out[|e.anchors|..] == old(out[|e.anchors|..])
  {
    hide Dist;
    ghost var o := out[..];
    for i := 0 to |e.anchors|
      invariant forall k :: 0 <= k < i ==> out[k] == Dist(e.metric, p, e.anchors[k]) >= 0.0
      invariant out[|e.anchors|..] == o[|e.anchors|..]
    {
      var coordinate := Dist(e.metric, p, e.anchors[i]);
      if coordinate < 0.0 {
        return OutOfRange;
      }
      out[i] := coordinate;
    }
    assert out[..|e.anchors|] == Embedded(e.metric, e.anchors, p);
    return OK;
  }

  /** The L-infinity distance of two embedded vectors. */
  method EmbedDistance(a: array<real>, b: array<real>, dimension: nat) returns (maxD: real)
    requires dimension <= a.Length && dimension <= b.Length
    ensures maxD == MaxDistance(a[..dimension], b[..dimension])
  {
    hide MaxDistance;
    maxD := 0.0;
    NoDistance(a[..0], b[..0]);
    for i := 0 to dimension
      invariant maxD == MaxDistance(a[..i], b[..i])
    {
      MaxStep(a[..i + 1], b[..i + 1]);
      assert a[..i + 1][..i] == a[..i] && b[..i + 1][..i] == b[..i];
      var diff := a[i] - b[i];
      if diff < 0.0 {
        diff := -diff;
      }
      if diff > maxD {
        maxD := diff;
      }
    }
  }

  /** The threshold for the embedded space, refused without a certificate. */
  method AdjustedEpsilon(e: Embedding, epsilon: real) returns (status: Status, adjusted: real)
    ensures status == if epsilon < 0.0 then InvalidArgument
                      else if !e.certified || epsilon <= 2.0 * e.coveringRadius then OutOfRange else OK
    ensures status == OK ==> adjusted == epsilon - 2.0 * e.coveringRadius > 0.0
  {
    adjusted := 0.0;
    if epsilon < 0.0 {
      return InvalidArgument, adjusted;
    }
    if !e.certified {
      return OutOfRange, adjusted;
    }
    adjusted := epsilon - 2.0 * e.coveringRadius;
    return if adjusted <= 0.0 then OutOfRange else OK, adjusted;
  }

  ghost predicate NovelAt(m: Metric, history: seq<Point>, p: Point, epsilon: real) {
    forall q :: q in history && |q| == |p| ==> Dist(m, p, q) > epsilon
  }

  ghost predicate EmbeddedNovelAt(e: Embedding, history: seq<Point>, p: Point, epsilon: real)
    requires Sized(e.anchors, |p|)
  {
    forall q :: q in history && |q| == |p| ==>
      MaxDistance(Embedded(e.metric, e.anchors, p), Embedded(e.metric, e.anchors, q)) > epsilon
  }

  /** The certified threshold is conservative: a point that is novel at epsilon is never called
      seen, and a point within epsilon - 2 delta of the history is never called novel, so only
      distances in a gap of width 2 delta can be decided either way. */
  lemma CertifiedIsConservative(e: Embedding, min: Point, max: Point, epsilon: real, history: seq<Point>, p: Point)
    requires e.certified && IsMetric(e.metric) && Sized(e.anchors, |p|)
    requires CoveringRadius(e.metric, e.anchors, min, max, e.coveringRadius)
    requires InBounds(p, min, max) && forall q :: q in history ==> InBounds(q, min, max)
    ensures NovelAt(e.metric, history, p, epsilon) ==> EmbeddedNovelAt(e, history, p, epsilon - 2.0 * e.coveringRadius)
    ensures EmbeddedNovelAt(e, history, p, epsilon - 2.0 * e.coveringRadius)
            ==> NovelAt(e.metric, history, p, epsilon - 2.0 * e.coveringRadius)
  {
    hide Dist; hide IsMetric; hide MaxDistance; hide CoveringRadius;
    forall q | q in history && |q| == |p|
      ensures var d := MaxDistance(Embedded(e.metric, e.anchors, p), Embedded(e.metric, e.anchors, q));
              d <= Dist(e.metric, p, q) <= d + 2.0 * e.coveringRadius
    {
      EmbeddingContracts(e.metric, e.anchors, p, q);
      EmbeddingLosesLittle(e.metric, e.anchors, min, max, e.coveringRadius, p, q);
    }
  }

  // ---------------------------------------------------------------- embedded bounds

  function Farther(a: real, lo: real, hi: real): real {
    if Distance(a, lo) > Distance(a, hi) then lo else hi
  }

  /** The corner of the domain farthest from an anchor. */
  ghost function FarCorner(a: Point, min: Point, max: Point): (c: Point)
    requires |a| == |min| == |max|
    ensures |c| == |a| && forall i :: 0 <= i < |c| ==> c[i] == Farther(a[i], min[i], max[i])
  {
    seq(|a|, i requires 0 <= i < |a| => Farther(a[i], min[i], max[i]))
  }

  lemma FarIsFarther(a: real, lo: real, hi: real, x: real)
    requires lo <= x <= hi
    ensures Distance(x, a) <= 1.0 * Distance(a, Farther(a, lo, hi))
  {
  }

  /** No domain point is farther from an anchor than that corner. */
  lemma CornerIsFarthest(m: Metric, a: Point, min: Point, max: Point, p: Point)
    requires Builtin(m) && InBounds(p, min, max) && |a| == |p|
    ensures Dist(m, p, a) <= Dist(m, a, FarCorner(a, min, max))
  {
    hide Dist; hide Builtin; hide Farther; hide Distance;
    forall i | 0 <= i < |p| ensures Distance(p[i], a[i]) <= 1.0 * Distance(a[i], FarCorner(a, min, max)[i]) {
      FarIsFarther(a[i], min[i], max[i], p[i]);
    }
    DistScaled(m, p, a, a, FarCorner(a, min, max), 1.0);
  }

  /** The upper bound of one embedded coordinate. */
  method CoordinateBound(m: Metric, anchor: Point, min: Point, max: Point) returns (bound: real)
    requires !m.Other? && |anchor| == |min| == |max|
    ensures bound == Dist(m, anchor, FarCorner(anchor, min, max))
  {
    hide SumDistance; hide SumSquares; hide MaxDistance; hide Distance; hide Larger; hide Farther;
    ghost var far := FarCorner(anchor, min, max);
    PrefixAll(anchor, far);
    PrefixNone(anchor, far);
    var accumulator := 0.0;
    for i := 0 to |min|
      invariant m.L1? ==> accumulator == SumDistance(anchor[..i], far[..i])
      invariant m.L2? ==> accumulator == SumSquares(anchor[..i], far[..i])
      invariant m.Linf? ==> accumulator == MaxDistance(anchor[..i], far[..i])
    {
      PrefixStep(anchor, far, i);
      var dlo, dhi := Distance(anchor[i], min[i]), Distance(anchor[i], max[i]);
      FartherDistance(anchor[i], min[i], max[i]);
      var d := if dlo > dhi then dlo else dhi;
      LargerIs(accumulator, d);
      match m
      case L1 => accumulator := accumulator + d;
      case L2(_) => accumulator := accumulator + d * d;
      case Linf =>
        if d > accumulator {
          accumulator := d;
        }
    }
    bound := if m.L2? then m.sqrt(accumulator) else accumulator;
  }

  lemma FartherDistance(a: real, lo: real, hi: real)
    ensures Distance(a, Farther(a, lo, hi))
            == if Distance(a, lo) > Distance(a, hi) then Distance(a, lo) else Distance(a, hi)
  {
  }

  lemma LargerIs(x: real, y: real)
    ensures Larger(x, y) == if y > x then y else x
  {
  }

  datatype Strategy = GridStrategy | HaltonStrategy

  ghost predicate BoundsHold(e: Embedding, min: Point, max: Point, bounds: seq<real>)
    requires Sized(e.anchors, |min|)
  {
    |bounds| == |e.anchors| && forall p :: InBounds(p, min, max) ==> Bounded(e, p, bounds)
  }

  ghost predicate Bounded(e: Embedding, p: Point, bounds: seq<real>)
    requires Sized(e.anchors, |p|) && |bounds| == |e.anchors|
  {
    forall i :: 0 <= i < |bounds| ==> 0.0 <= Embedded(e.metric, e.anchors, p)[i] <= bounds[i]
  }

  /** Whether a buffer of that many anchors has more bytes than can be addressed. */
  predicate BufferTooLarge(maxAnchors: nat, dimension: nat) {
    dimension > 0 && (maxAnchors > U64_MAX / dimension || maxAnchors * dimension > U64_MAX / 8)
  }

  lemma BufferBytes(maxAnchors: nat, dimension: nat)
    ensures BufferTooLarge(maxAnchors, dimension) <==> 8 * (maxAnchors * dimension) > U64_MAX
  {
    if dimension > 0 {
      var q := U64_MAX / dimension;
      assert q * dimension <= U64_MAX < (q + 1) * dimension;
      if maxAnchors > q {
        Grows(q + 1, maxAnchors, dimension);
      }
    }
  }

  lemma Grows(a: nat, b: nat, d: nat)
    requires a <= b
    ensures a * d <= b * d
  {
  }

  /** What the convenience constructor hands to the cache over the embedded space: a certified
      embedding of radius at most the target, the reduced threshold, and coordinate bounds that
      every embedded domain point meets. It is out of range exactly when the least grid of the target
      radius is too large or the threshold does not exceed twice its radius: its own radius always
      passes the certificate check. */
  method PackParameters(epsilon: real, metric: Metric, min: Point, max: Point, targetRadius: real, strategy: Strategy,
                        maxAnchors: nat, draw: (nat, nat) -> real)
    returns (status: Status, embed: Option<Embedding>, epsilonEmbedded: real, bounds: seq<real>, ghost n: nat)
    requires (metric.Other? || Builtin(metric)) && maxAnchors <= U64_MAX
    requires forall k, i :: 0.0 <= draw(k, i) < 1.0
    ensures status == InvalidArgument <==>
              |min| == 0 || maxAnchors == 0 || epsilon <= 0.0 || targetRadius <= 0.0 || strategy.HaltonStrategy?
              || 8 * (maxAnchors * |min|) > U64_MAX || !DomainValid(min, max) || metric.Other?
    ensures status == OK || status == InvalidArgument || status == OutOfRange
    ensures status != InvalidArgument ==> LeastCells(Dist(metric, min, max), 2.0 * targetRadius, n)
    ensures status == OutOfRange <==>
              && status != InvalidArgument
              && (n > U64_MAX / 2 || Power(n, |min|) > maxAnchors || epsilon <= 2.0 * GridRadius(metric, min, max, n))
    ensures status == OK ==>
              && embed.Some? && embed.value.certified && embed.value.metric == metric
              && Sized(embed.value.anchors, |min|)
              && CoveringRadius(metric, embed.value.anchors, min, max, embed.value.coveringRadius)
              && embed.value.coveringRadius <= targetRadius
              && epsilonEmbedded == epsilon - 2.0 * embed.value.coveringRadius > 0.0
              && BoundsHold(embed.value, min, max, bounds)
  {
    hide Dist; hide CoveringRadius; hide Builtin; hide LeastCells; hide GridAnchors; hide BoundsHold; hide Power;
    embed, epsilonEmbedded, bounds, n := None, 0.0, [], 0;
    BufferBytes(maxAnchors, |min|);
    if |min| == 0 || maxAnchors == 0 || epsilon <= 0.0 || targetRadius <= 0.0 || strategy.HaltonStrategy?
       || BufferTooLarge(maxAnchors, |min|) {
      return InvalidArgument, embed, epsilonEmbedded, bounds, n;
    }
    var out := new Point[maxAnchors](_ => []);
    var count: nat;
    var radius: Option<real>;
    status, count, radius, n := GenerateSafeGrid(metric, 2.0 * targetRadius, min, max, maxAnchors, out);
    if status != OK {
      return status, embed, epsilonEmbedded, bounds, n;
    }
    var anchors := out[..count];
    GridSized(min, max, n);
    RadiusPositive(metric, min, max, n);
    var e: Option<Embedding>;
    status, e := Create(metric, anchors, min, max, radius.value, draw, true);
    var adjusted: real;
    status, adjusted := AdjustedEpsilon(e.value, epsilon);
    if status != OK {
      return status, None, epsilonEmbedded, bounds, n;
    }
    bounds := AllBounds(e.value, min, max);
    return OK, e, adjusted, bounds, n;
  }

  method AllBounds(e: Embedding, min: Point, max: Point) returns (bounds: seq<real>)
    requires Builtin(e.metric) && Sized(e.anchors, |min|) && |min| == |max|
    ensures BoundsHold(e, min, max, bounds)
  {
    hide Dist; hide FarCorner;
    bounds := [];
    for i := 0 to |e.anchors|
      invariant |bounds| == i
      invariant forall k :: 0 <= k < i ==> bounds[k] == Dist(e.metric, e.anchors[k], FarCorner(e.anchors[k], min, max))
    {
      var b := CoordinateBound(e.metric, e.anchors[i], min, max);
      bounds := bounds + [b];
    }
    forall p | InBounds(p, min, max) ensures Bounded(e, p, bounds) {
      forall i | 0 <= i < |bounds| ensures 0.0 <= Embedded(e.metric, e.anchors, p)[i] <= bounds[i] {
        AnchorBound(e.metric, e.anchors, min, max, p, i);
      }
    }
  }

  lemma AnchorBound(m: Metric, anchors: seq<Point>, min: Point, max: Point, p: Point, i: nat)
    requires Builtin(m) && Sized(anchors, |min|) && InBounds(p, min, max) && i < |anchors|
    ensures 0.0 <= Embedded(m, anchors, p)[i] <= Dist(m, anchors[i], FarCorner(anchors[i], min, max))
  {
    hide Dist; hide FarCorner; hide Builtin; hide IsMetric;
    BuiltinIsMetric(m);
    CornerIsFarthest(m, anchors[i], min, max, p);
    MetricPair(m, p, anchors[i]);
  }

  lemma GridSized(min: Point, max: Point, n: nat)
    requires n > 0 && |min| == |max|
    ensures Sized(GridAnchors(min, max, n), |min|)
  {
  }

  lemma RadiusPositive(m: Metric, min: Point, max: Point, n: nat)
    requires Builtin(m) && GridAcceptable(min, max, n)
    ensures GridRadius(m, min, max, n) > 0.0
  {
    hide Dist; hide Builtin;
    PositiveNorm(m, min, max);
    PositiveQuotient(Dist(m, min, max), 2.0 * n as real);
  }
}

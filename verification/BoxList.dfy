/** The append-only list of clipped L-infinity boxes, over exact reals or a grid of representable
    numbers: in one dimension the simple form that the interval tree speeds up. */
module BoxList {
  import opened Metrics
  import opened Numbers
  import opened Telemetry
  import IntervalSpec

  datatype Rect = Rect(lo: Point, hi: Point)

  /** Some coordinate is farther than epsilon away. */
  ghost predicate Far(p: Point, q: Point, epsilon: real)
    requires |p| == |q|
  {
    exists i :: 0 <= i < |p| && Distance(p[i], q[i]) > epsilon
  }

  lemma {:induction false} FarIsMaxDistance(p: Point, q: Point, epsilon: real)
    requires |p| == |q| && epsilon >= 0.0
    ensures Far(p, q, epsilon) <==> MaxDistance(p, q) > epsilon
  {
    if p != [] {
      var n := |p| - 1;
      FarIsMaxDistance(p[..n], q[..n], epsilon);
      if Far(p[..n], q[..n], epsilon) {
        var i :| 0 <= i < n && Distance(p[..n][i], q[..n][i]) > epsilon;
        assert Distance(p[i], q[i]) > epsilon;
      }
      if Far(p, q, epsilon) {
        var i :| 0 <= i < |p| && Distance(p[i], q[i]) > epsilon;
        if i < n {
          assert Distance(p[..n][i], q[..n][i]) > epsilon;
        }
      }
    }
  }

  ghost predicate InRect(r: Rect, p: Point) {
    |r.lo| == |r.hi| == |p| && forall i :: 0 <= i < |p| ==> r.lo[i] <= p[i] <= r.hi[i]
  }

  /** The parameters fixed at creation. */
  datatype BoxConfig = BoxConfig(numbers: Numbers, epsilon: real, min: Point, max: Point)

  ghost predicate AllHave(n: Numbers, p: Point) {
    forall i :: 0 <= i < |p| ==> Has(n, p[i])
  }

  ghost predicate BoxConfigOk(c: BoxConfig) {
    && Sensible(c.numbers) && c.epsilon >= 0.0 && |c.min| == |c.max|
    && AllHave(c.numbers, c.min) && AllHave(c.numbers, c.max)
  }

  /** x - epsilon rounded to nearest and clipped from below; an infinity is beyond the domain. */
  function LowerEnd(n: Numbers, x: real, epsilon: real, min: real, max: real): real
    requires Sensible(n)
  {
    match Round(n, x - epsilon)
    case NegInf => min
    case Finite(v) => if v < min then min else v
    case PosInf => max
  }

  function UpperEnd(n: Numbers, x: real, epsilon: real, min: real, max: real): real
    requires Sensible(n)
  {
    match Round(n, x + epsilon)
    case NegInf => min
    case Finite(v) => if v > max then max else v
    case PosInf => max
  }

  /** Rounding moves an end of the interval around x outward, and not beyond the domain. */
  ghost predicate RoundsOutward(n: Numbers, x: real, epsilon: real, min: real, max: real)
    requires Sensible(n)
  {
    var lo, hi := Round(n, x - epsilon), Round(n, x + epsilon);
    (lo.Finite? && min <= lo.value < x - epsilon) || (hi.Finite? && x + epsilon < hi.value <= max)
  }

  /** What the lower end keeps out, and what rounding lets in. */
  lemma LowerEndExact(n: Numbers, x: real, epsilon: real, min: real, max: real, y: real)
    requires Sensible(n) && Has(n, x) && Has(n, min) && Has(n, y) && epsilon >= 0.0
    requires min <= x <= max && min <= y <= max
    ensures var r := Round(n, x - epsilon);
            LowerEnd(n, x, epsilon, min, max) <= y <==> x - epsilon <= y || (r.Finite? && min <= r.value <= y)
    ensures min <= LowerEnd(n, x, epsilon, min, max) <= x
  {
    hide Increasing; hide FloorIndex;
    if n.Grid? {
      InRange(n, x);
      InRange(n, min);
    }
    if Round(n, x - epsilon).Finite? {
      RoundIsNearest(n, x - epsilon, y);
      RoundIsNearest(n, x - epsilon, x);
      RoundIsNearest(n, x - epsilon, min);
    }
  }

  lemma UpperEndExact(n: Numbers, x: real, epsilon: real, min: real, max: real, y: real)
    requires Sensible(n) && Has(n, x) && Has(n, max) && Has(n, y) && epsilon >= 0.0
    requires min <= x <= max && min <= y <= max
    ensures var r := Round(n, x + epsilon);
            y <= UpperEnd(n, x, epsilon, min, max) <==> y <= x + epsilon || (r.Finite? && y <= r.value <= max)
    ensures x <= UpperEnd(n, x, epsilon, min, max) <= max
  {
    hide Increasing; hide FloorIndex;
    if n.Grid? {
      InRange(n, x);
      InRange(n, max);
    }
    if Round(n, x + epsilon).Finite? {
      RoundIsNearest(n, x + epsilon, y);
      RoundIsNearest(n, x + epsilon, x);
      RoundIsNearest(n, x + epsilon, max);
    }
  }

  /** Between its ends lies what is within epsilon, and more only when an end rounds outward. */
  lemma EndsExact(n: Numbers, x: real, epsilon: real, min: real, max: real, y: real)
    requires Sensible(n) && Has(n, x) && Has(n, min) && Has(n, max) && Has(n, y) && epsilon >= 0.0
    requires min <= x <= max && min <= y <= max
    ensures var inside := LowerEnd(n, x, epsilon, min, max) <= y <= UpperEnd(n, x, epsilon, min, max);
            && (Distance(x, y) <= epsilon ==> inside)
            && (!RoundsOutward(n, x, epsilon, min, max) && inside ==> Distance(x, y) <= epsilon)
  {
    hide Increasing; hide FloorIndex; hide Round; hide LowerEnd; hide UpperEnd;
    LowerEndExact(n, x, epsilon, min, max, y);
    UpperEndExact(n, x, epsilon, min, max, y);
  }

  /** The box around p, clipped to the domain. */
  function Clip(c: BoxConfig, p: Point): (r: Rect)
    requires Sensible(c.numbers) && |p| == |c.min| == |c.max|
    ensures |r.lo| == |p| && |r.hi| == |p|
  {
    Rect(seq(|p|, i requires 0 <= i < |p| => LowerEnd(c.numbers, p[i], c.epsilon, c.min[i], c.max[i])),
         seq(|p|, i requires 0 <= i < |p| => UpperEnd(c.numbers, p[i], c.epsilon, c.min[i], c.max[i])))
  }

  ghost predicate Outward(c: BoxConfig, p: Point)
    requires Sensible(c.numbers) && |p| == |c.min| == |c.max|
  {
    exists i :: 0 <= i < |p| && RoundsOutward(c.numbers, p[i], c.epsilon, c.min[i], c.max[i])
  }

  ghost predicate Observable(c: BoxConfig, p: Point) {
    InBounds(p, c.min, c.max) && AllHave(c.numbers, p)
  }

  /** Inside the domain, a clipped box holds the points within epsilon of its centre, and no others
      unless rounding moved one of its ends outward. */
  lemma ClipExact(c: BoxConfig, p: Point, q: Point)
    requires BoxConfigOk(c) && Observable(c, p) && Observable(c, q)
    ensures !Far(p, q, c.epsilon) ==> InRect(Clip(c, p), q)
    ensures !Outward(c, p) && InRect(Clip(c, p), q) ==> !Far(p, q, c.epsilon)
  {
    hide Sensible; hide RoundsOutward; hide LowerEnd; hide UpperEnd; hide Has;
    forall i | 0 <= i < |p|
      ensures Distance(p[i], q[i]) <= c.epsilon ==> Clip(c, p).lo[i] <= q[i] <= Clip(c, p).hi[i]
      ensures Clip(c, p).lo[i] <= q[i] <= Clip(c, p).hi[i] ==>
                RoundsOutward(c.numbers, p[i], c.epsilon, c.min[i], c.max[i]) || Distance(p[i], q[i]) <= c.epsilon
    {
      EndsExact(c.numbers, p[i], c.epsilon, c.min[i], c.max[i], q[i]);
    }
    if !Far(p, q, c.epsilon) {
      forall i | 0 <= i < |q| ensures Clip(c, p).lo[i] <= q[i] <= Clip(c, p).hi[i] {
        assert !(Distance(p[i], q[i]) > c.epsilon);
      }
    }
  }

  /** On exact reals nothing is rounded. */
  lemma ExactNeverOutward(c: BoxConfig, p: Point)
    requires c.numbers.Exact? && |p| == |c.min| == |c.max|
    ensures !Outward(c, p)
  {
  }

  lemma SelfSeen(c: BoxConfig, p: Point)
    requires BoxConfigOk(c) && Observable(c, p)
    ensures InRect(Clip(c, p), p)
  {
    hide Sensible; hide Clip; hide Has;
    ClipExact(c, p, p);
  }

  /** No box holds p: what the engine calls novel. */
  ghost predicate Unseen(c: BoxConfig, points: seq<Point>, p: Point)
    requires Sensible(c.numbers)
  {
    forall q :: q in points && |q| == |c.min| == |c.max| ==> !InRect(Clip(c, q), p)
  }

  /** Farther than epsilon from every observed point. */
  ghost predicate BoxNovel(points: seq<Point>, p: Point, epsilon: real) {
    forall q :: q in points && |q| == |p| ==> Far(q, p, epsilon)
  }

  ghost predicate AllObservable(c: BoxConfig, points: seq<Point>) {
    forall q :: q in points ==> Observable(c, q)
  }

  ghost predicate NoneOutward(c: BoxConfig, points: seq<Point>)
    requires Sensible(c.numbers)
  {
    forall q :: q in points && |q| == |c.min| == |c.max| ==> !Outward(c, q)
  }

  /** The two notions agree unless rounding moved an end outward, and on exact reals always. */
  lemma UnseenIsNovel(c: BoxConfig, points: seq<Point>, p: Point)
    requires BoxConfigOk(c) && AllObservable(c, points) && Observable(c, p)
    ensures Unseen(c, points, p) ==> BoxNovel(points, p, c.epsilon)
    ensures c.numbers.Exact? ==> NoneOutward(c, points)
    ensures NoneOutward(c, points) && BoxNovel(points, p, c.epsilon) ==> Unseen(c, points, p)
  {
    hide Sensible; hide Clip; hide Far; hide InRect; hide Outward; hide AllHave;
    forall q | q in points
      ensures Far(q, p, c.epsilon) || InRect(Clip(c, q), p)
      ensures c.numbers.Exact? ==> !Outward(c, q)
      ensures !Outward(c, q) && InRect(Clip(c, q), p) ==> !Far(q, p, c.epsilon)
    {
      ClipExact(c, q, p);
      if c.numbers.Exact? {
        ExactNeverOutward(c, q);
      }
    }
  }

  // ---------------------------------------------------------------- how many were novel

  /** The observations that were novel when they were made. */
  ghost function NovelCount(c: BoxConfig, points: seq<Point>): (n: nat)
    requires Sensible(c.numbers)
    ensures n <= |points|
  {
    if points == [] then 0
    else
      var n := |points| - 1;
      NovelCount(c, points[..n]) + if Unseen(c, points[..n], points[n]) then 1 else 0
  }

  lemma NovelCountSnoc(c: BoxConfig, points: seq<Point>, p: Point)
    requires Sensible(c.numbers)
    ensures NovelCount(c, points + [p]) == NovelCount(c, points) + if Unseen(c, points, p) then 1 else 0
  {
    assert (points + [p])[..|points|] == points;
  }

  /** All of them were, exactly when each was unseen at its time. */
  lemma {:induction false} AllNovelIff(c: BoxConfig, points: seq<Point>)
    requires Sensible(c.numbers)
    ensures NovelCount(c, points) == |points| <==>
              forall j :: 0 <= j < |points| ==> Unseen(c, points[..j], points[j])
  {
    hide Sensible; hide Unseen;
    if points != [] {
      var n := |points| - 1;
      AllNovelIff(c, points[..n]);
      forall j | 0 <= j < n ensures points[..n][..j] == points[..j] && points[..n][j] == points[j] {
      }
      if NovelCount(c, points) == |points| {
        forall j | 0 <= j < |points| ensures Unseen(c, points[..j], points[j]) {
          assert j < n ==> Unseen(c, points[..n][..j], points[..n][j]);
        }
      }
      if forall j :: 0 <= j < |points| ==> Unseen(c, points[..j], points[j]) {
        forall j | 0 <= j < n ensures Unseen(c, points[..n][..j], points[..n][j]) {
          assert Unseen(c, points[..j], points[j]);
        }
        assert Unseen(c, points[..n], points[n]);
      }
    }
  }

  /** Every point is farther than epsilon from all earlier ones. */
  ghost predicate Spread(points: seq<Point>, epsilon: real) {
    forall i, j :: 0 <= i < j < |points| && |points[i]| == |points[j]| ==> Far(points[i], points[j], epsilon)
  }

  lemma UnseenIsSpread(c: BoxConfig, points: seq<Point>)
    requires BoxConfigOk(c) && AllObservable(c, points) && NoneOutward(c, points)
    ensures (forall j :: 0 <= j < |points| ==> Unseen(c, points[..j], points[j])) <==> Spread(points, c.epsilon)
  {
    hide BoxConfigOk; hide Observable; hide Unseen; hide Far; hide Outward;
    ConfigSizes(c);
    forall j | 0 <= j < |points|
      ensures Unseen(c, points[..j], points[j])
              <==> forall i :: 0 <= i < j && |points[i]| == |points[j]| ==> Far(points[i], points[j], c.epsilon)
    {
      assert points[j] in points;
      UnseenIsNovel(c, points[..j], points[j]);
      assert forall q :: q in points[..j] <==> exists i :: 0 <= i < j && points[i] == q;
    }
  }

  class BoxCache {
    const config: BoxConfig
    var rects: array<Rect>
    var count: nat
    var peakCount: nat
    var observations: nat
    var novel: nat
    var generation: nat

    /** The points observed since the last clear. */
    ghost var points: seq<Point>

    ghost predicate Valid()
      reads this, rects
    {
      && BoxConfigOk(config)
      && count == peakCount == |points| <= rects.Length
      && AllObservable(config, points)
      && (forall j :: 0 <= j < count ==> |points[j]| == |config.min| && rects[j] == Clip(config, points[j]))
      && novel == NovelCount(config, points)
      && observations == count && observations <= generation <= U64_MAX
    }

    constructor (config: BoxConfig)
      requires BoxConfigOk(config)
      ensures Valid() && points == [] && fresh(rects) && this.config == config
      ensures rects.Length == generation == 0
    {
      this.config := config;
      rects := new Rect[0];
      count, peakCount, observations, novel, generation := 0, 0, 0, 0, 0;
      points := [];
    }

    /** Scans the list for a box that holds p. */
    method Covered(p: Point) returns (covered: bool)
      requires Valid() && InBounds(p, config.min, config.max)
      ensures covered <==> !Unseen(config, points, p)
    {
      hide BoxConfigOk; hide Observable; hide Clip; hide NovelCount;
      ConfigSizes(config);
      for j := 0 to count
        invariant forall i :: 0 <= i < j ==> !InRect(rects[i], p)
      {
        assert points[j] in points && |rects[j].lo| == |rects[j].hi| == |p|;
        var inside := true;
        var i := 0;
        while i < |p|
          invariant 0 <= i <= |p|
          invariant forall k :: 0 <= k < i ==> rects[j].lo[k] <= p[k] <= rects[j].hi[k]
        {
          if p[i] < rects[j].lo[i] || p[i] > rects[j].hi[i] {
            inside := false;
            break;
          }
          i := i + 1;
        }
        if inside {
          assert InRect(rects[j], p);
          return true;
        }
      }
      return false;
    }

    /** Doubles the list when it is full, keeping its boxes. */
    method Grow()
      requires Valid()
      modifies this`rects
      ensures Valid() && count < rects.Length && (rects == old(rects) || fresh(rects))
      ensures rects.Length == if count < old(rects.Length) then old(rects.Length)
                              else if count == 0 then 8 else 2 * old(rects.Length)
    {
      hide BoxConfigOk; hide Clip; hide NovelCount; hide AllObservable;
      if count < rects.Length {
        return;
      }
      ConfigSizes(config);
      var bigger := new Rect[if rects.Length == 0 then 8 else rects.Length * 2];
      for j := 0 to count
        invariant count <= rects.Length < bigger.Length && Valid()
        invariant forall i :: 0 <= i < j ==> bigger[i] == rects[i]
      {
        bigger[j] := rects[j];
      }
      rects := bigger;
    }

    method IsNovel(p: Point) returns (status: Status, isNovel: bool)
      requires Valid() && AllHave(config.numbers, p)
      ensures status == if |p| != |config.min| then InvalidArgument
                        else if forall i :: 0 <= i < |p| ==> config.min[i] <= p[i] <= config.max[i] then OK
                        else OutOfRange
      ensures status == OK ==> (isNovel <==> Unseen(config, points, p))
      ensures status == OK && NoneOutward(config, points) ==> (isNovel <==> BoxNovel(points, p, config.epsilon))
    {
      hide InBounds; hide BoxNovel; hide Clip; hide Unseen; hide NoneOutward; hide NovelCount; hide AllHave;
      ConfigSizes(config);
      InBoundsIff(p, config.min, config.max);
      status, isNovel := PointStatus(p), false;
      if status == OK {
        var covered := Covered(p);
        UnseenIsNovel(config, points, p);
        isNovel := !covered;
      }
    }

    function PointStatus(p: Point): Status {
      if |p| != |config.min| then InvalidArgument
      else if !InBounds(p, config.min, config.max) then OutOfRange else OK
    }

    /** Keeps a box for every observation, novel or not: a covered centre still extends the
        union. A failed allocation changes nothing a caller can see. */
    method Observe(p: Point, allocOk: bool) returns (status: Status, wasNovel: bool)
      requires Valid() && AllHave(config.numbers, p)
      modifies this, rects
      ensures Valid() && (rects == old(rects) || fresh(rects))
      ensures status == if |p| != |config.min| then InvalidArgument
                        else if exists i :: 0 <= i < |p| && !(config.min[i] <= p[i] <= config.max[i]) then OutOfRange
                        else if !allocOk || old(count) == U64_MAX then OutOfMemory else OK
      ensures status == OK ==> points == old(points) + [p] && (wasNovel <==> Unseen(config, old(points), p))
      ensures status == OK && NoneOutward(config, old(points)) ==>
                (wasNovel <==> BoxNovel(old(points), p, config.epsilon))
      ensures status == OK ==> novel == old(novel) + if wasNovel then 1 else 0
      ensures status == OK ==> generation == IncrementSaturating(old(generation))
      ensures status != OK ==> points == old(points) && novel == old(novel) && generation == old(generation)
    {
      hide InBounds; hide BoxNovel; hide Clip; hide Unseen; hide NoneOutward; hide NovelCount; hide AllHave;
      hide BoxConfigOk;
      ConfigSizes(config);
      InBoundsIff(p, config.min, config.max);
      status, wasNovel := PointStatus(p), false;
      if status != OK {
        return;
      }
      InBoundsSize(p, config.min, config.max);
      var covered := Covered(p);
      UnseenIsNovel(config, points, p);
      NovelCountSnoc(config, points, p);
      wasNovel := !covered;
      if !allocOk || count == U64_MAX {
        return OutOfMemory, wasNovel;
      }
      Grow();
      rects[count] := Clip(config, p);
      points := points + [p];
      count := count + 1;
      if count > peakCount {
        peakCount := count;
      }
      observations := IncrementSaturating(observations);
      if wasNovel {
        novel := IncrementSaturating(novel);
      }
      generation := IncrementSaturating(generation);
    }

    /** The comment on the code takes the number of boxes for the number of novel observations. It
        is, exactly when every observation was novel: on exact reals, and whenever nothing rounds
        outward, when every point is farther than epsilon from all earlier ones. */
    lemma CountIsNovelIff()
      requires Valid()
      ensures count == novel <==> forall j :: 0 <= j < |points| ==> Unseen(config, points[..j], points[j])
      ensures config.numbers.Exact? ==> NoneOutward(config, points)
      ensures NoneOutward(config, points) ==> (count == novel <==> Spread(points, config.epsilon))
    {
      hide BoxConfigOk; hide AllObservable; hide NoneOutward; hide Unseen; hide Clip; hide Spread;
      ConfigSizes(config);
      AllNovelIff(config, points);
      if config.numbers.Exact? {
        ExactNoneOutward(config, points);
      }
      if NoneOutward(config, points) {
        UnseenIsSpread(config, points);
      }
    }

    method Clear()
      requires Valid()
      modifies this
      ensures Valid() && points == [] && rects == old(rects)
      ensures generation == IncrementSaturating(old(generation))
    {
      hide BoxConfigOk;
      count, peakCount, observations, novel := 0, 0, 0, 0;
      generation := IncrementSaturating(generation);
      points := [];
    }

    ghost predicate RectOk(r: Rect) {
      && |r.lo| == |r.hi| == |config.min| == |config.max|
      && forall i :: 0 <= i < |config.min| ==> config.min[i] <= r.lo[i] <= r.hi[i] <= config.max[i]
    }

    /** Accepts exactly the states with consistent counters whose boxes lie in the domain. */
    method Validate() returns (status: Status)
      requires |config.min| == |config.max| && count <= rects.Length
      requires forall j :: 0 <= j < count ==> |rects[j].lo| == |rects[j].hi| == |config.min|
      ensures status == OK || status == CorruptData
      ensures status == OK <==>
                && generation >= observations >= novel && count == observations && count <= peakCount
                && forall j :: 0 <= j < count ==> RectOk(rects[j])
    {
      if generation < observations || novel > observations || count != observations || count > peakCount {
        return CorruptData;
      }
      for j := 0 to count
        invariant forall k :: 0 <= k < j ==> RectOk(rects[k])
      {
        for i := 0 to |config.min|
          invariant forall k :: 0 <= k < i ==>
                      config.min[k] <= rects[j].lo[k] <= rects[j].hi[k] <= config.max[k]
        {
          if rects[j].lo[i] < config.min[i] || rects[j].hi[i] > config.max[i] || rects[j].lo[i] > rects[j].hi[i] {
            return CorruptData;
          }
        }
      }
      return OK;
    }

    /** Every reachable state passes validation. */
    method ValidateReachable() returns (status: Status)
      requires Valid()
      ensures status == OK
    {
      hide BoxConfigOk; hide Clip; hide Observable;
      ConfigSizes(config);
      forall j | 0 <= j < count ensures RectOk(rects[j]) {
        assert points[j] in points;
        ClipInside(config, points[j]);
      }
      status := Validate();
    }
  }

  /** One point observed twice: two boxes, one of them novel. */
  method ObserveTwice(config: BoxConfig, p: Point) returns (box: BoxCache)
    requires BoxConfigOk(config) && Observable(config, p)
    ensures box.Valid() && box.config == config && box.points == [p, p]
    ensures box.count == 2 && box.novel == 1
  {
    hide Clip; hide NoneOutward; hide NovelCount; hide BoxNovel; hide InRect; hide BoxConfigOk;
    box := new BoxCache(config);
    ConfigSizes(config);
    SelfSeen(config, p);
    NovelCountStart(config);
    var status, wasNovel := box.Observe(p, true);
    status, wasNovel := box.Observe(p, true);
  }

  lemma NovelCountStart(c: BoxConfig)
    requires BoxConfigOk(c)
    ensures NovelCount(c, []) == 0
  {
  }

  lemma ConfigSizes(c: BoxConfig)
    requires BoxConfigOk(c)
    ensures |c.min| == |c.max| && Sensible(c.numbers)
  {
  }

  lemma ExactNoneOutward(c: BoxConfig, points: seq<Point>)
    requires BoxConfigOk(c) && c.numbers.Exact?
    ensures NoneOutward(c, points)
  {
    hide Outward;
    forall q | q in points && |q| == |c.min| == |c.max| ensures !Outward(c, q) {
      ExactNeverOutward(c, q);
    }
  }

  lemma ClipInside(c: BoxConfig, p: Point)
    requires BoxConfigOk(c) && Observable(c, p)
    ensures forall i :: 0 <= i < |p| ==>
              c.min[i] <= Clip(c, p).lo[i] <= Clip(c, p).hi[i] <= c.max[i]
    ensures |p| == |c.min| == |c.max|
  {
    hide Sensible; hide LowerEnd; hide UpperEnd; hide Has;
    forall i | 0 <= i < |p| ensures c.min[i] <= Clip(c, p).lo[i] <= Clip(c, p).hi[i] <= c.max[i] {
      LowerEndExact(c.numbers, p[i], c.epsilon, c.min[i], c.max[i], p[i]);
      UpperEndExact(c.numbers, p[i], c.epsilon, c.min[i], c.max[i], p[i]);
    }
  }

  lemma InBoundsIff(p: Point, min: Point, max: Point)
    ensures InBounds(p, min, max)
            <==> |p| == |min| == |max| && forall i :: 0 <= i < |p| ==> min[i] <= p[i] <= max[i]
  {
  }

  lemma InBoundsSize(p: Point, min: Point, max: Point)
    requires InBounds(p, min, max)
    ensures |p| == |min| == |max|
  {
  }

  function Lift(history: seq<real>): (r: seq<Point>)
    ensures |r| == |history| && forall i :: 0 <= i < |r| ==> r[i] == [history[i]]
  {
    seq(|history|, i requires 0 <= i < |history| => [history[i]])
  }

  /** On the same one-dimensional history the box list and the interval cache answer alike. */
  lemma AgreesWithIntervals(c: IntervalSpec.Config, history: seq<real>, x: real)
    ensures BoxNovel(Lift(history), [x], c.epsilon) <==> IntervalSpec.Novel(c, history, x)
  {
    forall i | 0 <= i < |history|
      ensures Far(Lift(history)[i], [x], c.epsilon) <==> Distance(history[i], x) > c.epsilon
    {
      if Distance(history[i], x) > c.epsilon {
        assert Distance(Lift(history)[i][0], [x][0]) > c.epsilon;
      }
    }
    if BoxNovel(Lift(history), [x], c.epsilon) {
      forall p | p in history ensures Distance(p, x) > c.epsilon {
        var i :| 0 <= i < |history| && history[i] == p;
        assert Lift(history)[i] in Lift(history);
      }
    }
    if IntervalSpec.Novel(c, history, x) {
      forall q | q in Lift(history) && |q| == 1 ensures Far(q, [x], c.epsilon) {
        var i :| 0 <= i < |history| && Lift(history)[i] == q;
        assert history[i] in history;
      }
    }
  }
}

/** The one-dimensional anchor grid of the fleet benchmark, and what its cells guarantee. */
module FleetGrid {
  import opened Anchors
  import opened Arithmetic
  import opened Bytes
  import opened Crdt
  import opened Grid
  import opened Metrics
  import opened Numbers

  function LinfDistance(p: Point, q: Point): real {
    if |p| == |q| then MaxDistance(p, q) else 0.0
  }

  /** The benchmark divides the domain into ceil(width / (2 epsilon)) cells, at least one. */
  ghost predicate FleetConfig(c: Config, n: nat) {
    && c.dimension == 1 && |c.domainMin| == |c.domainMax| == 1 && c.domainMin[0] < c.domainMax[0] && c.epsilon > 0.0
    && LeastCells(c.domainMax[0] - c.domainMin[0], 2.0 * c.epsilon, n)
    && c.anchors == GridAnchors(c.domainMin, c.domainMax, n)
    && c.distance == LinfDistance
  }

  method MakeCrdt(epsilon: real, domainMin: real, domainMax: real, priority: (Point, seq<Byte>) -> nat, baseBytes: nat)
    returns (crdt: VoronoiCache, ghost n: nat)
    requires epsilon > 0.0 && domainMin < domainMax
    ensures fresh(crdt) && fresh(crdt.cells) && crdt.Valid() && FleetConfig(crdt.config, n)
    ensures crdt.config.epsilon == epsilon
    ensures crdt.config.domainMin == [domainMin] && crdt.config.domainMax == [domainMax]
  {
    hide Coordinate; hide LeastCells; hide InDomain;
    var need := (domainMax - domainMin) / (2.0 * epsilon);
    PositiveQuotient(domainMax - domainMin, 2.0 * epsilon);
    var cellsPerAxis := Ceiling(need);
    if cellsPerAxis < 1 {
      cellsPerAxis := 1;
    }
    n := cellsPerAxis;
    CeilingIsLeast(domainMax - domainMin, 2.0 * epsilon, n);
    var anchors: seq<Point> := [];
    for i := 0 to cellsPerAxis
      invariant |anchors| == i
      invariant forall k :: 0 <= k < i ==> anchors[k] == [Coordinate(domainMin, domainMax, n, k)]
    {
      anchors := anchors + [[Coordinate(domainMin, domainMax, cellsPerAxis, i)]];
    }
    LineGrid(domainMin, domainMax, n);
    assert anchors == GridAnchors([domainMin], [domainMax], n);
    var config := Config(1, anchors, epsilon, LinfDistance, [domainMin], [domainMax], priority);
    LineInside(config, domainMin, domainMax, n);
    crdt := new VoronoiCache(config, baseBytes);
  }

  lemma LineGrid(lo: real, hi: real, n: nat)
    requires n > 0
    ensures |GridAnchors([lo], [hi], n)| == n
    ensures forall a :: 0 <= a < n ==> GridAnchors([lo], [hi], n)[a] == [Coordinate(lo, hi, n, a)]
  {
    hide Coordinate;
    assert Power(n, 1) == n * Power(n, 0);
    forall a | 0 <= a < n ensures GridAnchors([lo], [hi], n)[a] == [Coordinate(lo, hi, n, a)] {
      assert Digits(n, 1, a) == [a % n] + Digits(n, 0, a / n);
    }
  }

  lemma LineInside(c: Config, lo: real, hi: real, n: nat)
    requires n > 0 && lo < hi && c.dimension == 1 && c.domainMin == [lo] && c.domainMax == [hi] && c.epsilon > 0.0
    requires c.anchors == GridAnchors([lo], [hi], n)
    ensures ConfigOk(c)
  {
    hide Coordinate;
    LineGrid(lo, hi, n);
    forall a | 0 <= a < n ensures InDomain(c, c.anchors[a]) {
      CoordinateInside(lo, hi, n, a);
    }
  }

  lemma FleetIsMeasured(c: Config, n: nat)
    requires FleetConfig(c, n)
    ensures ConfigOk(c) && MeasuredBy(c, Linf) && Builtin(Linf) && IsMetric(Linf)
    ensures |c.anchors| == n && GridAcceptable(c.domainMin, c.domainMax, n)
  {
    hide Coordinate; hide MaxDistance; hide IsMetric;
    assert c.domainMin == [c.domainMin[0]] && c.domainMax == [c.domainMax[0]];
    LineInside(c, c.domainMin[0], c.domainMax[0], n);
    LineGrid(c.domainMin[0], c.domainMax[0], n);
    BuiltinIsMetric(Linf);
  }

  /** Points of one cell of the fleet are at most 2 epsilon apart. */
  lemma FleetCellDiameter(c: Config, n: nat, p: Point, q: Point)
    requires FleetConfig(c, n) && ConfigOk(c) && InDomain(c, p) && InDomain(c, q) && CellOf(c, p) == CellOf(c, q)
    ensures MaxDistance(p, q) <= Width(c, n) <= 2.0 * c.epsilon
  {
    hide MaxDistance; hide CellOf; hide InDomain; hide ConfigOk; hide CoveringRadius; hide IsMetric;
    FleetIsMeasured(c, n);
    GridCovers(Linf, c.domainMin, c.domainMax, n);
    SameSize(c, p, q);
    SameCellWithinDiameter(c, Linf, GridRadius(Linf, c.domainMin, c.domainMax, n), p, q);
    RadiusIsHalfWidth(c, n);
  }

  lemma SameSize(c: Config, p: Point, q: Point)
    requires InDomain(c, p) && InDomain(c, q)
    ensures |p| == |q| == c.dimension
  {
  }

  ghost function Width(c: Config, n: nat): real
    requires n > 0 && |c.domainMin| == |c.domainMax| == 1
  {
    (c.domainMax[0] - c.domainMin[0]) / n as real
  }

  lemma RadiusIsHalfWidth(c: Config, n: nat)
    requires FleetConfig(c, n)
    ensures 2.0 * GridRadius(Linf, c.domainMin, c.domainMax, n) == Width(c, n) <= 2.0 * c.epsilon
  {
    var w := c.domainMax[0] - c.domainMin[0];
    LineDistance(c.domainMin, c.domainMax);
    HalfEpsilon(w, 2.0 * c.epsilon, n);
    assert 2.0 * (w / (2.0 * n as real)) == w / n as real;
  }

  lemma LineDistance(p: Point, q: Point)
    requires |p| == |q| == 1
    ensures MaxDistance(p, q) == Distance(p[0], q[0])
  {
    assert MaxDistance(p[..0], q[..0]) == 0.0;
  }

  /** Two points at the ends of the first cell. */
  lemma FirstCell(c: Config, n: nat, x: real)
    requires FleetConfig(c, n) && ConfigOk(c)
    requires x == c.domainMin[0] || x == c.domainMin[0] + Width(c, n)
    ensures CellOf(c, [x]) == 0
  {
    hide MaxDistance; hide CellOf; hide InDomain; hide ConfigOk; hide Coordinate; hide Distance;
    hide GridAnchors; hide LeastCells;
    FleetIsMeasured(c, n);
    LineGrid(c.domainMin[0], c.domainMax[0], n);
    assert c.domainMin == [c.domainMin[0]] && c.domainMax == [c.domainMax[0]];
    forall a | 0 <= a < n
      ensures AnchorDistance(c, [x], a) == Distance(x, Coordinate(c.domainMin[0], c.domainMax[0], n, a))
    {
      LineDistance([x], c.anchors[a]);
    }
    forall a | 0 <= a < n ensures AnchorDistance(c, [x], 0) <= AnchorDistance(c, [x], a) {
      FirstIsNearest(c.domainMin[0], c.domainMax[0], n, x, a);
    }
    NearestIs(c, [x], n);
  }

  lemma NearestIs(c: Config, p: Point, n: nat)
    requires ConfigOk(c) && |c.anchors| == n
    requires forall a :: 0 <= a < n ==> AnchorDistance(c, p, 0) <= AnchorDistance(c, p, a)
    ensures CellOf(c, p) == 0
  {
    hide AnchorDistance; hide InDomain;
    assert Nearest(c, p, n, 0);
    NearestUnique(c, p, n, 0, CellOf(c, p));
  }

  lemma CentreAt(lo: real, hi: real, n: nat, h: real, a: nat)
    requires n > 0 && h == (hi - lo) / n as real
    ensures Coordinate(lo, hi, n, a) == lo + h * a as real + 0.5 * h
  {
  }

  lemma FirstIsNearer(lo: real, h: real, x: real, y: real)
    requires h > 0.0 && (y == 0.0 || y >= h) && (x == lo || x == lo + h)
    ensures Distance(x, lo + 0.5 * h) <= Distance(x, lo + y + 0.5 * h)
  {
  }

  lemma FirstIsNearest(lo: real, hi: real, n: nat, x: real, a: nat)
    requires n > 0 && lo < hi && a < n && (x == lo || x == lo + (hi - lo) / n as real)
    ensures Distance(x, Coordinate(lo, hi, n, 0)) <= Distance(x, Coordinate(lo, hi, n, a))
  {
    hide Coordinate; hide Distance;
    var h := (hi - lo) / n as real;
    WidthPositive(lo, hi, n);
    CentreAt(lo, hi, n, h, 0);
    CentreAt(lo, hi, n, h, a);
    if a > 0 {
      Scale(h, 1.0, a as real);
    }
    FirstIsNearer(lo, h, x, h * a as real);
  }

  /** Cells no wider than epsilon are found only when the whole domain is: with two or more cells,
      each is wider. */
  lemma WidthWithinIff(c: Config, n: nat)
    requires FleetConfig(c, n)
    ensures Width(c, n) <= c.epsilon <==> c.domainMax[0] - c.domainMin[0] <= c.epsilon
    ensures c.domainMax[0] - c.domainMin[0] <= c.epsilon ==> n == 1
  {
    if n > 1 {
      TooWide(c.domainMax[0] - c.domainMin[0], c.epsilon, n as real, Width(c, n));
    }
  }

  lemma TooWide(w: real, epsilon: real, cells: real, width: real)
    requires epsilon > 0.0 && cells >= 2.0 && (cells - 1.0) * (2.0 * epsilon) < w && width == w / cells
    ensures w > epsilon && width > epsilon
  {
    Undivided(w, cells);
    assert (cells - 1.0) * (2.0 * epsilon) == (cells - 2.0) * epsilon + cells * epsilon;
    assert (cells - 2.0) * epsilon >= 0.0;
    Scale(epsilon, 1.0, cells);
    if width <= epsilon {
      Scale(cells, width, epsilon);
    }
  }

  /** The comment in the benchmark promises ceil(1 / epsilon) cells on [0, 1], so that points of
      one cell are within epsilon; the code makes half as many. The contract holds exactly when
      the whole domain is no wider than epsilon, where there is a single cell: it fails for every
      fleet of two or more cells. */
  lemma FleetContractIff(c: Config, n: nat)
    requires FleetConfig(c, n) && ConfigOk(c)
    ensures (forall p, q :: InDomain(c, p) && InDomain(c, q) && CellOf(c, p) == CellOf(c, q) ==>
                              LinfDistance(p, q) <= c.epsilon)
            <==> c.domainMax[0] - c.domainMin[0] <= c.epsilon
    ensures n > 1 ==> c.domainMax[0] - c.domainMin[0] > c.epsilon
  {
    hide MaxDistance; hide CellOf; hide ConfigOk; hide FleetConfig;
    FleetShape(c, n);
    WidthWithinIff(c, n);
    var lo, h := c.domainMin[0], Width(c, n);
    if Width(c, n) <= c.epsilon {
      forall p, q | InDomain(c, p) && InDomain(c, q) && CellOf(c, p) == CellOf(c, q)
        ensures LinfDistance(p, q) <= c.epsilon
      {
        FleetCellDiameter(c, n, p, q);
      }
    } else {
      FirstCell(c, n, lo);
      FirstCell(c, n, lo + h);
      LineDistance([lo], [lo + h]);
      assert InDomain(c, [lo]) && InDomain(c, [lo + h]);
      assert LinfDistance([lo], [lo + h]) == h;
    }
  }

  lemma FleetShape(c: Config, n: nat)
    requires FleetConfig(c, n)
    ensures n > 0 && c.dimension == |c.domainMin| == |c.domainMax| == 1
    ensures 0.0 < Width(c, n) && c.domainMin[0] + Width(c, n) <= c.domainMax[0]
  {
    WidthPositive(c.domainMin[0], c.domainMax[0], n);
    Scale(Width(c, n), 1.0, n as real);
  }

  /** With epsilon one half on [0, 1] there is a single cell, and it is wider than epsilon. */
  lemma FleetContractFails(c: Config, n: nat)
    requires FleetConfig(c, n) && ConfigOk(c) && c.domainMin == [0.0] && c.domainMax == [1.0] && c.epsilon == 0.5
    ensures n == 1 && CellOf(c, [0.0]) == CellOf(c, [1.0]) && LinfDistance([0.0], [1.0]) > c.epsilon
  {
    hide CellOf; hide ConfigOk; hide MaxDistance;
    FirstCell(c, n, 0.0);
    FirstCell(c, n, 1.0);
    LineDistance([0.0], [1.0]);
  }
}

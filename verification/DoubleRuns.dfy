/** Two runs in binary64 on which rounding shows: one that the tree and the box list answer
    differently, and one that leaves nothing novel without the domain counting as fully covered. */
module DoubleRuns {
  import Avl
  import opened AvlNodes
  import opened BoxList
  import opened Doubles
  import opened IntervalCache
  import opened Intervals
  import opened IntervalSpec
  import opened Lockstep
  import opened Numbers
  import opened Wrappers

  ghost predicate InGrid(i: int) {
    -0x7fef_ffff_ffff_ffff <= i <= 0x7fef_ffff_ffff_ffff
  }

  lemma ValueIsDouble(i: int)
    requires InGrid(i)
    ensures Has(DoubleGrid(), Value(i))
  {
    hide Value;
    assert Points()[i + MAX_FINITE] == Value(i);
  }

  /** Between consecutive doubles lies no other. */
  lemma NeighboursOnly(i: int, x: real)
    requires Has(DoubleGrid(), x) && Value(i) <= x <= Value(i + 1)
    ensures x == Value(i) || x == Value(i + 1)
  {
    hide Value; hide Points;
    var j :| 0 <= j < |Points()| && Points()[j] == x;
    var k := j - MAX_FINITE;
    assert x == Value(k);
    if k < i {
      ValueIncreasing(k, i);
    } else if k > i + 1 {
      ValueIncreasing(i + 1, k);
    }
  }

  lemma DoubleConfigOk(c: Config, i: int, j: int, k: int)
    requires c == Config(DoubleGrid(), Value(i), Value(j), Value(k)) && i <= j && k >= 0
    requires InGrid(i) && InGrid(j) && InGrid(k) && Value(j) - Value(i) == Value(j)
    ensures ConfigOk(c)
  {
    hide Value; hide Points; hide Overflow; hide FloorIndex; hide Units;
    GridIsSensible();
    ValueIsDouble(i);
    ValueIsDouble(j);
    ValueIsDouble(k);
    InRange(DoubleGrid(), Value(j));
    ZeroIsZero();
    if i < j {
      ValueIncreasing(i, j);
    }
    if k > 0 {
      ValueIncreasing(0, k);
    }
  }

  // ---------------------------------------------------------------- rounding outward

  /** From 3 FRACTION on the doubles are four units apart. */
  lemma FourApart()
    ensures Value(3 * FRACTION) == (4 * FRACTION) as real * Tiny()
    ensures Value(3 * FRACTION + 1) == (4 * FRACTION + 4) as real * Tiny()
    ensures Value(3) == 3.0 * Tiny()
  {
    hide Tiny;
    assert Units(3 * FRACTION) == 4 * FRACTION;
    assert Units(3 * FRACTION + 1) == 4 * FRACTION + 4;
    assert Units(3) == 3;
  }

  /** A sum three quarters of the way to the next double rounds up to it. */
  lemma RoundsUp(i: int, z: real)
    requires InGrid(i) && InGrid(i + 1) && Value(i) < z < Value(i + 1) && z - Value(i) > Value(i + 1) - z
    ensures Round(DoubleGrid(), z) == Finite(Value(i + 1))
  {
    hide Value; hide Points; hide Overflow; hide Units;
    var n, s := DoubleGrid(), Points();
    GridIsSensible();
    ValueIsDouble(i);
    ValueIsDouble(i + 1);
    InRange(n, Value(i));
    InRange(n, Value(i + 1));
    FloorBetween(s, i + MAX_FINITE, z);
  }

  function OutwardConfig(): Config {
    Config(DoubleGrid(), Value(0), Value(4 * FRACTION), Value(3))
  }

  lemma SumRoundsOutward()
    ensures ConfigOk(OutwardConfig())
    ensures var x, y := Value(3 * FRACTION), Value(3 * FRACTION + 1);
            && InDomain(OutwardConfig(), x) && InDomain(OutwardConfig(), y)
            && Distance(x, y) > OutwardConfig().epsilon && Inside(RoundedBox(OutwardConfig(), x), y)
  {
    hide Value; hide Points; hide Overflow; hide Units; hide Tiny; hide Round;
    var c, x, y := OutwardConfig(), Value(3 * FRACTION), Value(3 * FRACTION + 1);
    ZeroIsZero();
    FourApart();
    DoubleConfigOk(c, 0, 4 * FRACTION, 3);
    ValueIsDouble(3 * FRACTION);
    ValueIsDouble(3 * FRACTION + 1);
    ValueIncreasing(0, 3 * FRACTION);
    ValueIncreasing(3 * FRACTION, 3 * FRACTION + 1);
    ValueIncreasing(3 * FRACTION + 1, 4 * FRACTION);
    assert y - x == 4.0 * Tiny();
    RoundsUp(3 * FRACTION, x + Value(3));
    LowerEndExact(c.numbers, x, c.epsilon, c.domainMin, c.domainMax, y);
    UpperEndExact(c.numbers, x, c.epsilon, c.domainMin, c.domainMax, y);
  }

  /** Two observations in binary64: the second is farther than epsilon from the first, which the
      tree reports and the box list does not. */
  method EnginesDiffer() returns (tree: Answers, list: Answers, ghost c: Config)
    ensures c == OutwardConfig() && Distance(Value(3 * FRACTION), Value(3 * FRACTION + 1)) > c.epsilon
    ensures tree == [Some(true), Some(true)] && list == [Some(true), Some(false)]
  {
    hide Value; hide Points; hide Overflow; hide Units; hide Tiny; hide Round; hide ConfigOk; hide RoundedBox;
    SumRoundsOutward();
    c := OutwardConfig();
    var x, y := Value(3 * FRACTION), Value(3 * FRACTION + 1);
    var calls := [Observing(x), Observing(y)];
    tree, list := Replay(OutwardConfig(), calls);
    assert calls[..0] == [] && calls[..1] == [Observing(x)];
    assert calls[..1][..0] == [];
    assert History(c, calls[..1]) == [x];
    assert x in [x];
    assert tree == [tree[0], tree[1]] && list == [list[0], list[1]];
  }

  // ---------------------------------------------------------------- a gap without numbers

  function NeighbourConfig(): Config {
    Config(DoubleGrid(), Value(0), Value(1), Value(0))
  }

  /** With epsilon 0 a ball is its centre. */
  lemma PointBall(c: Config, p: real)
    requires ConfigOk(c) && InDomain(c, p) && c.epsilon == 0.0
    ensures Ball(c, p) == Interval(p, p)
  {
    hide Sensible; hide MakeEpsilonBall; hide Has;
    var k := Ball(c, p);
    BallExact(c.numbers, p, c.epsilon, c.domainMin, c.domainMax, p);
    BallExact(c.numbers, p, c.epsilon, c.domainMin, c.domainMax, k.lo);
    BallExact(c.numbers, p, c.epsilon, c.domainMin, c.domainMax, k.hi);
  }

  lemma HalfwayUncovered(c: Config, points: seq<real>, s: seq<Interval>)
    requires ConfigOk(c) && c == NeighbourConfig() && AllInDomain(c, points) && Represents(c, points, s)
    ensures exists x :: c.domainMin <= x <= c.domainMax && !Covers(s, x)
  {
    hide Value; hide Points; hide Sensible; hide Covers; hide Ball; hide Has; hide DoubleGrid;
    ZeroIsZero();
    ValueIncreasing(0, 1);
    var m := Value(1) / 2.0;
    if InUnion(c, points, m) {
      var p :| p in points && Inside(Ball(c, p), m);
      assert InDomain(c, p);
      PointBall(c, p);
      NeighboursOnly(0, p);
    }
    assert !Covers(s, m);
  }

  lemma NeighboursAreDomain()
    ensures ConfigOk(NeighbourConfig()) && NeighbourConfig().domainMin == Value(0)
    ensures NeighbourConfig().domainMax == Value(1) && Value(0) < Value(1)
    ensures Has(NeighbourConfig().numbers, Value(0)) && Has(NeighbourConfig().numbers, Value(1))
  {
    hide Value; hide Points; hide Overflow;
    ZeroIsZero();
    DoubleConfigOk(NeighbourConfig(), 0, 1, 0);
    ValueIncreasing(0, 1);
    ValueIsDouble(0);
    ValueIsDouble(1);
  }

  lemma NeighboursNotNovel(points: seq<real>)
    requires points == [Value(0), Value(1)]
    ensures forall x :: InDomain(NeighbourConfig(), x) ==> !Novel(NeighbourConfig(), points, x)
  {
    hide Value; hide Points; hide Overflow;
    ZeroIsZero();
    forall x | InDomain(NeighbourConfig(), x) ensures !Novel(NeighbourConfig(), points, x) {
      NeighboursOnly(0, x);
      assert points[0] in points && points[1] in points;
    }
  }

  /** Observing all there is of a domain of two neighbouring doubles: nothing is novel any more, and
      the domain does not count as fully covered. */
  method CoveredWithoutFlag() returns (cache: FutCache, full: bool)
    ensures cache.Valid() && cache.config == NeighbourConfig()
    ensures forall x :: InDomain(cache.config, x) ==> !Novel(cache.config, cache.points, x)
    ensures !full
  {
    hide Value; hide NeighbourConfig; hide ConfigOk; hide HistoryOk; hide AvlNode.Valid; hide Avl.Proper;
    hide Recorded; hide Contiguous; hide InDomain; hide Novel; hide Has; hide Covers;
    hide FutCache.StructureOk;
    NeighboursAreDomain();
    cache := new FutCache(NeighbourConfig());
    cache.ValidIsRestored();
    var status, wasNovel := cache.Observe(Value(0), true);
    status, wasNovel := cache.Observe(Value(1), true);
    full := cache.FullyCovered();
    NeighboursNotNovel(cache.points);
    HistoryParts(cache.config, cache.points, cache.novel, cache.List());
    HalfwayUncovered(cache.config, cache.points, cache.List());
  }

  lemma HistoryParts(c: Config, points: seq<real>, novel: seq<real>, s: seq<Interval>)
    requires ConfigOk(c) && HistoryOk(c, points, novel, s)
    ensures AllInDomain(c, points) && Represents(c, points, s)
  {
  }
}

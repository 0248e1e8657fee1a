/** The exact one-dimensional interval-union cache over the pointer tree. */
module IntervalCache {
  import opened Numbers
  import opened Intervals
  import opened IntervalSpec
  import opened AvlNodes
  import opened Telemetry
  import opened Wrappers
  import Arithmetic
  import Avl

  /** 64 LDBL_EPSILON, for the 64-bit significand. */
  const MEASURE_TOLERANCE: real := 64.0 / 9223372036854775808.0

  ghost function ListOf(root: AvlNode?): seq<Interval>
    reads root
  {
    Avl.InOrder(TreeOf(root))
  }

  /** Any node whose interval meets [lo, hi], found on one path from the root. */
  method FindOverlap(root: AvlNode?, lo: real, hi: real) returns (n: AvlNode?)
    requires Ok(root)
    ensures n == null <==> Avl.FindOverlap(TreeOf(root), lo, hi) == None
    ensures n != null ==> n in ReprOf(root) && Avl.FindOverlap(TreeOf(root), lo, hi) == Some(Interval(n.lower, n.upper))
  {
    hide Ok; hide AvlNode.Valid;
    n := root;
    OkMember(n);
    while n != null
      invariant Ok(n) && ReprOf(n) <= ReprOf(root) && (n != null ==> n in n.repr)
      invariant Avl.FindOverlap(TreeOf(root), lo, hi) == Avl.FindOverlap(TreeOf(n), lo, hi)
      decreases ReprOf(n)
    {
      OkValid(n);
      if n.upper < lo {
        n := n.right;
      } else if n.lower > hi {
        n := n.left;
      } else {
        return n;
      }
      OkMember(n);
    }
  }

  /** Whether some interval holds x, and the number of nodes visited to find out. */
  method TreeCoversPoint(root: AvlNode?, x: real) returns (covered: bool, ghost steps: nat)
    requires Ok(root)
    ensures covered == Avl.CoversPoint(TreeOf(root), x) && steps == Avl.Steps(TreeOf(root), x)
    ensures Avl.Balanced(TreeOf(root)) ==> Arithmetic.Pow2(steps / 2) <= |ListOf(root)| + 1
  {
    hide Ok; hide AvlNode.Valid; hide Avl.Balanced;
    if Avl.Balanced(TreeOf(root)) {
      Avl.LookupBound(TreeOf(root), x);
    }
    var n := root;
    steps := 0;
    while n != null
      invariant Ok(n) && Avl.CoversPoint(TreeOf(root), x) == Avl.CoversPoint(TreeOf(n), x)
      invariant steps + Avl.Steps(TreeOf(n), x) == Avl.Steps(TreeOf(root), x)
      decreases ReprOf(n)
    {
      OkValid(n);
      steps := steps + 1;
      if x < n.lower {
        n := n.left;
      } else if x > n.upper {
        n := n.right;
      } else {
        return true, steps;
      }
    }
    return false, steps;
  }

  method ValidateNode(node: AvlNode?, domainMin: real, domainMax: real) returns (m: Avl.Summary)
    requires Ok(node)
    ensures m == Avl.Summarize(TreeOf(node), domainMin, domainMax)
    decreases ReprOf(node)
  {
    hide Ok; hide AvlNode.Valid; hide Avl.Combine;
    if node == null {
      return Avl.Summary(true, false, 0.0, 0.0, 0, 0, 0.0);
    }
    OkValid(node);
    var left := ValidateNode(node.left, domainMin, domainMax);
    var right := ValidateNode(node.right, domainMin, domainMax);
    m := CombineSummaries(left, right, node.lower, node.upper, node.height, domainMin, domainMax);
  }

  method CombineSummaries(left: Avl.Summary, right: Avl.Summary, lower: real, upper: real, nodeHeight: int,
                          domainMin: real, domainMax: real) returns (m: Avl.Summary)
    ensures m == Avl.Combine(left, right, Interval(lower, upper), nodeHeight, domainMin, domainMax)
  {
    var valid := left.valid && right.valid && lower <= upper && lower >= domainMin && upper <= domainMax;
    if left.hasNode && left.maximumUpper >= lower {
      valid := false;
    }
    if right.hasNode && upper >= right.minimumLower {
      valid := false;
    }
    var balance := left.height - right.height;
    var height := 1 + Avl.Max(left.height, right.height);
    if nodeHeight != height || balance < -1 || balance > 1 {
      valid := false;
    }
    m := Avl.Summary(valid, true,
      if left.hasNode then left.minimumLower else lower,
      if right.hasNode then right.maximumUpper else upper,
      height, left.count + right.count + 1,
      left.measure + right.measure + (upper - lower));
  }

  class FutCache {
    const config: Config
    var root: AvlNode?
    var intervalCount: nat
    var coveredMeasure: real
    var observations: nat
    var novelObservations: nat
    var generation: nat

    /** The points observed since the last clear, and those reported novel. */
    ghost var points: seq<real>
    ghost var novel: seq<real>

    ghost function List(): seq<Interval>
      reads this, root
    {
      ListOf(root)
    }

    /** The tree is a proper AVL tree and the running totals describe it. */
    ghost predicate StructureOk()
      reads this, root, ReprOf(root)
    {
      && Ok(root)
      && Avl.Proper(TreeOf(root), config.domainMin, config.domainMax)
      && intervalCount == |List()| <= U64_MAX
      && coveredMeasure == Measure(List())
    }

    ghost predicate Valid()
      reads this, root, ReprOf(root)
    {
      && ConfigOk(config)
      && StructureOk()
      && HistoryOk(config, points, novel, List())
      && observations == Saturated(|points|) && novelObservations == Saturated(|novel|)
      && observations <= generation <= U64_MAX
    }

    constructor (config: Config)
      requires ConfigOk(config)
      ensures Valid() && this.config == config && points == [] && generation == 0 && root == null
    {
      this.config := config;
      root, intervalCount, coveredMeasure := null, 0, 0.0;
      observations, novelObservations, generation := 0, 0, 0;
      points, novel := [], [];
    }

    /** What a snapshot can vouch for: everything but the history itself. */
    ghost predicate Restored()
      reads this, root, ReprOf(root)
    {
      && ConfigOk(config)
      && StructureOk() && AllHas(config.numbers, List())
      && intervalCount <= novelObservations <= observations <= generation <= U64_MAX
      && (intervalCount == 0 ==> observations == 0)
    }

    lemma ValidIsRestored()
      requires Valid()
      ensures Restored()
    {
      HistoryCounts(config, points, novel, List());
    }

    /** A restored state whose list represents a history carries that history from now on. */
    ghost method Adopt(points: seq<real>, novel: seq<real>)
      requires Restored() && HistoryOk(config, points, novel, List())
      requires observations == Saturated(|points|) && novelObservations == Saturated(|novel|)
      modifies this`points, this`novel
      ensures Valid() && this.points == points && this.novel == novel
    {
      this.points, this.novel := points, novel;
    }

    /** Whether x is novel, without recording it. Of a state that was only restored the list is all
        that is known, and decides. */
    method IsNovel(x: real) returns (status: Status, isNovel: bool)
      requires (Valid() || Restored()) && Has(config.numbers, x)
      ensures status == if config.domainMin <= x <= config.domainMax then OK else OutOfRange
      ensures status == OK ==> (isNovel <==> !Covers(List(), x))
      ensures status == OK && Valid() ==> (isNovel <==> Novel(config, points, x))
    {
      if !(config.domainMin <= x <= config.domainMax) {
        return OutOfRange, false;
      }
      ghost var steps: nat;
      var covered: bool;
      covered, steps := TreeCoversPoint(root, x);
      Avl.CoversPointExact(TreeOf(root), x);
      if Valid() {
        CoverDecidesNovelty(config, points, novel, TreeOf(root), x);
      }
      return OK, !covered;
    }

    /** Records x in the tree and the telemetry, whatever history is behind the list. */
    method Record(x: real, allocOk: bool) returns (status: Status, wasNovel: bool)
      requires Restored() && Has(config.numbers, x)
      modifies this`root, this`coveredMeasure, this`intervalCount, ReprOf(root)
      modifies this`observations, this`novelObservations, this`generation
      ensures Restored() && fresh(ReprOf(root) - old(ReprOf(root)))
      ensures status == OutOfRange <==> !(config.domainMin <= x <= config.domainMax)
      ensures status == OK || status == OutOfRange || status == OutOfMemory
      ensures status == OK ==>
                && (wasNovel <==> !Covers(old(List()), x))
                && Recorded(config, old(List()), x, List())
                && observations == IncrementSaturating(old(observations))
                && novelObservations == (if wasNovel then IncrementSaturating(old(novelObservations))
                                         else old(novelObservations))
                && generation == IncrementSaturating(old(generation))
      ensures status != OK ==>
                && observations == old(observations) && novelObservations == old(novelObservations)
                && generation == old(generation) && List() == old(List())
      ensures status == OutOfMemory <==>
                && config.domainMin <= x <= config.domainMax && (!allocOk || old(intervalCount) == U64_MAX)
                && !Contained(old(List()), Ball(config, x).lo, Ball(config, x).hi)
    {
      hide Ok; hide AvlNode.Valid; hide Avl.Proper; hide Avl.InOrder; hide AllHas; hide Covers;
      hide Merged; hide EndpointsFrom; hide MakeEpsilonBall; hide Sensible; hide Measure;
      hide Round; hide Overlaps;
      if !(config.domainMin <= x <= config.domainMax) {
        return OutOfRange, false;
      }
      ghost var steps: nat;
      var covered: bool;
      covered, steps := TreeCoversPoint(root, x);
      ProperParts(TreeOf(root), config.domainMin, config.domainMax);
      Avl.CoversPointExact(TreeOf(root), x);
      wasNovel := !covered;
      var ball := Ball(config, x);
      BallHas(config, x);
      ghost var s0 := List();
      status := MergeBall(ball.lo, ball.hi, allocOk);
      if status == OK {
        RecordedList(config, s0, x, List());
        observations := IncrementSaturating(observations);
        generation := IncrementSaturating(generation);
        if wasNovel {
          novelObservations := IncrementSaturating(novelObservations);
        }
      }
    }

    /** Records x. It was novel exactly when the list does not cover it, that is, when it is farther
        than epsilon from every point observed since the last clear; a failed allocation changes
        nothing. */
    method Observe(x: real, allocOk: bool) returns (status: Status, wasNovel: bool)
      requires (Valid() || Restored()) && Has(config.numbers, x)
      modifies this, ReprOf(root)
      ensures Restored() && fresh(ReprOf(root) - old(ReprOf(root)))
      ensures old(Valid()) ==> Valid()
      ensures status == OutOfRange <==> !(config.domainMin <= x <= config.domainMax)
      ensures status == OK || status == OutOfRange || status == OutOfMemory
      ensures status == OK ==>
                && (wasNovel <==> !Covers(old(List()), x))
                && Recorded(config, old(List()), x, List())
                && observations == IncrementSaturating(old(observations))
                && novelObservations == (if wasNovel then IncrementSaturating(old(novelObservations))
                                         else old(novelObservations))
                && generation == IncrementSaturating(old(generation))
      ensures status == OK ==>
                && points == old(points) + [x]
                && novel == (if wasNovel then old(novel) + [x] else old(novel))
      ensures status == OK && old(Valid()) ==> (wasNovel <==> Novel(config, old(points), x))
      ensures status != OK ==>
                && points == old(points) && novel == old(novel) && generation == old(generation)
                && List() == old(List())
      ensures status == OutOfMemory <==>
                && config.domainMin <= x <= config.domainMax && (!allocOk || old(intervalCount) == U64_MAX)
                && !Contained(old(List()), Ball(config, x).lo, Ball(config, x).hi)
    {
      hide Ok; hide AvlNode.Valid; hide Avl.Proper; hide Avl.InOrder; hide HistoryOk; hide Recorded; hide AllHas;
      hide Novel; hide Sensible; hide Measure; hide Round; hide Covers;
      ghost var valid, s0 := Valid(), List();
      if valid {
        ValidIsRestored();
        CoveredIsNotNovel(config, points, novel, s0);
      }
      status, wasNovel := Record(x, allocOk);
      if status == OK {
        if valid {
          RecordedHistory(config, points, novel, s0, x, List());
        }
        if wasNovel {
          novel := novel + [x];
        }
        points := points + [x];
      }
    }

    /** Forgets every observation; the generation keeps counting. */
    method Clear()
      requires Valid() || Restored()
      modifies this
      ensures Valid() && root == null && List() == [] && points == [] && novel == []
      ensures observations == 0 && novelObservations == 0
      ensures generation == IncrementSaturating(old(generation))
    {
      hide HistoryOk; hide Sensible; hide Avl.Proper; hide AvlNode.Valid;
      EmptyIsProper(config.domainMin, config.domainMax);
      root := null;
      intervalCount := 0;
      coveredMeasure := 0.0;
      observations := 0;
      novelObservations := 0;
      generation := IncrementSaturating(generation);
      points, novel := [], [];
      HistoryEmpty(config);
    }

    /** Accepts exactly the states that satisfy the documented relations, whatever produced
        them. */
    method Validate() returns (status: Status)
      requires Ok(root)
      ensures status == OK || status == CorruptData
      ensures status == OK <==>
                && Avl.Proper(TreeOf(root), config.domainMin, config.domainMax)
                && |List()| == intervalCount <= U64_MAX
                && 9223372036854775808.0 * Distance(Measure(List()), coveredMeasure)
                   <= 64.0 * (1.0 + Distance(Measure(List()), 0.0))
                && intervalCount <= novelObservations <= observations <= generation
                && (intervalCount == 0 ==> observations == 0)
    {
      hide Ok; hide AvlNode.Valid; hide Avl.Proper; hide Avl.InOrder;
      var summary := ValidateNode(root, config.domainMin, config.domainMax);
      Avl.SummaryExact(TreeOf(root), config.domainMin, config.domainMax);
      Avl.SummaryCounts(TreeOf(root), config.domainMin, config.domainMax);
      var difference := Distance(summary.measure, coveredMeasure);
      ToleranceScaled(summary.measure, difference);
      if !summary.valid || summary.count != intervalCount
         || difference > Tolerance(summary.measure)
         || intervalCount > U64_MAX
         || intervalCount > novelObservations
         || novelObservations > observations
         || (intervalCount == 0 && observations != 0)
         || generation < observations {
        return CorruptData;
      }
      return OK;
    }

    /** Every reachable state passes validation. */
    method ValidateReachable() returns (status: Status)
      requires Valid()
      ensures status == OK
    {
      HistoryCounts(config, points, novel, List());
      status := Validate();
    }

    /** The fully-covered statistic: no real number of the domain is left uncovered, so no
        representable domain point is novel. That is all intervals being contiguous, and the flag
        asks for a single one as well: over exact reals that is the same, but on a grid two
        intervals may end at neighbouring numbers. */
    method FullyCovered() returns (full: bool)
      requires Valid()
      ensures full <==> forall x :: config.domainMin <= x <= config.domainMax ==> Covers(List(), x)
      ensures (forall x :: InDomain(config, x) ==> !Novel(config, points, x)) <==> Contiguous(config, List())
      ensures full <==> Contiguous(config, List()) && |List()| == 1
      ensures full ==> forall x :: InDomain(config, x) ==> !Novel(config, points, x)
      ensures config.numbers.Exact? ==>
                (full <==> forall x :: config.domainMin <= x <= config.domainMax ==> !Novel(config, points, x))
    {
      hide HistoryOk; hide Novel; hide AvlNode.Valid; hide Ok; hide Canonical; hide InDomain;
      ContiguousList(config, TreeOf(root));
      ProperParts(TreeOf(root), config.domainMin, config.domainMax);
      IntervalSpec.FullyCovered(List(), config.domainMin, config.domainMax);
      CoveredIsNotNovel(config, points, novel, List());
      if root != null {
        OkValid(root);
        SingletonRoot(TreeOf(root));
      }
      full := intervalCount == 1 && root != null && root.lower == config.domainMin && root.upper == config.domainMax;
      if config.numbers.Exact? {
        forall x | config.domainMin <= x <= config.domainMax ensures Covers(List(), x) <==> !Novel(config, points, x) {
          RealInDomain(config, x);
        }
      }
    }

    /** The stored intervals and the novel observations are bounded by the packing number of
        the domain, however long the run. */
    lemma MemoryBound()
      requires Valid()
      ensures intervalCount <= novelObservations
      ensures (novelObservations - 1) as real * config.epsilon <= config.domainMax - config.domainMin
    {
      hide Ok; hide AvlNode.Valid; hide Avl.Proper; hide HistoryOk;
      HistoryPacked(config, points, novel, List());
      HistoryCounts(config, points, novel, List());
      if novel != [] {
        Scaled(novelObservations - 1, |novel| - 1, config.epsilon);
      }
    }

    /** Unlinks one interval that the ball absorbs. */
    method Absorb(overlap: AvlNode)
      requires StructureOk() && overlap in ReprOf(root) && intervalCount > 0
      requires Interval(overlap.lower, overlap.upper) in List()
      modifies this`root, this`coveredMeasure, this`intervalCount, ReprOf(root)
      ensures StructureOk() && ReprOf(root) <= old(ReprOf(root))
      ensures List() == SeqRemove(old(List()), old(overlap.lower))
    {
      hide Ok; hide AvlNode.Valid; hide Canonical; hide Avl.Balanced;
      ghost var t, k := TreeOf(root), Interval(overlap.lower, overlap.upper);
      RemoveFromProper(t, k, config.domainMin, config.domainMax);
      coveredMeasure := coveredMeasure - (overlap.upper - overlap.lower);
      var r := TreeDelete(root, overlap.lower);
      root := r;
      intervalCount := intervalCount - 1;
    }

    /** An interval of the list that meets [lo, hi], if there is one. */
    method NextOverlap(lo: real, hi: real) returns (overlap: AvlNode?)
      requires StructureOk() && lo <= hi
      ensures overlap == null ==> forall k :: k in List() ==> !Overlaps(k, lo, hi)
      ensures overlap != null ==>
                && overlap in ReprOf(root)
                && Interval(overlap.lower, overlap.upper) in List()
                && Overlaps(Interval(overlap.lower, overlap.upper), lo, hi)
    {
      hide Ok; hide AvlNode.Valid; hide Canonical; hide Avl.Balanced; hide Avl.InOrder; hide Avl.FindOverlap;
      overlap := FindOverlap(root, lo, hi);
      Avl.FindOverlapExact(TreeOf(root), lo, hi);
    }

    /** Absorbs every interval that meets the growing ball; each pass unlinks one node. */
    method AbsorbAll(lo0: real, hi0: real) returns (lo: real, hi: real)
      requires StructureOk() && config.domainMin <= lo0 <= hi0 <= config.domainMax
      modifies this`root, this`coveredMeasure, this`intervalCount, ReprOf(root)
      ensures StructureOk() && ReprOf(root) <= old(ReprOf(root))
      ensures Absorbing(old(List()), lo0, hi0, List(), lo, hi)
      ensures config.domainMin <= lo <= hi <= config.domainMax
      ensures forall k :: k in List() ==> !Overlaps(k, lo, hi)
      ensures |List()| <= old(|List()|)
      ensures (exists k :: k in old(List()) && Overlaps(k, lo0, hi0)) ==> |List()| < old(|List()|)
    {
      hide Ok; hide AvlNode.Valid; hide Canonical; hide Avl.Balanced; hide Absorbing; hide Avl.InOrder;
      ghost var s0 := List();
      lo, hi := lo0, hi0;
      ProperParts(TreeOf(root), config.domainMin, config.domainMax);
      AbsorbStart(s0, lo0, hi0);
      var overlap := NextOverlap(lo, hi);
      while overlap != null
        invariant StructureOk() && ReprOf(root) <= old(ReprOf(root))
        invariant Absorbing(s0, lo0, hi0, List(), lo, hi) && lo <= hi
        invariant config.domainMin <= lo && hi <= config.domainMax
        invariant overlap == null ==> forall k :: k in List() ==> !Overlaps(k, lo, hi)
        invariant overlap != null ==>
                    && overlap in ReprOf(root)
                    && Interval(overlap.lower, overlap.upper) in List()
                    && Overlaps(Interval(overlap.lower, overlap.upper), lo, hi)
        invariant |List()| <= |s0|
        invariant |List()| < |s0| || (List() == s0 && lo == lo0 && hi == hi0)
        decreases |List()|
      {
        var oldLower, oldUpper := overlap.lower, overlap.upper;
        AbsorbStep(s0, lo0, hi0, List(), lo, hi, Interval(oldLower, oldUpper));
        ProperParts(TreeOf(root), config.domainMin, config.domainMax);
        if oldLower < lo {
          lo := oldLower;
        }
        if oldUpper > hi {
          hi := oldUpper;
        }
        Absorb(overlap);
        overlap := NextOverlap(lo, hi);
      }
    }

    /** Adds [lo, hi] to the union; an allocation failure happens before any change. A memory
        of 2^64 bytes cannot hold more than U64_MAX nodes. */
    method MergeBall(lo0: real, hi0: real, allocOk: bool) returns (status: Status)
      requires StructureOk() && config.domainMin <= lo0 <= hi0 <= config.domainMax
      modifies this`root, this`coveredMeasure, this`intervalCount, ReprOf(root)
      ensures StructureOk() && fresh(ReprOf(root) - old(ReprOf(root)))
      ensures status == OK || status == OutOfMemory
      ensures status == OutOfMemory ==> List() == old(List())
      ensures status == OK ==> Merged(old(List()), lo0, hi0, List()) && |List()| <= old(|List()|) + 1
      ensures status == OK ==> EndpointsFrom(old(List()), lo0, hi0, List())
      ensures status == OK && (exists k :: k in old(List()) && Overlaps(k, lo0, hi0)) ==> |List()| <= old(|List()|)
      ensures status == OutOfMemory <==>
                (!allocOk || old(intervalCount) == U64_MAX) && !Contained(old(List()), lo0, hi0)
    {
      hide Ok; hide AvlNode.Valid; hide Canonical; hide Avl.Balanced; hide Absorbing; hide Merged; hide Avl.InOrder;
      hide EndpointsFrom; hide SeqInsert; hide Measure; hide Avl.Proper;
      ghost var s0 := List();
      var overlap := NextOverlap(lo0, hi0);
      if overlap != null && overlap.lower <= lo0 && overlap.upper >= hi0 {
        ProperParts(TreeOf(root), config.domainMin, config.domainMax);
        AlreadyCovered(s0, lo0, hi0, Interval(overlap.lower, overlap.upper));
        return OK;
      }
      ProperParts(TreeOf(root), config.domainMin, config.domainMax);
      NotContained(s0, lo0, hi0, if overlap == null then None else Some(Interval(overlap.lower, overlap.upper)));
      if !allocOk || intervalCount == U64_MAX {
        return OutOfMemory;
      }
      var replacement := new AvlNode(lo0, hi0);
      NodeIsOk(replacement);
      var lo, hi := AbsorbAll(lo0, hi0);
      AbsorbEnd(s0, lo0, hi0, List(), lo, hi);
      replacement.lower := lo;
      replacement.upper := hi;
      Resync(replacement);
      Link(replacement);
      return OK;
    }

    /** Links a detached node that meets no interval of the list. */
    method Link(replacement: AvlNode)
      requires StructureOk() && intervalCount < U64_MAX
      requires Ok(replacement) && replacement.left == null && replacement.right == null && replacement.height == 1
      requires replacement !in ReprOf(root)
      requires config.domainMin <= replacement.lower <= replacement.upper <= config.domainMax
      requires Canonical(SeqInsert(List(), Interval(replacement.lower, replacement.upper)))
      requires Measure(SeqInsert(List(), Interval(replacement.lower, replacement.upper)))
               == Measure(List()) + (replacement.upper - replacement.lower)
      modifies this`root, this`coveredMeasure, this`intervalCount, ReprOf(root), replacement
      ensures StructureOk() && ReprOf(root) == old(ReprOf(root)) + {replacement}
      ensures List() == old(SeqInsert(List(), Interval(replacement.lower, replacement.upper)))
    {
      hide Ok; hide AvlNode.Valid; hide Canonical; hide Avl.Balanced; hide Avl.InOrder;
      ghost var k := Interval(replacement.lower, replacement.upper);
      var width := replacement.upper - replacement.lower;
      InsertIntoProper(TreeOf(root), k, config.domainMin, config.domainMax);
      var r := TreeInsert(root, replacement);
      root := r;
      intervalCount := intervalCount + 1;
      coveredMeasure := coveredMeasure + width;
    }
  }

  /** One interval of the list holds all of [lo, hi]: adding that needs no memory. */
  ghost predicate Contained(s: seq<Interval>, lo: real, hi: real) {
    exists k :: k in s && k.lo <= lo && hi <= k.hi
  }

  /** It is enough to look at any one interval that meets [lo, hi]. */
  lemma NotContained(s: seq<Interval>, lo: real, hi: real, met: Option<Interval>)
    requires Canonical(s) && lo <= hi
    requires if met.None? then forall k :: k in s ==> !Overlaps(k, lo, hi)
             else met.value in s && Overlaps(met.value, lo, hi) && !(met.value.lo <= lo && hi <= met.value.hi)
    ensures !Contained(s, lo, hi)
  {
    forall c | c in s ensures !(c.lo <= lo && hi <= c.hi) {
      assert c.lo <= lo && hi <= c.hi ==> Overlaps(c, lo, hi);
      if met.Some? {
        DisjointMembers(s, c, met.value);
      }
    }
  }

  lemma DisjointMembers(s: seq<Interval>, c: Interval, k: Interval)
    requires Canonical(s) && c in s && k in s
    ensures c == k || c.hi < k.lo || k.hi < c.lo
  {
    var i :| 0 <= i < |s| && s[i] == c;
    var j :| 0 <= j < |s| && s[j] == k;
    if i < j {
      assert s[i].hi < s[j].lo;
    } else if j < i {
      assert s[j].hi < s[i].lo;
    }
  }

  function Tolerance(measure: real): real {
    MEASURE_TOLERANCE * (1.0 + (if measure < 0.0 then -measure else measure))
  }

  /** 64 units of the last place of 1 + |measure|, 2^-63 being the place of one. */
  lemma ToleranceScaled(measure: real, difference: real)
    ensures difference <= Tolerance(measure)
            <==> 9223372036854775808.0 * difference <= 64.0 * (1.0 + Distance(measure, 0.0))
  {
  }

  lemma Scaled(m: int, n: int, epsilon: real)
    requires 0 <= m <= n && epsilon >= 0.0
    ensures m as real * epsilon <= n as real * epsilon
  {
  }

  lemma SingletonRoot(t: Avl.Tree)
    requires t.Node?
    ensures |Avl.InOrder(t)| == 1 ==> Avl.InOrder(t) == [t.key]
  {
  }

  /** The tree search decides novelty. */
  lemma CoverDecidesNovelty(c: Config, points: seq<real>, novel: seq<real>, t: Avl.Tree, x: real)
    requires ConfigOk(c) && InDomain(c, x) && HistoryOk(c, points, novel, Avl.InOrder(t))
    ensures Avl.CoversPoint(t, x) <==> !Novel(c, points, x)
  {
    Avl.CoversPointExact(t, x);
    NovelIsUncovered(c, points, x);
  }

  lemma RealInDomain(c: Config, x: real)
    requires c.numbers.Exact? && c.domainMin <= x <= c.domainMax
    ensures InDomain(c, x)
  {
  }

  lemma ContiguousList(c: Config, t: Avl.Tree)
    requires ConfigOk(c) && Avl.Proper(t, c.domainMin, c.domainMax)
    ensures (forall x :: InDomain(c, x) ==> Covers(Avl.InOrder(t), x)) <==> Contiguous(c, Avl.InOrder(t))
    ensures |Avl.InOrder(t)| == 1 ==>
              (Contiguous(c, Avl.InOrder(t))
               <==> Avl.InOrder(t)[0].lo == c.domainMin && Avl.InOrder(t)[0].hi == c.domainMax)
  {
    ProperParts(t, c.domainMin, c.domainMax);
    ContiguousCovers(c, Avl.InOrder(t));
  }

  lemma EmptyIsProper(domainMin: real, domainMax: real)
    ensures Avl.Proper(Avl.Leaf, domainMin, domainMax)
  {
  }

  lemma HistoryCounts(c: Config, points: seq<real>, novel: seq<real>, s: seq<Interval>)
    requires ConfigOk(c) && HistoryOk(c, points, novel, s)
    ensures |s| <= |novel| <= |points| && (s == [] ==> points == [])
  {
    RepresentsSome(c, points, s);
  }

  lemma ProperParts(t: Avl.Tree, domainMin: real, domainMax: real)
    requires Avl.Proper(t, domainMin, domainMax)
    ensures Canonical(Avl.InOrder(t))
    ensures forall k :: k in Avl.InOrder(t) ==> domainMin <= k.lo <= k.hi <= domainMax
  {
  }

  lemma NodeIsOk(n: AvlNode)
    requires n.Valid()
    ensures Ok(n)
  {
  }

  lemma InsertIntoProper(t: Avl.Tree, k: Interval, domainMin: real, domainMax: real)
    requires Avl.Proper(t, domainMin, domainMax) && domainMin <= k.lo <= k.hi <= domainMax
    requires Canonical(SeqInsert(Avl.InOrder(t), k))
    ensures Avl.Proper(Avl.Insert(t, k), domainMin, domainMax)
    ensures Avl.InOrder(Avl.Insert(t, k)) == SeqInsert(Avl.InOrder(t), k)
  {
    Avl.InsertOrder(t, k);
    Avl.InsertBalances(t, k);
    forall j | j in SeqInsert(Avl.InOrder(t), k) ensures domainMin <= j.lo && j.hi <= domainMax {
      InsertMembers(Avl.InOrder(t), k, j);
    }
  }

  lemma RemoveFromProper(t: Avl.Tree, k: Interval, domainMin: real, domainMax: real)
    requires Avl.Proper(t, domainMin, domainMax) && k in Avl.InOrder(t)
    ensures Avl.Proper(Avl.Delete(t, k.lo), domainMin, domainMax)
    ensures Avl.InOrder(Avl.Delete(t, k.lo)) == SeqRemove(Avl.InOrder(t), k.lo)
    ensures |SeqRemove(Avl.InOrder(t), k.lo)| == |Avl.InOrder(t)| - 1
    ensures Measure(SeqRemove(Avl.InOrder(t), k.lo)) == Measure(Avl.InOrder(t)) - (k.hi - k.lo)
  {
    Avl.DeleteOrder(t, k.lo);
    Avl.DeleteBalances(t, k.lo);
    RemoveMember(Avl.InOrder(t), k);
  }
}

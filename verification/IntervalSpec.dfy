/** What the interval cache must answer: novelty against every point observed so far, and
    the union of epsilon balls that decides it. */
module IntervalSpec {
  import opened Numbers
  import opened Intervals

  /** The parameters fixed at creation. */
  datatype Config = Config(numbers: Numbers, domainMin: real, domainMax: real, epsilon: real)

  ghost predicate ConfigOk(c: Config) {
    && Sensible(c.numbers) && Has(c.numbers, c.domainMin) && Has(c.numbers, c.domainMax) && Has(c.numbers, c.epsilon)
    && c.domainMin <= c.domainMax && c.epsilon >= 0.0
    && Round(c.numbers, c.domainMax - c.domainMin).Finite?
  }

  ghost predicate AllHas(n: Numbers, s: seq<Interval>) {
    forall k :: k in s ==> Has(n, k.lo) && Has(n, k.hi)
  }

  lemma MergedHas(n: Numbers, s: seq<Interval>, lo: real, hi: real, t: seq<Interval>)
    requires AllHas(n, s) && Has(n, lo) && Has(n, hi) && EndpointsFrom(s, lo, hi, t)
    ensures AllHas(n, t)
  {
  }

  /** Observing p: the merged list represents the longer history. */
  lemma MergedRepresents(c: Config, points: seq<real>, s: seq<Interval>, p: real, t: seq<Interval>)
    requires Sensible(c.numbers) && Represents(c, points, s) && Merged(s, Ball(c, p).lo, Ball(c, p).hi, t)
    ensures Represents(c, points + [p], t)
  {
    forall x ensures Covers(t, x) <==> InUnion(c, points + [p], x) {
      UnionSnoc(c, points, p, x);
      assert Covers(s, x) <==> InUnion(c, points, x);
    }
  }

  /** A covered point's ball meets the list, so merging it adds no interval. */
  lemma CoveredOverlaps(c: Config, points: seq<real>, s: seq<Interval>, p: real)
    requires ConfigOk(c) && AllInDomain(c, points) && InDomain(c, p) && Represents(c, points, s)
    requires !Novel(c, points, p)
    ensures exists k :: k in s && Overlaps(k, Ball(c, p).lo, Ball(c, p).hi)
  {
    NovelIsUncovered(c, points, p);
    assert Covers(s, p);
    CoversMember(s, p);
    var k :| k in s && Inside(k, p);
    BallExact(c.numbers, p, c.epsilon, c.domainMin, c.domainMax, p);
  }

  lemma SeparatedSnoc(c: Config, novel: seq<real>, points: seq<real>, p: real)
    requires Separated(novel, c.epsilon) && (forall q :: q in novel ==> q in points)
    requires Novel(c, points, p)
    ensures Separated(novel + [p], c.epsilon) && forall q :: q in novel + [p] ==> q in points + [p]
  {
    var t := novel + [p];
    forall i, j | 0 <= i < j < |t| ensures Distance(t[i], t[j]) > c.epsilon {
      if j == |novel| {
        assert novel[i] in novel;
      }
    }
  }

  lemma RepresentsSome(c: Config, points: seq<real>, s: seq<Interval>)
    requires ConfigOk(c) && AllInDomain(c, points) && Represents(c, points, s)
    ensures s == [] <==> points == []
  {
    if points != [] {
      var p := points[0];
      assert InDomain(c, p);
      BallExact(c.numbers, p, c.epsilon, c.domainMin, c.domainMax, p);
      assert p in points && InUnion(c, points, p);
      assert Covers(s, p);
    }
    if s != [] {
      CoversFirst(s);
      assert InUnion(c, points, s[0].lo);
    }
  }

  ghost predicate InDomain(c: Config, x: real) {
    Has(c.numbers, x) && c.domainMin <= x <= c.domainMax
  }

  function Ball(c: Config, x: real): Interval
    requires Sensible(c.numbers)
  {
    MakeEpsilonBall(c.numbers, x, c.epsilon, c.domainMin, c.domainMax)
  }

  ghost predicate AllInDomain(c: Config, points: seq<real>) {
    forall p :: p in points ==> InDomain(c, p)
  }

  /** x lies in the ball of some observed point. */
  ghost predicate InUnion(c: Config, points: seq<real>, x: real)
    requires Sensible(c.numbers)
  {
    exists p :: p in points && Inside(Ball(c, p), x)
  }

  /** The list is the canonical form of the union of the balls. */
  ghost predicate Represents(c: Config, points: seq<real>, s: seq<Interval>)
    requires Sensible(c.numbers)
  {
    Canonical(s) && forall x :: Covers(s, x) <==> InUnion(c, points, x)
  }

  /** The oracle: farther than epsilon from every observed point. */
  ghost predicate Novel(c: Config, points: seq<real>, x: real) {
    forall p :: p in points ==> Distance(p, x) > c.epsilon
  }

  /** For domain points, being outside the union is being novel. */
  lemma NovelIsUncovered(c: Config, points: seq<real>, x: real)
    requires ConfigOk(c) && AllInDomain(c, points) && InDomain(c, x)
    ensures Novel(c, points, x) <==> !InUnion(c, points, x)
  {
    forall p | p in points ensures Inside(Ball(c, p), x) <==> Distance(p, x) <= c.epsilon {
      assert InDomain(c, p);
      BallExact(c.numbers, p, c.epsilon, c.domainMin, c.domainMax, x);
    }
  }

  lemma UnionSnoc(c: Config, points: seq<real>, p: real, x: real)
    requires Sensible(c.numbers)
    ensures InUnion(c, points + [p], x) <==> InUnion(c, points, x) || Inside(Ball(c, p), x)
  {
    assert p in points + [p];
    if InUnion(c, points, x) {
      var q :| q in points && Inside(Ball(c, q), x);
      assert q in points + [p];
    }
  }

  /** Histories with the same union have the same list, whatever their order, repetitions or
      even their points. */
  lemma StateIsUnion(c: Config, h1: seq<real>, s1: seq<Interval>, h2: seq<real>, s2: seq<Interval>)
    requires Sensible(c.numbers) && Represents(c, h1, s1) && Represents(c, h2, s2)
    ensures s1 == s2 <==> forall x :: InUnion(c, h1, x) <==> InUnion(c, h2, x)
  {
    if forall x :: InUnion(c, h1, x) <==> InUnion(c, h2, x) {
      assert SameCover(s1, s2);
      CanonicalUnique(s1, s2);
    }
    if s1 == s2 {
      forall x ensures InUnion(c, h1, x) <==> InUnion(c, h2, x) {
        assert Covers(s1, x) <==> Covers(s2, x);
      }
    }
  }

  /** In particular the list depends only on which points were observed. */
  lemma StateIgnoresOrder(c: Config, h1: seq<real>, s1: seq<Interval>, h2: seq<real>, s2: seq<Interval>)
    requires Sensible(c.numbers) && Represents(c, h1, s1) && Represents(c, h2, s2)
    requires forall p :: p in h1 <==> p in h2
    ensures s1 == s2
  {
    StateIsUnion(c, h1, s1, h2, s2);
  }

  /** Such histories stay indistinguishable: after any common continuation the lists agree
      again, so every later answer does too. */
  lemma FutureEquivalence(c: Config, h1: seq<real>, s1: seq<Interval>, h2: seq<real>, s2: seq<Interval>,
                          more: seq<real>, t1: seq<Interval>, t2: seq<Interval>)
    requires ConfigOk(c) && Represents(c, h1, s1) && Represents(c, h2, s2) && s1 == s2
    requires Represents(c, h1 + more, t1) && Represents(c, h2 + more, t2)
    requires AllInDomain(c, h1 + more) && AllInDomain(c, h2 + more)
    ensures t1 == t2
    ensures forall x :: InDomain(c, x) ==> (Novel(c, h1 + more, x) <==> Novel(c, h2 + more, x))
  {
    forall x ensures InUnion(c, h1 + more, x) <==> InUnion(c, h2 + more, x) {
      UnionConcat(c, h1, more, x);
      UnionConcat(c, h2, more, x);
      assert Covers(s1, x) <==> Covers(s2, x);
    }
    StateIsUnion(c, h1 + more, t1, h2 + more, t2);
    forall x | InDomain(c, x) ensures Novel(c, h1 + more, x) <==> Novel(c, h2 + more, x) {
      NovelIsUncovered(c, h1 + more, x);
      NovelIsUncovered(c, h2 + more, x);
    }
  }

  lemma UnionConcat(c: Config, a: seq<real>, b: seq<real>, x: real)
    requires Sensible(c.numbers)
    ensures InUnion(c, a + b, x) <==> InUnion(c, a, x) || InUnion(c, b, x)
  {
    assert forall p :: p in a + b <==> p in a || p in b;
    if InUnion(c, a, x) {
      var q :| q in a && Inside(Ball(c, q), x);
      assert q in a + b;
    }
    if InUnion(c, b, x) {
      var q :| q in b && Inside(Ball(c, q), x);
      assert q in a + b;
    }
  }

  // ---------------------------------------------------------------- absorbing and inserting

  /** Absorbing an overlapping interval into the ball leaves the total cover unchanged. */
  lemma AbsorbCover(s: seq<Interval>, k: Interval, lo: real, hi: real, x: real)
    requires Canonical(s) && k in s && lo <= hi && Overlaps(k, lo, hi)
    ensures Covers(SeqRemove(s, k.lo), x) || (if k.lo < lo then k.lo else lo) <= x <= (if k.hi > hi then k.hi else hi)
            <==> Covers(s, x) || lo <= x <= hi
  {
    RemoveMember(s, k);
    CoversMember(s, x);
    CoversMember(SeqRemove(s, k.lo), x);
  }

  /** What the merge loop keeps: a proper list whose cover, together with the growing ball, is
      the old cover together with the ball, and whose totals are the running ones. */
  ghost predicate Absorbing(s0: seq<Interval>, lo0: real, hi0: real, s: seq<Interval>, lo: real, hi: real) {
    && Canonical(s) && lo <= lo0 <= hi0 <= hi
    && (forall x :: Covers(s, x) || lo <= x <= hi <==> Covers(s0, x) || lo0 <= x <= hi0)
    && (forall k :: k in s ==> k in s0)
    && LowerFrom(s0, lo0, lo) && UpperFrom(s0, hi0, hi)
  }

  ghost predicate LowerFrom(s: seq<Interval>, lo0: real, lo: real) {
    lo == lo0 || exists k :: k in s && k.lo == lo
  }

  ghost predicate UpperFrom(s: seq<Interval>, hi0: real, hi: real) {
    hi == hi0 || exists k :: k in s && k.hi == hi
  }

  /** Merging creates no new endpoints. */
  ghost predicate EndpointsFrom(s: seq<Interval>, lo0: real, hi0: real, t: seq<Interval>) {
    forall k :: k in t ==> LowerFrom(s, lo0, k.lo) && UpperFrom(s, hi0, k.hi)
  }

  lemma AbsorbStart(s: seq<Interval>, lo: real, hi: real)
    requires Canonical(s) && lo <= hi
    ensures Absorbing(s, lo, hi, s, lo, hi)
  {
  }

  lemma AbsorbStep(s0: seq<Interval>, lo0: real, hi0: real, s: seq<Interval>, lo: real, hi: real, k: Interval)
    requires Absorbing(s0, lo0, hi0, s, lo, hi) && k in s && Overlaps(k, lo, hi)
    ensures Absorbing(s0, lo0, hi0, SeqRemove(s, k.lo), if k.lo < lo then k.lo else lo, if k.hi > hi then k.hi else hi)
    ensures |SeqRemove(s, k.lo)| == |s| - 1
    ensures Measure(SeqRemove(s, k.lo)) == Measure(s) - (k.hi - k.lo)
  {
    RemoveMember(s, k);
    var t := SeqRemove(s, k.lo);
    var lo', hi' := if k.lo < lo then k.lo else lo, if k.hi > hi then k.hi else hi;
    forall x ensures Covers(t, x) || lo' <= x <= hi' <==> Covers(s0, x) || lo0 <= x <= hi0 {
      AbsorbCover(s, k, lo, hi, x);
      assert Covers(s, x) || lo <= x <= hi <==> Covers(s0, x) || lo0 <= x <= hi0;
    }
  }

  /** With nothing left to absorb, inserting the grown ball gives the canonical list of the
      old cover together with the ball. */
  lemma AbsorbEnd(s0: seq<Interval>, lo0: real, hi0: real, s: seq<Interval>, lo: real, hi: real)
    requires Absorbing(s0, lo0, hi0, s, lo, hi)
    requires forall k :: k in s ==> !Overlaps(k, lo, hi)
    ensures Merged(s0, lo0, hi0, SeqInsert(s, Interval(lo, hi))) && Canonical(SeqInsert(s, Interval(lo, hi)))
    ensures Measure(SeqInsert(s, Interval(lo, hi))) == Measure(s) + (hi - lo)
    ensures EndpointsFrom(s0, lo0, hi0, SeqInsert(s, Interval(lo, hi)))
  {
    var k := Interval(lo, hi);
    var t := SeqInsert(s, k);
    InsertKeepsCanonical(s, k);
    InsertMeasure(s, k);
    forall x ensures Covers(t, x) <==> Covers(s0, x) || lo0 <= x <= hi0 {
      InsertCover(s, k, x);
      assert Covers(s, x) || lo <= x <= hi <==> Covers(s0, x) || lo0 <= x <= hi0;
    }
    forall j | j in t ensures LowerFrom(s0, lo0, j.lo) && UpperFrom(s0, hi0, j.hi) {
      InsertMembers(s, k, j);
    }
  }

  /** t is the canonical form of s with [lo, hi] added. */
  ghost predicate Merged(s: seq<Interval>, lo: real, hi: real, t: seq<Interval>) {
    Canonical(t) && forall x :: Covers(t, x) <==> Covers(s, x) || lo <= x <= hi
  }

  /** A ball inside one interval of the list changes nothing. */
  lemma AlreadyCovered(s: seq<Interval>, lo: real, hi: real, k: Interval)
    requires Canonical(s) && k in s && k.lo <= lo && k.hi >= hi
    ensures Merged(s, lo, hi, s) && EndpointsFrom(s, lo, hi, s)
  {
    forall x | lo <= x <= hi ensures Covers(s, x) {
      CoversMember(s, x);
    }
  }

  lemma InsertCover(s: seq<Interval>, k: Interval, x: real)
    ensures Covers(SeqInsert(s, k), x) <==> Covers(s, x) || Inside(k, x)
  {
    CoversMember(s, x);
    CoversMember(SeqInsert(s, k), x);
    forall j ensures j in SeqInsert(s, k) <==> j in s || j == k {
      InsertMembers(s, k, j);
    }
  }

  // ---------------------------------------------------------------- a history and its list

  /** The list s is what the history of observed and of novel points must have produced. */
  ghost predicate HistoryOk(c: Config, points: seq<real>, novel: seq<real>, s: seq<Interval>)
    requires Sensible(c.numbers)
  {
    && AllInDomain(c, points) && Represents(c, points, s) && AllHas(c.numbers, s)
    && Separated(novel, c.epsilon) && (forall p :: p in novel ==> p in points)
    && |s| <= |novel| <= |points|
  }

  lemma HistoryEmpty(c: Config)
    requires Sensible(c.numbers)
    ensures HistoryOk(c, [], [], [])
  {
  }

  /** Observing p and merging its ball extends the history. */
  lemma HistorySnoc(c: Config, points: seq<real>, novel: seq<real>, s: seq<Interval>, p: real, t: seq<Interval>)
    requires ConfigOk(c) && HistoryOk(c, points, novel, s) && InDomain(c, p)
    requires Merged(s, Ball(c, p).lo, Ball(c, p).hi, t) && EndpointsFrom(s, Ball(c, p).lo, Ball(c, p).hi, t)
    requires |t| <= |s| + 1
    requires (exists k :: k in s && Overlaps(k, Ball(c, p).lo, Ball(c, p).hi)) ==> |t| <= |s|
    ensures HistoryOk(c, points + [p], if Novel(c, points, p) then novel + [p] else novel, t)
  {
    hide Sensible; hide Represents; hide Merged; hide EndpointsFrom; hide MakeEpsilonBall; hide Separated; hide Novel;
    BallHas(c, p);
    MergedRepresents(c, points, s, p, t);
    MergedHas(c.numbers, s, Ball(c, p).lo, Ball(c, p).hi, t);
    if Novel(c, points, p) {
      SeparatedSnoc(c, novel, points, p);
    } else {
      CoveredOverlaps(c, points, s, p);
    }
  }

  /** What recording x does to a list, whatever history is behind it: the ball of x is merged, and
      only an uncovered x may add an interval. */
  ghost predicate Recorded(c: Config, s: seq<Interval>, x: real, t: seq<Interval>)
    requires Sensible(c.numbers)
  {
    && Merged(s, Ball(c, x).lo, Ball(c, x).hi, t) && EndpointsFrom(s, Ball(c, x).lo, Ball(c, x).hi, t)
    && t != [] && |t| <= |s| + 1
    && ((exists k :: k in s && Overlaps(k, Ball(c, x).lo, Ball(c, x).hi)) ==> |t| <= |s|)
  }

  lemma RecordedList(c: Config, s: seq<Interval>, x: real, t: seq<Interval>)
    requires ConfigOk(c) && InDomain(c, x) && AllHas(c.numbers, s)
    requires Merged(s, Ball(c, x).lo, Ball(c, x).hi, t) && EndpointsFrom(s, Ball(c, x).lo, Ball(c, x).hi, t)
    requires |t| <= |s| + 1
    requires (exists k :: k in s && Overlaps(k, Ball(c, x).lo, Ball(c, x).hi)) ==> |t| <= |s|
    ensures AllHas(c.numbers, t) && Recorded(c, s, x, t) && (Covers(s, x) ==> |t| <= |s|)
  {
    hide Sensible; hide MakeEpsilonBall; hide Has; hide EndpointsFrom;
    BallHas(c, x);
    MergedHas(c.numbers, s, Ball(c, x).lo, Ball(c, x).hi, t);
    assert Covers(t, x);
    if Covers(s, x) {
      CoversMember(s, x);
      var k :| k in s && Inside(k, x);
      assert Overlaps(k, Ball(c, x).lo, Ball(c, x).hi);
    }
  }

  lemma RecordedHistory(c: Config, points: seq<real>, novel: seq<real>, s: seq<Interval>, x: real, t: seq<Interval>)
    requires ConfigOk(c) && HistoryOk(c, points, novel, s) && InDomain(c, x) && Recorded(c, s, x, t)
    ensures HistoryOk(c, points + [x], if Novel(c, points, x) then novel + [x] else novel, t)
  {
    hide HistoryOk; hide Merged; hide EndpointsFrom; hide Novel; hide Sensible; hide MakeEpsilonBall;
    HistorySnoc(c, points, novel, s, x, t);
  }

  /** The cover decides novelty at every representable domain point. */
  lemma CoveredIsNotNovel(c: Config, points: seq<real>, novel: seq<real>, s: seq<Interval>)
    requires ConfigOk(c) && HistoryOk(c, points, novel, s)
    ensures forall x :: InDomain(c, x) ==> (Covers(s, x) <==> !Novel(c, points, x))
  {
    hide Sensible; hide AllHas; hide Separated; hide Novel; hide MakeEpsilonBall;
    forall x | InDomain(c, x) ensures Covers(s, x) <==> !Novel(c, points, x) {
      NovelIsUncovered(c, points, x);
    }
  }

  lemma BallHas(c: Config, p: real)
    requires ConfigOk(c) && InDomain(c, p)
    ensures Has(c.numbers, Ball(c, p).lo) && Has(c.numbers, Ball(c, p).hi)
    ensures c.domainMin <= Ball(c, p).lo <= p <= Ball(c, p).hi <= c.domainMax
  {
    BallExact(c.numbers, p, c.epsilon, c.domainMin, c.domainMax, p);
  }

  /** The novel points are packed in the domain. */
  lemma HistoryPacked(c: Config, points: seq<real>, novel: seq<real>, s: seq<Interval>)
    requires ConfigOk(c) && HistoryOk(c, points, novel, s)
    ensures (|novel| - 1) as real * c.epsilon <= c.domainMax - c.domainMin
  {
    hide Sensible; hide Represents; hide AllHas; hide Separated;
    if novel == [] {
      assert (|novel| - 1) as real * c.epsilon == -c.epsilon;
    } else {
      forall i | 0 <= i < |novel| ensures c.domainMin <= novel[i] <= c.domainMax {
        assert novel[i] in novel && InDomain(c, novel[i]);
      }
      Packing(novel, c.epsilon, c.domainMin, c.domainMax);
    }
  }

  // ---------------------------------------------------------------- full coverage

  /** One interval spanning the domain, and only that, leaves no real domain point uncovered. */
  lemma FullyCovered(s: seq<Interval>, domainMin: real, domainMax: real)
    requires Canonical(s) && domainMin <= domainMax
    requires forall k :: k in s ==> domainMin <= k.lo && k.hi <= domainMax
    ensures (|s| == 1 && s[0].lo == domainMin && s[0].hi == domainMax)
            <==> forall x :: domainMin <= x <= domainMax ==> Covers(s, x)
  {
    if |s| == 1 && s[0].lo == domainMin && s[0].hi == domainMax {
      forall x | domainMin <= x <= domainMax ensures Covers(s, x) {
        assert Inside(s[0], x);
      }
    }
    if forall x :: domainMin <= x <= domainMax ==> Covers(s, x) {
      var full := [Interval(domainMin, domainMax)];
      forall x ensures Covers(s, x) <==> Covers(full, x) {
        CoversMember(s, x);
        CoversMember(full, x);
        assert Inside(full[0], x) <==> domainMin <= x <= domainMax;
      }
      CanonicalUnique(s, full);
    }
  }

  /** The intervals reach from end to end of the domain, and no number lies in a gap. */
  ghost predicate Contiguous(c: Config, s: seq<Interval>) {
    && s != [] && s[0].lo == c.domainMin && s[|s| - 1].hi == c.domainMax
    && forall i, y :: 0 <= i < |s| - 1 && s[i].hi < y < s[i + 1].lo ==> !Has(c.numbers, y)
  }

  /** The place of x: the last interval that starts at or below it. */
  lemma {:induction false} PlaceIn(s: seq<Interval>, x: real, n: nat) returns (i: nat)
    requires 0 < n <= |s| && s[0].lo <= x
    ensures i < n && s[i].lo <= x && (i + 1 < n ==> x < s[i + 1].lo)
  {
    i := n - 1;
    if s[n - 1].lo > x {
      i := PlaceIn(s, x, n - 1);
    }
  }

  lemma GapIsUncovered(s: seq<Interval>, i: nat, y: real)
    requires Canonical(s) && i + 1 < |s| && s[i].hi < y < s[i + 1].lo
    ensures !Covers(s, y)
  {
    forall j | 0 <= j < |s| ensures !Inside(s[j], y) {
      assert s[j].lo <= s[j].hi;
      if j < i {
        assert s[j].hi < s[i].lo <= s[i].hi;
      } else if j > i + 1 {
        assert s[i + 1].lo <= s[i + 1].hi < s[j].lo;
      }
    }
  }

  lemma BetweenEnds(s: seq<Interval>, i: nat)
    requires Canonical(s) && i < |s|
    ensures s[0].lo <= s[i].lo && s[i].hi <= s[|s| - 1].hi
  {
    assert s[0].lo <= s[0].hi && s[|s| - 1].lo <= s[|s| - 1].hi;
    assert i > 0 ==> s[0].hi < s[i].lo;
    assert i < |s| - 1 ==> s[i].hi < s[|s| - 1].lo;
  }

  lemma EndsCovered(c: Config, s: seq<Interval>)
    requires Canonical(s) && Covers(s, c.domainMin) && Covers(s, c.domainMax)
    requires forall k :: k in s ==> c.domainMin <= k.lo && k.hi <= c.domainMax
    ensures s != [] && s[0].lo == c.domainMin && s[|s| - 1].hi == c.domainMax
  {
    var i :| 0 <= i < |s| && Inside(s[i], c.domainMin);
    var j :| 0 <= j < |s| && Inside(s[j], c.domainMax);
    assert s[0] in s && s[|s| - 1] in s;
    BetweenEnds(s, i);
    BetweenEnds(s, j);
  }

  /** All numbers of the domain are covered exactly by contiguous intervals. */
  lemma ContiguousCovers(c: Config, s: seq<Interval>)
    requires ConfigOk(c) && Canonical(s)
    requires forall k :: k in s ==> c.domainMin <= k.lo && k.hi <= c.domainMax
    ensures (forall x :: InDomain(c, x) ==> Covers(s, x)) <==> Contiguous(c, s)
  {
    hide Sensible; hide Has;
    if Contiguous(c, s) {
      forall x | InDomain(c, x) ensures Covers(s, x) {
        var i := PlaceIn(s, x, |s|);
        assert Inside(s[i], x);
      }
    }
    if forall x :: InDomain(c, x) ==> Covers(s, x) {
      assert InDomain(c, c.domainMin) && InDomain(c, c.domainMax);
      EndsCovered(c, s);
      forall i, y | 0 <= i < |s| - 1 && s[i].hi < y < s[i + 1].lo ensures !Has(c.numbers, y) {
        GapIsUncovered(s, i, y);
        assert s[i] in s && s[i + 1] in s && s[i].lo <= s[i].hi && s[i + 1].lo <= s[i + 1].hi;
        assert !InDomain(c, y);
      }
    }
  }

  // ---------------------------------------------------------------- packing

  ghost predicate Separated(points: seq<real>, epsilon: real) {
    forall i, j :: 0 <= i < j < |points| ==> Distance(points[i], points[j]) > epsilon
  }

  lemma LargestIndex(points: seq<real>) returns (m: nat)
    requires points != []
    ensures m < |points| && forall i :: 0 <= i < |points| ==> points[i] <= points[m]
  {
    m := 0;
    for i := 0 to |points|
      invariant m < |points|
      invariant forall j :: 0 <= j < i ==> points[j] <= points[m]
    {
      if points[i] > points[m] {
        m := i;
      }
    }
  }

  lemma WithoutLargest(points: seq<real>, epsilon: real, m: nat, i: nat)
    requires Separated(points, epsilon) && m < |points|
    requires forall i :: 0 <= i < |points| ==> points[i] <= points[m]
    requires i < |points| - 1
    ensures (points[..m] + points[m + 1..])[i] == points[if i < m then i else i + 1]
    ensures (points[..m] + points[m + 1..])[i] <= points[m] - epsilon
  {
    var j := if i < m then i else i + 1;
    if j < m {
      assert Distance(points[j], points[m]) > epsilon;
    } else {
      assert Distance(points[m], points[j]) > epsilon;
    }
  }

  lemma StaysSeparated(points: seq<real>, epsilon: real, m: nat)
    requires Separated(points, epsilon) && m < |points|
    ensures Separated(points[..m] + points[m + 1..], epsilon)
  {
    var rest := points[..m] + points[m + 1..];
    forall i, j | 0 <= i < j < |rest| ensures Distance(rest[i], rest[j]) > epsilon {
      assert rest[i] == points[if i < m then i else i + 1];
      assert rest[j] == points[if j < m then j else j + 1];
    }
  }

  lemma OneMore(n: nat, epsilon: real)
    ensures (n + 1) as real * epsilon == n as real * epsilon + epsilon
  {
  }

  /** Memory is a packing number: n points of the domain more than epsilon apart need a domain
      of width (n - 1) epsilon. */
  lemma {:induction false} Packing(points: seq<real>, epsilon: real, domainMin: real, domainMax: real)
    requires points != [] && Separated(points, epsilon) && epsilon >= 0.0
    requires forall i :: 0 <= i < |points| ==> domainMin <= points[i] <= domainMax
    ensures (|points| - 1) as real * epsilon <= domainMax - domainMin
    decreases |points|
  {
    hide Separated;
    if |points| > 1 {
      var m := LargestIndex(points);
      var rest := points[..m] + points[m + 1..];
      forall i | 0 <= i < |rest| ensures domainMin <= rest[i] <= points[m] - epsilon {
        WithoutLargest(points, epsilon, m, i);
      }
      StaysSeparated(points, epsilon, m);
      Packing(rest, epsilon, domainMin, points[m] - epsilon);
      OneMore(|rest| - 1, epsilon);
      assert (|rest| - 1) as real * epsilon <= points[m] - epsilon - domainMin;
      assert |points| - 1 == |rest| - 1 + 1;
    } else {
      assert domainMin <= points[0] <= domainMax;
    }
  }
}

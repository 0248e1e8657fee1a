/** The interval tree and the box list side by side on one stream of calls, over exact reals or a
    grid of representable numbers. */
module Lockstep {
  import Avl
  import opened AvlNodes
  import opened BoxList
  import opened IntervalCache
  import opened IntervalSpec
  import Metrics
  import opened Numbers
  import opened Telemetry
  import opened Wrappers

  datatype Call = Observing(x: real) | Clearing

  /** What a caller sees: the verdict, or nothing for a rejected point and for a clear. */
  type Answers = seq<Option<bool>>

  /** The oracle: the history since the last clear decides every verdict. */
  ghost function History(c: Config, calls: seq<Call>): seq<real> {
    if calls == [] then []
    else
      var before := History(c, calls[..|calls| - 1]);
      match calls[|calls| - 1]
      case Clearing => []
      case Observing(x) => if c.domainMin <= x <= c.domainMax then before + [x] else before
  }

  /** A verdict for each point of the domain, and nothing else. */
  ghost predicate Answered(c: Config, call: Call, answer: Option<bool>, isNovel: bool) {
    match call
    case Clearing => answer == None
    case Observing(x) => if c.domainMin <= x <= c.domainMax then answer == Some(isNovel) else answer == None
  }

  /** What the interval tree answers: the real distance decides, on representable numbers too. */
  ghost predicate Answer(c: Config, history: seq<real>, call: Call, answer: Option<bool>) {
    Answered(c, call, answer, call.Observing? && Novel(c, history, call.x))
  }

  // ---------------------------------------------------------------- the box list in one dimension

  ghost function BoxOf(c: Config): BoxConfig {
    BoxConfig(c.numbers, c.epsilon, [c.domainMin], [c.domainMax])
  }

  /** The one-dimensional box: its ends are rounded to nearest and clipped, without the correction
      that makes the interval tree exact. */
  ghost function RoundedBox(c: Config, x: real): Interval
    requires Sensible(c.numbers)
  {
    Interval(LowerEnd(c.numbers, x, c.epsilon, c.domainMin, c.domainMax),
             UpperEnd(c.numbers, x, c.epsilon, c.domainMin, c.domainMax))
  }

  ghost predicate InBoxes(c: Config, history: seq<real>, x: real)
    requires Sensible(c.numbers)
  {
    exists p :: p in history && Inside(RoundedBox(c, p), x)
  }

  /** What the box list answers: the rounded boxes decide. */
  ghost predicate ListAnswer(c: Config, history: seq<real>, call: Call, answer: Option<bool>)
    requires Sensible(c.numbers)
  {
    Answered(c, call, answer, call.Observing? && !InBoxes(c, history, call.x))
  }

  ghost predicate OutwardAt(c: Config, x: real)
    requires Sensible(c.numbers)
  {
    RoundsOutward(c.numbers, x, c.epsilon, c.domainMin, c.domainMax)
  }

  lemma BoxConfigIsOk(c: Config)
    requires ConfigOk(c)
    ensures Sensible(c.numbers) && BoxConfigOk(BoxOf(c))
  {
    assert [c.domainMin][0] == c.domainMin && [c.domainMax][0] == c.domainMax;
  }

  lemma BoxHolds(c: Config, p: real, x: real)
    requires ConfigOk(c)
    ensures InRect(Clip(BoxOf(c), [p]), [x]) <==> Inside(RoundedBox(c, p), x)
  {
    hide LowerEnd; hide UpperEnd; hide Sensible;
    var r := Clip(BoxOf(c), [p]);
    assert r.lo[0] == RoundedBox(c, p).lo && r.hi[0] == RoundedBox(c, p).hi && [x][0] == x;
  }

  lemma UnseenIsOutside(c: Config, history: seq<real>, x: real)
    requires ConfigOk(c)
    ensures Unseen(BoxOf(c), Lift(history), [x]) <==> !InBoxes(c, history, x)
  {
    hide ConfigOk; hide Clip; hide InRect; hide RoundedBox;
    BoxConfigIsOk(c);
    forall p ensures InRect(Clip(BoxOf(c), [p]), [x]) <==> Inside(RoundedBox(c, p), x) {
      BoxHolds(c, p, x);
    }
    if InBoxes(c, history, x) {
      var p :| p in history && Inside(RoundedBox(c, p), x);
      var i :| 0 <= i < |history| && history[i] == p;
      assert Lift(history)[i] == [p];
    }
    if !InBoxes(c, history, x) {
      forall q | q in Lift(history) && |q| == 1 ensures !InRect(Clip(BoxOf(c), q), [x]) {
        var i :| 0 <= i < |history| && Lift(history)[i] == q;
        assert history[i] in history && q == [history[i]];
        assert !Inside(RoundedBox(c, history[i]), x);
      }
    }
  }

  /** The boxes hold everything that is not novel, and as long as no observed point rounds outward,
      nothing else. */
  lemma BoxesDecideNovelty(c: Config, history: seq<real>, x: real)
    requires ConfigOk(c) && AllInDomain(c, history) && InDomain(c, x)
    ensures !Novel(c, history, x) ==> InBoxes(c, history, x)
    ensures (forall p :: p in history ==> !OutwardAt(c, p)) && InBoxes(c, history, x) ==> !Novel(c, history, x)
    ensures c.numbers.Exact? ==> (InBoxes(c, history, x) <==> !Novel(c, history, x))
  {
    hide Sensible; hide RoundsOutward; hide LowerEnd; hide UpperEnd;
    forall p | p in history
      ensures Distance(p, x) <= c.epsilon ==> Inside(RoundedBox(c, p), x)
      ensures Inside(RoundedBox(c, p), x) ==> OutwardAt(c, p) || Distance(p, x) <= c.epsilon
      ensures c.numbers.Exact? ==> !OutwardAt(c, p)
    {
      assert InDomain(c, p);
      EndsExact(c.numbers, p, c.epsilon, c.domainMin, c.domainMax, x);
      ExactStays(c, p);
    }
  }

  lemma ExactStays(c: Config, p: real)
    requires Sensible(c.numbers)
    ensures c.numbers.Exact? ==> !OutwardAt(c, p)
  {
  }

  // ---------------------------------------------------------------- driving both

  /** Both caches hold the same history. */
  ghost predicate Paired(cache: FutCache, box: BoxCache, config: Config, history: seq<real>)
    reads cache, cache.root, ReprOf(cache.root), box, box.rects
  {
    && cache.Valid() && box.Valid()
    && cache.config == config && box.config == BoxOf(config)
    && cache.points == history && box.points == Lift(history)
  }

  method CreateBoth(config: Config) returns (cache: FutCache, box: BoxCache)
    requires ConfigOk(config)
    ensures Paired(cache, box, config, []) && cache.config == config
    ensures fresh(cache) && fresh(box) && fresh(box.rects) && fresh(ReprOf(cache.root))
    ensures {box, box.rects} !! ReprOf(cache.root)
  {
    hide HistoryOk; hide Lift; hide AvlNode.Valid; hide Avl.Proper; hide Clip; hide BoxConfigOk;
    LiftNone();
    BoxConfigIsOk(config);
    cache := new FutCache(config);
    box := new BoxCache(BoxConfig(config.numbers, config.epsilon, [config.domainMin], [config.domainMax]));
  }

  method ClearBoth(cache: FutCache, box: BoxCache, ghost history: seq<real>)
    requires Paired(cache, box, cache.config, history)
    modifies cache, box
    ensures Paired(cache, box, cache.config, [])
    ensures ReprOf(cache.root) == {} && box.rects == old(box.rects)
  {
    hide HistoryOk; hide Lift; hide AvlNode.Valid; hide Avl.Proper; hide Clip; hide BoxConfigOk; hide NovelCount;
    LiftNone();
    cache.Clear();
    box.Clear();
  }

  /** One observation by both: each answers by its own union. */
  method ObserveBoth(cache: FutCache, box: BoxCache, x: real, ghost history: seq<real>)
    returns (a: Option<bool>, b: Option<bool>)
    requires Paired(cache, box, cache.config, history) && Has(cache.config.numbers, x) && |history| < U64_MAX
    requires {box, box.rects} !! ReprOf(cache.root) && ConfigOk(cache.config)
    modifies cache, ReprOf(cache.root), box, box.rects
    ensures Paired(cache, box, cache.config,
                   if cache.config.domainMin <= x <= cache.config.domainMax then history + [x] else history)
    ensures fresh(ReprOf(cache.root) - old(ReprOf(cache.root))) && (box.rects == old(box.rects) || fresh(box.rects))
    ensures Answer(cache.config, history, Observing(x), a) && ListAnswer(cache.config, history, Observing(x), b)
  {
    hide HistoryOk; hide ConfigOk; hide Novel; hide BoxNovel; hide Lift; hide AvlNode.Valid; hide Avl.Proper;
    hide Clip; hide FutCache.StructureOk; hide Unseen; hide NovelCount; hide BoxConfigOk; hide InBoxes;
    hide AllObservable; hide Has; hide Recorded; hide NoneOutward; hide FutCache.Restored;
    Sizes(cache, box);
    UnseenIsOutside(cache.config, history, x);
    LiftSnoc(history, x);
    PointInBounds(x, cache.config.domainMin, cache.config.domainMax);
    OnePoint(cache.config.numbers, x);
    var status, novel := cache.Observe(x, true);
    a := if status == OK then Some(novel) else None;
    status, novel := box.Observe([x], true);
    b := if status == OK then Some(novel) else None;
  }

  lemma OnePoint(n: Numbers, x: real)
    ensures AllHave(n, [x]) <==> Has(n, x)
  {
    assert [x][0] == x;
  }

  ghost predicate CallOk(c: Config, call: Call) {
    call.Observing? ==> Has(c.numbers, call.x)
  }

  /** No point that the calls observe rounds outward. */
  ghost predicate NothingOutward(c: Config, calls: seq<Call>)
    requires Sensible(c.numbers)
  {
    forall i :: 0 <= i < |calls| && calls[i].Observing? && c.domainMin <= calls[i].x <= c.domainMax ==>
                  !OutwardAt(c, calls[i].x)
  }

  /** With memory to spare, every sequence of observe and clear calls gets the oracle's answers from
      the AVL cache, and those of the rounded boxes from the append-only list; they are the same as
      long as no observed point rounds outward, and so always on exact reals. */
  method Replay(config: Config, calls: seq<Call>) returns (tree: Answers, list: Answers)
    requires ConfigOk(config) && |calls| < U64_MAX && forall i :: 0 <= i < |calls| ==> CallOk(config, calls[i])
    ensures |tree| == |list| == |calls|
    ensures forall i :: 0 <= i < |calls| ==> Answer(config, History(config, calls[..i]), calls[i], tree[i])
    ensures forall i :: 0 <= i < |calls| ==> ListAnswer(config, History(config, calls[..i]), calls[i], list[i])
    ensures NothingOutward(config, calls) || config.numbers.Exact? ==> tree == list
  {
    hide Novel; hide History; hide FutCache.Valid; hide BoxCache.Valid; hide ConfigOk; hide Paired; hide InBoxes;
    hide OutwardAt; hide Answered; hide Has; hide NothingOutward;
    BoxConfigIsOk(config);
    var cache, box := CreateBoth(config);
    tree, list := [], [];
    HistoryStarts(config, calls);
    for i := 0 to |calls|
      invariant Paired(cache, box, config, History(config, calls[..i])) && |History(config, calls[..i])| <= i
      invariant cache.config == config
      invariant fresh(cache) && fresh(box) && fresh(box.rects) && fresh(ReprOf(cache.root))
      invariant {box, box.rects} !! ReprOf(cache.root)
      invariant |tree| == |list| == i
      invariant forall k :: 0 <= k < i ==> Answer(config, History(config, calls[..k]), calls[k], tree[k])
      invariant forall k :: 0 <= k < i ==> ListAnswer(config, History(config, calls[..k]), calls[k], list[k])
    {
      HistoryStep(config, calls, i);
      var a, b: Option<bool> := None, None;
      if calls[i].Observing? {
        assert CallOk(config, calls[i]);
        a, b := ObserveBoth(cache, box, calls[i].x, History(config, calls[..i]));
      } else {
        ClearBoth(cache, box, History(config, calls[..i]));
        NothingToAnswer(config, History(config, calls[..i]), calls[i]);
      }
      tree, list := tree + [a], list + [b];
    }
    assert calls[..|calls|] == calls;
    if NothingOutward(config, calls) || config.numbers.Exact? {
      forall i | 0 <= i < |calls| ensures tree[i] == list[i] {
        SameAnswer(config, calls, i, tree[i], list[i]);
      }
    }
  }

  lemma NothingToAnswer(c: Config, history: seq<real>, call: Call)
    requires call.Clearing? && Sensible(c.numbers)
    ensures Answer(c, history, call, None) && ListAnswer(c, history, call, None)
  {
  }

  lemma {:induction false} HistoryFromCalls(c: Config, calls: seq<Call>, p: real)
    requires p in History(c, calls)
    ensures exists i :: 0 <= i < |calls| && calls[i] == Observing(p) && c.domainMin <= p <= c.domainMax
  {
    var n := |calls| - 1;
    if calls[n] != Observing(p) || !(c.domainMin <= p <= c.domainMax) {
      HistoryFromCalls(c, calls[..n], p);
      var i :| 0 <= i < n && calls[..n][i] == Observing(p);
      assert calls[i] == Observing(p);
    }
  }

  lemma SameAnswer(c: Config, calls: seq<Call>, i: nat, a: Option<bool>, b: Option<bool>)
    requires ConfigOk(c) && i < |calls| && forall k :: 0 <= k < |calls| ==> CallOk(c, calls[k])
    requires NothingOutward(c, calls) || c.numbers.Exact?
    requires Answer(c, History(c, calls[..i]), calls[i], a) && ListAnswer(c, History(c, calls[..i]), calls[i], b)
    ensures a == b
  {
    hide Novel; hide ConfigOk; hide InBoxes; hide OutwardAt; hide History; hide Has;
    BoxConfigIsOk(c);
    var h := History(c, calls[..i]);
    forall p | p in h ensures InDomain(c, p) && (c.numbers.Exact? || !OutwardAt(c, p)) {
      HistoryFromCalls(c, calls[..i], p);
      var k :| 0 <= k < i && calls[..i][k] == Observing(p);
      assert calls[k] == Observing(p) && CallOk(c, calls[k]);
    }
    if calls[i].Observing? && c.domainMin <= calls[i].x <= c.domainMax {
      assert CallOk(c, calls[i]) && InDomain(c, calls[i].x);
      BoxesDecideNovelty(c, h, calls[i].x);
    }
  }

  lemma HistoryStarts(c: Config, calls: seq<Call>)
    ensures History(c, calls[..0]) == []
  {
  }

  lemma LiftNone()
    ensures Lift([]) == []
  {
  }

  lemma HistoryStep(c: Config, calls: seq<Call>, i: nat)
    requires i < |calls|
    ensures History(c, calls[..i + 1]) ==
            match calls[i]
            case Clearing => []
            case Observing(x) =>
              if c.domainMin <= x <= c.domainMax then History(c, calls[..i]) + [x] else History(c, calls[..i])
  {
    assert calls[..i + 1][..i] == calls[..i];
  }

  lemma LiftSnoc(history: seq<real>, x: real)
    ensures Lift(history + [x]) == Lift(history) + [[x]]
  {
  }

  lemma PointInBounds(x: real, lo: real, hi: real)
    ensures Metrics.InBounds([x], [lo], [hi]) <==> lo <= x <= hi
  {
    assert [x][0] == x && [lo][0] == lo && [hi][0] == hi;
  }

  lemma Sizes(cache: FutCache, box: BoxCache)
    requires cache.Valid() && box.Valid()
    ensures cache.intervalCount <= |cache.points| && box.count == |box.points|
  {
    HistoryCounts(cache.config, cache.points, cache.novel, cache.List());
  }

  // ---------------------------------------------------------------- rounded ends

  /** On representable numbers one observation covers the same representable points of the domain
      in both engines exactly when neither end rounds outward within the domain. */
  lemma RoundedEnginesAgreeIff(c: Config, x: real)
    requires ConfigOk(c) && InDomain(c, x)
    ensures (forall y :: InDomain(c, y) ==> (Inside(RoundedBox(c, x), y) <==> Inside(Ball(c, x), y)))
            <==> !OutwardAt(c, x)
  {
    hide MakeEpsilonBall; hide LowerEnd; hide UpperEnd; hide Round; hide Sensible;
    var lo, hi := Round(c.numbers, x - c.epsilon), Round(c.numbers, x + c.epsilon);
    forall y | InDomain(c, y)
      ensures Inside(RoundedBox(c, x), y)
              <==> (x - c.epsilon <= y || (lo.Finite? && c.domainMin <= lo.value <= y))
                   && (y <= x + c.epsilon || (hi.Finite? && y <= hi.value <= c.domainMax))
      ensures Inside(Ball(c, x), y) <==> x - c.epsilon <= y <= x + c.epsilon
    {
      LowerEndExact(c.numbers, x, c.epsilon, c.domainMin, c.domainMax, y);
      UpperEndExact(c.numbers, x, c.epsilon, c.domainMin, c.domainMax, y);
      BallExact(c.numbers, x, c.epsilon, c.domainMin, c.domainMax, y);
    }
    if lo.Finite? {
      RoundIsNearest(c.numbers, x - c.epsilon, x);
      if c.domainMin <= lo.value < x - c.epsilon {
        assert InDomain(c, lo.value) && lo.value <= x + c.epsilon;
      }
    }
    if hi.Finite? {
      RoundIsNearest(c.numbers, x + c.epsilon, x);
      if x + c.epsilon < hi.value <= c.domainMax {
        assert InDomain(c, hi.value) && x - c.epsilon <= hi.value;
      }
    }
  }

  ghost predicate HistoryOver(points: iset<real>, history: seq<real>) {
    forall p :: p in history ==> p in points
  }

  ghost predicate SameUnions(c: Config, history: seq<real>)
    requires Sensible(c.numbers)
  {
    forall y :: InDomain(c, y) ==> (InBoxes(c, history, y) <==> InUnion(c, history, y))
  }

  /** And over a set of points: every history made of them gives the same cover in both engines
      exactly when no point of the set rounds outward. */
  lemma StreamsAgreeIff(c: Config, points: iset<real>)
    requires ConfigOk(c) && forall p :: p in points ==> InDomain(c, p)
    ensures (forall history :: HistoryOver(points, history) ==> SameUnions(c, history))
            <==> forall p :: p in points ==> !OutwardAt(c, p)
  {
    hide ConfigOk; hide InDomain; hide RoundedBox; hide Ball; hide OutwardAt;
    BoxConfigIsOk(c);
    if forall p :: p in points ==> !OutwardAt(c, p) {
      forall history | HistoryOver(points, history) ensures SameUnions(c, history) {
        forall p | p in history
          ensures forall y :: InDomain(c, y) ==> (Inside(RoundedBox(c, p), y) <==> Inside(Ball(c, p), y))
        {
          RoundedEnginesAgreeIff(c, p);
        }
      }
    }
    if forall history :: HistoryOver(points, history) ==> SameUnions(c, history) {
      forall p | p in points ensures !OutwardAt(c, p) {
        assert HistoryOver(points, [p]);
        SinglePoint(c, p);
        RoundedEnginesAgreeIff(c, p);
      }
    }
  }

  lemma SinglePoint(c: Config, p: real)
    requires Sensible(c.numbers) && SameUnions(c, [p])
    ensures forall y :: InDomain(c, y) ==> (Inside(RoundedBox(c, p), y) <==> Inside(Ball(c, p), y))
  {
    hide InDomain; hide RoundedBox; hide Ball; hide Sensible;
    forall y | InDomain(c, y) ensures Inside(RoundedBox(c, p), y) <==> Inside(Ball(c, p), y) {
      assert p in [p];
      assert InBoxes(c, [p], y) <==> Inside(RoundedBox(c, p), y);
      assert InUnion(c, [p], y) <==> Inside(Ball(c, p), y);
    }
  }
}

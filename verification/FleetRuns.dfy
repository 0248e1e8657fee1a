/** Runs of the fleet as values: how a stream is sharded, what a round of gossip does to what the
    workers hold and have heard, and when all workers have reached the target. */
module FleetRuns {
  import opened Arithmetic
  import opened Cells
  import opened Crdt
  import opened FleetSpec
  import opened Metrics
  import opened Wrappers

  // ---------------------------------------------------------------- sharding

  ghost function Blank(config: Config): Cells {
    seq(|config.anchors|, _ => None)
  }

  /** What observing a point without payload does to the cells. */
  ghost function ObserveCells(config: Config, s: Cells, p: Point): (t: Cells)
    requires ConfigOk(config) && |s| == |config.anchors|
    ensures |t| == |s|
  {
    if InDomain(config, p) && s[CellOf(config, p)].None?
    then s[CellOf(config, p) := Some(Entry(p, [], config.priority(p, [])))]
    else s
  }

  ghost function CellsAt(config: Config, p: Point): set<nat>
    requires ConfigOk(config)
  {
    if InDomain(config, p) then {CellOf(config, p)} else {}
  }

  lemma ObservedCells(config: Config, s: Cells, p: Point)
    requires ConfigOk(config) && |s| == |config.anchors|
    ensures OccupiedSet(ObserveCells(config, s, p)) == OccupiedSet(s) + CellsAt(config, p)
    ensures Bare(s) ==> Bare(ObserveCells(config, s, p))
  {
    hide InDomain; hide ConfigOk; hide CellOf;
  }

  /** The cells of worker i when point k of the stream goes to worker assign(k). */
  ghost function ShardCells(config: Config, points: seq<Point>, assign: nat -> nat, i: nat): (s: Cells)
    requires ConfigOk(config)
    ensures |s| == |config.anchors|
  {
    if points == [] then Blank(config)
    else
      var n := |points| - 1;
      var s := ShardCells(config, points[..n], assign, i);
      if assign(n) == i then ObserveCells(config, s, points[n]) else s
  }

  /** The part of the stream that goes to worker i. */
  function Shard(points: seq<Point>, assign: nat -> nat, i: nat): seq<Point> {
    if points == [] then []
    else
      var n := |points| - 1;
      Shard(points[..n], assign, i) + if assign(n) == i then [points[n]] else []
  }

  /** A worker occupies exactly the cells of the points it was given. */
  lemma {:induction false} ShardOccupies(config: Config, points: seq<Point>, assign: nat -> nat, i: nat)
    requires ConfigOk(config)
    ensures OccupiedSet(ShardCells(config, points, assign, i)) == Image(config, Shard(points, assign, i))
    ensures Bare(ShardCells(config, points, assign, i))
  {
    hide InDomain; hide ConfigOk; hide CellOf; hide OccupiedSet; hide Bare; hide Image; hide ObserveCells;
    if points == [] {
      BlankIsEmpty(config);
    } else {
      var n := |points| - 1;
      ShardOccupies(config, points[..n], assign, i);
      ObservedCells(config, ShardCells(config, points[..n], assign, i), points[n]);
      ImageSnoc(config, Shard(points[..n], assign, i), points[n]);
      assert assign(n) != i ==> Shard(points, assign, i) == Shard(points[..n], assign, i);
    }
  }

  lemma BlankIsEmpty(config: Config)
    requires ConfigOk(config)
    ensures OccupiedSet(Blank(config)) == {} == Image(config, []) && Bare(Blank(config))
  {
  }

  /** The fleet of w workers once the stream has been handed out. */
  ghost function Sharded(config: Config, points: seq<Point>, assign: nat -> nat, w: nat): (world: seq<Cells>)
    requires ConfigOk(config)
    ensures |world| == w
  {
    seq(w, i requires 0 <= i < w => ShardCells(config, points, assign, i))
  }

  ghost predicate Assigns(assign: nat -> nat, count: nat, w: nat) {
    forall k: nat :: k < count ==> assign(k) < w
  }

  function RoundRobin(w: nat): nat -> nat
    requires w > 0
  {
    (k: nat) => k % w
  }

  /** The first w points go to the w workers in order, and two positions share a worker exactly
      when a multiple of w lies between them. */
  lemma RoundRobinShares(w: nat, i: nat, j: nat)
    requires w > 0 && i <= j
    ensures i < w ==> RoundRobin(w)(i) == i
    ensures RoundRobin(w)(i) == RoundRobin(w)(j) <==> exists m: nat :: j == i + w * m
  {
    if i % w == j % w {
      var m := Difference(w, i, j);
    }
    if m: nat :| j == i + w * m {
      Shifted(w, i, m);
    }
    if i < w {
      Quotient(w, i, 0, i);
    }
  }

  lemma Difference(w: nat, i: nat, j: nat) returns (m: nat)
    requires w > 0 && i <= j && i % w == j % w
    ensures j == i + w * m
  {
    var p, q := i / w, j / w;
    assert i == w * p + i % w && j == w * q + i % w;
    if q < p {
      Spread(w, q, p);
    }
    m := q - p;
    Times(w, p, m);
  }

  lemma Shifted(w: nat, i: nat, m: nat)
    requires w > 0
    ensures (i + w * m) % w == i % w
  {
    var p := i / w;
    Times(w, p, m);
    Quotient(w, i + w * m, p + m, i % w);
  }

  lemma Times(w: nat, p: nat, m: nat)
    ensures w * (p + m) == w * p + w * m
  {
  }

  lemma ShardedSnoc(config: Config, points: seq<Point>, assign: nat -> nat, w: nat, n: nat)
    requires ConfigOk(config) && n < |points| && assign(n) < w
    ensures var before := Sharded(config, points[..n], assign, w);
            Sharded(config, points[..n + 1], assign, w)
            == before[assign(n) := ObserveCells(config, before[assign(n)], points[n])]
  {
    hide InDomain; hide ConfigOk; hide CellOf; hide ObserveCells;
    assert points[..n + 1][..n] == points[..n];
  }

  /** However a stream is split over the workers, together they occupy the cells of the stream. */
  lemma {:induction false} ShardingIsIrrelevant(config: Config, points: seq<Point>, assign: nat -> nat, w: nat)
    requires ConfigOk(config) && Assigns(assign, |points|, w)
    ensures Joint(Sharded(config, points, assign, w)) == Image(config, points)
  {
    hide InDomain; hide ConfigOk; hide CellOf; hide OccupiedSet; hide Image; hide ObserveCells; hide Joint;
    hide Sharded;
    if points == [] {
      NothingSharded(config, assign, w);
    } else {
      var n := |points| - 1;
      ShardingIsIrrelevant(config, points[..n], assign, w);
      var before := Sharded(config, points[..n], assign, w);
      assert points[..n + 1] == points == points[..n] + [points[n]];
      ShardedSnoc(config, points, assign, w, n);
      SizesOfSharded(config, points[..n], assign, w);
      ObservedCells(config, before[assign(n)], points[n]);
      JointUpdate(before, assign(n), ObserveCells(config, before[assign(n)], points[n]), CellsAt(config, points[n]));
      ImageSnoc(config, points[..n], points[n]);
    }
  }

  lemma SizesOfSharded(config: Config, points: seq<Point>, assign: nat -> nat, w: nat)
    requires ConfigOk(config)
    ensures forall i :: 0 <= i < w ==> |Sharded(config, points, assign, w)[i]| == |config.anchors|
  {
  }

  lemma NothingSharded(config: Config, assign: nat -> nat, w: nat)
    requires ConfigOk(config)
    ensures Joint(Sharded(config, [], assign, w)) == {} == Image(config, [])
    ensures forall i :: 0 <= i < w ==> Sharded(config, [], assign, w)[i] == Blank(config)
  {
    BlankIsEmpty(config);
  }

  // ---------------------------------------------------------------- rounds of gossip

  /** What the workers hold and what each has heard. */
  datatype Knowledge = Knowledge(world: seq<Cells>, heard: seq<set<Update>>)

  ghost predicate WellSized(g: Knowledge) {
    && |g.heard| == |g.world|
    && forall i, j :: 0 <= i < |g.world| && 0 <= j < |g.world| ==> |g.world[i]| == |g.world[j]|
  }

  /** The workers in `to` have merged a snapshot of worker i; the others are as before. */
  ghost function SentTo(g: Knowledge, i: nat, to: set<nat>): (r: Knowledge)
    requires WellSized(g) && i < |g.world|
    ensures WellSized(r) && |r.world| == |g.world|
    ensures forall k :: 0 <= k < |r.world| ==> |r.world[k]| == |g.world[k]|
  {
    Knowledge(seq(|g.world|, k requires 0 <= k < |g.world| =>
                    if k in to then Merge(g.world[k], g.world[i]) else g.world[k]),
              seq(|g.heard|, k requires 0 <= k < |g.heard| =>
                    if k in to then g.heard[k] + g.heard[i] else g.heard[k]))
  }

  /** The first |picks| workers in turn send to the peers they picked. */
  ghost function Round(g: Knowledge, picks: seq<set<nat>>): (r: Knowledge)
    requires WellSized(g) && |picks| <= |g.world|
    ensures WellSized(r) && |r.world| == |g.world|
    ensures forall i :: 0 <= i < |r.world| ==> |r.world[i]| == |g.world[i]|
  {
    if picks == [] then g
    else
      var n := |picks| - 1;
      SentTo(Round(g, picks[..n]), n, picks[n])
  }

  /** The updates merged in those sendings. */
  ghost function Merged(g: Knowledge, picks: seq<set<nat>>): nat
    requires WellSized(g) && |picks| <= |g.world|
  {
    if picks == [] then 0
    else
      var n := |picks| - 1;
      Merged(g, picks[..n]) + |picks[n]| * Occupied(Round(g, picks[..n]).world[n])
  }

  lemma RoundStarts(g: Knowledge)
    requires WellSized(g)
    ensures Round(g, []) == g && Merged(g, []) == 0
  {
  }

  lemma RoundSnoc(g: Knowledge, picks: seq<set<nat>>, to: set<nat>)
    requires WellSized(g) && |picks| < |g.world|
    ensures Round(g, picks + [to]) == SentTo(Round(g, picks), |picks|, to)
    ensures Merged(g, picks + [to]) == Merged(g, picks) + |to| * Occupied(Round(g, picks).world[|picks|])
  {
    hide SentTo; hide Occupied;
    assert (picks + [to])[..|picks|] == picks;
  }

  ghost predicate PickOk(pick: set<nat>, i: nat, w: nat, k: nat) {
    i !in pick && |pick| == k && forall j :: j in pick ==> j < w
  }

  /** Each of these workers picked k others. */
  ghost predicate PicksOk(picks: seq<set<nat>>, w: nat, k: nat) {
    forall i :: 0 <= i < |picks| ==> PickOk(picks[i], i, w, k)
  }

  /** Rounds of gossip among w workers, each sending to k others: history[r] is how matters stand
      after r rounds. */
  ghost predicate Gossips(history: seq<Knowledge>, picks: seq<seq<set<nat>>>, w: nat, k: nat) {
    && |history| == |picks| + 1
    && (forall r :: 0 <= r < |history| ==> WellSized(history[r]) && |history[r].world| == w)
    && forall r :: 0 <= r < |picks| ==>
                     |picks[r]| == w && PicksOk(picks[r], w, k) && history[r + 1] == Round(history[r], picks[r])
  }

  /** A run of the fleet: the stream handed out, then gossip. Before it, every worker has heard
      its own entries. */
  ghost predicate FleetRun(config: Config, points: seq<Point>, assign: nat -> nat, w: nat, k: nat,
                           history: seq<Knowledge>, picks: seq<seq<set<nat>>>)
    requires ConfigOk(config)
  {
    && Gossips(history, picks, w, k)
    && history[0] == Knowledge(Sharded(config, points, assign, w), Own(Sharded(config, points, assign, w)))
  }

  lemma InformedSends(n: nat, initial: seq<set<Update>>, g: Knowledge, i: nat, to: set<nat>)
    requires WellSized(g) && i < |g.world| && Informed(n, initial, g.world, g.heard)
    ensures Informed(n, initial, SentTo(g, i, to).world, SentTo(g, i, to).heard)
  {
    hide IsJoin; hide Merge; hide UnionOf;
    var r := SentTo(g, i, to);
    forall k | 0 <= k < |r.world|
      ensures |r.world[k]| == n && IsJoin(r.world[k], r.heard[k]) && initial[k] <= r.heard[k] <= UnionOf(initial)
    {
      MergeSize(g.world[k], g.world[i]);
      MergeJoins(g.world[k], g.heard[k], g.world[i], g.heard[i]);
    }
  }

  lemma {:induction false} InformedRound(n: nat, initial: seq<set<Update>>, g: Knowledge, picks: seq<set<nat>>)
    requires WellSized(g) && |picks| <= |g.world| && Informed(n, initial, g.world, g.heard)
    ensures Informed(n, initial, Round(g, picks).world, Round(g, picks).heard)
  {
    hide Informed; hide SentTo;
    if picks != [] {
      var k := |picks| - 1;
      InformedRound(n, initial, g, picks[..k]);
      InformedSends(n, initial, Round(g, picks[..k]), k, picks[k]);
    }
  }

  ghost function StartOf(config: Config, points: seq<Point>, assign: nat -> nat, w: nat): (initial: seq<set<Update>>)
    requires ConfigOk(config)
    ensures |initial| == w
  {
    Own(Sharded(config, points, assign, w))
  }

  /** On every run, after every number of rounds, each worker holds the join of what it has heard,
      and the fleet occupies together the cells of the stream. */
  lemma {:induction false} RunInformed(config: Config, points: seq<Point>, assign: nat -> nat, w: nat, k: nat,
                                       history: seq<Knowledge>, picks: seq<seq<set<nat>>>, r: nat)
    requires ConfigOk(config) && Assigns(assign, |points|, w)
    requires FleetRun(config, points, assign, w, k, history, picks) && r < |history|
    ensures Informed(|config.anchors|, StartOf(config, points, assign, w), history[r].world, history[r].heard)
    ensures Joint(history[r].world) == Image(config, points)
  {
    hide Informed; hide ConfigOk; hide Joint; hide Image; hide HeardCells; hide UnionOf; hide Own; hide Sharded;
    hide Round; hide PicksOk;
    var initial := StartOf(config, points, assign, w);
    if r == 0 {
      SizesOfSharded(config, points, assign, w);
      InformedStart(|config.anchors|, history[0].world);
    } else {
      RunInformed(config, points, assign, w, k, history, picks, r - 1);
      InformedRound(|config.anchors|, initial, history[r - 1], picks[r - 1]);
    }
    InformedAtStart(config, points, assign, w);
    JointIsKept(|config.anchors|, initial, history[r].world, history[r].heard);
    JointIsKept(|config.anchors|, initial, Sharded(config, points, assign, w), initial);
    ShardingIsIrrelevant(config, points, assign, w);
  }

  lemma InformedAtStart(config: Config, points: seq<Point>, assign: nat -> nat, w: nat)
    requires ConfigOk(config)
    ensures Informed(|config.anchors|, StartOf(config, points, assign, w), Sharded(config, points, assign, w),
                     StartOf(config, points, assign, w))
  {
    hide Informed; hide ConfigOk; hide Own; hide Sharded;
    SizesOfSharded(config, points, assign, w);
    InformedStart(|config.anchors|, Sharded(config, points, assign, w));
  }

  // ---------------------------------------------------------------- full fan-in

  /** Everyone has heard what the first k workers started with. */
  ghost predicate FannedIn(initial: seq<set<Update>>, heard: seq<set<Update>>, k: nat) {
    && |initial| == |heard|
    && forall i, j :: 0 <= i < k && i < |heard| && 0 <= j < |heard| ==> initial[i] <= heard[j]
  }

  ghost function NumbersBelow(w: nat): (s: set<nat>)
    ensures forall j :: j in s <==> 0 <= j < w
    ensures |s| == w
  {
    if w == 0 then {} else NumbersBelow(w - 1) + {w - 1}
  }

  /** Whoever picks as many others as there are picks them all. */
  lemma PicksEveryone(pick: set<nat>, i: nat, w: nat, j: nat)
    requires i < w && j < w && j != i && PickOk(pick, i, w, w - 1)
    ensures j in pick
  {
    var others := NumbersBelow(w) - {i};
    assert |others| == w - 1;
    SubsetSize(pick, others);
  }

  lemma {:induction false} FullRound(n: nat, initial: seq<set<Update>>, g: Knowledge, picks: seq<set<nat>>)
    requires WellSized(g) && |picks| <= |g.world| && Informed(n, initial, g.world, g.heard)
    requires |g.world| > 0 && PicksOk(picks, |g.world|, |g.world| - 1)
    ensures FannedIn(initial, Round(g, picks).heard, |picks|)
  {
    hide Informed; hide PickOk; hide SentTo; hide FannedIn;
    if picks == [] {
      NobodySent(n, initial, g);
    } else {
      var k := |picks| - 1;
      FullRound(n, initial, g, picks[..k]);
      InformedRound(n, initial, g, picks[..k]);
      assert PickOk(picks[k], k, |g.world|, |g.world| - 1);
      FullSending(n, initial, Round(g, picks[..k]), k, picks[k]);
    }
  }

  lemma NobodySent(n: nat, initial: seq<set<Update>>, g: Knowledge)
    requires Informed(n, initial, g.world, g.heard)
    ensures FannedIn(initial, g.heard, 0)
  {
  }

  lemma FullSending(n: nat, initial: seq<set<Update>>, g: Knowledge, i: nat, to: set<nat>)
    requires WellSized(g) && i < |g.world| && Informed(n, initial, g.world, g.heard)
    requires PickOk(to, i, |g.world|, |g.world| - 1) && FannedIn(initial, g.heard, i)
    ensures FannedIn(initial, SentTo(g, i, to).heard, i + 1)
  {
    hide IsJoin; hide UnionOf; hide Merge;
    forall j | 0 <= j < |g.world| && j != i ensures j in to {
      PicksEveryone(to, i, |g.world|, j);
    }
  }

  lemma FanInEnds(n: nat, initial: seq<set<Update>>, world: seq<Cells>, heard: seq<set<Update>>)
    requires Informed(n, initial, world, heard) && FannedIn(initial, heard, |heard|)
    ensures AllHeard(initial, heard)
  {
    hide IsJoin;
    forall k | 0 <= k < |heard| ensures heard[k] == UnionOf(initial) {
      forall u | u in UnionOf(initial) ensures u in heard[k] {
        var i :| 0 <= i < |initial| && u in initial[i];
        assert initial[i] <= heard[k];
      }
    }
  }

  /** Full fan-in, for every sharding of every stream: after any round in which every worker sends
      to all others, every worker occupies exactly the cells of the whole stream, as one worker
      observing it would, and is the join of all starting states; priorities agree, and whole
      states unless two different entries of a cell share a priority. Sending to as many peers as
      there are is full fan-in, whatever the generator picks. */
  lemma FullFanIn(config: Config, points: seq<Point>, assign: nat -> nat, w: nat, history: seq<Knowledge>,
                  picks: seq<seq<set<nat>>>, r: nat, i: nat, j: nat)
    requires ConfigOk(config) && Assigns(assign, |points|, w) && 0 < r < |history| && i < w && j < w
    requires FleetRun(config, points, assign, w, w - 1, history, picks)
    ensures |history[r].world| == w
    ensures OccupiedSet(history[r].world[i]) == Image(config, points)
    ensures IsJoin(history[r].world[i], UnionOf(StartOf(config, points, assign, w)))
    ensures SameShape(history[r].world[i], history[r].world[j])
    ensures NoCollision(UnionOf(StartOf(config, points, assign, w))) ==> history[r].world[i] == history[r].world[j]
  {
    hide Informed; hide ConfigOk; hide Joint; hide Image; hide UnionOf; hide Own; hide Sharded; hide OccupiedSet;
    hide IsJoin; hide SameShape; hide NoCollision; hide Round; hide PicksOk; hide AllHeard; hide FannedIn;
    var n, initial := |config.anchors|, StartOf(config, points, assign, w);
    RunInformed(config, points, assign, w, w - 1, history, picks, r - 1);
    RunInformed(config, points, assign, w, w - 1, history, picks, r);
    FullRound(n, initial, history[r - 1], picks[r - 1]);
    FanInEnds(n, initial, history[r].world, history[r].heard);
    FullyInformed(n, initial, history[r].world, history[r].heard, i, j);
  }

  // ---------------------------------------------------------------- the convergence round

  /** The check after a round: every worker occupies as many cells as the target. */
  ghost predicate Reached(world: seq<Cells>, target: nat) {
    forall i :: 0 <= i < |world| ==> Occupied(world[i]) == target
  }

  /** What the benchmark reports: the first successful check after a round, or 0. */
  ghost predicate Reported(history: seq<Knowledge>, target: nat, round: nat) {
    && round < |history|
    && (round > 0 ==> Reached(history[round].world, target))
    && forall r :: 0 < r < (if round > 0 then round else |history|) ==> !Reached(history[r].world, target)
  }

  /** What it documents: the first round at which all workers reach the target, 0 standing for
      before any gossip. */
  ghost predicate FirstReached(history: seq<Knowledge>, target: nat, round: nat) {
    && round < |history| && Reached(history[round].world, target)
    && forall r :: 0 <= r < round ==> !Reached(history[r].world, target)
  }

  /** Some check after a round succeeds. */
  ghost predicate EverReached(history: seq<Knowledge>, target: nat) {
    exists r :: 0 < r < |history| && Reached(history[r].world, target)
  }

  /** For any history and target, the number reported is the documented one exactly when the
      target is reached either before gossip or in some round, but not both: reached before gossip
      and again, the first round hides it; never reached, 0 claims it was at the start. */
  lemma ReportedIsDocumentedIff(history: seq<Knowledge>, target: nat, round: nat)
    requires history != [] && Reported(history, target, round)
    ensures FirstReached(history, target, round)
            <==> (Reached(history[0].world, target) <==> !EverReached(history, target))
  {
    hide Reached;
    if round > 0 {
      assert EverReached(history, target);
    }
  }

  /** Once all workers occupy the cells of the stream, more gossip keeps it so. */
  lemma ReachedStays(config: Config, points: seq<Point>, assign: nat -> nat, w: nat, k: nat,
                     history: seq<Knowledge>, picks: seq<seq<set<nat>>>, r: nat, t: nat)
    requires ConfigOk(config) && Assigns(assign, |points|, w) && r <= t < |history|
    requires FleetRun(config, points, assign, w, k, history, picks)
    requires Reached(history[r].world, |Image(config, points)|)
    ensures Reached(history[t].world, |Image(config, points)|)
    decreases t
  {
    hide Informed; hide ConfigOk; hide Joint; hide Image; hide Own; hide Sharded; hide OccupiedSet; hide Occupied;
    hide PicksOk; hide Round; hide HeardMore;
    if r < t {
      ReachedStays(config, points, assign, w, k, history, picks, r, t - 1);
      var n, initial := |config.anchors|, StartOf(config, points, assign, w);
      var g, h := history[t - 1], history[t];
      RunInformed(config, points, assign, w, k, history, picks, t - 1);
      RunInformed(config, points, assign, w, k, history, picks, t);
      RoundGrows(g, picks[t - 1]);
      forall i | 0 <= i < |h.world| ensures Occupied(h.world[i]) == |Image(config, points)| {
        StaysFull(n, initial, g, h, i);
      }
    }
  }

  ghost predicate HeardMore(g: Knowledge, h: Knowledge) {
    |g.heard| == |h.heard| && forall k :: 0 <= k < |g.heard| ==> g.heard[k] <= h.heard[k]
  }

  lemma {:induction false} RoundGrows(g: Knowledge, picks: seq<set<nat>>)
    requires WellSized(g) && |picks| <= |g.world|
    ensures HeardMore(g, Round(g, picks))
  {
    hide Merge;
    if picks != [] {
      RoundGrows(g, picks[..|picks| - 1]);
    }
  }

  lemma StaysFull(n: nat, initial: seq<set<Update>>, g: Knowledge, h: Knowledge, i: nat)
    requires Informed(n, initial, g.world, g.heard) && Informed(n, initial, h.world, h.heard) && HeardMore(g, h)
    requires i < |g.world| == |h.world| && Joint(h.world) == Joint(g.world)
    requires Occupied(g.world[i]) == |Joint(g.world)|
    ensures Occupied(h.world[i]) == |Joint(h.world)|
  {
    hide Joint; hide Occupied; hide OccupiedSet; hide IsJoin; hide UnionOf; hide HeardCells;
    ReachedIffJoint(n, initial, g.world, g.heard, i);
    ReachedIffJoint(n, initial, h.world, h.heard, i);
    JoinOccupied(g.world[i], g.heard[i]);
    JoinOccupied(h.world[i], h.heard[i]);
    CellsGrow(g.heard[i], h.heard[i]);
    WithinJoint(h.world, i);
  }

  lemma CellsGrow(a: set<Update>, b: set<Update>)
    requires a <= b
    ensures HeardCells(a) <= HeardCells(b)
  {
  }

  lemma WithinJoint(world: seq<Cells>, i: nat)
    requires i < |world|
    ensures OccupiedSet(world[i]) <= Joint(world)
  {
    hide OccupiedSet;
  }

  /** Every shard alone has the target's number of cells: known before the run. */
  ghost predicate ShardsComplete(config: Config, points: seq<Point>, assign: nat -> nat, w: nat, target: nat)
    requires ConfigOk(config)
  {
    forall i: nat :: i < w ==> |Image(config, Shard(points, assign, i))| == target
  }

  lemma ReachedAtStart(config: Config, points: seq<Point>, assign: nat -> nat, w: nat, target: nat)
    requires ConfigOk(config)
    ensures Reached(Sharded(config, points, assign, w), target) <==> ShardsComplete(config, points, assign, w, target)
  {
    hide InDomain; hide ConfigOk; hide CellOf; hide Image; hide OccupiedSet; hide Occupied; hide ShardCells; hide Shard;
    forall i: nat | i < w
      ensures Occupied(Sharded(config, points, assign, w)[i]) == |Image(config, Shard(points, assign, i))|
    {
      ShardOccupies(config, points, assign, i);
      OccupiedSetSize(ShardCells(config, points, assign, i));
    }
  }

  /** With the target the benchmark uses, the count of one worker seeing the whole stream, the
      report is right exactly when some check succeeds, unless every shard alone was complete and
      there was any gossip to hide it. */
  lemma ReportIsRightIff(config: Config, points: seq<Point>, assign: nat -> nat, w: nat, k: nat,
                         history: seq<Knowledge>, picks: seq<seq<set<nat>>>, round: nat)
    requires ConfigOk(config) && Assigns(assign, |points|, w)
    requires FleetRun(config, points, assign, w, k, history, picks)
    requires Reported(history, |Image(config, points)|, round)
    ensures var target := |Image(config, points)|;
            var complete := ShardsComplete(config, points, assign, w, target);
            FirstReached(history, target, round)
            <==> (complete || EverReached(history, target)) && !(complete && |picks| > 0)
    ensures ShardsComplete(config, points, assign, w, |Image(config, points)|) && |picks| > 0 ==> round == 1
  {
    hide Reached; hide ConfigOk; hide Image; hide Sharded; hide Own; hide Round; hide PicksOk; hide ShardsComplete;
    var target := |Image(config, points)|;
    ReachedAtStart(config, points, assign, w, target);
    ReportedIsDocumentedIff(history, target, round);
    if Reached(history[0].world, target) && |picks| > 0 {
      ReachedStays(config, points, assign, w, k, history, picks, 0, 1);
      assert EverReached(history, target);
    }
  }

  /** Under full fan-in the report depends on the input alone: 1 when there is any gossip and the
      target is the size of the image, else 0; and it is right exactly when gossip was needed. */
  lemma FullFanInReport(config: Config, points: seq<Point>, assign: nat -> nat, w: nat, history: seq<Knowledge>,
                        picks: seq<seq<set<nat>>>, target: nat, round: nat)
    requires ConfigOk(config) && Assigns(assign, |points|, w) && w > 0
    requires FleetRun(config, points, assign, w, w - 1, history, picks) && Reported(history, target, round)
    ensures round == if |picks| > 0 && target == |Image(config, points)| then 1 else 0
    ensures FirstReached(history, target, round)
            <==> (ShardsComplete(config, points, assign, w, target)
                  <==> (|picks| == 0 || target != |Image(config, points)|))
  {
    hide Reached; hide ConfigOk; hide Image; hide Sharded; hide Own; hide Round; hide PicksOk; hide ShardsComplete;
    ReachedAtStart(config, points, assign, w, target);
    ReportedIsDocumentedIff(history, target, round);
    forall r | 0 < r < |history| ensures Reached(history[r].world, target) <==> target == |Image(config, points)| {
      FullFanInReached(config, points, assign, w, history, picks, r, target);
    }
    if |picks| > 0 && target == |Image(config, points)| {
      assert Reached(history[1].world, target);
    }
  }

  lemma FullFanInReached(config: Config, points: seq<Point>, assign: nat -> nat, w: nat, history: seq<Knowledge>,
                         picks: seq<seq<set<nat>>>, r: nat, target: nat)
    requires ConfigOk(config) && Assigns(assign, |points|, w) && w > 0 && 0 < r < |history|
    requires FleetRun(config, points, assign, w, w - 1, history, picks)
    ensures Reached(history[r].world, target) <==> target == |Image(config, points)|
  {
    hide ConfigOk; hide Image; hide Sharded; hide Own; hide Gossips; hide OccupiedSet; hide Occupied; hide IsJoin;
    hide UnionOf; hide SameShape; hide NoCollision;
    RunInformed(config, points, assign, w, w - 1, history, picks, r);
    FullFanIn(config, points, assign, w, history, picks, r, 0, 0);
    forall i | 0 <= i < w ensures Occupied(history[r].world[i]) == |Image(config, points)| {
      FullFanIn(config, points, assign, w, history, picks, r, i, i);
      OccupiedSetSize(history[r].world[i]);
    }
    assert Occupied(history[r].world[0]) == |Image(config, points)|;
  }

  /** One worker has reached the target before any gossip, and the report is 1. */
  lemma OneWorkerIsReportedLate(config: Config, points: seq<Point>, history: seq<Knowledge>,
                                picks: seq<seq<set<nat>>>, round: nat)
    requires ConfigOk(config) && |picks| > 0
    requires FleetRun(config, points, RoundRobin(1), 1, 0, history, picks)
    requires Reported(history, |Image(config, points)|, round)
    ensures Reached(history[0].world, |Image(config, points)|) && round == 1
    ensures !FirstReached(history, |Image(config, points)|, round)
  {
    hide Reached; hide ConfigOk; hide Image; hide Sharded; hide Own; hide Round; hide PicksOk; hide Reported;
    AllToOne(points, points);
    ReachedAtStart(config, points, RoundRobin(1), 1, |Image(config, points)|);
    ReportIsRightIff(config, points, RoundRobin(1), 1, 0, history, picks, round);
  }

  lemma OneForAll(k: nat)
    ensures RoundRobin(1)(k) == 0
  {
    Quotient(1, k, k, 0);
  }

  lemma {:induction false} AllToOne(points: seq<Point>, prefix: seq<Point>)
    requires prefix <= points
    ensures Shard(prefix, RoundRobin(1), 0) == prefix
  {
    hide RoundRobin;
    if prefix != [] {
      OneForAll(|prefix| - 1);
      AllToOne(points, prefix[..|prefix| - 1]);
    }
  }

  // ---------------------------------------------------------------- who has heard whom

  /** Whose starting entries each worker has heard, while the first |picks| workers send in turn. */
  ghost function Spreads(known: seq<set<nat>>, picks: seq<set<nat>>): (after: seq<set<nat>>)
    requires |picks| <= |known|
    ensures |after| == |known|
  {
    if picks == [] then known
    else
      var n := |picks| - 1;
      var k := Spreads(known, picks[..n]);
      seq(|k|, j requires 0 <= j < |k| => if j in picks[n] then k[j] + k[n] else k[j])
  }

  ghost predicate PicksSized(picks: seq<seq<set<nat>>>, w: nat) {
    forall r :: 0 <= r < |picks| ==> |picks[r]| == w
  }

  /** The same after whole rounds: reachability over the picks, from each worker knowing itself. */
  ghost function KnownAfter(picks: seq<seq<set<nat>>>, w: nat, r: nat): (known: seq<set<nat>>)
    requires PicksSized(picks, w) && r <= |picks|
    ensures |known| == w
  {
    if r == 0 then seq(w, i => {i}) else Spreads(KnownAfter(picks, w, r - 1), picks[r - 1])
  }

  ghost function StartsOf(initial: seq<set<Update>>, who: set<nat>): set<Update> {
    set i, u | i in who && i < |initial| && u in initial[i] :: u
  }

  ghost predicate Knows(initial: seq<set<Update>>, heard: seq<set<Update>>, known: seq<set<nat>>) {
    |heard| == |known| && forall j :: 0 <= j < |known| ==> heard[j] == StartsOf(initial, known[j])
  }

  lemma StartsUnion(initial: seq<set<Update>>, a: set<nat>, b: set<nat>)
    ensures StartsOf(initial, a + b) == StartsOf(initial, a) + StartsOf(initial, b)
  {
  }

  lemma {:induction false} SpreadsHeard(initial: seq<set<Update>>, g: Knowledge, known: seq<set<nat>>,
                                        picks: seq<set<nat>>)
    requires WellSized(g) && |picks| <= |g.world| == |known| && Knows(initial, g.heard, known)
    ensures Knows(initial, Round(g, picks).heard, Spreads(known, picks))
  {
    hide Merge; hide StartsOf;
    if picks != [] {
      var n := |picks| - 1;
      SpreadsHeard(initial, g, known, picks[..n]);
      var k := Spreads(known, picks[..n]);
      forall j | 0 <= j < |k|
        ensures Round(g, picks).heard[j] == StartsOf(initial, Spreads(known, picks)[j])
      {
        StartsUnion(initial, k[j], k[n]);
      }
    }
  }

  lemma KnowsItself(initial: seq<set<Update>>)
    ensures Knows(initial, initial, seq(|initial|, i => {i}))
  {
    forall j | 0 <= j < |initial| ensures initial[j] == StartsOf(initial, {j}) {
      assert j in {j};
    }
  }

  lemma GossipSizes(history: seq<Knowledge>, picks: seq<seq<set<nat>>>, w: nat, k: nat)
    requires Gossips(history, picks, w, k)
    ensures PicksSized(picks, w) && |history| == |picks| + 1
  {
  }

  /** On every run a worker has heard exactly the starting entries of the workers that reach it. */
  lemma {:induction false} HeardIsReached(config: Config, points: seq<Point>, assign: nat -> nat, w: nat, k: nat,
                                          history: seq<Knowledge>, picks: seq<seq<set<nat>>>, r: nat)
    requires ConfigOk(config) && FleetRun(config, points, assign, w, k, history, picks) && r < |history|
    ensures PicksSized(picks, w) && r <= |picks|
    ensures Knows(StartOf(config, points, assign, w), history[r].heard, KnownAfter(picks, w, r))
  {
    hide ConfigOk; hide Own; hide Sharded; hide Round; hide PicksOk; hide Knows; hide Spreads;
    GossipSizes(history, picks, w, k);
    var initial := StartOf(config, points, assign, w);
    if r == 0 {
      KnowsItself(initial);
    } else {
      HeardIsReached(config, points, assign, w, k, history, picks, r - 1);
      SpreadsHeard(initial, history[r - 1], KnownAfter(picks, w, r - 1), picks[r - 1]);
    }
  }

  /** The cells of the shards of these workers. */
  ghost function Gathered(config: Config, points: seq<Point>, assign: nat -> nat, who: set<nat>): set<nat>
    requires ConfigOk(config)
  {
    set i, c | i in who && c in Image(config, Shard(points, assign, i)) :: c
  }

  ghost predicate WithinFleet(who: set<nat>, w: nat) {
    forall i :: i in who ==> i < w
  }

  lemma {:induction false} SpreadsWithin(known: seq<set<nat>>, picks: seq<set<nat>>, w: nat)
    requires |picks| <= |known| && forall j :: 0 <= j < |known| ==> WithinFleet(known[j], w)
    ensures forall j :: 0 <= j < |known| ==> WithinFleet(Spreads(known, picks)[j], w)
  {
    if picks != [] {
      SpreadsWithin(known, picks[..|picks| - 1], w);
    }
  }

  lemma {:induction false} KnownWithin(picks: seq<seq<set<nat>>>, w: nat, r: nat)
    requires PicksSized(picks, w) && r <= |picks|
    ensures forall j :: 0 <= j < w ==> WithinFleet(KnownAfter(picks, w, r)[j], w)
  {
    if r > 0 {
      KnownWithin(picks, w, r - 1);
      SpreadsWithin(KnownAfter(picks, w, r - 1), picks[r - 1], w);
    }
  }

  lemma StartCells(config: Config, points: seq<Point>, assign: nat -> nat, w: nat, i: nat)
    requires ConfigOk(config) && i < w
    ensures HeardCells(StartOf(config, points, assign, w)[i]) == Image(config, Shard(points, assign, i))
  {
    hide ConfigOk; hide ShardCells; hide Shard; hide Image; hide OccupiedSet; hide IsJoin; hide HeardCells;
    ShardOccupies(config, points, assign, i);
    SelfJoin(ShardCells(config, points, assign, i));
    JoinOccupied(ShardCells(config, points, assign, i), StartOf(config, points, assign, w)[i]);
  }

  lemma GatheredCells(config: Config, points: seq<Point>, assign: nat -> nat, w: nat, who: set<nat>)
    requires ConfigOk(config) && WithinFleet(who, w)
    ensures HeardCells(StartsOf(StartOf(config, points, assign, w), who)) == Gathered(config, points, assign, who)
  {
    hide ConfigOk; hide StartOf; hide Shard; hide Image;
    var initial := StartOf(config, points, assign, w);
    forall i | i in who ensures HeardCells(initial[i]) == Image(config, Shard(points, assign, i)) {
      StartCells(config, points, assign, w, i);
    }
    forall c | c in HeardCells(StartsOf(initial, who)) ensures c in Gathered(config, points, assign, who) {
      var u :| u in StartsOf(initial, who) && u.cell == c;
      var i :| i in who && i < |initial| && u in initial[i];
      assert c in HeardCells(initial[i]);
    }
    forall c | c in Gathered(config, points, assign, who) ensures c in HeardCells(StartsOf(initial, who)) {
      var i :| i in who && c in Image(config, Shard(points, assign, i));
      assert c in HeardCells(initial[i]);
      var u: Update :| u in initial[i] && u.cell == c;
      assert u in StartsOf(initial, who);
    }
  }

  /** Every worker is reached by shards that make up the whole image: a matter of the stream, the
      sharding and the picks. */
  ghost predicate AllGathered(config: Config, points: seq<Point>, assign: nat -> nat, known: seq<set<nat>>)
    requires ConfigOk(config)
  {
    forall j :: 0 <= j < |known| ==> Gathered(config, points, assign, known[j]) == Image(config, points)
  }

  /** After r rounds a worker occupies the cells of the shards that reach it, so all have reached the
      target of the benchmark exactly when all have gathered the image. */
  lemma ReachedIffGathered(config: Config, points: seq<Point>, assign: nat -> nat, w: nat, k: nat,
                           history: seq<Knowledge>, picks: seq<seq<set<nat>>>, r: nat)
    requires ConfigOk(config) && Assigns(assign, |points|, w)
    requires FleetRun(config, points, assign, w, k, history, picks) && r < |history|
    ensures PicksSized(picks, w) && r <= |picks| && |history[r].world| == w
    ensures forall j :: 0 <= j < w ==>
              OccupiedSet(history[r].world[j]) == Gathered(config, points, assign, KnownAfter(picks, w, r)[j])
    ensures Reached(history[r].world, |Image(config, points)|)
            <==> AllGathered(config, points, assign, KnownAfter(picks, w, r))
  {
    hide ConfigOk; hide Image; hide Sharded; hide Own; hide Round; hide PicksOk; hide OccupiedSet; hide Occupied;
    hide IsJoin; hide UnionOf; hide Joint; hide Gathered; hide StartsOf; hide HeardCells; hide KnownAfter;
    HeardIsReached(config, points, assign, w, k, history, picks, r);
    RunInformed(config, points, assign, w, k, history, picks, r);
    KnownWithin(picks, w, r);
    var known := KnownAfter(picks, w, r);
    forall j | 0 <= j < w
      ensures OccupiedSet(history[r].world[j]) == Gathered(config, points, assign, known[j])
      ensures Occupied(history[r].world[j]) == |Image(config, points)|
              <==> Gathered(config, points, assign, known[j]) == Image(config, points)
    {
      JoinOccupied(history[r].world[j], history[r].heard[j]);
      GatheredCells(config, points, assign, w, known[j]);
      ReachedIffJoint(|config.anchors|, StartOf(config, points, assign, w), history[r].world, history[r].heard, j);
    }
  }

  ghost predicate EverGathered(config: Config, points: seq<Point>, assign: nat -> nat, w: nat,
                               picks: seq<seq<set<nat>>>)
    requires ConfigOk(config) && PicksSized(picks, w)
  {
    exists r :: 0 < r <= |picks| && AllGathered(config, points, assign, KnownAfter(picks, w, r))
  }

  lemma EverReachedIffGathered(config: Config, points: seq<Point>, assign: nat -> nat, w: nat, k: nat,
                               history: seq<Knowledge>, picks: seq<seq<set<nat>>>)
    requires ConfigOk(config) && Assigns(assign, |points|, w)
    requires FleetRun(config, points, assign, w, k, history, picks)
    ensures PicksSized(picks, w)
    ensures EverReached(history, |Image(config, points)|) <==> EverGathered(config, points, assign, w, picks)
  {
    hide Reached; hide ConfigOk; hide Image; hide FleetRun; hide AllGathered; hide KnownAfter;
    RunSizes(config, points, assign, w, k, history, picks);
    if EverReached(history, |Image(config, points)|) {
      var r :| 0 < r < |history| && Reached(history[r].world, |Image(config, points)|);
      ReachedIffGathered(config, points, assign, w, k, history, picks, r);
    }
    if EverGathered(config, points, assign, w, picks) {
      var r :| 0 < r <= |picks| && AllGathered(config, points, assign, KnownAfter(picks, w, r));
      ReachedIffGathered(config, points, assign, w, k, history, picks, r);
    }
  }

  lemma RunSizes(config: Config, points: seq<Point>, assign: nat -> nat, w: nat, k: nat,
                 history: seq<Knowledge>, picks: seq<seq<set<nat>>>)
    requires ConfigOk(config) && FleetRun(config, points, assign, w, k, history, picks)
    ensures PicksSized(picks, w) && |history| == |picks| + 1
  {
    GossipSizes(history, picks, w, k);
  }

  /** So whether the report is right can be read off the stream, the sharding and the picks: the
      image must be gathered at some time, and not before gossip if there is any. */
  lemma ReportIsRightIffGathered(config: Config, points: seq<Point>, assign: nat -> nat, w: nat, k: nat,
                                 history: seq<Knowledge>, picks: seq<seq<set<nat>>>, round: nat)
    requires ConfigOk(config) && Assigns(assign, |points|, w)
    requires FleetRun(config, points, assign, w, k, history, picks)
    requires Reported(history, |Image(config, points)|, round)
    ensures PicksSized(picks, w)
    ensures var before := ShardsComplete(config, points, assign, w, |Image(config, points)|);
            FirstReached(history, |Image(config, points)|, round)
            <==> (before || EverGathered(config, points, assign, w, picks)) && !(before && |picks| > 0)
    ensures round > 0 ==> round <= |picks| && AllGathered(config, points, assign, KnownAfter(picks, w, round))
  {
    hide Reached; hide ConfigOk; hide Image; hide FleetRun; hide AllGathered; hide KnownAfter; hide ShardsComplete;
    hide EverReached; hide EverGathered;
    RunSizes(config, points, assign, w, k, history, picks);
    ReportIsRightIff(config, points, assign, w, k, history, picks, round);
    EverReachedIffGathered(config, points, assign, w, k, history, picks);
    if round > 0 {
      ReachedIffGathered(config, points, assign, w, k, history, picks, round);
    }
  }

  // ---------------------------------------------------------------- the sum of local counts

  ghost function SumOccupied(world: seq<Cells>): nat {
    if world == [] then 0 else SumOccupied(world[..|world| - 1]) + Occupied(world[|world| - 1])
  }

  lemma {:induction false} SumBounds(world: seq<Cells>, joint: nat)
    requires forall i :: 0 <= i < |world| ==> Occupied(world[i]) <= joint
    ensures SumOccupied(world) <= |world| * joint
    ensures Reached(world, joint) ==> SumOccupied(world) == |world| * joint
  {
    hide Occupied;
    if world != [] {
      var n := |world| - 1;
      SumBounds(world[..n], joint);
      assert |world| * joint == n * joint + joint;
    }
  }

  lemma {:induction false} SumAtLeastJoint(world: seq<Cells>)
    ensures |Joint(world)| <= SumOccupied(world)
  {
    hide Occupied; hide OccupiedSet;
    if world == [] {
      assert Joint(world) == {};
    } else {
      var n := |world| - 1;
      SumAtLeastJoint(world[..n]);
      OccupiedSetSize(world[n]);
      JointSplits(world, n);
    }
  }

  lemma JointSplits(world: seq<Cells>, n: nat)
    requires n == |world| - 1
    ensures |Joint(world)| <= |Joint(world[..n])| + |OccupiedSet(world[n])|
  {
    hide OccupiedSet;
    JointSnoc(world, n);
    assert world[..n + 1] == world;
    UnionSize(Joint(world[..n]), OccupiedSet(world[n]));
  }

  lemma UnionSize(a: set<nat>, b: set<nat>)
    ensures |a + b| <= |a| + |b|
  {
    assert a + b == a + (b - a);
    assert b == (b * a) + (b - a);
  }

  lemma JointSnoc(world: seq<Cells>, i: nat)
    requires i < |world|
    ensures Joint(world[..i + 1]) == Joint(world[..i]) + OccupiedSet(world[i])
  {
    hide OccupiedSet;
    var a, b := world[..i + 1], world[..i];
    forall c | c in Joint(a) ensures c in Joint(b) + OccupiedSet(world[i]) {
      var k :| 0 <= k < |a| && c in OccupiedSet(a[k]);
      assert k < i ==> a[k] == b[k];
    }
    forall c | c in Joint(b) ensures c in Joint(a) {
      var k :| 0 <= k < |b| && c in OccupiedSet(b[k]);
      assert a[k] == b[k];
    }
    assert a[i] == world[i];
  }

  /** The local counts add up to at least the joint count and at most that for each worker, the
      latter exactly when all workers have reached it: the deduplication ratio lies between
      1 / workers and 1. */
  lemma SumOfJoint(world: seq<Cells>)
    ensures |Joint(world)| <= SumOccupied(world) <= |world| * |Joint(world)|
    ensures Reached(world, |Joint(world)|) ==> SumOccupied(world) == |world| * |Joint(world)|
  {
    hide Occupied; hide OccupiedSet; hide Joint; hide Reached;
    SumAtLeastJoint(world);
    forall i | 0 <= i < |world| ensures Occupied(world[i]) <= |Joint(world)| {
      OccupiedSetSize(world[i]);
      WithinJoint(world, i);
      SubsetAtMost(OccupiedSet(world[i]), Joint(world));
    }
    SumBounds(world, |Joint(world)|);
  }

  /** A round reported for the right target, or any round of full fan-in, ends with every worker
      counted at the joint count. */
  lemma ConvergedSum(config: Config, points: seq<Point>, assign: nat -> nat, w: nat, k: nat,
                     history: seq<Knowledge>, picks: seq<seq<set<nat>>>, round: nat)
    requires ConfigOk(config) && Assigns(assign, |points|, w) && w > 0
    requires FleetRun(config, points, assign, w, k, history, picks) && 0 < round < |history|
    requires Reached(history[round].world, |Image(config, points)|) || k == w - 1
    ensures SumOccupied(history[|picks|].world) == w * |Image(config, points)|
  {
    hide Reached; hide ConfigOk; hide Image; hide Sharded; hide Own; hide Round; hide PicksOk; hide Joint;
    hide SumOccupied;
    hide Informed;
    if k == w - 1 {
      FullFanInReached(config, points, assign, w, history, picks, round, |Image(config, points)|);
    }
    ReachedStays(config, points, assign, w, k, history, picks, round, |picks|);
    RunInformed(config, points, assign, w, k, history, picks, |picks|);
    SumOfJoint(history[|picks|].world);
  }

  lemma SubsetAtMost(a: set<nat>, b: set<nat>)
    requires a <= b
    ensures |a| <= |b|
  {
    assert b == a + (b - a);
  }
}

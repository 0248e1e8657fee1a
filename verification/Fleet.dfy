/** The fleet benchmark: a stream sharded over workers, gossip rounds, and its statistics. */
module Fleet {
  import opened Cells
  import opened Crdt
  import opened Metrics
  import opened Peers
  import opened FleetRuns
  import opened FleetSpec
  import opened Telemetry
  import opened Wrappers

  /** Sizes the shared batch, growing it when it is too small, and takes a snapshot. */
  method Collect(worker: VoronoiCache, batch: array<Update>) returns (filled: array<Update>, count: nat)
    requires worker.Valid()
    modifies batch
    ensures worker.Valid() && worker.cells[..] == old(worker.cells[..])
    ensures filled == batch || fresh(filled)
    ensures count <= filled.Length && filled[..count] == Snapshot(worker.cells[..])
  {
    hide VoronoiCache.EntriesOk; hide VoronoiCache.TotalsOk; hide VoronoiCache.CountersOk; hide ConfigOk; hide Listing;
    filled := batch;
    var status, needed := worker.Send(null);
    if needed > filled.Length {
      filled := new Update[needed](_ => Update(0, Entry([], [], 0)));
    }
    status, count := worker.Send(filled);
  }

  /** Every entry of a worker is acceptable to the others. */
  lemma SnapshotAcceptable(c: Config, s: Cells)
    requires |s| == |c.anchors| && forall i :: 0 <= i < |s| && s[i].Some? ==> InDomain(c, s[i].value.point)
    ensures BatchStatus(c, Snapshot(s)) == OK
  {
    hide Listing; hide BatchStatus;
    BatchAcceptable(c, Snapshot(s));
    forall u | u in Snapshot(s)
      ensures u.cell < |c.anchors| && |u.entry.point| == c.dimension && InDomain(c, u.entry.point)
    {
      ListingMembers(s, |s|, u);
    }
  }

  lemma OneAcceptable(c: Config, us: seq<Update>, k: nat)
    requires BatchStatus(c, us) == OK && k < |us|
    ensures BatchStatus(c, [us[k]]) == OK && us[k].cell < |c.anchors|
  {
    hide InDomain; hide BatchStatus;
    BatchAcceptable(c, us);
    BatchAcceptable(c, [us[k]]);
    assert us[k] in us;
  }

  lemma ApplyOne(s: Cells, us: seq<Update>, k: nat)
    requires k < |us| && InRange(|s|, us)
    ensures InRange(|s|, us[..k]) && InRange(|s|, us[..k + 1])
    ensures |ApplyAll(s, us[..k])| == |s| && us[k].cell < |s|
    ensures InRange(|s|, [us[k]]) && ApplyAll(ApplyAll(s, us[..k]), [us[k]]) == ApplyAll(s, us[..k + 1])
    ensures Conflicts(s, us[..k + 1])
            == Conflicts(s, us[..k]) + if HasPayload(ApplyAll(s, us[..k])[us[k].cell]) then 1 else 0
  {
    hide HasPayload; hide ApplyAll; hide Conflicts; hide Apply;
    TakeInRange(|s|, us, k);
    TakeInRange(|s|, us, k + 1);
    ApplyNext(s, us, k);
    assert us[..k + 1] == us[..k] + [us[k]];
    ConflictsSnoc(s, us[..k], us[k]);
    OneUpdate(ApplyAll(s, us[..k]), us[k]);
  }

  lemma OneUpdate(s: Cells, u: Update)
    requires u.cell < |s|
    ensures InRange(|s|, [u]) && ApplyAll(s, [u]) == Apply(s, u)
  {
    assert [u][..0] == [];
  }

  /** Merges one update at a time; a cell that shows no payload counts as an adoption. */
  method MergeWithDiagnostics(cache: VoronoiCache, batch: array<Update>, count: nat)
    returns (merges: nat, adopts: nat, conflicts: nat)
    requires cache.Valid() && count <= batch.Length && BatchStatus(cache.config, batch[..count]) == OK
    modifies cache, cache.cells
    ensures cache.Valid() && InRange(cache.cells.Length, batch[..count])
    ensures cache.cells[..] == ApplyAll(old(cache.cells[..]), batch[..count])
    ensures merges == count && adopts + conflicts == count
    ensures conflicts == Conflicts(old(cache.cells[..]), batch[..count])
  {
    hide VoronoiCache.EntriesOk; hide VoronoiCache.TotalsOk; hide VoronoiCache.CountersOk; hide ConfigOk;
    hide BatchStatus; hide ApplyAll; hide Conflicts; hide Apply; hide InRange;
    ghost var s, us := cache.cells[..], batch[..count];
    CacheSize(cache);
    AllInRange(cache.config, us);
    NoUpdates(s);
    merges, adopts, conflicts := 0, 0, 0;
    for k := 0 to count
      invariant cache.Valid() && batch[..count] == us && InRange(|s|, us[..k])
      invariant cache.cells[..] == ApplyAll(s, us[..k])
      invariant merges == k && adopts + conflicts == k && conflicts == Conflicts(s, us[..k])
    {
      OneAcceptable(cache.config, us, k);
      ApplyOne(s, us, k);
      assert batch[k] == us[k];
      var status, existing := cache.GetPayload(batch[k].cell);
      var wasOccupied := status == OK && existing.Some?;
      merges := merges + 1;
      ghost var applied: nat;
      assert [us[k]][..1] == [us[k]];
      status, applied := cache.Merge([batch[k]], _ => true);
      if !wasOccupied {
        adopts := adopts + 1;
      } else {
        conflicts := conflicts + 1;
      }
    }
    assert us[..count] == us;
  }

  lemma CacheSize(cache: VoronoiCache)
    requires cache.Valid()
    ensures cache.cells.Length == |cache.config.anchors|
  {
  }

  lemma AllInRange(c: Config, us: seq<Update>)
    requires BatchStatus(c, us) == OK
    ensures InRange(|c.anchors|, us)
  {
    BatchAcceptable(c, us);
  }

  lemma NoUpdates(s: Cells)
    ensures InRange(|s|, []) && ApplyAll(s, []) == s && Conflicts(s, []) == 0
  {
  }

  // ---------------------------------------------------------------- the workers

  ghost predicate Apart(workers: seq<VoronoiCache>) {
    forall i, j :: 0 <= i < j < |workers| ==> workers[i] != workers[j] && workers[i].cells != workers[j].cells
  }

  ghost predicate WorkerOk(w: VoronoiCache, config: Config, s: Cells)
    reads w, w.cells
  {
    w.config == config && w.Valid() && w.cells[..] == s
  }

  /** The workers are separate objects, and `world` is what they hold. */
  ghost predicate FleetOk(workers: seq<VoronoiCache>, config: Config, world: seq<Cells>)
    reads workers, set w | w in workers :: w.cells
  {
    && |world| == |workers| && Apart(workers)
    && forall i :: 0 <= i < |workers| ==> WorkerOk(workers[i], config, world[i])
  }

  lemma WorkerSize(w: VoronoiCache, config: Config, s: Cells)
    requires WorkerOk(w, config, s)
    ensures ConfigOk(config) && |s| == |config.anchors| && w.occupiedCells == Occupied(s)
    ensures BatchStatus(config, Snapshot(s)) == OK
  {
    hide InDomain; hide BatchStatus; hide Listing;
    SnapshotAcceptable(config, s);
  }

  /** One worker observes one point without payload. */
  method ObserveAt(worker: VoronoiCache, p: Point, ghost s: Cells) returns (wasNovel: bool)
    requires WorkerOk(worker, worker.config, s) && |s| == |worker.config.anchors|
    modifies worker, worker.cells
    ensures WorkerOk(worker, worker.config, ObserveCells(worker.config, s, p))
    ensures wasNovel <==> InDomain(worker.config, p) && s[CellOf(worker.config, p)].None?
  {
    hide VoronoiCache.EntriesOk; hide VoronoiCache.TotalsOk; hide VoronoiCache.CountersOk; hide InDomain; hide CellOf;
    DomainSize(worker.config, p);
    var status, novel, cell := worker.Observe(p, [], true);
    wasNovel := status == OK && novel;
  }

  lemma DomainSize(c: Config, p: Point)
    ensures InDomain(c, p) ==> |p| == c.dimension
  {
  }

  /** The single-worker baseline: it occupies exactly the cells of the stream's points. */
  method RunSingle(config: Config, baseBytes: nat, points: seq<Point>)
    returns (occupiedCells: nat, novelObservations: nat)
    requires ConfigOk(config)
    ensures occupiedCells == novelObservations == |Image(config, points)|
  {
    hide VoronoiCache.EntriesOk; hide VoronoiCache.TotalsOk; hide VoronoiCache.CountersOk; hide InDomain; hide CellOf;
    hide ConfigOk; hide Image; hide Occupied; hide OccupiedSet; hide ObserveCells;
    var crdt := new VoronoiCache(config, baseBytes);
    ghost var s := crdt.cells[..];
    CacheSize(crdt);
    StartsEmpty(config, s);
    novelObservations := 0;
    for i := 0 to |points|
      invariant WorkerOk(crdt, config, s) && |s| == |config.anchors| && fresh(crdt) && fresh(crdt.cells)
      invariant OccupiedSet(s) == Image(config, points[..i]) && novelObservations == |OccupiedSet(s)|
    {
      var wasNovel := ObserveAt(crdt, points[i], s);
      NovelGrows(config, s, points[i]);
      ImageSnoc(config, points[..i], points[i]);
      assert points[..i + 1] == points[..i] + [points[i]];
      s := ObserveCells(config, s, points[i]);
      if wasNovel {
        novelObservations := novelObservations + 1;
      }
    }
    assert points[..|points|] == points;
    WorkerSize(crdt, config, s);
    OccupiedSetSize(s);
    occupiedCells := crdt.occupiedCells;
  }

  lemma StartsEmpty(config: Config, s: Cells)
    requires ConfigOk(config) && forall i :: 0 <= i < |s| ==> s[i] == None
    ensures OccupiedSet(s) == {} == Image(config, []) && Bare(s)
  {
  }

  lemma NovelGrows(config: Config, s: Cells, p: Point)
    requires ConfigOk(config) && |s| == |config.anchors|
    ensures OccupiedSet(ObserveCells(config, s, p)) == OccupiedSet(s) + CellsAt(config, p)
    ensures |OccupiedSet(ObserveCells(config, s, p))|
            == |OccupiedSet(s)| + if InDomain(config, p) && s[CellOf(config, p)].None? then 1 else 0
  {
    hide InDomain; hide ConfigOk; hide CellOf; hide ObserveCells;
    ObservedCells(config, s, p);
    if InDomain(config, p) {
      assert CellOf(config, p) in OccupiedSet(s) <==> s[CellOf(config, p)].Some?;
      if s[CellOf(config, p)].Some? {
        assert OccupiedSet(s) + {CellOf(config, p)} == OccupiedSet(s);
      }
    } else {
      assert OccupiedSet(s) + {} == OccupiedSet(s);
    }
  }

  ghost predicate AllBare(world: seq<Cells>) {
    forall i :: 0 <= i < |world| ==> Bare(world[i])
  }

  /** One worker of the fleet observes one point. */
  method ObserveIn(workers: seq<VoronoiCache>, config: Config, ghost world: seq<Cells>, w: nat, p: Point)
    requires FleetOk(workers, config, world) && w < |workers| && ConfigOk(config) && |world[w]| == |config.anchors|
    modifies workers[w], workers[w].cells
    ensures FleetOk(workers, config, world[w := ObserveCells(config, world[w], p)])
  {
    hide VoronoiCache.Valid; hide InDomain; hide CellOf; hide ConfigOk; hide ObserveCells;
    FleetApart(workers, w);
    var wasNovel := ObserveAt(workers[w], p, world[w]);
    forall k | 0 <= k < |workers| && k != w ensures WorkerOk(workers[k], config, world[k]) {
      assert old(WorkerOk(workers[k], config, world[k]));
    }
  }

  /** Sharding: point k goes to worker assign(k), which ends up with the cells of its shard. */
  method Distribute(workers: seq<VoronoiCache>, config: Config, points: seq<Point>, assign: nat -> nat,
                    ghost start: seq<Cells>)
    returns (ghost world: seq<Cells>)
    requires |workers| > 0 && FleetOk(workers, config, start) && Assigns(assign, |points|, |workers|)
    requires ConfigOk(config) && start == Sharded(config, [], assign, |workers|)
    modifies workers, set w | w in workers :: w.cells
    ensures world == Sharded(config, points, assign, |workers|) && FleetOk(workers, config, world)
  {
    hide VoronoiCache.Valid; hide InDomain; hide CellOf; hide ConfigOk; hide ObserveCells; hide FleetOk; hide Sharded;
    world := start;
    assert points[..0] == [];
    for i := 0 to |points|
      invariant FleetOk(workers, config, world) && |world| == |workers|
      invariant world == Sharded(config, points[..i], assign, |workers|)
    {
      var w := assign(i);
      FleetWorker(workers, config, world, w);
      ObserveIn(workers, config, world, w, points[i]);
      ShardedSnoc(config, points, assign, |workers|, i);
      world := world[w := ObserveCells(config, world[w], points[i])];
    }
    assert points[..|points|] == points;
  }

  lemma FleetWorker(workers: seq<VoronoiCache>, config: Config, world: seq<Cells>, i: nat)
    requires FleetOk(workers, config, world) && i < |workers|
    ensures |world| == |workers| && Apart(workers)
    ensures WorkerOk(workers[i], config, world[i]) && workers[i].config == config
    ensures ConfigOk(config) && |world[i]| == |config.anchors| && workers[i].occupiedCells == Occupied(world[i])
  {
    hide VoronoiCache.Valid; hide ConfigOk;
    WorkerSize(workers[i], config, world[i]);
  }

  lemma FleetApart(workers: seq<VoronoiCache>, j: nat)
    requires Apart(workers) && j < |workers|
    ensures forall k :: 0 <= k < |workers| && k != j ==>
                          workers[k] != workers[j] && workers[k].cells != workers[j].cells
  {
  }

  // ---------------------------------------------------------------- gossip

  /** Sizes that fit the anchors, and no payload anywhere. */
  ghost predicate Plain(config: Config, g: Knowledge) {
    WellSized(g) && AllBare(g.world) && forall i :: 0 <= i < |g.world| ==> |g.world[i]| == |config.anchors|
  }

  lemma PlainSize(config: Config, g: Knowledge, i: nat)
    requires Plain(config, g) && i < |g.world|
    ensures |g.world[i]| == |config.anchors| && |g.world| == |g.heard| && WellSized(g)
  {
  }

  lemma PlainReceives(config: Config, g: Knowledge, i: nat, j: nat)
    requires Plain(config, g) && i < |g.world| && j < |g.world|
    ensures |g.world[i]| == |g.world[j]| && Bare(Merge(g.world[j], g.world[i]))
    ensures InRange(|g.world[j]|, Snapshot(g.world[i]))
    ensures ApplyAll(g.world[j], Snapshot(g.world[i])) == Merge(g.world[j], g.world[i])
    ensures Conflicts(g.world[j], Snapshot(g.world[i])) == 0
  {
    hide Bare; hide Merge; hide ApplyAll; hide Conflicts; hide Snapshot; hide InRange;
    BareNeverConflicts(g.world[j], g.world[i]);
    SnapshotMerges(g.world[j], g.world[i]);
  }

  /** One more receiver. */
  lemma SentToOneMore(config: Config, g: Knowledge, i: nat, to: set<nat>, j: nat)
    requires Plain(config, g) && i < |g.world| && j < |g.world| && i !in to && j !in to && i != j
    requires Plain(config, SentTo(g, i, to))
    ensures SentTo(g, i, to).world[i] == g.world[i] && SentTo(g, i, to).world[j] == g.world[j]
    ensures |g.world[i]| == |g.world[j]|
    ensures SentTo(g, i, to + {j}).world == SentTo(g, i, to).world[j := Merge(g.world[j], g.world[i])]
    ensures Plain(config, SentTo(g, i, to + {j}))
  {
    hide Bare; hide Merge;
    PlainReceives(config, g, i, j);
    MergeSize(g.world[j], g.world[i]);
    var s, t := SentTo(g, i, to), SentTo(g, i, to + {j});
    forall k | 0 <= k < |t.world| ensures Bare(t.world[k]) && |t.world[k]| == |config.anchors| {
      assert k != j ==> t.world[k] == s.world[k];
    }
  }

  lemma SentToNobody(g: Knowledge, i: nat)
    requires WellSized(g) && i < |g.world|
    ensures SentTo(g, i, {}) == g
  {
    hide Merge;
  }

  /** Worker j merges the batch that worker i sent; the others are left alone. */
  method DeliverTo(workers: seq<VoronoiCache>, config: Config, batch: array<Update>, count: nat, j: nat,
                   ghost g: Knowledge, ghost i: nat)
    returns (merges: nat, adopts: nat, conflicts: nat)
    requires FleetOk(workers, config, g.world) && Plain(config, g) && i < |workers| == |g.world| && j < |workers|
    requires |g.world[i]| == |g.world[j]| && count <= batch.Length && batch[..count] == Snapshot(g.world[i])
    modifies workers[j], workers[j].cells
    ensures FleetOk(workers, config, g.world[j := Merge(g.world[j], g.world[i])])
    ensures merges == count == adopts && conflicts == 0
  {
    hide VoronoiCache.Valid; hide InDomain; hide ConfigOk; hide Plain; hide ApplyAll; hide Conflicts; hide Snapshot;
    hide BatchStatus; hide InRange; hide Merge;
    FleetApart(workers, j);
    PlainReceives(config, g, i, j);
    FleetWorker(workers, config, g.world, j);
    WorkerSize(workers[i], config, g.world[i]);
    merges, adopts, conflicts := MergeWithDiagnostics(workers[j], batch, count);
    forall k | 0 <= k < |workers| && k != j ensures WorkerOk(workers[k], config, g.world[k]) {
      assert old(WorkerOk(workers[k], config, g.world[k]));
    }
  }

  /** The batch of worker i goes to the workers listed, other than itself. */
  ghost predicate SendsTo(g0: Knowledge, g: Knowledge, i: nat, to: set<nat>, count: nat, merges: nat, adopts: nat,
                          conflicts: nat)
    requires WellSized(g0) && i < |g0.world|
  {
    g == SentTo(g0, i, to) && merges == adopts == |to| * count && conflicts == 0
  }

  lemma SendsOneMore(g0: Knowledge, g: Knowledge, i: nat, to: set<nat>, count: nat, merges: nat, adopts: nat,
                     conflicts: nat, j: nat)
    requires WellSized(g0) && i < |g0.world| && j !in to
    requires SendsTo(g0, g, i, to, count, merges, adopts, conflicts)
    ensures SendsTo(g0, SentTo(g0, i, to + {j}), i, to + {j}, count, merges + count, adopts + count, conflicts)
  {
    hide SentTo;
    assert |to + {j}| == |to| + 1;
    assert (|to| + 1) * count == |to| * count + count;
  }

  /** Full fan-in: the batch of worker i goes to every other worker. */
  method FanIn(workers: seq<VoronoiCache>, config: Config, batch: array<Update>, count: nat, i: nat,
               ghost g0: Knowledge)
    returns (merges: nat, adopts: nat, conflicts: nat, ghost g: Knowledge, ghost to: set<nat>)
    requires FleetOk(workers, config, g0.world) && Plain(config, g0) && i < |workers| == |g0.world|
    requires count <= batch.Length && batch[..count] == Snapshot(g0.world[i])
    modifies workers, set w | w in workers :: w.cells
    ensures FleetOk(workers, config, g.world) && Plain(config, g)
    ensures PickOk(to, i, |workers|, |workers| - 1)
    ensures SendsTo(g0, g, i, to, count, merges, adopts, conflicts)
  {
    hide FleetOk; hide Plain; hide Snapshot; hide SentTo; hide SendsTo; hide Merge;
    PlainSize(config, g0, i);
    merges, adopts, conflicts, g, to := 0, 0, 0, g0, {};
    SendsNobody(g0, i, count);
    for j := 0 to |workers|
      invariant FleetOk(workers, config, g.world) && Plain(config, g) && batch[..count] == Snapshot(g0.world[i])
      invariant SendsTo(g0, g, i, to, count, merges, adopts, conflicts) && g == SentTo(g0, i, to)
      invariant PickOk(to, i, j, if i < j then j - 1 else j)
    {
      if j == i {
        continue;
      }
      PlainSize(config, g0, j);
      SentToOneMore(config, g0, i, to, j);
      SendsOneMore(g0, g, i, to, count, merges, adopts, conflicts, j);
      var m, a, c := DeliverTo(workers, config, batch, count, j, g, i);
      merges, adopts, conflicts := merges + m, adopts + a, conflicts + c;
      to := to + {j};
      g := SentTo(g0, i, to);
    }
  }

  lemma SendsNobody(g: Knowledge, i: nat, count: nat)
    requires WellSized(g) && i < |g.world|
    ensures SendsTo(g, g, i, {}, count, 0, 0, 0) && g == SentTo(g, i, {})
  {
    hide SentTo;
    SentToNobody(g, i);
  }

  ghost function PeersUpTo(peers: seq<nat>, p: nat): set<nat>
    requires p <= |peers|
  {
    if p == 0 then {} else PeersUpTo(peers, p - 1) + {peers[p - 1]}
  }

  lemma {:induction false} PeersMembers(peers: seq<nat>, p: nat, x: nat)
    requires p <= |peers|
    ensures x in PeersUpTo(peers, p) <==> exists q :: 0 <= q < p && peers[q] == x
  {
    if p > 0 {
      PeersMembers(peers, p - 1, x);
    }
  }

  lemma NextPeer(peers: seq<nat>, p: nat, i: nat, w: nat, to: set<nat>)
    requires DistinctPeers(peers, i, w) && p < |peers| && to == PeersUpTo(peers, p)
    ensures peers[p] !in to && peers[p] != i && peers[p] < w && i !in to
    ensures PeersUpTo(peers, p + 1) == to + {peers[p]} && |to + {peers[p]}| == |to| + 1
  {
    PeersMembers(peers, p, peers[p]);
    PeersMembers(peers, p, i);
  }

  lemma AllPeers(peers: seq<nat>, i: nat, w: nat, to: set<nat>)
    requires DistinctPeers(peers, i, w) && to == PeersUpTo(peers, |peers|) && |to| == |peers|
    ensures to == (set j | j in peers) && PickOk(to, i, w, |peers|)
  {
    forall j ensures j in to <==> j in peers {
      PeersMembers(peers, |peers|, j);
    }
    PeersMembers(peers, |peers|, i);
  }

  /** Partial fan-in: the batch of worker i goes to the peers it picked. */
  method SendToPeers(workers: seq<VoronoiCache>, config: Config, batch: array<Update>, count: nat, i: nat,
                     peers: array<nat>, ghost g0: Knowledge)
    returns (merges: nat, adopts: nat, conflicts: nat, ghost g: Knowledge, ghost to: set<nat>)
    requires FleetOk(workers, config, g0.world) && Plain(config, g0) && i < |workers| == |g0.world|
    requires count <= batch.Length && batch[..count] == Snapshot(g0.world[i])
    requires DistinctPeers(peers[..], i, |workers|)
    modifies workers, set w | w in workers :: w.cells
    ensures FleetOk(workers, config, g.world) && Plain(config, g)
    ensures to == (set j | j in peers[..]) && PickOk(to, i, |workers|, peers.Length)
    ensures SendsTo(g0, g, i, to, count, merges, adopts, conflicts)
  {
    hide FleetOk; hide Plain; hide Snapshot; hide SentTo; hide SendsTo; hide Merge; hide DistinctPeers; hide PickOk;
    PlainSize(config, g0, i);
    merges, adopts, conflicts, g, to := 0, 0, 0, g0, {};
    SendsNobody(g0, i, count);
    for p := 0 to peers.Length
      invariant FleetOk(workers, config, g.world) && Plain(config, g) && batch[..count] == Snapshot(g0.world[i])
      invariant SendsTo(g0, g, i, to, count, merges, adopts, conflicts) && g == SentTo(g0, i, to)
      invariant DistinctPeers(peers[..], i, |workers|)
      invariant to == PeersUpTo(peers[..], p) && |to| == p
    {
      var j := peers[p];
      NextPeer(peers[..], p, i, |workers|, to);
      assert j == peers[..][p];
      PlainSize(config, g0, j);
      SentToOneMore(config, g0, i, to, j);
      SendsOneMore(g0, g, i, to, count, merges, adopts, conflicts, j);
      var m, a, c := DeliverTo(workers, config, batch, count, j, g, i);
      merges, adopts, conflicts := merges + m, adopts + a, conflicts + c;
      to := to + {j};
      g := SentTo(g0, i, to);
    }
    AllPeers(peers[..], i, |workers|, to);
  }

  lemma PicksSnoc(picks: seq<set<nat>>, to: set<nat>, w: nat, k: nat)
    requires PicksOk(picks, w, k) && (PickOk(to, |picks|, w, k) || (to == {} && k == 0))
    ensures PicksOk(picks + [to], w, k)
  {
  }

  lemma SnapshotCount(s: Cells)
    ensures |Snapshot(s)| == Occupied(s)
  {
    ListingCounts(s, |s|);
    assert s[..|s|] == s;
  }

  /** One gossip round: every worker in turn takes a snapshot and sends it on. */
  method GossipRound(workers: seq<VoronoiCache>, config: Config, full: bool, peers: array<nat>, rng: Xorshift,
                     batch0: array<Update>, ghost g0: Knowledge)
    returns (batch: array<Update>, merges: nat, adopts: nat, conflicts: nat, ghost g: Knowledge,
             ghost picks: seq<set<nat>>)
    requires FleetOk(workers, config, g0.world) && Plain(config, g0) && |workers| == |g0.world| > 0
    requires peers.Length <= |workers| - 1 && (full ==> peers.Length == |workers| - 1)
    requires peers.Length == 0 ==> |workers| == 1
    modifies workers, set w | w in workers :: w.cells
    modifies peers, rng, batch0
    ensures FleetOk(workers, config, g.world) && Plain(config, g) && (batch == batch0 || fresh(batch))
    ensures WellSized(g0) && |picks| == |workers| && PicksOk(picks, |workers|, peers.Length)
    ensures g == Round(g0, picks) && conflicts == 0 && adopts == merges == Merged(g0, picks)
    ensures peers.Length < |workers|
    ensures !full ==> RoundPicked(old(rng.state), |workers|, peers.Length, picks)
    ensures !full ==> rng.state == RoundStart(old(rng.state), |workers|, peers.Length, 1)
  {
    hide FleetOk; hide Plain; hide Snapshot; hide SentTo; hide PickOk; hide Round; hide Merged; hide Occupied;
    hide Turn; hide After; hide Reservoir; hide RoundPicked; hide DistinctPeers;
    ghost var start, d := rng.state, |workers| - 1 - peers.Length;
    RoundPickedNone(start, |workers|, peers.Length);
    PlainSize(config, g0, 0);
    batch, merges, adopts, conflicts, g, picks := batch0, 0, 0, 0, g0, [];
    RoundStarts(g0);
    for i := 0 to |workers|
      invariant FleetOk(workers, config, g.world) && Plain(config, g) && |g.world| == |workers|
      invariant batch == batch0 || fresh(batch)
      invariant |picks| == i && PicksOk(picks, |workers|, peers.Length)
      invariant g == Round(g0, picks) && conflicts == 0 && adopts == merges == Merged(g0, picks)
      invariant !full ==> rng.state == Turn(start, d, i) && RoundPicked(start, |workers|, peers.Length, picks)
    {
      PlainSize(config, g, i);
      var count: nat;
      batch, count := SnapshotOf(workers, config, batch, g.world, i);
      SnapshotCount(g.world[i]);
      ghost var to: set<nat> := {};
      if peers.Length == 0 {
        SentToNobody(g, i);
        RoundSnoc(g0, picks, {});
        PicksSnoc(picks, {}, |workers|, 0);
        if !full {
          PicksNobody(start, picks);
        }
        picks := picks + [{}];
        continue;
      }
      var m, a, c: nat;
      if full {
        m, a, c, g, to := FanIn(workers, config, batch, count, i, g);
      } else {
        SelectPeers(i, |workers|, peers.Length, peers, rng);
        m, a, c, g, to := SendToPeers(workers, config, batch, count, i, peers, g);
        RoundPickedSnoc(start, |workers|, peers.Length, picks, peers[..], to);
      }
      RoundSnoc(g0, picks, to);
      PicksSnoc(picks, to, |workers|, peers.Length);
      picks := picks + [to];
      merges, adopts, conflicts := merges + m, adopts + a, conflicts + c;
    }
  }

  /** A snapshot of one worker of the fleet. */
  method SnapshotOf(workers: seq<VoronoiCache>, config: Config, batch0: array<Update>, ghost world: seq<Cells>, i: nat)
    returns (batch: array<Update>, count: nat)
    requires FleetOk(workers, config, world) && i < |workers| == |world|
    modifies batch0
    ensures FleetOk(workers, config, world) && (batch == batch0 || fresh(batch))
    ensures count <= batch.Length && batch[..count] == Snapshot(world[i])
  {
    hide VoronoiCache.Valid; hide Snapshot;
    batch, count := Collect(workers[i], batch0);
    forall k | 0 <= k < |workers| ensures WorkerOk(workers[k], config, world[k]) {
      assert old(WorkerOk(workers[k], config, world[k]));
    }
  }

  // ---------------------------------------------------------------- statistics

  /** Whether every worker occupies as many cells as the target. */
  method AllWorkersReached(workers: seq<VoronoiCache>, config: Config, ghost world: seq<Cells>, target: nat)
    returns (reached: bool)
    requires FleetOk(workers, config, world)
    ensures reached <==> Reached(world, target)
  {
    hide FleetOk; hide Occupied;
    if workers == [] {
      NoWorkers(workers, config, world);
      return true;
    }
    for i := 0 to |workers|
      invariant |world| >= i && forall k :: 0 <= k < i ==> Occupied(world[k]) == target
    {
      FleetWorker(workers, config, world, i);
      if workers[i].occupiedCells != target {
        return false;
      }
    }
    FleetWorker(workers, config, world, 0);
    return true;
  }

  lemma NoWorkers(workers: seq<VoronoiCache>, config: Config, world: seq<Cells>)
    requires FleetOk(workers, config, world) && workers == []
    ensures world == []
  {
  }

  /** How many cells the fleet occupies together, counted over marks. */
  method ComputeJoint(workers: seq<VoronoiCache>, config: Config, batch0: array<Update>, ghost world: seq<Cells>)
    returns (joint: nat, batch: array<Update>)
    requires FleetOk(workers, config, world) && |world| == |workers|
    modifies batch0
    ensures FleetOk(workers, config, world) && joint == |Joint(world)|
  {
    hide FleetOk; hide Snapshot; hide Joint; hide OccupiedSet;
    var n := |config.anchors|;
    var marks := new nat[n](_ => 0);
    batch := batch0;
    ghost var seen: set<nat> := {};
    JointNone(world);
    for i := 0 to |workers|
      invariant FleetOk(workers, config, world) && (batch == batch0 || fresh(batch))
      invariant fresh(marks) && marks.Length == n
      invariant Marked(marks[..], seen) && seen == Joint(world[..i])
    {
      FleetWorker(workers, config, world, i);
      var count: nat;
      batch, count := SnapshotOf(workers, config, batch, world, i);
      MarkAll(batch, count, marks, world[i], seen);
      JointSnoc(world, i);
      seen := seen + OccupiedSet(world[i]);
    }
    assert world[..|workers|] == world;
    joint := CountMarks(marks, seen);
  }

  ghost predicate Marked(marks: seq<nat>, seen: set<nat>) {
    && (forall c :: c in seen ==> c < |marks|)
    && forall c: nat :: c < |marks| ==> (marks[c] > 0 <==> c in seen)
  }

  method MarkAll(batch: array<Update>, count: nat, marks: array<nat>, ghost s: Cells, ghost seen: set<nat>)
    requires count <= batch.Length && batch[..count] == Snapshot(s) && marks.Length == |s|
    requires Marked(marks[..], seen)
    modifies marks
    ensures Marked(marks[..], seen + OccupiedSet(s))
  {
    hide Snapshot; hide OccupiedSet;
    ghost var us := batch[..count];
    CellsOfNone(us);
    SnapshotCells(s);
    for k := 0 to count
      invariant batch[..count] == us
      invariant Marked(marks[..], seen + CellsOf(us[..k]))
    {
      assert batch[k] == us[k];
      CellsOfStep(us, k);
      marks[batch[k].cell] := marks[batch[k].cell] + 1;
    }
    assert us[..count] == us;
  }

  ghost function CellsOf(us: seq<Update>): set<nat> {
    set u | u in us :: u.cell
  }

  lemma CellsOfNone(us: seq<Update>)
    ensures CellsOf(us[..0]) == {}
  {
  }

  lemma CellsOfStep(us: seq<Update>, k: nat)
    requires k < |us|
    ensures CellsOf(us[..k + 1]) == CellsOf(us[..k]) + {us[k].cell}
  {
    assert us[..k + 1] == us[..k] + [us[k]];
  }

  lemma SnapshotCells(s: Cells)
    ensures CellsOf(Snapshot(s)) == OccupiedSet(s)
    ensures forall k :: 0 <= k < |Snapshot(s)| ==> Snapshot(s)[k].cell < |s|
  {
    hide Listing;
    forall u | u in Snapshot(s) ensures u.cell in OccupiedSet(s) {
      ListingMembers(s, |s|, u);
    }
    forall c | c in OccupiedSet(s) ensures c in CellsOf(Snapshot(s)) {
      ListingMembers(s, |s|, Update(c, s[c].value));
      assert Update(c, s[c].value) in Snapshot(s);
    }
  }

  lemma JointNone(world: seq<Cells>)
    ensures Joint(world[..0]) == {}
  {
  }

  method CountMarks(marks: array<nat>, ghost seen: set<nat>) returns (joint: nat)
    requires Marked(marks[..], seen)
    ensures joint == |seen|
  {
    joint := 0;
    ghost var counted: set<nat> := {};
    for i := 0 to marks.Length
      invariant counted == (set c | c in seen && c < i) && joint == |counted|
    {
      if marks[i] > 0 {
        assert marks[..][i] > 0;
        joint := joint + 1;
        counted := counted + {i};
      } else {
        assert marks[..][i] == 0;
      }
    }
    assert counted == seen;
  }

  datatype FleetStats = FleetStats(
    jointCells: nat, sumLocalCells: nat, convergenceRound: nat,
    totalMerges: nat, totalNovelAdopt: nat, totalConflicts: nat)

  /** One empty cache for every worker. */
  method CreateWorkers(config: Config, baseBytes: nat, workerCount: nat)
    returns (workers: seq<VoronoiCache>, ghost world: seq<Cells>)
    requires ConfigOk(config)
    ensures |workers| == workerCount && FleetOk(workers, config, world)
    ensures forall i :: 0 <= i < |workers| ==> fresh(workers[i]) && fresh(workers[i].cells)
    ensures forall i :: 0 <= i < |world| ==> world[i] == Blank(config)
  {
    hide VoronoiCache.Valid; hide ConfigOk;
    workers, world := [], [];
    for i := 0 to workerCount
      invariant |workers| == i && FleetOk(workers, config, world)
      invariant forall i :: 0 <= i < |workers| ==> fresh(workers[i]) && fresh(workers[i].cells)
      invariant forall i :: 0 <= i < |world| ==> world[i] == Blank(config)
    {
      var w := new VoronoiCache(config, baseBytes);
      CacheSize(w);
      assert w.cells[..] == Blank(config);
      workers := workers + [w];
      world := world + [Blank(config)];
    }
  }

  /** The sum of the workers' own counts. */
  method SumLocal(workers: seq<VoronoiCache>, config: Config, ghost world: seq<Cells>) returns (sum: nat)
    requires FleetOk(workers, config, world) && |world| == |workers|
    ensures sum == SumOccupied(world)
  {
    hide FleetOk; hide Occupied;
    sum := 0;
    for i := 0 to |workers|
      invariant sum == SumOccupied(world[..i])
    {
      FleetWorker(workers, config, world, i);
      assert world[..i + 1][..i] == world[..i];
      sum := sum + workers[i].occupiedCells;
    }
    assert world[..|workers|] == world;
  }

  /** How many peers a worker sends to in a round. */
  function FanOut(workerCount: nat, peersPerRound: nat): (k: nat)
    requires workerCount > 0
    ensures k < workerCount
  {
    if peersPerRound == 0 || peersPerRound > workerCount - 1 then workerCount - 1 else peersPerRound
  }

  /** The merges of all rounds so far. */
  ghost function TotalMerged(history: seq<Knowledge>, picks: seq<seq<set<nat>>>, w: nat, k: nat): nat
    requires Gossips(history, picks, w, k)
    decreases |picks|
  {
    if picks == [] then 0
    else
      var n := |picks| - 1;
      TotalMerged(history[..n + 1], picks[..n], w, k) + Merged(history[n], picks[n])
  }

  lemma GossipsSnoc(history: seq<Knowledge>, picks: seq<seq<set<nat>>>, w: nat, k: nat, picked: seq<set<nat>>)
    requires Gossips(history, picks, w, k) && |picked| == w && PicksOk(picked, w, k)
    ensures history != [] && WellSized(history[|picks|]) && |history[|picks|].world| == w
    ensures var h, p := history + [Round(history[|picks|], picked)], picks + [picked];
            && Gossips(h, p, w, k)
            && TotalMerged(h, p, w, k) == TotalMerged(history, picks, w, k) + Merged(history[|picks|], picked)
  {
    hide Round; hide PicksOk; hide Merged; hide WellSized;
    var h, p := history + [Round(history[|picks|], picked)], picks + [picked];
    assert h[..|p|] == history && p[..|picks|] == picks;
  }

  lemma ReportedSnoc(history: seq<Knowledge>, g: Knowledge, target: nat, round: nat, reached: bool)
    requires Reported(history, target, round) && (reached <==> Reached(g.world, target))
    ensures Reported(history + [g], target, if round == 0 && reached then |history| else round)
  {
    hide Reached;
  }

  lemma PlainStart(config: Config, points: seq<Point>, assign: nat -> nat, w: nat)
    requires ConfigOk(config)
    ensures var g := Knowledge(Sharded(config, points, assign, w), Own(Sharded(config, points, assign, w)));
            Plain(config, g) && WellSized(g)
  {
    hide ConfigOk; hide Own; hide ShardCells; hide Bare;
    forall i: nat | i < w ensures Bare(Sharded(config, points, assign, w)[i]) {
      ShardOccupies(config, points, assign, i);
    }
  }

  lemma RunStarts(g: Knowledge, w: nat, k: nat, target: nat)
    requires WellSized(g) && |g.world| == w
    ensures Gossips([g], [], w, k) && TotalMerged([g], [], w, k) == 0 && Reported([g], target, 0)
  {
  }

  lemma Outcome(config: Config, points: seq<Point>, assign: nat -> nat, w: nat, k: nat, history: seq<Knowledge>,
                picks: seq<seq<set<nat>>>, target: nat, round: nat)
    requires ConfigOk(config) && Assigns(assign, |points|, w) && w > 0
    requires FleetRun(config, points, assign, w, k, history, picks) && Reported(history, target, round)
    ensures |history| == |picks| + 1
    ensures k == w - 1 && |picks| > 0 ==> SumOccupied(history[|picks|].world) == w * |Image(config, points)|
    ensures k == w - 1 ==> round == if |picks| > 0 && target == |Image(config, points)| then 1 else 0
    ensures round > 0 && target == |Image(config, points)| ==>
              SumOccupied(history[|picks|].world) == w * |Image(config, points)|
  {
    hide ConfigOk; hide Image; hide Sharded; hide Own; hide Round; hide PicksOk; hide SumOccupied; hide Reached;
    if k == w - 1 {
      FullFanInReport(config, points, assign, w, history, picks, target, round);
    }
    if k == w - 1 && |picks| > 0 {
      ConvergedSum(config, points, assign, w, k, history, picks, 1);
    } else if round > 0 && target == |Image(config, points)| {
      ConvergedSum(config, points, assign, w, k, history, picks, round);
    }
  }

  /** The gossip rounds, each followed by a check; the first check that succeeds is reported. */
  method GossipRounds(workers: seq<VoronoiCache>, config: Config, gossipRounds: nat, peersPerRound: nat, rng: Xorshift,
                      targetJoint: nat, ghost g0: Knowledge)
    returns (convergenceRound: nat, merges: nat, adopts: nat, conflicts: nat, batch: array<Update>,
             ghost history: seq<Knowledge>, ghost picks: seq<seq<set<nat>>>)
    requires FleetOk(workers, config, g0.world) && Plain(config, g0) && |workers| == |g0.world| > 0
    modifies workers, set w | w in workers :: w.cells
    modifies rng
    ensures |picks| == gossipRounds && Gossips(history, picks, |workers|, FanOut(|workers|, peersPerRound))
    ensures history[0] == g0 && FleetOk(workers, config, history[gossipRounds].world) && fresh(batch)
    ensures Reported(history, targetJoint, convergenceRound)
    ensures merges == adopts == TotalMerged(history, picks, |workers|, FanOut(|workers|, peersPerRound))
    ensures conflicts == 0
    ensures peersPerRound != 0 ==>
              forall r :: 0 <= r < gossipRounds ==>
                            DrawnIn(old(rng.state), |workers|, FanOut(|workers|, peersPerRound), r, picks[r])
  {
    hide FleetOk; hide Plain; hide Gossips; hide Round; hide PicksOk; hide Merged; hide Reported; hide TotalMerged;
    hide RoundPicked; hide RoundStart; hide DrawnIn;
    ghost var start := rng.state;
    PlainSize(config, g0, 0);
    ghost var g, w, fan := g0, |workers|, FanOut(|workers|, peersPerRound);
    history, picks := [g], [];
    RunStarts(g, w, fan, targetJoint);
    RoundAfter(start, w, fan, 0);
    var kPeers := if peersPerRound == 0 then |workers| - 1 else peersPerRound;
    if kPeers > |workers| - 1 {
      kPeers := |workers| - 1;
    }
    var peers := new nat[kPeers](_ => 0);
    batch := new Update[0](_ => Update(0, Entry([], [], 0)));
    convergenceRound, merges, adopts, conflicts := 0, 0, 0, 0;
    var early := AllWorkersReached(workers, config, g.world, targetJoint);
    if early {
      convergenceRound := 0;
    }
    for round := 0 to gossipRounds
      invariant FleetOk(workers, config, g.world) && Plain(config, g) && |g.world| == |workers|
      invariant fresh(peers) && fresh(batch)
      invariant |picks| == round && |history| == round + 1 && g == history[round] && history[0] == g0
      invariant Gossips(history, picks, w, fan) && merges == adopts == TotalMerged(history, picks, w, fan)
      invariant conflicts == 0 && Reported(history, targetJoint, convergenceRound)
      invariant peersPerRound != 0 ==> rng.state == RoundStart(start, w, fan, round)
      invariant peersPerRound != 0 ==> forall r :: 0 <= r < round ==> DrawnIn(start, w, fan, r, picks[r])
    {
      RoundAfter(start, w, fan, round);
      var m, a, c: nat;
      ghost var picked: seq<set<nat>>;
      batch, m, a, c, g, picked := GossipRound(workers, config, peersPerRound == 0, peers, rng, batch, g);
      GossipsSnoc(history, picks, w, fan, picked);
      if peersPerRound != 0 {
        DrawnNow(start, w, fan, round, picked);
      }
      merges, adopts, conflicts := merges + m, adopts + a, conflicts + c;
      var reached := AllWorkersReached(workers, config, g.world, targetJoint);
      ReportedSnoc(history, g, targetJoint, convergenceRound, reached);
      if convergenceRound == 0 && reached {
        convergenceRound := round + 1;
      }
      history, picks := history + [g], picks + [picked];
    }
  }

  /** Whom the workers pick in round r, from this seed. */
  ghost predicate DrawnIn(start: bv64, w: nat, k: nat, r: nat, picks: seq<set<nat>>)
    requires k < w
  {
    RoundPicked(RoundStart(start, w, k, r), w, k, picks)
  }

  lemma DrawnNow(start: bv64, w: nat, k: nat, r: nat, picks: seq<set<nat>>)
    requires k < w && RoundPicked(RoundStart(start, w, k, r), w, k, picks)
    ensures DrawnIn(start, w, k, r, picks)
  {
  }

  lemma RoundAfter(start: bv64, w: nat, k: nat, r: nat)
    requires k < w
    ensures RoundStart(start, w, k, r + 1) == RoundStart(RoundStart(start, w, k, r), w, k, 1)
    ensures RoundStart(start, w, k, 0) == start
  {
  }

  /** The whole benchmark, with the run it went through as ghost results. The joint count is that
      of one worker seeing the whole stream, whatever the schedule; what is reported as the
      convergence round is the first successful check after a round, or 0; the local counts lie
      between the joint count and that many for each worker; without payloads every merge counts
      as an adoption. */
  method RunFleet(config: Config, baseBytes: nat, points: seq<Point>, workerCount: nat, gossipRounds: nat,
                  peersPerRound: nat, seed: bv64, targetJoint: nat)
    returns (stats: FleetStats, ghost history: seq<Knowledge>, ghost picks: seq<seq<set<nat>>>)
    requires ConfigOk(config) && workerCount > 0
    ensures |picks| == gossipRounds
    ensures FleetRun(config, points, RoundRobin(workerCount), workerCount, FanOut(workerCount, peersPerRound),
                     history, picks)
    ensures Reported(history, targetJoint, stats.convergenceRound)
    ensures stats.jointCells == |Image(config, points)|
    ensures stats.sumLocalCells == SumOccupied(history[gossipRounds].world)
    ensures stats.jointCells <= stats.sumLocalCells <= workerCount * stats.jointCells
    ensures gossipRounds > 0 && FanOut(workerCount, peersPerRound) == workerCount - 1 ==>
              stats.sumLocalCells == workerCount * stats.jointCells
    ensures FanOut(workerCount, peersPerRound) == workerCount - 1 ==>
              stats.convergenceRound == if gossipRounds > 0 && targetJoint == stats.jointCells then 1 else 0
    ensures stats.convergenceRound > 0 && targetJoint == stats.jointCells ==>
              stats.sumLocalCells == workerCount * stats.jointCells
    ensures stats.totalMerges == TotalMerged(history, picks, workerCount, FanOut(workerCount, peersPerRound))
    ensures stats.totalConflicts == 0 && stats.totalNovelAdopt == stats.totalMerges
    ensures peersPerRound != 0 ==>
              var start := seed ^ ((workerCount % 0x1_0000_0000_0000_0000) as bv64 * 0x9E37_79B9_7F4A_7C15);
              forall r :: 0 <= r < gossipRounds ==>
                            DrawnIn(start, workerCount, FanOut(workerCount, peersPerRound), r, picks[r])
  {
    hide FleetOk; hide Plain; hide Joint; hide Image; hide Occupied; hide ConfigOk; hide Gossips; hide Sharded;
    hide Reported; hide TotalMerged; hide SumOccupied; hide Own; hide Informed; hide Reached; hide WellSized;
    hide DrawnIn;
    var rng := new Xorshift(seed ^ ((workerCount % 0x1_0000_0000_0000_0000) as bv64 * 0x9E37_79B9_7F4A_7C15));
    var workers: seq<VoronoiCache>;
    ghost var world: seq<Cells>;
    workers, world := CreateWorkers(config, baseBytes, workerCount);
    FleetWorker(workers, config, world, 0);
    NothingSharded(config, RoundRobin(workerCount), workerCount);
    assert world == Sharded(config, [], RoundRobin(workerCount), workerCount);
    world := Distribute(workers, config, points, RoundRobin(workerCount), world);
    ghost var g, fan := Knowledge(world, Own(world)), FanOut(workerCount, peersPerRound);
    PlainStart(config, points, RoundRobin(workerCount), workerCount);
    var convergenceRound, merges, adopts, conflicts: nat, batch: array<Update>;
    convergenceRound, merges, adopts, conflicts, batch, history, picks :=
      GossipRounds(workers, config, gossipRounds, peersPerRound, rng, targetJoint, g);
    var joint: nat;
    RunSize(history, picks, workerCount, fan);
    RunInformed(config, points, RoundRobin(workerCount), workerCount, fan, history, picks, gossipRounds);
    joint, batch := ComputeJoint(workers, config, batch, history[gossipRounds].world);
    SumOfJoint(history[gossipRounds].world);
    Outcome(config, points, RoundRobin(workerCount), workerCount, fan, history, picks, targetJoint, convergenceRound);
    var sum := SumLocal(workers, config, history[gossipRounds].world);
    stats := FleetStats(joint, sum, convergenceRound, merges, adopts, conflicts);
  }

  lemma RunSize(history: seq<Knowledge>, picks: seq<seq<set<nat>>>, w: nat, k: nat)
    requires Gossips(history, picks, w, k)
    ensures |history| == |picks| + 1 && |history[|picks|].world| == w
  {
  }
}

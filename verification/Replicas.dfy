/** Replicas of the Voronoi cache driven call by call: every call is a step of the gossip state
    machine, so what holds on its runs holds of the caches. */
module Replicas {
  import opened Bytes
  import opened Cells
  import opened Crdt
  import opened Fleet
  import opened FleetRuns
  import opened Gossip
  import opened Metrics
  import opened Telemetry

  /** What a deployment may ask of its replicas. Delivering hands message k, of those sent so far,
      to replica i, at any time and any number of times; allocations may fail. */
  datatype Call =
    | Observing(i: nat, p: Point, payload: seq<Byte>, allocOk: bool)
    | Sending(i: nat)
    | Delivering(i: nat, k: nat, allocates: nat -> bool)
    | Injecting(i: nat, updates: seq<Update>, allocates: nat -> bool)
    | Clearing(i: nat)

  ghost function CellsIn(w: World): (world: seq<Cells>)
    ensures |world| == |w.replicas|
  {
    seq(|w.replicas|, i requires 0 <= i < |w.replicas| => w.replicas[i].cells)
  }

  ghost predicate Performable(w: World, n: nat, e: Event) {
    && Enabled(w, n, e) && Shaped(w, n)
    && (e.Delivered? ==> InRange(n, Snapshot(e.message.cells)[..e.applied]))
  }

  ghost function Next(w: World, n: nat, e: Event): World
    requires Performable(w, n, e)
  {
    World(w.replicas[e.i := React(w.replicas[e.i], e)],
          w.sent + if e.Sent? then {w.replicas[e.i]} else {})
  }

  /** The event a call is. One that is refused, or fails before it changes anything, is an empty
      batch. */
  ghost predicate EventOf(config: Config, w: World, n: nat, inbox: seq<Message>, call: Call, e: Event)
    requires ConfigOk(config) && n == |config.anchors| && Shaped(w, n) && call.i < |w.replicas|
  {
    match call
    case Observing(i, p, payload, allocOk) =>
      if InDomain(config, p) && (allocOk || w.replicas[i].cells[CellOf(config, p)].Some?)
      then e == Observed(i, Update(CellOf(config, p), Entry(p, payload, config.priority(p, payload))))
      else e == Injected(i, [])
    case Sending(i) => e == Sent(i)
    case Delivering(i, k, allocates) =>
      if k < |inbox|
      then && e.Delivered? && e.i == i && e.message == inbox[k] && e.applied <= |Snapshot(inbox[k].cells)|
           && (e.applied < |Snapshot(inbox[k].cells)| ==> !allocates(e.applied))
      else e == Injected(i, [])
    case Injecting(i, updates, allocates) =>
      if BatchStatus(config, updates) == OK
      then && e.Injected? && e.i == i && e.updates <= updates
           && (|e.updates| < |updates| ==> !allocates(|e.updates|))
      else e == Injected(i, [])
    case Clearing(i) => e == Cleared(i)
  }

  /** The messages on the wire are snapshots of what was sent. */
  ghost predicate Wired(config: Config, w: World, n: nat, messages: seq<seq<Update>>, inbox: seq<Message>) {
    && |messages| == |inbox|
    && forall k :: 0 <= k < |inbox| ==> MessageOk(config, w, n, messages[k], inbox[k])
  }

  ghost predicate MessageOk(config: Config, w: World, n: nat, message: seq<Update>, m: Message) {
    && m in w.sent && |m.cells| == n && message == Snapshot(m.cells)
    && BatchStatus(config, message) == OK
  }

  /** One replica merges a batch. */
  method MergeAt(replicas: seq<VoronoiCache>, config: Config, ghost world: seq<Cells>, i: nat, updates: seq<Update>,
                 allocates: nat -> bool)
    returns (status: Status, ghost applied: nat)
    requires FleetOk(replicas, config, world) && i < |replicas| == |world|
    modifies replicas[i], replicas[i].cells
    ensures applied <= |updates| && (BatchStatus(config, updates) != OK ==> FleetOk(replicas, config, world))
    ensures BatchStatus(config, updates) == OK ==>
              && InRange(|world[i]|, updates[..applied])
              && FleetOk(replicas, config, world[i := ApplyAll(world[i], updates[..applied])])
              && (applied < |updates| ==> !allocates(applied))
  {
    hide VoronoiCache.Valid; hide InDomain; hide ConfigOk; hide ApplyAll; hide BatchStatus; hide InRange;
    FleetApart(replicas, i);
    CacheSize(replicas[i]);
    Refusals(config, updates);
    status, applied := replicas[i].Merge(updates, allocates);
    forall k | 0 <= k < |replicas| && k != i ensures WorkerOk(replicas[k], config, world[k]) {
      assert old(WorkerOk(replicas[k], config, world[k]));
    }
    assert WorkerOk(replicas[i], config, replicas[i].cells[..]);
  }

  method PerformMerge(replicas: seq<VoronoiCache>, config: Config, n: nat, ghost w: World, i: nat,
                      updates: seq<Update>, allocates: nat -> bool)
    returns (ghost e: Event)
    requires FleetOk(replicas, config, CellsIn(w)) && Shaped(w, n) && i < |replicas| == |w.replicas|
    requires ConfigOk(config) && n == |config.anchors|
    modifies replicas[i], replicas[i].cells
    ensures Performable(w, n, e) && FleetOk(replicas, config, CellsIn(Next(w, n, e)))
    ensures e.Injected? && e.i == i && e.updates <= updates
    ensures if BatchStatus(config, updates) == OK then |e.updates| < |updates| ==> !allocates(|e.updates|)
            else e.updates == []
  {
    hide FleetOk; hide ApplyAll; hide InRange; hide ConfigOk; hide BatchStatus;
    ghost var applied: nat;
    var status: Status;
    status, applied := MergeAt(replicas, config, CellsIn(w), i, updates, allocates);
    if BatchStatus(config, updates) != OK {
      applied := 0;
      EmptyBatch(w.replicas[i].cells);
    }
    e := Injected(i, updates[..applied]);
    if BatchStatus(config, updates) != OK {
      assert updates[..applied] == [];
      assert CellsIn(w)[i := CellsIn(w)[i]] == CellsIn(w);
    }
    assert InRange(|w.replicas[i].cells|, updates[..applied]);
    assert CellsIn(Next(w, n, e)) == CellsIn(w)[i := ApplyAll(CellsIn(w)[i], updates[..applied])];
  }

  lemma EmptyBatch(s: Cells)
    ensures InRange(|s|, []) && ApplyAll(s, []) == s
  {
  }

  method PerformDelivery(replicas: seq<VoronoiCache>, config: Config, n: nat, ghost w: World, i: nat,
                         message: seq<Update>, allocates: nat -> bool, ghost m: Message)
    returns (ghost e: Event)
    requires FleetOk(replicas, config, CellsIn(w)) && Shaped(w, n) && i < |replicas| == |w.replicas|
    requires ConfigOk(config) && n == |config.anchors| && MessageOk(config, w, n, message, m)
    modifies replicas[i], replicas[i].cells
    ensures Performable(w, n, e) && FleetOk(replicas, config, CellsIn(Next(w, n, e)))
    ensures e.Delivered? && e.i == i && e.message == m && e.applied <= |message|
    ensures e.applied < |message| ==> !allocates(e.applied)
  {
    hide FleetOk; hide ApplyAll; hide InRange; hide ConfigOk; hide BatchStatus; hide Snapshot; hide Forwarded;
    ghost var applied: nat;
    var status: Status;
    status, applied := MergeAt(replicas, config, CellsIn(w), i, message, allocates);
    e := Delivered(i, m, applied);
    assert CellsIn(Next(w, n, e)) == CellsIn(w)[i := ApplyAll(CellsIn(w)[i], message[..applied])];
  }

  method PerformObservation(replicas: seq<VoronoiCache>, config: Config, n: nat, ghost w: World, i: nat,
                            p: Point, payload: seq<Byte>, allocOk: bool)
    returns (ghost e: Event)
    requires FleetOk(replicas, config, CellsIn(w)) && Shaped(w, n) && i < |replicas| == |w.replicas|
    requires ConfigOk(config) && n == |config.anchors|
    modifies replicas[i], replicas[i].cells
    ensures Performable(w, n, e) && FleetOk(replicas, config, CellsIn(Next(w, n, e)))
    ensures EventOf(config, w, n, [], Observing(i, p, payload, allocOk), e)
  {
    hide VoronoiCache.Valid; hide InDomain; hide ConfigOk; hide CellOf; hide ApplyAll;
    ghost var world := CellsIn(w);
    FleetApart(replicas, i);
    DomainSize(config, p);
    assert WorkerOk(replicas[i], config, world[i]);
    ghost var u := Update(CellOf(config, p), Entry(p, payload, config.priority(p, payload)));
    assert replicas[i].cells[u.cell] == world[i][u.cell];
    var status, wasNovel, cell := replicas[i].Observe(p, payload, allocOk);
    EmptyBatch(world[i]);
    e := if status == OK then Observed(i, u) else Injected(i, []);
    ghost var after := React(w.replicas[i], e).cells;
    forall k | 0 <= k < |replicas| && k != i ensures WorkerOk(replicas[k], config, world[k]) {
      assert old(WorkerOk(replicas[k], config, world[k]));
    }
    assert WorkerOk(replicas[i], config, after);
    assert CellsIn(Next(w, n, e)) == world[i := after];
  }

  method PerformClear(replicas: seq<VoronoiCache>, config: Config, n: nat, ghost w: World, i: nat)
    returns (ghost e: Event)
    requires FleetOk(replicas, config, CellsIn(w)) && Shaped(w, n) && i < |replicas| == |w.replicas|
    requires ConfigOk(config) && n == |config.anchors|
    modifies replicas[i], replicas[i].cells
    ensures e == Cleared(i) && Performable(w, n, e) && FleetOk(replicas, config, CellsIn(Next(w, n, e)))
  {
    hide VoronoiCache.Valid; hide ConfigOk;
    ghost var world := CellsIn(w);
    FleetApart(replicas, i);
    assert WorkerOk(replicas[i], config, world[i]);
    CacheSize(replicas[i]);
    replicas[i].Clear();
    e := Cleared(i);
    forall k | 0 <= k < |replicas| && k != i ensures WorkerOk(replicas[k], config, world[k]) {
      assert old(WorkerOk(replicas[k], config, world[k]));
    }
    assert replicas[i].cells[..] == React(w.replicas[i], e).cells;
    assert CellsIn(Next(w, n, e)) == world[i := React(w.replicas[i], e).cells];
  }

  /** A snapshot in two calls, copied as a message. */
  method PerformSend(replicas: seq<VoronoiCache>, config: Config, n: nat, ghost w: World, i: nat)
    returns (message: seq<Update>, ghost e: Event)
    requires FleetOk(replicas, config, CellsIn(w)) && Shaped(w, n) && i < |replicas| == |w.replicas|
    requires ConfigOk(config) && n == |config.anchors|
    ensures e == Sent(i) && Performable(w, n, e) && FleetOk(replicas, config, CellsIn(Next(w, n, e)))
    ensures MessageOk(config, Next(w, n, e), n, message, w.replicas[i])
  {
    hide FleetOk; hide ConfigOk; hide BatchStatus; hide Snapshot;
    var batch := new Update[0](_ => Update(0, Entry([], [], 0)));
    var count: nat;
    batch, count := SnapshotOf(replicas, config, batch, CellsIn(w), i);
    message := batch[..count];
    e := Sent(i);
    FleetWorker(replicas, config, CellsIn(w), i);
    FleetSnapshot(replicas, config, CellsIn(w), i);
    assert CellsIn(Next(w, n, e)) == CellsIn(w);
  }

  lemma FleetSnapshot(replicas: seq<VoronoiCache>, config: Config, world: seq<Cells>, i: nat)
    requires FleetOk(replicas, config, world) && i < |replicas| == |world|
    ensures BatchStatus(config, Snapshot(world[i])) == OK
  {
    hide VoronoiCache.Valid; hide BatchStatus; hide Snapshot;
    WorkerSize(replicas[i], config, world[i]);
  }

  lemma WiredKeeps(config: Config, w: World, n: nat, messages: seq<seq<Update>>, inbox: seq<Message>, e: Event)
    requires Wired(config, w, n, messages, inbox) && Performable(w, n, e)
    ensures Wired(config, Next(w, n, e), n, messages, inbox)
  {
    hide React; hide BatchStatus; hide Snapshot;
  }

  /** One call on the replicas is one step of the state machine. */
  method Perform(replicas: seq<VoronoiCache>, config: Config, n: nat, call: Call, messages0: seq<seq<Update>>,
                 ghost w: World, ghost inbox: seq<Message>)
    returns (messages: seq<seq<Update>>, ghost e: Event)
    requires FleetOk(replicas, config, CellsIn(w)) && Shaped(w, n) && call.i < |replicas| == |w.replicas|
    requires ConfigOk(config) && n == |config.anchors| && Wired(config, w, n, messages0, inbox)
    modifies replicas[call.i], replicas[call.i].cells
    ensures Performable(w, n, e) && FleetOk(replicas, config, CellsIn(Next(w, n, e)))
    ensures EventOf(config, w, n, inbox, call, e) && e.i == call.i
    ensures Wired(config, Next(w, n, e), n, messages, if e.Sent? then inbox + [w.replicas[e.i]] else inbox)
  {
    hide FleetOk; hide ConfigOk; hide BatchStatus; hide Snapshot; hide Next; hide Performable; hide MessageOk;
    hide InDomain; hide CellOf;
    messages := messages0;
    match call
    case Observing(i, p, payload, allocOk) =>
      e := PerformObservation(replicas, config, n, w, i, p, payload, allocOk);
      WiredKeeps(config, w, n, messages, inbox, e);
    case Sending(i) =>
      var message: seq<Update>;
      message, e := PerformSend(replicas, config, n, w, i);
      WiredKeeps(config, w, n, messages, inbox, e);
      messages := messages + [message];
    case Delivering(i, k, allocates) =>
      if k < |messages| {
        assert MessageOk(config, w, n, messages[k], inbox[k]);
        e := PerformDelivery(replicas, config, n, w, i, messages[k], allocates, inbox[k]);
        MessageIs(config, w, n, messages[k], inbox[k]);
      } else {
        e := PerformMerge(replicas, config, n, w, i, [], allocates);
      }
      WiredKeeps(config, w, n, messages, inbox, e);
    case Injecting(i, updates, allocates) =>
      e := PerformMerge(replicas, config, n, w, i, updates, allocates);
      WiredKeeps(config, w, n, messages, inbox, e);
    case Clearing(i) =>
      e := PerformClear(replicas, config, n, w, i);
      WiredKeeps(config, w, n, messages, inbox, e);
  }

  lemma MessageIs(config: Config, w: World, n: nat, message: seq<Update>, m: Message)
    requires MessageOk(config, w, n, message, m)
    ensures message == Snapshot(m.cells)
  {
  }

  ghost predicate Addressed(worlds: seq<World>, events: seq<Event>) {
    |worlds| == |events| + 1 && forall j :: 0 <= j < |events| ==> events[j].i < |worlds[j].replicas|
  }

  /** What was sent in the first k events, in order. */
  ghost function Inbox(worlds: seq<World>, events: seq<Event>, k: nat): seq<Message>
    requires Addressed(worlds, events) && k <= |events|
  {
    if k == 0 then []
    else Inbox(worlds, events, k - 1) + if events[k - 1].Sent? then [worlds[k - 1].replicas[events[k - 1].i]] else []
  }

  lemma {:induction false} InboxSnoc(worlds: seq<World>, events: seq<Event>, w: World, e: Event, k: nat)
    requires Addressed(worlds, events) && k <= |events| && e.i < |worlds[|events|].replicas|
    ensures Addressed(worlds + [w], events + [e])
    ensures Inbox(worlds + [w], events + [e], k) == Inbox(worlds, events, k)
  {
    if k > 0 {
      InboxSnoc(worlds, events, w, e, k - 1);
    }
  }

  ghost predicate PerformsAt(config: Config, call: Call, worlds: seq<World>, events: seq<Event>, n: nat, k: nat)
    requires ConfigOk(config) && n == |config.anchors| && Addressed(worlds, events) && k < |events|
  {
    && Shaped(worlds[k], n) && call.i < |worlds[k].replicas|
    && EventOf(config, worlds[k], n, Inbox(worlds, events, k), call, events[k])
  }

  /** Every call is the event it should be. */
  ghost predicate Performs(config: Config, calls: seq<Call>, worlds: seq<World>, events: seq<Event>, n: nat)
    requires ConfigOk(config) && n == |config.anchors|
  {
    && Addressed(worlds, events) && |events| == |calls|
    && forall k :: 0 <= k < |events| ==> PerformsAt(config, calls[k], worlds, events, n, k)
  }

  lemma StartsRun(replicas: seq<VoronoiCache>, config: Config, w: World, blank: seq<Cells>, count: nat)
    requires ConfigOk(config) && FleetOk(replicas, config, blank) && |replicas| == count
    requires forall i :: 0 <= i < |blank| ==> blank[i] == Blank(config)
    requires w == World(seq(count, _ => Replica(Blank(config), {})), {})
    ensures FleetOk(replicas, config, CellsIn(w)) && Shaped(w, |config.anchors|)
    ensures Run([w], [], |config.anchors|) && Performs(config, [], [w], [], |config.anchors|)
    ensures Inbox([w], [], 0) == [] && Wired(config, w, |config.anchors|, [], [])
  {
    hide VoronoiCache.Valid; hide ConfigOk;
    assert CellsIn(w) == blank;
  }

  lemma NextSteps(w: World, n: nat, e: Event)
    requires Performable(w, n, e)
    ensures Step(w, n, e, Next(w, n, e))
  {
    hide Snapshot; hide React;
  }

  lemma RunSnoc(worlds: seq<World>, events: seq<Event>, n: nat, e: Event)
    requires Run(worlds, events, n) && Performable(worlds[|events|], n, e)
    ensures Run(worlds + [Next(worlds[|events|], n, e)], events + [e], n) && Shaped(Next(worlds[|events|], n, e), n)
  {
    hide Step; hide Performable; hide Start; hide Shaped; hide Next;
    var k, w := |events|, Next(worlds[|events|], n, e);
    var vs, es := worlds + [w], events + [e];
    NextShaped(worlds[k], n, e);
    NextSteps(worlds[k], n, e);
    forall j | 0 <= j < |es| ensures Step(vs[j], n, es[j], vs[j + 1]) {
      if j < k {
        assert Step(worlds[j], n, events[j], worlds[j + 1]);
      }
    }
  }

  lemma PerformsAtSnoc(config: Config, call: Call, worlds: seq<World>, events: seq<Event>, n: nat, k: nat, w: World,
                       e: Event)
    requires ConfigOk(config) && n == |config.anchors| && Addressed(worlds, events) && k < |events|
    requires PerformsAt(config, call, worlds, events, n, k) && e.i < |worlds[|events|].replicas|
    ensures Addressed(worlds + [w], events + [e]) && PerformsAt(config, call, worlds + [w], events + [e], n, k)
  {
    hide ConfigOk; hide EventOf; hide Shaped; hide Inbox;
    InboxSnoc(worlds, events, w, e, k);
  }

  lemma PerformsSnoc(config: Config, calls: seq<Call>, worlds: seq<World>, events: seq<Event>, n: nat, k: nat, e: Event,
                     w: World)
    requires ConfigOk(config) && n == |config.anchors| && k < |calls| && calls[k].i == e.i
    requires Performs(config, calls[..k], worlds, events, n)
    requires Shaped(worlds[k], n) && e.i < |worlds[k].replicas|
    requires EventOf(config, worlds[k], n, Inbox(worlds, events, k), calls[k], e)
    ensures Performs(config, calls[..k + 1], worlds + [w], events + [e], n)
    ensures Inbox(worlds + [w], events + [e], k + 1)
            == Inbox(worlds, events, k) + if e.Sent? then [worlds[k].replicas[e.i]] else []
  {
    hide ConfigOk; hide EventOf; hide Shaped; hide PerformsAt;
    var vs, es, cs := worlds + [w], events + [e], calls[..k + 1];
    InboxSnoc(worlds, events, w, e, k);
    PerformsLast(config, calls[k], worlds, events, n, e, w);
    forall j | 0 <= j < |es| ensures PerformsAt(config, cs[j], vs, es, n, j) {
      if j < k {
        assert PerformsAt(config, calls[..k][j], worlds, events, n, j);
        PerformsAtSnoc(config, calls[j], worlds, events, n, j, w, e);
      }
    }
  }

  lemma PerformsLast(config: Config, call: Call, worlds: seq<World>, events: seq<Event>, n: nat, e: Event, w: World)
    requires ConfigOk(config) && n == |config.anchors| && Addressed(worlds, events) && call.i == e.i
    requires Shaped(worlds[|events|], n) && e.i < |worlds[|events|].replicas|
    requires EventOf(config, worlds[|events|], n, Inbox(worlds, events, |events|), call, e)
    ensures Addressed(worlds + [w], events + [e])
    ensures PerformsAt(config, call, worlds + [w], events + [e], n, |events|)
  {
    hide ConfigOk; hide EventOf; hide Shaped; hide Inbox;
    InboxSnoc(worlds, events, w, e, |events|);
  }

  lemma NextShaped(w: World, n: nat, e: Event)
    requires Performable(w, n, e)
    ensures Shaped(Next(w, n, e), n)
  {
    hide Snapshot; hide ApplyAll;
  }

  /** Any sequence of calls on fresh caches is a run of the state machine that ends in what the
      caches hold. */
  method Replay(config: Config, baseBytes: nat, count: nat, calls: seq<Call>)
    returns (replicas: seq<VoronoiCache>, ghost worlds: seq<World>, ghost events: seq<Event>)
    requires ConfigOk(config) && forall c :: c in calls ==> c.i < count
    ensures Run(worlds, events, |config.anchors|) && Performs(config, calls, worlds, events, |config.anchors|)
    ensures |replicas| == count && FleetOk(replicas, config, CellsIn(worlds[|calls|]))
    ensures WorldOk(worlds[|calls|], |config.anchors|)
  {
    hide FleetOk; hide ConfigOk; hide Performable; hide EventOf; hide Wired; hide React; hide Shaped; hide Snapshot;
    hide Run; hide PerformsAt; hide Enabled;
    var n := |config.anchors|;
    ghost var blank: seq<Cells>;
    replicas, blank := CreateWorkers(config, baseBytes, count);
    var messages: seq<seq<Update>> := [];
    ghost var w := World(seq(count, _ => Replica(Blank(config), {})), {});
    StartsRun(replicas, config, w, blank, count);
    worlds, events := [w], [];
    for k := 0 to |calls|
      invariant |replicas| == |w.replicas| == count && |worlds| == k + 1 == |events| + 1 && w == worlds[k]
      invariant forall i :: 0 <= i < |replicas| ==> fresh(replicas[i]) && fresh(replicas[i].cells)
      invariant FleetOk(replicas, config, CellsIn(w)) && Shaped(w, n)
      invariant Run(worlds, events, n) && Performs(config, calls[..k], worlds, events, n)
      invariant Wired(config, w, n, messages, Inbox(worlds, events, k))
    {
      ghost var e: Event;
      ghost var inbox := Inbox(worlds, events, k);
      messages, e := Perform(replicas, config, n, calls[k], messages, w, inbox);
      RunSnoc(worlds, events, n, e);
      PerformsSnoc(config, calls, worlds, events, n, k, e, Next(w, n, e));
      assert inbox + [] == inbox;
      worlds, events, w := worlds + [Next(w, n, e)], events + [e], Next(w, n, e);
    }
    assert calls[..|calls|] == calls;
    EveryStateIsAJoin(worlds, events, n, |calls|);
  }
}

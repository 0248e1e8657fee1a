/** Replicas of the Voronoi cache under gossip: observation, snapshots that are delayed,
    duplicated, reordered, lost or applied in part, hand-made batches and clears. */
module Gossip {
  import opened Cells
  import opened Wrappers

  /** A replica's cells, and the effective updates it has transitively received since its last
      clear. */
  datatype Replica = Replica(cells: Cells, heard: set<Update>)

  /** A snapshot in flight: the sender's cells by value and what the sender had heard. */
  type Message = Replica

  datatype World = World(replicas: seq<Replica>, sent: set<Message>)

  datatype Event =
    | Observed(i: nat, update: Update)
    | Sent(i: nat)
    | Delivered(i: nat, message: Message, applied: nat)
    | Injected(i: nat, updates: seq<Update>)
    | Cleared(i: nat)

  /** What may happen next. A message stays deliverable for ever, to anyone, in any order and
      any number of times; nothing forces its delivery. */
  ghost predicate Enabled(w: World, n: nat, e: Event) {
    && e.i < |w.replicas|
    && match e
       case Observed(i, u) => u.cell < n
       case Delivered(i, m, k) => m in w.sent && k <= |Snapshot(m.cells)|
       case Injected(i, us) => InRange(n, us)
       case _ => true
  }

  ghost predicate Shaped(w: World, n: nat) {
    && (forall i :: 0 <= i < |w.replicas| ==> |w.replicas[i].cells| == n)
    && (forall m :: m in w.sent ==> |m.cells| == n)
  }

  /** A replica's own step. An observation of an occupied cell has no effect. */
  ghost function React(r: Replica, e: Event): Replica
    requires e.Observed? ==> e.update.cell < |r.cells|
    requires e.Delivered? ==> |e.message.cells| == |r.cells| && e.applied <= |Snapshot(e.message.cells)|
    requires e.Delivered? ==> InRange(|r.cells|, Snapshot(e.message.cells)[..e.applied])
    requires e.Injected? ==> InRange(|r.cells|, e.updates)
  {
    match e
    case Observed(_, u) =>
      if r.cells[u.cell].None? then Replica(r.cells[u.cell := Some(u.entry)], r.heard + {u}) else r
    case Delivered(_, m, k) =>
      Replica(ApplyAll(r.cells, Snapshot(m.cells)[..k]), r.heard + Forwarded(m.cells, m.heard, k))
    case Injected(_, us) => Replica(ApplyAll(r.cells, us), r.heard + Contents(us))
    case Cleared(_) => Replica(seq(|r.cells|, _ => None), {})
    case Sent(_) => r
  }

  ghost predicate Step(w: World, n: nat, e: Event, w': World) {
    && Enabled(w, n, e) && Shaped(w, n) && |w'.replicas| == |w.replicas|
    && (e.Delivered? ==> InRange(n, Snapshot(e.message.cells)[..e.applied]))
    && w'.replicas == w.replicas[e.i := React(w.replicas[e.i], e)]
    && w'.sent == w.sent + (if e.Sent? then {w.replicas[e.i]} else {})
  }

  ghost predicate Start(w: World, n: nat) {
    w.sent == {} && forall i :: 0 <= i < |w.replicas| ==> w.replicas[i] == Replica(seq(n, _ => None), {})
  }

  /** A run: the worlds it passes through and the events between them. */
  ghost predicate Run(worlds: seq<World>, events: seq<Event>, n: nat) {
    && |worlds| == |events| + 1 && Start(worlds[0], n)
    && forall k :: 0 <= k < |events| ==> Step(worlds[k], n, events[k], worlds[k + 1])
  }

  ghost predicate ReplicaOk(r: Replica, n: nat) {
    |r.cells| == n && IsJoin(r.cells, r.heard)
  }

  ghost predicate WorldOk(w: World, n: nat) {
    && (forall i :: 0 <= i < |w.replicas| ==> ReplicaOk(w.replicas[i], n))
    && (forall m :: m in w.sent ==> ReplicaOk(m, n))
  }

  lemma BlankIsJoin(n: nat)
    ensures IsJoin(seq(n, _ => None), {})
  {
  }

  lemma ReactKeepsJoin(r: Replica, n: nat, e: Event)
    requires ReplicaOk(r, n)
    requires e.Observed? ==> e.update.cell < n
    requires e.Delivered? ==> ReplicaOk(e.message, n) && e.applied <= |Snapshot(e.message.cells)|
    requires e.Delivered? ==> InRange(n, Snapshot(e.message.cells)[..e.applied])
    requires e.Injected? ==> InRange(n, e.updates)
    ensures ReplicaOk(React(r, e), n)
  {
    hide Snapshot; hide ApplyAll; hide Forwarded; hide InRange; hide IsJoin;
    match e
    case Observed(_, u) => ObservedJoins(r.cells, r.heard, u);
    case Delivered(_, m, k) => PrefixJoins(r.cells, r.heard, m.cells, m.heard, k);
    case Injected(_, us) => ApplyAllJoins(r.cells, r.heard, us);
    case Cleared(_) => BlankIsJoin(n);
    case Sent(_) =>
  }

  /** Observing is applying the update, when the cell is free. */
  lemma ObservedJoins(s: Cells, heard: set<Update>, u: Update)
    requires IsJoin(s, heard) && u.cell < |s|
    ensures s[u.cell].None? ==> IsJoin(s[u.cell := Some(u.entry)], heard + {u})
  {
    ApplyJoins(s, heard, u);
  }

  lemma StepKeepsWorld(w: World, n: nat, e: Event, w': World)
    requires WorldOk(w, n) && Step(w, n, e, w')
    ensures WorldOk(w', n)
  {
    hide React; hide ReplicaOk; hide Snapshot;
    ReplicaShape(w, n);
    ReactKeepsJoin(w.replicas[e.i], n, e);
  }

  lemma ReplicaShape(w: World, n: nat)
    requires WorldOk(w, n)
    ensures Shaped(w, n)
  {
    assert forall i :: 0 <= i < |w.replicas| ==> ReplicaOk(w.replicas[i], n);
  }

  /** On every run, in every world it passes through, each replica and each message in flight
      is the pointwise highest-priority join of the effective updates behind it. */
  lemma {:induction false} EveryStateIsAJoin(worlds: seq<World>, events: seq<Event>, n: nat, k: nat)
    requires Run(worlds, events, n) && k < |worlds|
    ensures WorldOk(worlds[k], n)
  {
    hide Step; hide IsJoin;
    if k == 0 {
      BlankIsJoin(n);
    } else {
      EveryStateIsAJoin(worlds, events, n, k - 1);
      StepKeepsWorld(worlds[k - 1], n, events[k - 1], worlds[k]);
    }
  }

  /** Convergence: replicas that have received the same updates, whenever and however, agree on
      which cells are occupied and on their priorities; and on whole entries, when no two
      different entries of a cell share a priority. */
  lemma SameReceivedSameState(v: seq<World>, e: seq<Event>, w: seq<World>, f: seq<Event>, n: nat,
                              k: nat, l: nat, i: nat, j: nat)
    requires Run(v, e, n) && Run(w, f, n) && k < |v| && l < |w|
    requires i < |v[k].replicas| && j < |w[l].replicas| && v[k].replicas[i].heard == w[l].replicas[j].heard
    ensures SameShape(v[k].replicas[i].cells, w[l].replicas[j].cells)
    ensures NoCollision(v[k].replicas[i].heard) ==> v[k].replicas[i] == w[l].replicas[j]
  {
    hide Run; hide IsJoin; hide SameShape; hide NoCollision;
    EveryStateIsAJoin(v, e, n, k);
    EveryStateIsAJoin(w, f, n, l);
    var r, s := v[k].replicas[i], w[l].replicas[j];
    assert ReplicaOk(r, n) && ReplicaOk(s, n);
    SameHeardSameShape(r.cells, s.cells, r.heard);
    if NoCollision(r.heard) {
      NoCollisionSameCells(r.cells, s.cells, r.heard);
    }
  }

  /** A replica that has received more is above: it occupies at least the same cells, with at
      least the same priorities. */
  lemma MoreReceivedIsAbove(v: seq<World>, e: seq<Event>, n: nat, k: nat, l: nat, i: nat, j: nat)
    requires Run(v, e, n) && k < |v| && l < |v|
    requires i < |v[k].replicas| && j < |v[l].replicas| && v[k].replicas[i].heard <= v[l].replicas[j].heard
    ensures |v[k].replicas[i].cells| == |v[l].replicas[j].cells| == n
    ensures forall c :: 0 <= c < n ==> Priority(v[k].replicas[i].cells[c]) <= Priority(v[l].replicas[j].cells[c])
  {
    hide Run; hide IsJoin; hide Priority;
    EveryStateIsAJoin(v, e, n, k);
    EveryStateIsAJoin(v, e, n, l);
    var r, s := v[k].replicas[i], v[l].replicas[j];
    assert ReplicaOk(r, n) && ReplicaOk(s, n);
    HearingMoreIsAbove(r.cells, r.heard, s.cells, s.heard);
  }

  // ---------------------------------------------------------------- where entries come from

  /** The updates that entered the system in the first k events. */
  ghost function Sources(events: seq<Event>, k: nat): set<Update>
    requires k <= |events|
  {
    if k == 0 then {}
    else Sources(events, k - 1) + match events[k - 1]
                                  case Observed(_, u) => {u}
                                  case Injected(_, us) => Contents(us)
                                  case _ => {}
  }

  ghost predicate HeardFrom(w: World, from: set<Update>) {
    && (forall i :: 0 <= i < |w.replicas| ==> w.replicas[i].heard <= from)
    && (forall m :: m in w.sent ==> m.heard <= from)
  }

  lemma ReactHearsFrom(r: Replica, e: Event, n: nat, from: set<Update>, more: set<Update>)
    requires |r.cells| == n && r.heard <= from <= more
    requires e.Observed? ==> e.update.cell < n && e.update in more
    requires e.Delivered? ==> |e.message.cells| == n && e.message.heard <= from
    requires e.Delivered? ==> e.applied <= |Snapshot(e.message.cells)|
    requires e.Delivered? ==> InRange(n, Snapshot(e.message.cells)[..e.applied])
    requires e.Injected? ==> InRange(n, e.updates) && Contents(e.updates) <= more
    ensures React(r, e).heard <= more
  {
    hide Snapshot; hide ApplyAll;
  }

  /** Gossip invents nothing: every entry any replica holds was observed or injected
      somewhere, with that very point, payload and priority. */
  lemma NothingInvented(worlds: seq<World>, events: seq<Event>, n: nat, k: nat)
    requires Run(worlds, events, n) && k < |worlds|
    ensures HeardFrom(worlds[k], Sources(events, k))
    ensures forall i, c :: 0 <= i < |worlds[k].replicas| && 0 <= c < |worlds[k].replicas[i].cells|
                           && worlds[k].replicas[i].cells[c].Some?
              ==> Update(c, worlds[k].replicas[i].cells[c].value) in Sources(events, k)
  {
    HeardFromSources(worlds, events, n, k);
    EveryStateIsAJoin(worlds, events, n, k);
    forall i, c | 0 <= i < |worlds[k].replicas| && 0 <= c < |worlds[k].replicas[i].cells|
                  && worlds[k].replicas[i].cells[c].Some?
      ensures Update(c, worlds[k].replicas[i].cells[c].value) in Sources(events, k)
    {
      var r := worlds[k].replicas[i];
      assert ReplicaOk(r, n);
      assert CellJoin(r.cells[c], r.heard, c);
    }
  }

  lemma {:induction false} HeardFromSources(worlds: seq<World>, events: seq<Event>, n: nat, k: nat)
    requires Run(worlds, events, n) && k < |worlds|
    ensures HeardFrom(worlds[k], Sources(events, k))
  {
    hide React; hide Snapshot; hide Contents;
    if k > 0 {
      var w, e := worlds[k - 1], events[k - 1];
      HeardFromSources(worlds, events, n, k - 1);
      assert Step(w, n, e, worlds[k]);
      ReactHearsFrom(w.replicas[e.i], e, n, Sources(events, k - 1), Sources(events, k));
    }
  }
}

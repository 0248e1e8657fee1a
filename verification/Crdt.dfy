/** The deterministic-Voronoi cache: points are quantized to their nearest anchor, the first
    point of a cell represents it, and replicas merge by priority. */
module Crdt {
  import opened Bytes
  import opened Cells
  import opened Metrics
  import opened Telemetry
  import opened Wrappers

  /** The distance is the caller's; the priority stands for the hash of a point and its
      payload. */
  datatype Config = Config(
    dimension: nat, anchors: seq<Point>, epsilon: real,
    distance: (Point, Point) -> real,
    domainMin: Point, domainMax: Point,
    priority: (Point, seq<Byte>) -> nat)

  predicate InDomain(c: Config, p: Point) {
    |p| == c.dimension && InBounds(p, c.domainMin, c.domainMax)
  }

  predicate ConfigOk(c: Config) {
    && c.dimension > 0 && c.anchors != [] && c.epsilon >= 0.0
    && |c.domainMin| == |c.domainMax| == c.dimension
    && (forall i :: 0 <= i < c.dimension ==> c.domainMin[i] < c.domainMax[i])
    && (forall a :: 0 <= a < |c.anchors| ==> InDomain(c, c.anchors[a]))
  }

  function AnchorDistance(c: Config, p: Point, a: nat): real
    requires a < |c.anchors|
  {
    c.distance(p, c.anchors[a])
  }

  /** The first of the nearest among the first n anchors. */
  ghost predicate Nearest(c: Config, p: Point, n: nat, best: nat) {
    && best < n <= |c.anchors|
    && (forall a :: 0 <= a < n ==> AnchorDistance(c, p, best) <= AnchorDistance(c, p, a))
    && (forall a :: 0 <= a < best ==> AnchorDistance(c, p, best) < AnchorDistance(c, p, a))
  }

  ghost function NearestAmong(c: Config, p: Point, n: nat): (best: nat)
    requires 0 < n <= |c.anchors|
    ensures Nearest(c, p, n, best)
  {
    if n == 1 then 0
    else
      var b := NearestAmong(c, p, n - 1);
      if AnchorDistance(c, p, n - 1) < AnchorDistance(c, p, b) then n - 1 else b
  }

  /** The Voronoi cell of a point. */
  ghost function CellOf(c: Config, p: Point): (cell: nat)
    requires ConfigOk(c)
    ensures cell < |c.anchors|
  {
    NearestAmong(c, p, |c.anchors|)
  }

  lemma NearestUnique(c: Config, p: Point, n: nat, a: nat, b: nat)
    requires Nearest(c, p, n, a) && Nearest(c, p, n, b)
    ensures a == b
  {
    assert AnchorDistance(c, p, a) <= AnchorDistance(c, p, b) <= AnchorDistance(c, p, a);
  }

  /** What merge answers to a batch before it changes anything: the first unacceptable update
      decides. */
  function BatchStatus(c: Config, us: seq<Update>): Status {
    if us == [] then OK
    else if us[0].cell >= |c.anchors| || |us[0].entry.point| != c.dimension then InvalidArgument
    else if !InDomain(c, us[0].entry.point) then OutOfRange
    else BatchStatus(c, us[1..])
  }

  lemma {:induction false} BatchAcceptable(c: Config, us: seq<Update>)
    ensures BatchStatus(c, us) == OK <==>
              forall u :: u in us ==>
                            u.cell < |c.anchors| && |u.entry.point| == c.dimension && InDomain(c, u.entry.point)
  {
    if us != [] {
      BatchAcceptable(c, us[1..]);
      assert forall u :: u in us <==> u == us[0] || u in us[1..];
    }
  }

  /** Update k is the first that is not acceptable: a cell or a dimension that does not exist is an
      invalid argument, and then a coordinate outside the domain is out of range. */
  ghost predicate FirstRefused(c: Config, us: seq<Update>, k: nat, status: Status)
    requires |c.domainMin| == |c.domainMax| == c.dimension
  {
    && k < |us|
    && (forall j :: 0 <= j < k ==> us[j].cell < |c.anchors| && InDomain(c, us[j].entry.point))
    && if us[k].cell >= |c.anchors| || |us[k].entry.point| != c.dimension then status == InvalidArgument
       else status == OutOfRange
            && exists i :: 0 <= i < c.dimension && !(c.domainMin[i] <= us[k].entry.point[i] <= c.domainMax[i])
  }

  lemma {:induction false} RefusalIsFirst(c: Config, us: seq<Update>) returns (k: nat)
    requires BatchStatus(c, us) != OK && ConfigOk(c)
    ensures FirstRefused(c, us, k, BatchStatus(c, us))
  {
    k := 0;
    if us[0].cell < |c.anchors| && InDomain(c, us[0].entry.point) {
      var rest := RefusalIsFirst(c, us[1..]);
      k := rest + 1;
      assert forall j :: 0 < j < |us| ==> us[j] == us[1..][j - 1];
    }
  }

  lemma {:induction false} Refusals(config: Config, us: seq<Update>)
    ensures BatchStatus(config, us) in {OK, InvalidArgument, OutOfRange}
  {
    if us != [] {
      Refusals(config, us[1..]);
    }
  }

  /** Every update that raised its cell among the first n had memory. */
  ghost predicate Allocated(s: Cells, us: seq<Update>, n: nat, allocates: nat -> bool)
    requires n <= |us| && InRange(|s|, us[..n])
  {
    forall u :: 0 <= u < n && Raises(s, us, u) ==> allocates(u)
  }

  ghost predicate Raises(s: Cells, us: seq<Update>, u: nat)
    requires u < |us|
  {
    InRange(|s|, us[..u]) && us[u].cell < |s| && Below(ApplyAll(s, us[..u])[us[u].cell], us[u].entry.priority)
  }

  class VoronoiCache {
    const config: Config
    const baseBytes: nat
    const cells: array<Option<Entry>>
    var occupiedCells: nat
    var observations: nat
    var novelObservations: nat
    var generation: nat
    var memoryBytes: nat

    ghost predicate EntriesOk()
      reads this, cells
    {
      && cells.Length == |config.anchors|
      && forall i :: 0 <= i < cells.Length && cells[i].Some? ==> InDomain(config, cells[i].value.point)
    }

    ghost predicate TotalsOk()
      reads this, cells
    {
      && occupiedCells == Occupied(cells[..])
      && memoryBytes == baseBytes + OwnedBytes(cells[..], 8 * config.dimension)
    }

    ghost predicate CountersOk()
      reads this
    {
      novelObservations <= occupiedCells && novelObservations <= observations <= generation <= U64_MAX
    }

    ghost predicate Valid()
      reads this, cells
    {
      ConfigOk(config) && EntriesOk() && TotalsOk() && CountersOk()
    }

    constructor (config: Config, baseBytes: nat)
      requires ConfigOk(config)
      ensures Valid() && fresh(cells) && this.config == config
      ensures forall i :: 0 <= i < cells.Length ==> cells[i] == None
      ensures generation == 0 && memoryBytes == baseBytes
    {
      this.config, this.baseBytes := config, baseBytes;
      cells := new Option<Entry>[|config.anchors|](_ => None);
      occupiedCells, observations, novelObservations, generation := 0, 0, 0, 0;
      memoryBytes := baseBytes;
      new;
      NothingOccupied(cells[..], 8 * config.dimension);
    }

    /** The first nearest anchor. */
    method QuantizeImpl(p: Point) returns (best: nat)
      requires ConfigOk(config)
      ensures best == CellOf(config, p)
    {
      best := 0;
      var bestDistance := AnchorDistance(config, p, 0);
      for a := 1 to |config.anchors|
        invariant Nearest(config, p, a, best) && bestDistance == AnchorDistance(config, p, best)
      {
        var d := AnchorDistance(config, p, a);
        if d < bestDistance {
          bestDistance := d;
          best := a;
        }
      }
      NearestUnique(config, p, |config.anchors|, best, CellOf(config, p));
    }

    method Quantize(p: Point) returns (status: Status, cell: nat)
      requires ConfigOk(config)
      ensures status == if |p| != config.dimension then InvalidArgument
                        else if !InDomain(config, p) then OutOfRange else OK
      ensures status == OK ==> cell == CellOf(config, p)
    {
      if |p| != config.dimension {
        return InvalidArgument, 0;
      }
      if !InDomain(config, p) {
        return OutOfRange, 0;
      }
      cell := QuantizeImpl(p);
      return OK, cell;
    }

    /** Writes one cell, keeping the totals. */
    method Store(cell: nat, e: Entry)
      requires EntriesOk() && TotalsOk() && cell < cells.Length && InDomain(config, e.point)
      modifies this`occupiedCells, this`memoryBytes, cells
      ensures EntriesOk() && TotalsOk() && cells[..] == old(cells[..])[cell := Some(e)]
      ensures occupiedCells == old(occupiedCells) + if old(cells[cell]).Some? then 0 else 1
    {
      ghost var s := cells[..];
      OccupiedUpdate(s, cell, Some(e));
      OwnedUpdate(s, cell, Some(e), 8 * config.dimension);
      OwnedAtLeast(s, cell, 8 * config.dimension);
      if cells[cell].Some? {
        memoryBytes := memoryBytes - (8 * config.dimension + |cells[cell].value.payload|);
      } else {
        occupiedCells := occupiedCells + 1;
      }
      cells[cell] := Some(e);
      memoryBytes := memoryBytes + 8 * config.dimension + |e.payload|;
      assert cells[..] == s[cell := Some(e)];
    }

    /** Records a point: only the first point of a cell is kept, whatever its priority. */
    method Observe(p: Point, payload: seq<Byte>, allocOk: bool) returns (status: Status, wasNovel: bool, cell: nat)
      requires Valid()
      modifies this, cells
      ensures Valid()
      ensures status == if |p| != config.dimension then InvalidArgument
                        else if !InDomain(config, p) then OutOfRange
                        else if old(cells[CellOf(config, p)]).None? && !allocOk then OutOfMemory else OK
      ensures status == OK ==> cell == CellOf(config, p) && (wasNovel <==> old(cells[CellOf(config, p)]).None?)
      ensures status == OK && wasNovel ==>
                cells[..] == old(cells[..])[cell := Some(Entry(p, payload, config.priority(p, payload)))]
      ensures !(status == OK && wasNovel) ==> cells[..] == old(cells[..])
      ensures observations == if status == OK then IncrementSaturating(old(observations)) else old(observations)
      ensures novelObservations == if status == OK && wasNovel then IncrementSaturating(old(novelObservations))
                                   else old(novelObservations)
      ensures generation == if status == OK then IncrementSaturating(old(generation)) else old(generation)
    {
      hide InDomain; hide Occupied; hide OwnedBytes;
      if |p| != config.dimension {
        return InvalidArgument, false, 0;
      }
      if !InDomain(config, p) {
        return OutOfRange, false, 0;
      }
      cell := QuantizeImpl(p);
      if cells[cell].Some? {
        wasNovel := false;
      } else {
        if !allocOk {
          return OutOfMemory, false, cell;
        }
        Store(cell, Entry(p, payload, config.priority(p, payload)));
        novelObservations := IncrementSaturating(novelObservations);
        wasNovel := true;
      }
      observations := IncrementSaturating(observations);
      generation := IncrementSaturating(generation);
      status := OK;
    }

    /** Checks the whole batch. */
    method CheckBatch(updates: seq<Update>) returns (status: Status)
      ensures status == BatchStatus(config, updates)
    {
      hide InDomain;
      assert updates[0..] == updates;
      for u := 0 to |updates|
        invariant BatchStatus(config, updates) == BatchStatus(config, updates[u..])
      {
        assert updates[u..][1..] == updates[u + 1..];
        if updates[u].cell >= |config.anchors| || |updates[u].entry.point| != config.dimension {
          return InvalidArgument;
        }
        if !InDomain(config, updates[u].entry.point) {
          return OutOfRange;
        }
      }
      return OK;
    }

    /** Gossip receive. A bad batch changes nothing; an allocation that fails part way leaves
        the updates before it applied. A cell keeps its entry unless an update has a higher priority,
        and only such updates allocate. */
    method Merge(updates: seq<Update>, allocates: nat -> bool) returns (status: Status, ghost applied: nat)
      requires Valid()
      modifies this, cells
      ensures Valid() && applied <= |updates|
      ensures BatchStatus(config, updates) != OK ==> status == BatchStatus(config, updates) && applied == 0
      ensures BatchStatus(config, updates) == OK ==> InRange(cells.Length, updates[..applied])
      ensures BatchStatus(config, updates) == OK ==>
                && (status == OK || status == OutOfMemory)
                && cells[..] == ApplyAll(old(cells[..]), updates[..applied])
                && (status == OK ==> applied == |updates|)
                && (status == OutOfMemory ==> applied < |updates| && !allocates(applied))
      ensures BatchStatus(config, updates) == OK ==> Allocated(old(cells[..]), updates, applied, allocates)
      ensures status != OK && status != OutOfMemory ==> cells[..] == old(cells[..])
      ensures BatchStatus(config, updates) == OK ==>
                forall c :: 0 <= c < cells.Length ==> FirstBest(old(cells[c]), updates[..applied], c, cells[c])
      ensures forall c :: 0 <= c < cells.Length && cells[c] != old(cells[c]) ==>
                cells[c].Some? && Below(old(cells[c]), cells[c].value.priority)
      ensures status == OutOfMemory ==>
                && applied < |updates| && updates[applied].cell < cells.Length
                && Below(cells[updates[applied].cell], updates[applied].entry.priority)
      ensures BatchStatus(config, updates) == OK && Covered(old(cells[..]), updates) ==>
                status == OK && cells[..] == old(cells[..])
      ensures generation == if status == OK then IncrementSaturating(old(generation)) else old(generation)
      ensures observations == old(observations) && novelObservations == old(novelObservations)
      ensures BatchStatus(config, updates) != OK ==> exists k :: FirstRefused(config, updates, k, status)
    {
      hide InDomain; hide Occupied; hide OwnedBytes; hide ApplyAll; hide ConfigOk; hide FirstBest; hide FirstRefused;
      applied := 0;
      status := CheckBatch(updates);
      Refusals(config, updates);
      if status != OK {
        ghost var k := RefusalIsFirst(config, updates);
        return;
      }
      BatchAcceptable(config, updates);
      ghost var s := cells[..];
      ApplyNone(s);
      for u := 0 to |updates|
        invariant EntriesOk() && TotalsOk() && CountersOk() && applied == u
        invariant InRange(|s|, updates[..u]) && cells[..] == ApplyAll(s, updates[..u])
        invariant generation == old(generation) && observations == old(observations)
        invariant novelObservations == old(novelObservations)
        invariant Allocated(s, updates, u, allocates)
      {
        var update := updates[u];
        ApplyNext(s, updates, u);
        if Wins(cells[update.cell], update.entry) {
          if !allocates(u) {
            BatchOutcome(s, updates, u);
            return OutOfMemory, u;
          }
          Store(update.cell, update.entry);
        } else {
          SameCell(cells[..], update);
        }
        applied := u + 1;
      }
      assert updates[..|updates|] == updates;
      BatchOutcome(s, updates, |updates|);
      generation := IncrementSaturating(generation);
    }

    /** Gossip send: how many cells are occupied and, given room, their entries in cell order. */
    method Send(out: array?<Update>) returns (status: Status, count: nat)
      requires Valid()
      modifies out
      ensures Valid() && cells[..] == old(cells[..])
      ensures count == |Snapshot(cells[..])|
      ensures status == if out != null && out.Length < count then BufferTooSmall else OK
      ensures status == OK && out != null ==> out[..count] == Snapshot(cells[..]) && out[count..] == old(out[count..])
      ensures status != OK && out != null ==> out[..] == old(out[..])
    {
      hide InDomain; hide Occupied; hide OwnedBytes; hide ConfigOk; hide Listing;
      ghost var s := cells[..];
      ListingCounts(s, |s|);
      assert s[..|s|] == s;
      count := occupiedCells;
      if out == null {
        return OK, count;
      }
      if out.Length < count {
        return BufferTooSmall, count;
      }
      WriteListing(out);
      status := OK;
    }

    method WriteListing(out: array<Update>)
      requires EntriesOk() && |Snapshot(cells[..])| <= out.Length
      modifies out
      ensures cells[..] == old(cells[..]) && occupiedCells == old(occupiedCells)
      ensures out[..|Snapshot(cells[..])|] == Snapshot(cells[..])
      ensures out[|Snapshot(cells[..])|..] == old(out[|Snapshot(cells[..])|..])
    {
      hide InDomain; hide Listing;
      ghost var s, o := cells[..], out[..];
      var written := 0;
      ListingStart(s);
      for i := 0 to cells.Length
        invariant cells[..] == s && |Listing(s, i)| == written <= out.Length
        invariant out[..written] == Listing(s, i) && out[written..] == o[written..]
      {
        ListingStep(s, i);
        ListingShort(s, i + 1);
        if cells[i].Some? {
          out[written] := Update(i, cells[i].value);
          written := written + 1;
          assert out[..written] == Listing(s, i) + [Update(i, s[i].value)];
        }
      }
    }

    method GetPayload(cell: nat) returns (status: Status, payload: Option<seq<Byte>>)
      requires Valid()
      ensures status == if cell < cells.Length then OK else OutOfRange
      ensures status == OK ==>
                payload == if cells[cell].Some? && cells[cell].value.payload != [] then Some(cells[cell].value.payload)
                           else None
    {
      if cell >= |config.anchors| {
        return OutOfRange, None;
      }
      if cells[cell].Some? && cells[cell].value.payload != [] {
        return OK, Some(cells[cell].value.payload);
      }
      return OK, None;
    }

    method Clear()
      requires Valid()
      modifies this, cells
      ensures Valid() && forall i :: 0 <= i < cells.Length ==> cells[i] == None
      ensures observations == 0 && novelObservations == 0 && memoryBytes == baseBytes
      ensures generation == IncrementSaturating(old(generation))
    {
      hide InDomain; hide Occupied; hide OwnedBytes; hide ConfigOk;
      for i := 0 to cells.Length
        invariant forall j :: 0 <= j < i ==> cells[j] == None
        invariant EntriesOk() && generation == old(generation)
      {
        cells[i] := None;
      }
      NothingOccupied(cells[..], 8 * config.dimension);
      occupiedCells, observations, novelObservations := 0, 0, 0;
      memoryBytes := baseBytes;
      generation := IncrementSaturating(generation);
    }

    /** Accepts exactly the states whose counters, totals and stored points are consistent. */
    method Validate() returns (status: Status)
      requires cells.Length == |config.anchors|
      ensures status == OK || status == CorruptData
      ensures status == OK <==>
                && EntriesOk() && occupiedCells == Occupied(cells[..])
                && observations <= generation && novelObservations <= observations
                && novelObservations <= occupiedCells
    {
      hide InDomain; hide Occupied;
      OccupiedBound(cells[..]);
      if generation < observations || novelObservations > observations
         || occupiedCells > |config.anchors| || occupiedCells < novelObservations {
        return CorruptData;
      }
      var occupied := 0;
      OccupiedNone(cells[..]);
      for i := 0 to cells.Length
        invariant occupied == Occupied(cells[..i])
        invariant forall j :: 0 <= j < i && cells[j].Some? ==> InDomain(config, cells[j].value.point)
      {
        OccupiedStep(cells[..], i);
        if cells[i].Some? {
          occupied := occupied + 1;
          if !InDomain(config, cells[i].value.point) {
            return CorruptData;
          }
        }
      }
      assert cells[..cells.Length] == cells[..];
      return if occupied != occupiedCells then CorruptData else OK;
    }

    /** Every reachable state passes validation. */
    method ValidateReachable() returns (status: Status)
      requires Valid()
      ensures status == OK
    {
      status := Validate();
    }
  }

  /** The cells of the batch already hold entries of at least its priorities. */
  ghost predicate Covered(s: Cells, us: seq<Update>) {
    forall u :: u in us ==> u.cell < |s| && !Below(s[u.cell], u.entry.priority)
  }

  lemma BatchOutcome(s: Cells, us: seq<Update>, k: nat)
    requires k <= |us| && InRange(|s|, us)
    ensures InRange(|s|, us[..k])
    ensures forall c :: 0 <= c < |s| ==> FirstBest(s[c], us[..k], c, ApplyAll(s, us[..k])[c])
    ensures forall c :: 0 <= c < |s| && ApplyAll(s, us[..k])[c] != s[c] ==>
              ApplyAll(s, us[..k])[c].Some? && Below(s[c], ApplyAll(s, us[..k])[c].value.priority)
    ensures Covered(s, us) ==> ApplyAll(s, us[..k]) == s
  {
    hide ApplyAll; hide FirstBest;
    assert forall u :: u in us[..k] ==> u in us;
    forall c | 0 <= c < |s|
      ensures FirstBest(s[c], us[..k], c, ApplyAll(s, us[..k])[c])
      ensures ApplyAll(s, us[..k])[c] != s[c] ==>
                ApplyAll(s, us[..k])[c].Some? && Below(s[c], ApplyAll(s, us[..k])[c].value.priority)
    {
      BatchIsFirstBest(s, us[..k], c);
      if ApplyAll(s, us[..k])[c] != s[c] {
        ChangedIsHigher(s[c], us[..k], c, ApplyAll(s, us[..k])[c]);
      }
    }
    if Covered(s, us) {
      NothingHigher(s, us[..k]);
    }
  }

  lemma {:induction false} NothingOccupied(s: Cells, fixed: nat)
    requires forall i :: 0 <= i < |s| ==> s[i] == None
    ensures Occupied(s) == 0 && OwnedBytes(s, fixed) == 0
  {
    if s != [] {
      NothingOccupied(s[..|s| - 1], fixed);
    }
  }

  lemma {:induction false} OwnedAtLeast(s: Cells, i: nat, fixed: nat)
    requires i < |s|
    ensures OwnedBytes(s, fixed) >= EntryBytes(s[i], fixed)
  {
    if i < |s| - 1 {
      OwnedAtLeast(s[..|s| - 1], i, fixed);
    }
  }

  lemma OccupiedBound(s: Cells)
    ensures Occupied(s) <= |s|
  {
  }

  lemma OccupiedNone(s: Cells)
    ensures Occupied(s[..0]) == 0
  {
  }

  lemma OccupiedStep(s: Cells, i: nat)
    requires i < |s|
    ensures Occupied(s[..i + 1]) == Occupied(s[..i]) + if s[i].Some? then 1 else 0
  {
    assert s[..i + 1][..i] == s[..i];
  }

  lemma ListingStart(s: Cells)
    ensures Listing(s, 0) == []
  {
  }

  lemma ListingStep(s: Cells, i: nat)
    requires i < |s|
    ensures s[i].Some? ==> Listing(s, i + 1) == Listing(s, i) + [Update(i, s[i].value)]
    ensures s[i].None? ==> Listing(s, i + 1) == Listing(s, i)
  {
  }

  lemma {:induction false} ListingShort(s: Cells, k: nat)
    requires k <= |s|
    ensures |Listing(s, k)| <= |Snapshot(s)|
    decreases |s| - k
  {
    if k < |s| {
      ListingShort(s, k + 1);
    }
  }

  lemma TakeInRange(n: nat, us: seq<Update>, k: nat)
    requires InRange(n, us) && k <= |us|
    ensures InRange(n, us[..k])
  {
    forall x | x in us[..k] ensures x.cell < n {
      assert x in us;
    }
  }

  lemma ApplyNext(s: Cells, us: seq<Update>, u: nat)
    requires u < |us| && InRange(|s|, us)
    ensures InRange(|s|, us[..u]) && InRange(|s|, us[..u + 1]) && us[u].cell < |s|
    ensures ApplyAll(s, us[..u + 1]) == Apply(ApplyAll(s, us[..u]), us[u])
  {
    hide ApplyAll;
    assert us[..u + 1] == us[..u] + [us[u]];
    TakeInRange(|s|, us, u + 1);
    ApplyAllSnoc(s, us[..u], us[u]);
  }

  lemma SameCell(s: Cells, u: Update)
    requires u.cell < |s| && !Wins(s[u.cell], u.entry)
    ensures Apply(s, u) == s
  {
  }
}

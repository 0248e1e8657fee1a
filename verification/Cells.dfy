/** Voronoi cells as a join-semilattice: an empty cell is the bottom, and of two entries the
    one with the higher priority wins. */
module Cells {
  import opened Bytes
  import opened Metrics
  import opened Wrappers

  datatype Entry = Entry(point: Point, payload: seq<Byte>, priority: nat)

  datatype Update = Update(cell: nat, entry: Entry)

  type Cells = seq<Option<Entry>>

  /** An update is adopted by an empty cell and replaces a strictly lower priority. */
  predicate Wins(local: Option<Entry>, e: Entry) {
    local.None? || e.priority > local.value.priority
  }

  function Pick(local: Option<Entry>, e: Entry): Option<Entry> {
    if Wins(local, e) then Some(e) else local
  }

  ghost predicate InRange(n: nat, us: seq<Update>) {
    forall u :: u in us ==> u.cell < n
  }

  function Apply(s: Cells, u: Update): (t: Cells)
    requires u.cell < |s|
    ensures |t| == |s|
  {
    s[u.cell := Pick(s[u.cell], u.entry)]
  }

  ghost function ApplyAll(s: Cells, us: seq<Update>): (t: Cells)
    requires InRange(|s|, us)
    ensures |t| == |s|
  {
    if us == [] then s else Apply(ApplyAll(s, us[..|us| - 1]), us[|us| - 1])
  }

  /** The updates of the first k cells, in cell order. */
  ghost function Listing(s: Cells, k: nat): (us: seq<Update>)
    requires k <= |s|
    ensures |us| <= k && forall u :: u in us ==> u.cell < k
  {
    if k == 0 then []
    else Listing(s, k - 1) + if s[k - 1].Some? then [Update(k - 1, s[k - 1].value)] else []
  }

  ghost function Snapshot(s: Cells): seq<Update> {
    Listing(s, |s|)
  }

  function PickOption(local: Option<Entry>, remote: Option<Entry>): Option<Entry> {
    if remote.None? then local else Pick(local, remote.value)
  }

  /** The pointwise join, the local entry kept on equal priority. */
  ghost function Merge(a: Cells, b: Cells): (t: Cells)
    requires |a| == |b|
    ensures |t| == |a| && forall i :: 0 <= i < |a| ==> t[i] == PickOption(a[i], b[i])
  {
    seq(|a|, i requires 0 <= i < |a| => PickOption(a[i], b[i]))
  }

  // ---------------------------------------------------------------- merging a snapshot

  lemma ApplyAllSnoc(s: Cells, us: seq<Update>, u: Update)
    requires InRange(|s|, us + [u])
    ensures InRange(|s|, us) && u.cell < |s|
    ensures ApplyAll(s, us + [u]) == Apply(ApplyAll(s, us), u)
  {
    assert u in us + [u];
    assert forall x :: x in us ==> x in us + [u];
    assert (us + [u])[..|us|] == us;
  }

  lemma {:induction false} ListingMerges(a: Cells, b: Cells, k: nat)
    requires |a| == |b| && k <= |b|
    ensures InRange(|a|, Listing(b, k))
    ensures forall i :: 0 <= i < |a| ==> ApplyAll(a, Listing(b, k))[i] == if i < k then PickOption(a[i], b[i]) else a[i]
  {
    hide ApplyAll; hide Pick;
    if k > 0 {
      ListingMerges(a, b, k - 1);
      if b[k - 1].Some? {
        ApplyAllSnoc(a, Listing(b, k - 1), Update(k - 1, b[k - 1].value));
      } else {
        assert Listing(b, k) == Listing(b, k - 1);
      }
    } else {
      ApplyNone(a);
    }
  }

  lemma ApplyNone(s: Cells)
    ensures ApplyAll(s, []) == s
  {
  }

  /** Merging a snapshot, update by update, is the pointwise join. */
  lemma SnapshotMerges(a: Cells, b: Cells)
    requires |a| == |b|
    ensures InRange(|a|, Snapshot(b)) && ApplyAll(a, Snapshot(b)) == Merge(a, b)
  {
    ListingMerges(a, b, |b|);
  }

  // ---------------------------------------------------------------- which entry wins

  ghost predicate Below(x: Option<Entry>, priority: nat) {
    x.None? || x.value.priority < priority
  }

  /** What a cell holds after a batch, without following the batch: the local entry if no update
      for the cell has a higher priority, else the first of the updates of the highest priority. */
  ghost predicate FirstBest(local: Option<Entry>, us: seq<Update>, c: nat, result: Option<Entry>) {
    || (result == local && forall k :: 0 <= k < |us| && us[k].cell == c ==> !Below(local, us[k].entry.priority))
    || exists k :: 0 <= k < |us| && BestAt(local, us, c, k) && result == Some(us[k].entry)
  }

  ghost predicate BestAt(local: Option<Entry>, us: seq<Update>, c: nat, k: nat)
    requires k < |us|
  {
    && us[k].cell == c && Below(local, us[k].entry.priority)
    && (forall j :: 0 <= j < k && us[j].cell == c ==> us[j].entry.priority < us[k].entry.priority)
    && forall j :: k < j < |us| && us[j].cell == c ==> us[j].entry.priority <= us[k].entry.priority
  }

  lemma {:induction false} BatchIsFirstBest(s: Cells, us: seq<Update>, c: nat)
    requires InRange(|s|, us) && c < |s|
    ensures FirstBest(s[c], us, c, ApplyAll(s, us)[c])
  {
    if us != [] {
      var n := |us| - 1;
      var init, u := us[..n], us[n];
      BatchIsFirstBest(s, init, c);
      var x, y := ApplyAll(s, init)[c], ApplyAll(s, us)[c];
      assert forall j :: 0 <= j < n ==> us[j] == init[j];
      if u.cell != c {
        assert y == x;
        KeepsBest(s[c], us, c, n, x);
      } else if Below(x, u.entry.priority) {
        assert y == Some(u.entry);
        NewBest(s[c], us, c, n, x);
      } else {
        assert y == x;
        KeepsBest(s[c], us, c, n, x);
      }
    }
  }

  lemma KeepsBest(local: Option<Entry>, us: seq<Update>, c: nat, n: nat, x: Option<Entry>)
    requires n == |us| - 1 && FirstBest(local, us[..n], c, x)
    requires us[n].cell == c ==> !Below(x, us[n].entry.priority)
    ensures FirstBest(local, us, c, x)
  {
    var init := us[..n];
    assert forall j :: 0 <= j < n ==> us[j] == init[j];
    if k :| 0 <= k < |init| && BestAt(local, init, c, k) && x == Some(init[k].entry) {
      assert BestAt(local, us, c, k);
    }
  }

  lemma NewBest(local: Option<Entry>, us: seq<Update>, c: nat, n: nat, x: Option<Entry>)
    requires n == |us| - 1 && FirstBest(local, us[..n], c, x)
    requires us[n].cell == c && Below(x, us[n].entry.priority)
    ensures FirstBest(local, us, c, Some(us[n].entry))
  {
    var init := us[..n];
    assert forall j :: 0 <= j < n ==> us[j] == init[j];
    assert BestAt(local, us, c, n);
  }

  /** A cell that changed holds a strictly higher priority than before. */
  lemma ChangedIsHigher(local: Option<Entry>, us: seq<Update>, c: nat, result: Option<Entry>)
    requires FirstBest(local, us, c, result) && result != local
    ensures result.Some? && Below(local, result.value.priority)
  {
  }

  /** A batch that brings nothing higher changes nothing. */
  lemma {:induction false} NothingHigher(s: Cells, us: seq<Update>)
    requires InRange(|s|, us)
    requires forall u :: u in us ==> s[u.cell].Some? && u.entry.priority <= s[u.cell].value.priority
    ensures ApplyAll(s, us) == s
  {
    if us != [] {
      var n := |us| - 1;
      NothingHigher(s, us[..n]);
      assert us[n] in us;
    }
  }

  // ---------------------------------------------------------------- counting

  ghost function Occupied(s: Cells): (n: nat)
    ensures n <= |s|
  {
    if s == [] then 0 else Occupied(s[..|s| - 1]) + if s[|s| - 1].Some? then 1 else 0
  }

  ghost function One(x: Option<Entry>): nat {
    if x.Some? then 1 else 0
  }

  lemma {:induction false} OccupiedUpdate(s: Cells, i: nat, x: Option<Entry>)
    requires i < |s|
    ensures Occupied(s[i := x]) == Occupied(s) - One(s[i]) + One(x)
  {
    var n := |s| - 1;
    if i < n {
      assert s[i := x][..n] == s[..n][i := x];
      OccupiedUpdate(s[..n], i, x);
    } else {
      assert s[i := x][..n] == s[..n];
    }
  }

  lemma {:induction false} ListingCounts(s: Cells, k: nat)
    requires k <= |s|
    ensures |Listing(s, k)| == Occupied(s[..k])
  {
    if k > 0 {
      ListingCounts(s, k - 1);
      assert s[..k][..k - 1] == s[..k - 1];
    }
  }

  /** Bytes owned by the entries, each worth `fixed` plus its payload. */
  ghost function OwnedBytes(s: Cells, fixed: nat): nat {
    if s == [] then 0 else OwnedBytes(s[..|s| - 1], fixed) + EntryBytes(s[|s| - 1], fixed)
  }

  function EntryBytes(x: Option<Entry>, fixed: nat): nat {
    if x.None? then 0 else fixed + |x.value.payload|
  }

  lemma {:induction false} OwnedUpdate(s: Cells, i: nat, x: Option<Entry>, fixed: nat)
    requires i < |s|
    ensures OwnedBytes(s[i := x], fixed) == OwnedBytes(s, fixed) - EntryBytes(s[i], fixed) + EntryBytes(x, fixed)
  {
    var n := |s| - 1;
    if i < n {
      assert s[i := x][..n] == s[..n][i := x];
      OwnedUpdate(s[..n], i, x, fixed);
    } else {
      assert s[i := x][..n] == s[..n];
    }
  }

  // ---------------------------------------------------------------- the laws

  lemma MergeIdempotent(a: Cells, b: Cells)
    requires |a| == |b|
    ensures Merge(a, a) == a && Merge(Merge(a, b), b) == Merge(a, b)
  {
  }

  lemma MergeAssociative(a: Cells, b: Cells, c: Cells)
    requires |a| == |b| == |c|
    ensures Merge(Merge(a, b), c) == Merge(a, Merge(b, c))
  {
    forall i | 0 <= i < |a| ensures Merge(Merge(a, b), c)[i] == Merge(a, Merge(b, c))[i] {
    }
  }

  /** Two different entries of equal priority: no side can win. */
  ghost predicate Tie(x: Option<Entry>, y: Option<Entry>) {
    x.Some? && y.Some? && x != y && x.value.priority == y.value.priority
  }

  /** The merge commutes on exactly the pairs of states without such a cell. */
  lemma MergeCommutesIffNoTie(a: Cells, b: Cells)
    requires |a| == |b|
    ensures Merge(a, b) == Merge(b, a) <==> forall i :: 0 <= i < |a| ==> !Tie(a[i], b[i])
  {
    forall i | 0 <= i < |a| ensures Merge(a, b)[i] == Merge(b, a)[i] <==> !Tie(a[i], b[i]) {
    }
    if forall i :: 0 <= i < |a| ==> !Tie(a[i], b[i]) {
      assert forall i :: 0 <= i < |a| ==> Merge(a, b)[i] == Merge(b, a)[i];
    }
  }

  /** The documented commutativity fails when two entries of a cell have the same priority. */
  lemma MergeNeedNotCommute()
    ensures exists a: Cells, b: Cells :: |a| == |b| && Merge(a, b) != Merge(b, a)
  {
    var a, b := [Some(Entry([0.0], [], 7))], [Some(Entry([1.0], [], 7))];
    assert Merge(a, b)[0] != Merge(b, a)[0];
  }

  ghost function Priority(e: Option<Entry>): int {
    if e.None? then -1 else e.value.priority
  }

  /** Same occupied cells with the same priorities. */
  ghost predicate SameShape(a: Cells, b: Cells) {
    |a| == |b| && forall i :: 0 <= i < |a| ==> Priority(a[i]) == Priority(b[i])
  }

  /** Occupancy and priorities commute unconditionally. */
  lemma MergeShapeCommutes(a: Cells, b: Cells)
    requires |a| == |b|
    ensures SameShape(Merge(a, b), Merge(b, a))
  {
  }

  // ---------------------------------------------------------------- joins of heard updates

  /** x is the highest-priority update heard for cell c, None when there is none. */
  ghost predicate CellJoin(x: Option<Entry>, heard: set<Update>, c: nat) {
    match x
    case None => forall u :: u in heard ==> u.cell != c
    case Some(e) => Update(c, e) in heard && forall u :: u in heard && u.cell == c ==> u.entry.priority <= e.priority
  }

  /** The cells are the pointwise highest-priority join of the updates heard. */
  ghost predicate IsJoin(s: Cells, heard: set<Update>) {
    && (forall u :: u in heard ==> u.cell < |s|)
    && forall c :: 0 <= c < |s| ==> CellJoin(s[c], heard, c)
  }

  lemma ApplyJoins(s: Cells, heard: set<Update>, u: Update)
    requires IsJoin(s, heard) && u.cell < |s|
    ensures IsJoin(Apply(s, u), heard + {u})
  {
    forall c | 0 <= c < |s| ensures CellJoin(Apply(s, u)[c], heard + {u}, c) {
      assert CellJoin(s[c], heard, c);
    }
  }

  ghost function Contents(us: seq<Update>): set<Update> {
    set u | u in us
  }

  lemma {:induction false} ApplyAllJoins(s: Cells, heard: set<Update>, us: seq<Update>)
    requires IsJoin(s, heard) && InRange(|s|, us)
    ensures IsJoin(ApplyAll(s, us), heard + Contents(us))
  {
    hide IsJoin;
    if us == [] {
      assert heard + Contents(us) == heard;
    } else {
      var init, u := us[..|us| - 1], us[|us| - 1];
      ApplyAllJoins(s, heard, init);
      ApplyJoins(ApplyAll(s, init), heard + Contents(init), u);
      assert heard + Contents(us) == heard + Contents(init) + {u};
    }
  }

  lemma {:induction false} ListingMembers(s: Cells, k: nat, u: Update)
    requires k <= |s|
    ensures u in Listing(s, k) <==> u.cell < k && s[u.cell] == Some(u.entry)
  {
    if k > 0 {
      ListingMembers(s, k - 1, u);
    }
  }

  /** What a receiver has heard after applying the first k updates of a snapshot of b: the
      sender's updates for the cells those updates carry. */
  ghost function Forwarded(b: Cells, heard: set<Update>, k: nat): set<Update>
    requires k <= |Snapshot(b)|
  {
    set u | u in heard && exists v :: v in Snapshot(b)[..k] && v.cell == u.cell
  }

  lemma PrefixContents(b: Cells, B: set<Update>, k: nat)
    requires IsJoin(b, B) && k <= |Snapshot(b)|
    ensures InRange(|b|, Snapshot(b)[..k]) && Contents(Snapshot(b)[..k]) <= Forwarded(b, B, k) <= B
  {
    hide Listing;
    forall u | u in Snapshot(b)[..k] ensures u.cell < |b| && u in Forwarded(b, B, k) {
      assert u in Snapshot(b);
      ListingMembers(b, |b|, u);
      assert CellJoin(b[u.cell], B, u.cell);
    }
  }

  /** A partly applied snapshot of a join forwards everything its sender had heard for the
      cells that got through. */
  lemma PrefixJoins(a: Cells, A: set<Update>, b: Cells, B: set<Update>, k: nat)
    requires IsJoin(a, A) && IsJoin(b, B) && |a| == |b| && k <= |Snapshot(b)|
    ensures InRange(|a|, Snapshot(b)[..k])
    ensures IsJoin(ApplyAll(a, Snapshot(b)[..k]), A + Forwarded(b, B, k))
  {
    hide Listing; hide CellJoin; hide Forwarded; hide ApplyAll; hide Matched;
    var us := Snapshot(b)[..k];
    PrefixContents(b, B, k);
    var t := ApplyAll(a, us);
    ApplyAllJoins(a, A, us);
    forall u | u in Forwarded(b, B, k) ensures Matched(Contents(us), u) {
      ForwardedMatched(b, B, k, u);
    }
    forall c | 0 <= c < |t| ensures CellJoin(t[c], A + Forwarded(b, B, k), c) {
      assert CellJoin(t[c], A + Contents(us), c);
      CellJoinWidens(t[c], A, Contents(us), Forwarded(b, B, k), c);
    }
  }

  /** Some update of the set is for the same cell and at least as good. */
  ghost predicate Matched(us: set<Update>, u: Update) {
    exists v :: v in us && v.cell == u.cell && u.entry.priority <= v.entry.priority
  }

  lemma ForwardedMatched(b: Cells, B: set<Update>, k: nat, u: Update)
    requires IsJoin(b, B) && k <= |Snapshot(b)| && u in Forwarded(b, B, k)
    ensures Matched(Contents(Snapshot(b)[..k]), u)
  {
    hide Listing;
    var v :| v in Snapshot(b)[..k] && v.cell == u.cell;
    assert v in Snapshot(b);
    ListingMembers(b, |b|, v);
    assert CellJoin(b[v.cell], B, v.cell);
    assert v in Contents(Snapshot(b)[..k]);
  }

  lemma CellJoinWidens(x: Option<Entry>, A: set<Update>, U: set<Update>, F: set<Update>, c: nat)
    requires CellJoin(x, A + U, c) && U <= F && forall u :: u in F ==> Matched(U, u)
    ensures CellJoin(x, A + F, c)
  {
    forall u | u in F && u.cell == c
      ensures x.Some? && u.entry.priority <= x.value.priority
    {
      var v :| v in U && v.cell == u.cell && u.entry.priority <= v.entry.priority;
      assert v in A + U;
    }
  }

  /** A whole snapshot forwards everything its sender had heard. */
  lemma MergeJoins(a: Cells, A: set<Update>, b: Cells, B: set<Update>)
    requires IsJoin(a, A) && IsJoin(b, B) && |a| == |b|
    ensures IsJoin(Merge(a, b), A + B)
  {
    forall c | 0 <= c < |a| ensures CellJoin(Merge(a, b)[c], A + B, c) {
      assert CellJoin(a[c], A, c) && CellJoin(b[c], B, c);
    }
  }

  lemma WholeForwarded(b: Cells, B: set<Update>)
    requires IsJoin(b, B)
    ensures Forwarded(b, B, |Snapshot(b)|) == B
  {
    hide Listing;
    assert Snapshot(b)[..|Snapshot(b)|] == Snapshot(b);
    forall u | u in B ensures u in Forwarded(b, B, |Snapshot(b)|) {
      assert CellJoin(b[u.cell], B, u.cell);
      ListingMembers(b, |b|, Update(u.cell, b[u.cell].value));
    }
  }

  /** Two states that have heard the same agree on occupancy and priorities. */
  lemma SameHeardSameShape(a: Cells, b: Cells, heard: set<Update>)
    requires IsJoin(a, heard) && IsJoin(b, heard) && |a| == |b|
    ensures SameShape(a, b)
  {
    forall i | 0 <= i < |a| ensures Priority(a[i]) == Priority(b[i]) {
      assert CellJoin(a[i], heard, i) && CellJoin(b[i], heard, i);
    }
  }

  /** Hearing more never empties a cell or lowers a priority. */
  lemma HearingMoreIsAbove(a: Cells, A: set<Update>, b: Cells, B: set<Update>)
    requires IsJoin(a, A) && IsJoin(b, B) && |a| == |b| && A <= B
    ensures forall i :: 0 <= i < |a| ==> Priority(a[i]) <= Priority(b[i])
  {
    forall i | 0 <= i < |a| ensures Priority(a[i]) <= Priority(b[i]) {
      assert CellJoin(a[i], A, i) && CellJoin(b[i], B, i);
    }
  }

  /** The highest priority heard for a cell belongs to one entry only. */
  ghost predicate TopsUnique(heard: set<Update>) {
    forall u, v :: u in heard && v in heard && u.cell == v.cell && u != v && u.entry.priority == v.entry.priority
                   ==> Beaten(heard, u)
  }

  ghost predicate Beaten(heard: set<Update>, u: Update) {
    exists w :: w in heard && w.cell == u.cell && w.entry.priority > u.entry.priority
  }

  /** Whole entries are determined by what was heard exactly when no cell has two different
      entries at its top priority. */
  lemma JoinUniqueIffTopsUnique(s: Cells, heard: set<Update>)
    requires IsJoin(s, heard)
    ensures TopsUnique(heard) <==> forall t: Cells :: |t| == |s| && IsJoin(t, heard) ==> t == s
  {
    if TopsUnique(heard) {
      forall t: Cells | |t| == |s| && IsJoin(t, heard) ensures t == s {
        SameEntries(s, t, heard);
      }
    }
    if forall t: Cells :: |t| == |s| && IsJoin(t, heard) ==> t == s {
      forall u, v | u in heard && v in heard && u.cell == v.cell && u != v && u.entry.priority == v.entry.priority
        ensures Beaten(heard, u)
      {
        if !Beaten(heard, u) {
          TopStays(s, heard, u);
          TopStays(s, heard, v);
          assert false;
        }
      }
    }
  }

  lemma SameEntries(s: Cells, t: Cells, heard: set<Update>)
    requires TopsUnique(heard) && IsJoin(s, heard) && IsJoin(t, heard) && |s| == |t|
    ensures s == t
  {
    forall i | 0 <= i < |s| ensures s[i] == t[i] {
      assert CellJoin(s[i], heard, i) && CellJoin(t[i], heard, i);
      assert s[i].Some? ==> !Beaten(heard, Update(i, s[i].value));
    }
  }

  lemma TopStays(s: Cells, heard: set<Update>, u: Update)
    requires IsJoin(s, heard) && u in heard && !Beaten(heard, u)
    requires forall t: Cells :: |t| == |s| && IsJoin(t, heard) ==> t == s
    ensures u.cell < |s| && s[u.cell] == Some(u.entry)
  {
    SwapTop(s, heard, u);
    assert s[u.cell := Some(u.entry)] == s;
  }

  lemma SwapTop(s: Cells, heard: set<Update>, u: Update)
    requires IsJoin(s, heard) && u in heard && !Beaten(heard, u)
    ensures |s[u.cell := Some(u.entry)]| == |s| && IsJoin(s[u.cell := Some(u.entry)], heard)
  {
    var t := s[u.cell := Some(u.entry)];
    forall c | 0 <= c < |t| ensures CellJoin(t[c], heard, c) {
      assert CellJoin(s[c], heard, c);
      if c == u.cell {
        forall w | w in heard && w.cell == c ensures w.entry.priority <= u.entry.priority {
        }
      }
    }
  }

  /** In particular when no two different entries of a cell share a priority. */
  ghost predicate NoCollision(heard: set<Update>) {
    forall u, v :: u in heard && v in heard && u.cell == v.cell && u.entry.priority == v.entry.priority ==> u == v
  }

  lemma NoCollisionSameCells(a: Cells, b: Cells, heard: set<Update>)
    requires NoCollision(heard) && IsJoin(a, heard) && IsJoin(b, heard) && |a| == |b|
    ensures a == b
  {
    SameEntries(a, b, heard);
  }
}

/** What a fleet of workers holds together: occupied cells, what each worker has heard, and the
    diagnostics a merge counts. */
module FleetSpec {
  import opened Cells
  import opened Crdt
  import opened Metrics
  import opened Wrappers

  ghost function OccupiedSet(s: Cells): set<nat> {
    set c: nat | c < |s| && s[c].Some?
  }

  lemma {:induction false} OccupiedSetSize(s: Cells)
    ensures |OccupiedSet(s)| == Occupied(s)
  {
    if s != [] {
      var t, n := s[..|s| - 1], |s| - 1;
      OccupiedSetSize(t);
      assert OccupiedSet(s) == OccupiedSet(t) + if s[n].Some? then {n} else {};
    }
  }

  /** The cells some worker occupies. */
  ghost function Joint(world: seq<Cells>): set<nat> {
    set i, c | 0 <= i < |world| && c in OccupiedSet(world[i]) :: c
  }

  /** The cells of the points that lie in the domain. */
  ghost function Image(c: Config, points: seq<Point>): set<nat>
    requires ConfigOk(c)
  {
    set p | p in points && InDomain(c, p) :: CellOf(c, p)
  }

  lemma ImageSnoc(c: Config, points: seq<Point>, p: Point)
    requires ConfigOk(c)
    ensures Image(c, points + [p]) == Image(c, points) + if InDomain(c, p) then {CellOf(c, p)} else {}
  {
    hide InDomain; hide CellOf; hide ConfigOk;
    assert forall q :: q in points + [p] <==> q in points || q == p;
  }

  lemma JointUpdate(world: seq<Cells>, i: nat, s: Cells, more: set<nat>)
    requires i < |world| && OccupiedSet(s) == OccupiedSet(world[i]) + more
    ensures Joint(world[i := s]) == Joint(world) + more
  {
    hide OccupiedSet;
    var w := world[i := s];
    forall x | x in Joint(w) ensures x in Joint(world) + more {
      var k :| 0 <= k < |w| && x in OccupiedSet(w[k]);
      assert k != i ==> w[k] == world[k];
    }
    forall x | x in Joint(world) ensures x in Joint(w) {
      var k :| 0 <= k < |world| && x in OccupiedSet(world[k]);
      assert x in OccupiedSet(w[k]);
    }
    assert w[i] == s;
  }

  // ---------------------------------------------------------------- what workers have heard

  ghost function UnionOf(sets: seq<set<Update>>): set<Update> {
    set i, u | 0 <= i < |sets| && u in sets[i] :: u
  }

  ghost function HeardCells(heard: set<Update>): set<nat> {
    set u | u in heard :: u.cell
  }

  /** The state of every worker as updates of its own. */
  ghost function Own(world: seq<Cells>): (own: seq<set<Update>>)
    ensures |own| == |world|
  {
    seq(|world|, i requires 0 <= i < |world| => Contents(Snapshot(world[i])))
  }

  lemma SelfJoin(s: Cells)
    ensures IsJoin(s, Contents(Snapshot(s)))
  {
    hide Listing;
    forall u | u in Contents(Snapshot(s)) ensures u.cell < |s| && s[u.cell] == Some(u.entry) {
      ListingMembers(s, |s|, u);
    }
    forall c | 0 <= c < |s| ensures CellJoin(s[c], Contents(Snapshot(s)), c) {
      if s[c].Some? {
        ListingMembers(s, |s|, Update(c, s[c].value));
      }
    }
  }

  lemma JoinOccupied(s: Cells, heard: set<Update>)
    requires IsJoin(s, heard)
    ensures OccupiedSet(s) == HeardCells(heard)
  {
    forall c: nat | c < |s| ensures c in OccupiedSet(s) <==> c in HeardCells(heard) {
      assert CellJoin(s[c], heard, c);
      if s[c].Some? {
        assert Update(c, s[c].value) in heard;
      }
    }
  }

  /** While gossip runs, every worker is a join of updates that includes its own and comes from
      the fleet. */
  ghost predicate Informed(n: nat, initial: seq<set<Update>>, world: seq<Cells>, heard: seq<set<Update>>) {
    && |initial| == |world| == |heard|
    && (forall i :: 0 <= i < |world| ==> |world[i]| == n && IsJoin(world[i], heard[i]))
    && (forall i :: 0 <= i < |world| ==> initial[i] <= heard[i] <= UnionOf(initial))
  }

  lemma InformedStart(n: nat, world: seq<Cells>)
    requires forall i :: 0 <= i < |world| ==> |world[i]| == n
    ensures Informed(n, Own(world), world, Own(world))
  {
    hide IsJoin; hide Snapshot;
    forall i | 0 <= i < |world| ensures IsJoin(world[i], Own(world)[i]) {
      SelfJoin(world[i]);
    }
  }

  lemma MergeSize(a: Cells, b: Cells)
    requires |a| == |b|
    ensures |Merge(a, b)| == |a|
  {
  }

  /** However far gossip has come, the fleet occupies together what it occupied at first. */
  lemma JointIsKept(n: nat, initial: seq<set<Update>>, world: seq<Cells>, heard: seq<set<Update>>)
    requires Informed(n, initial, world, heard)
    ensures Joint(world) == HeardCells(UnionOf(initial))
  {
    hide IsJoin; hide OccupiedSet;
    forall i | 0 <= i < |world| ensures OccupiedSet(world[i]) == HeardCells(heard[i]) {
      JoinOccupied(world[i], heard[i]);
    }
    forall x | x in HeardCells(UnionOf(initial)) ensures x in Joint(world) {
      var u :| u in UnionOf(initial) && u.cell == x;
      var i :| 0 <= i < |initial| && u in initial[i];
      assert x in OccupiedSet(world[i]);
    }
    forall x | x in Joint(world) ensures x in HeardCells(UnionOf(initial)) {
      var i :| 0 <= i < |world| && x in OccupiedSet(world[i]);
      var u :| u in heard[i] && u.cell == x;
    }
  }

  /** A worker occupies the joint set exactly when it occupies as many cells. */
  lemma ReachedIffJoint(n: nat, initial: seq<set<Update>>, world: seq<Cells>, heard: seq<set<Update>>, i: nat)
    requires Informed(n, initial, world, heard) && i < |world|
    ensures Occupied(world[i]) == |Joint(world)| <==> OccupiedSet(world[i]) == Joint(world)
  {
    hide Informed; hide OccupiedSet; hide Occupied;
    OccupiedSetSize(world[i]);
    assert OccupiedSet(world[i]) <= Joint(world);
    SubsetSize(OccupiedSet(world[i]), Joint(world));
  }

  lemma SubsetSize(a: set<nat>, b: set<nat>)
    requires a <= b
    ensures |a| == |b| <==> a == b
  {
    assert b == a + (b - a);
    assert |b| == |a| + |b - a|;
  }

  /** Everyone has heard everything. */
  ghost predicate AllHeard(initial: seq<set<Update>>, heard: seq<set<Update>>) {
    |heard| == |initial| && forall k :: 0 <= k < |heard| ==> heard[k] == UnionOf(initial)
  }

  /** Once everyone has heard everything, every worker is the join of the starting states:
      all occupy the joint set with the same priorities, and are equal if no two different
      entries of a cell share a priority. */
  lemma FullyInformed(n: nat, initial: seq<set<Update>>, world: seq<Cells>, heard: seq<set<Update>>, i: nat, j: nat)
    requires Informed(n, initial, world, heard) && AllHeard(initial, heard) && i < |world| && j < |world|
    ensures OccupiedSet(world[i]) == Joint(world) && Occupied(world[i]) == |Joint(world)|
    ensures IsJoin(world[i], UnionOf(initial)) && SameShape(world[i], world[j])
    ensures NoCollision(UnionOf(initial)) ==> world[i] == world[j]
  {
    hide IsJoin; hide OccupiedSet; hide SameShape; hide NoCollision; hide Occupied; hide UnionOf;
    JointIsKept(n, initial, world, heard);
    JoinOccupied(world[i], heard[i]);
    OccupiedSetSize(world[i]);
    SameHeardSameShape(world[i], world[j], UnionOf(initial));
    if NoCollision(UnionOf(initial)) {
      NoCollisionSameCells(world[i], world[j], UnionOf(initial));
    }
  }

  // ---------------------------------------------------------------- merge diagnostics

  predicate HasPayload(x: Option<Entry>) {
    x.Some? && x.value.payload != []
  }

  /** What the fleet counts as a conflict: an update for a cell that shows a payload. */
  ghost function Conflicts(s: Cells, us: seq<Update>): (n: nat)
    requires InRange(|s|, us)
    ensures n <= |us|
  {
    if us == [] then 0
    else Conflicts(s, us[..|us| - 1])
         + if HasPayload(ApplyAll(s, us[..|us| - 1])[us[|us| - 1].cell]) then 1 else 0
  }

  lemma ConflictsSnoc(s: Cells, us: seq<Update>, u: Update)
    requires InRange(|s|, us + [u])
    ensures InRange(|s|, us) && u.cell < |s|
    ensures Conflicts(s, us + [u]) == Conflicts(s, us) + if HasPayload(ApplyAll(s, us)[u.cell]) then 1 else 0
  {
    assert u in us + [u];
    assert forall x :: x in us ==> x in us + [u];
    assert (us + [u])[..|us|] == us;
  }

  ghost function PayloadClashes(a: Cells, b: Cells, k: nat): set<nat> {
    set c: nat | c < k && c < |a| && c < |b| && b[c].Some? && HasPayload(a[c])
  }

  /** For a snapshot, the count is the number of its cells that show a payload locally. */
  lemma {:induction false} ConflictsOfListing(a: Cells, b: Cells, k: nat)
    requires |a| == |b| && k <= |b|
    ensures InRange(|a|, Listing(b, k)) && Conflicts(a, Listing(b, k)) == |PayloadClashes(a, b, k)|
  {
    hide ApplyAll; hide HasPayload; hide PayloadClashes; hide Conflicts; hide Listing;
    ClashesStep(a, b, k);
    ConflictsStep(a, b, k);
    if k > 0 {
      ConflictsOfListing(a, b, k - 1);
    }
  }

  lemma ConflictsStep(a: Cells, b: Cells, k: nat)
    requires |a| == |b| && k <= |b|
    ensures InRange(|a|, Listing(b, k)) && (k == 0 ==> Conflicts(a, Listing(b, k)) == 0)
    ensures k > 0 ==>
              && InRange(|a|, Listing(b, k - 1))
              && Conflicts(a, Listing(b, k)) == Conflicts(a, Listing(b, k - 1))
                                                + if b[k - 1].Some? && HasPayload(a[k - 1]) then 1 else 0
  {
    hide ApplyAll; hide HasPayload; hide Conflicts;
    ListingMerges(a, b, k);
    NoConflicts(a);
    if k > 0 {
      ListingMerges(a, b, k - 1);
      if b[k - 1].Some? {
        ConflictsSnoc(a, Listing(b, k - 1), Update(k - 1, b[k - 1].value));
      } else {
        assert Listing(b, k) == Listing(b, k - 1);
      }
    }
  }

  lemma NoConflicts(s: Cells)
    ensures Conflicts(s, []) == 0
  {
  }

  lemma ClashesStep(a: Cells, b: Cells, k: nat)
    requires |a| == |b| && k <= |b|
    ensures k == 0 ==> |PayloadClashes(a, b, k)| == 0
    ensures k > 0 ==> |PayloadClashes(a, b, k)| == |PayloadClashes(a, b, k - 1)|
                                                   + if b[k - 1].Some? && HasPayload(a[k - 1]) then 1 else 0
  {
    hide HasPayload;
    if k == 0 {
      assert PayloadClashes(a, b, 0) == {};
    } else {
      assert PayloadClashes(a, b, k) == PayloadClashes(a, b, k - 1)
                                        + if b[k - 1].Some? && HasPayload(a[k - 1]) then {k - 1} else {};
    }
  }

  /** It is the documented number of updates for occupied cells exactly when every such cell
      has a payload. */
  lemma ConflictsAsDocumented(a: Cells, b: Cells)
    requires |a| == |b|
    ensures InRange(|a|, Snapshot(b))
    ensures Conflicts(a, Snapshot(b)) == |OccupiedSet(a) * OccupiedSet(b)|
            <==> forall c :: 0 <= c < |a| && a[c].Some? && b[c].Some? ==> HasPayload(a[c])
  {
    hide HasPayload; hide Conflicts; hide Listing;
    ConflictsOfListing(a, b, |b|);
    var clashes, both := PayloadClashes(a, b, |b|), OccupiedSet(a) * OccupiedSet(b);
    ClashesAreOccupied(a, b);
    SubsetSize(clashes, both);
    if clashes == both {
      forall c | 0 <= c < |a| && a[c].Some? && b[c].Some? ensures HasPayload(a[c]) {
        assert c in both;
      }
    }
  }

  /** Two replicas without payloads that occupy the same cell: one documented conflict, and none
      counted. */
  lemma ConflictsGoUncounted()
    ensures exists a: Cells, b: Cells ::
              && |a| == |b| && Bare(a) && Bare(b) && InRange(|a|, Snapshot(b))
              && |OccupiedSet(a) * OccupiedSet(b)| == 1 && Conflicts(a, Snapshot(b)) == 0
  {
    var s := [Some(Entry([0.0], [], 7))];
    BareNeverConflicts(s, s);
    assert OccupiedSet(s) * OccupiedSet(s) == {0};
  }

  lemma ClashesAreOccupied(a: Cells, b: Cells)
    requires |a| == |b|
    ensures PayloadClashes(a, b, |b|) <= OccupiedSet(a) * OccupiedSet(b)
  {
  }

  /** No entry carries a payload. */
  ghost predicate Bare(s: Cells) {
    forall c :: 0 <= c < |s| ==> !HasPayload(s[c])
  }

  /** A fleet without payloads never counts a conflict. */
  lemma BareNeverConflicts(a: Cells, b: Cells)
    requires |a| == |b| && Bare(a) && Bare(b)
    ensures InRange(|a|, Snapshot(b)) && Conflicts(a, Snapshot(b)) == 0 && Bare(Merge(a, b))
  {
    hide Conflicts; hide Listing;
    ConflictsOfListing(a, b, |b|);
    assert PayloadClashes(a, b, |b|) == {};
  }
}

/** Whom a worker gossips with: reservoir sampling over a xorshift generator. */
module Peers {

  function MixUp(x: bv64, k: nat): bv64
    requires k < 64
  {
    x ^ (x << k)
  }

  function MixDown(x: bv64, k: nat): bv64
    requires k < 64
  {
    x ^ (x >> k)
  }

  /** One step of the generator. */
  function Step(x: bv64): bv64 {
    MixUp(MixDown(MixUp(x, 13), 7), 17)
  }

  /** The first output from the state one, and the state no other state leads to. */
  lemma StepValues(x: bv64)
    ensures Step(1) == 0x4082_2041
    ensures Step(x) == 0 <==> x == 0
  {
  }

  ghost function After(x: bv64, n: nat): bv64 {
    if n == 0 then x else Step(After(x, n - 1))
  }

  lemma {:induction false} ZeroStays(x: bv64, n: nat)
    ensures After(x, n) == 0 <==> x == 0
  {
    hide Step;
    if n > 0 {
      ZeroStays(x, n - 1);
      StepValues(After(x, n - 1));
    }
  }

  /** The generator that picks gossip peers. */
  class Xorshift {
    var state: bv64

    constructor (seed: bv64)
      ensures state == seed
    {
      state := seed;
    }

    method Next() returns (x: nat)
      modifies this
      ensures state == Step(old(state)) && x == state as nat
    {
      hide MixUp; hide MixDown;
      var s := state;
      s := MixUp(s, 13);
      s := MixDown(s, 7);
      s := MixUp(s, 17);
      state := s;
      x := s as nat;
    }
  }

  ghost predicate DistinctPeers(peers: seq<nat>, self: nat, limit: nat) {
    && (forall a :: 0 <= a < |peers| ==> peers[a] < limit && peers[a] != self)
    && (forall a, b :: 0 <= a < b < |peers| ==> peers[a] != peers[b])
  }

  /** The workers other than self, numbered in order. */
  function Candidate(self: nat, c: nat): nat {
    if c < self then c else c + 1
  }

  /** Where candidate c goes: the first ones to their own slots, a later one to one of c + 1 slots
      drawn, of which only the first `count` exist. */
  ghost function Slot(start: bv64, count: nat, c: nat): nat {
    if c < count then c else After(start, c - count + 1) as nat % (c + 1)
  }

  /** Of the first n candidates, c is the last that goes to slot j. */
  ghost predicate LastIn(start: bv64, count: nat, n: nat, j: nat, c: nat) {
    c < n && Slot(start, count, c) == j && forall d :: c < d < n ==> Slot(start, count, d) != j
  }

  ghost predicate Holds(start: bv64, self: nat, count: nat, n: nat, j: nat, worker: nat) {
    exists c :: LastIn(start, count, n, j, c) && worker == Candidate(self, c)
  }

  /** Every slot holds the last candidate that went there. */
  ghost predicate Reservoir(start: bv64, self: nat, n: nat, peers: seq<nat>) {
    forall j :: 0 <= j < |peers| ==> Holds(start, self, |peers|, n, j, peers[j])
  }

  /** The seed decides the peers. */
  lemma ReservoirUnique(start: bv64, self: nat, n: nat, p: seq<nat>, q: seq<nat>)
    requires Reservoir(start, self, n, p) && Reservoir(start, self, n, q) && |p| == |q|
    ensures p == q
  {
    hide Slot;
    forall j | 0 <= j < |p| ensures p[j] == q[j] {
      assert Holds(start, self, |p|, n, j, p[j]) && Holds(start, self, |p|, n, j, q[j]);
      var c :| LastIn(start, |p|, n, j, c) && p[j] == Candidate(self, c);
      var d :| LastIn(start, |p|, n, j, d) && q[j] == Candidate(self, d);
    }
  }

  lemma ZeroSlot(count: nat, c: nat)
    ensures Slot(0, count, c) == if c < count then c else 0
  {
    hide After;
    if c >= count {
      ZeroStays(0, c - count + 1);
    }
  }

  /** A generator that starts at zero stays there: the first slot goes to the last candidate and the
      others are never replaced. */
  lemma ZeroSeed(self: nat, n: nat, peers: seq<nat>)
    requires Reservoir(0, self, n, peers) && 0 < |peers| < n
    ensures peers[0] == Candidate(self, n - 1)
    ensures forall j :: 0 < j < |peers| ==> peers[j] == Candidate(self, j)
  {
    hide After; hide Slot;
    forall c: nat | |peers| <= c ensures Slot(0, |peers|, c) == 0 {
      ZeroSlot(|peers|, c);
    }
    forall j | 0 <= j < |peers| ensures peers[j] == Candidate(self, if j == 0 then n - 1 else j) {
      assert Holds(0, self, |peers|, n, j, peers[j]);
      var c :| LastIn(0, |peers|, n, j, c) && peers[j] == Candidate(self, c);
      ZeroSlot(|peers|, j);
      ZeroSlot(|peers|, c);
      assert Slot(0, |peers|, n - 1) == 0;
    }
  }

  /** Reservoir sampling: the peers are distinct workers other than the one that picks, and which
      ones is decided by the generator. */
  method SelectPeers(self: nat, workerCount: nat, count: nat, peers: array<nat>, rng: Xorshift)
    requires self < workerCount && count <= workerCount - 1 && count == peers.Length
    modifies peers, rng
    ensures DistinctPeers(peers[..], self, workerCount)
    ensures Reservoir(old(rng.state), self, workerCount - 1, peers[..])
    ensures rng.state == After(old(rng.state), workerCount - 1 - count)
  {
    hide Slot; hide After; hide Step; hide Filled; hide Reservoir; hide DistinctPeers;
    var picked, cidx := 0, 0;
    ghost var start := rng.state;
    ghost var last: seq<nat> := [];
    NothingDrawn(start, self, count);
    NoPeers(self);
    for i := 0 to workerCount
      invariant cidx == (if self < i then i - 1 else i) && picked == (if cidx < count then cidx else count)
      invariant rng.state == After(start, if cidx < count then 0 else cidx - count)
      invariant |last| == picked && Filled(start, self, count, cidx, peers[..picked], last)
      invariant DistinctPeers(peers[..picked], self, i)
    {
      MorePeers(peers[..picked], self, i);
      if i != self {
        if picked < count {
          OwnSlot(start, self, count, peers[..picked], last);
          peers[picked] := i;
          picked := picked + 1;
          assert peers[..picked] == peers[..picked - 1] + [i];
          last := last + [cidx];
        } else {
          OneMoreDraw(start, count, cidx);
          var r := rng.Next();
          var j := r % (cidx + 1);
          Replaced(start, self, count, cidx, peers[..picked], last, j);
          if j < count {
            ghost var before := peers[..picked];
            OtherPeer(before, self, i, j);
            peers[j] := i;
            assert peers[..picked] == before[j := i];
            last := last[j := cidx];
          }
        }
        cidx := cidx + 1;
      }
    }
    assert peers[..picked] == peers[..];
    FilledIsReservoir(start, self, count, cidx, peers[..], last);
  }

  lemma NoPeers(self: nat)
    ensures DistinctPeers([], self, 0)
  {
  }

  lemma MorePeers(peers: seq<nat>, self: nat, limit: nat)
    requires DistinctPeers(peers, self, limit)
    ensures DistinctPeers(peers, self, limit + 1)
    ensures limit != self ==> DistinctPeers(peers + [limit], self, limit + 1)
  {
  }

  lemma OtherPeer(peers: seq<nat>, self: nat, limit: nat, j: nat)
    requires DistinctPeers(peers, self, limit) && j < |peers| && limit != self
    ensures DistinctPeers(peers[j := limit], self, limit + 1)
  {
  }

  /** Of the first n candidates, last[j] is the last that went to slot j. */
  ghost predicate Filled(start: bv64, self: nat, count: nat, n: nat, peers: seq<nat>, last: seq<nat>) {
    && |peers| == |last|
    && forall j :: 0 <= j < |peers| ==> LastIn(start, count, n, j, last[j]) && peers[j] == Candidate(self, last[j])
  }

  lemma NothingDrawn(start: bv64, self: nat, count: nat)
    ensures After(start, 0) == start && Filled(start, self, count, 0, [], [])
  {
  }

  lemma OneMoreDraw(start: bv64, count: nat, c: nat)
    requires count <= c
    ensures After(start, c + 1 - count) == Step(After(start, c - count))
    ensures Slot(start, count, c) == After(start, c + 1 - count) as nat % (c + 1)
  {
  }

  lemma OwnSlot(start: bv64, self: nat, count: nat, peers: seq<nat>, last: seq<nat>)
    requires |peers| < count && Filled(start, self, count, |peers|, peers, last)
    ensures Filled(start, self, count, |peers| + 1, peers + [Candidate(self, |peers|)], last + [|peers|])
  {
    assert Slot(start, count, |peers|) == |peers|;
  }

  lemma Replaced(start: bv64, self: nat, count: nat, n: nat, peers: seq<nat>, last: seq<nat>, j: nat)
    requires Filled(start, self, count, n, peers, last) && |peers| == count && Slot(start, count, n) == j
    ensures j < count ==> Filled(start, self, count, n + 1, peers[j := Candidate(self, n)], last[j := n])
    ensures j >= count ==> Filled(start, self, count, n + 1, peers, last)
  {
    hide Slot;
  }

  lemma FilledIsReservoir(start: bv64, self: nat, count: nat, n: nat, peers: seq<nat>, last: seq<nat>)
    requires Filled(start, self, count, n, peers, last) && |peers| == count
    ensures Reservoir(start, self, n, peers)
  {
    hide Slot;
    forall j | 0 <= j < |peers| ensures Holds(start, self, count, n, j, peers[j]) {
      assert LastIn(start, count, n, j, last[j]) && peers[j] == Candidate(self, last[j]);
    }
  }

  // ---------------------------------------------------------------- rounds

  /** The state after i workers drew d numbers each. */
  ghost function Turn(start: bv64, d: nat, i: nat): bv64 {
    if i == 0 then start else After(Turn(start, d, i - 1), d)
  }

  /** The state before round r among w workers that pick k peers each. */
  ghost function RoundStart(start: bv64, w: nat, k: nat, r: nat): bv64
    requires k < w
  {
    if r == 0 then start else Turn(RoundStart(start, w, k, r - 1), w - 1 - k, w)
  }

  ghost predicate PickedBy(start: bv64, self: nat, n: nat, k: nat, to: set<nat>) {
    exists peers: seq<nat> :: |peers| == k && Reservoir(start, self, n, peers) && to == set p | p in peers
  }

  /** Worker after worker, the generator decided whom these picked. */
  ghost predicate RoundPicked(start: bv64, w: nat, k: nat, picks: seq<set<nat>>)
    requires k < w
  {
    forall i :: 0 <= i < |picks| ==> PickedBy(Turn(start, w - 1 - k, i), i, w - 1, k, picks[i])
  }

  /** Two runs from one seed pick alike. */
  lemma RoundPickedUnique(start: bv64, w: nat, k: nat, p: seq<set<nat>>, q: seq<set<nat>>)
    requires k < w && |p| == |q| && RoundPicked(start, w, k, p) && RoundPicked(start, w, k, q)
    ensures p == q
  {
    hide Turn; hide Reservoir;
    forall i | 0 <= i < |p| ensures p[i] == q[i] {
      var x := Turn(start, w - 1 - k, i);
      assert PickedBy(x, i, w - 1, k, p[i]) && PickedBy(x, i, w - 1, k, q[i]);
      var a: seq<nat> :| |a| == k && Reservoir(x, i, w - 1, a) && p[i] == set c | c in a;
      var b: seq<nat> :| |b| == k && Reservoir(x, i, w - 1, b) && q[i] == set c | c in b;
      ReservoirUnique(x, i, w - 1, a, b);
    }
  }

  lemma RoundPickedNone(start: bv64, w: nat, k: nat)
    requires k < w
    ensures RoundPicked(start, w, k, []) && Turn(start, w - 1 - k, 0) == start
  {
  }

  lemma RoundPickedSnoc(start: bv64, w: nat, k: nat, picks: seq<set<nat>>, peers: seq<nat>, to: set<nat>)
    requires k < w && |peers| == k && RoundPicked(start, w, k, picks)
    requires Reservoir(Turn(start, w - 1 - k, |picks|), |picks|, w - 1, peers) && to == set p | p in peers
    ensures RoundPicked(start, w, k, picks + [to])
    ensures Turn(start, w - 1 - k, |picks| + 1) == After(Turn(start, w - 1 - k, |picks|), w - 1 - k)
  {
    hide After; hide Reservoir;
    assert PickedBy(Turn(start, w - 1 - k, |picks|), |picks|, w - 1, k, to);
  }

  /** A lone worker picks nobody. */
  lemma PicksNobody(start: bv64, picks: seq<set<nat>>)
    requires RoundPicked(start, 1, 0, picks)
    ensures RoundPicked(start, 1, 0, picks + [{}]) && Turn(start, 0, |picks| + 1) == Turn(start, 0, |picks|)
  {
    var nobody: seq<nat> := [];
    assert (set p | p in nobody) == {};
    RoundPickedSnoc(start, 1, 0, picks, nobody, {});
  }
}

/** The two-watched-literal scheme: which clauses sit in which watch lists, also while one
    list is being walked, and what being watched guarantees. */
module CdclWatches {
  import opened Cnf
  import opened CdclState
  import opened Wrappers

  type Watches = map<Lit, seq<nat>>

  function WatchList(w: Watches, l: Lit): seq<nat> {
    if l in w then w[l] else []
  }

  ghost predicate WatchedBy(clauses: seq<Clause>, l: Lit, idx: nat) {
    idx < |clauses| && |clauses[idx]| >= 2 && (clauses[idx][0] == l || clauses[idx][1] == l)
  }

  ghost predicate ListOk(clauses: seq<Clause>, list: seq<nat>, l: Lit) {
    && (forall i, j :: 0 <= i < j < |list| ==> list[i] != list[j])
    && (forall idx :: idx in list ==> WatchedBy(clauses, l, idx))
  }

  ghost predicate Has(w: Watches, l: Lit, idx: nat) {
    idx in WatchList(w, l)
  }

  /** Clause idx is in the lists of its first two literals, or its entry for fl is pending. */
  ghost predicate Listed(clauses: seq<Clause>, w: Watches, idx: nat, fl: Lit, pending: seq<nat>)
    requires idx < |clauses|
  {
    |clauses[idx]| >= 2 ==>
      && (Has(w, clauses[idx][0], idx) || (clauses[idx][0] == fl && idx in pending))
      && (Has(w, clauses[idx][1], idx) || (clauses[idx][1] == fl && idx in pending))
  }

  /** The watch lists hold exactly the first two literals of every clause, once each, where
      the entries of fl still to be visited are pending. */
  ghost predicate WatchInv(clauses: seq<Clause>, w: Watches, fl: Lit, pending: seq<nat>) {
    && (forall l :: l in w ==> ListOk(clauses, w[l], l))
    && ListOk(clauses, pending, fl)
    && (forall idx :: idx in pending ==> !Has(w, fl, idx))
    && (forall idx :: 0 <= idx < |clauses| ==> Listed(clauses, w, idx, fl, pending))
  }

  ghost predicate AllWellFormed(clauses: seq<Clause>) {
    forall i :: 0 <= i < |clauses| ==> WellFormed(clauses[i])
  }

  lemma BeginWalk(clauses: seq<Clause>, w: Watches, old_fl: Lit, fl: Lit)
    requires WatchInv(clauses, w, old_fl, [])
    ensures WatchInv(clauses, w[fl := []], fl, WatchList(w, fl))
  {
    var v := w[fl := []];
    forall idx | 0 <= idx < |clauses| ensures Listed(clauses, v, idx, fl, WatchList(w, fl)) {
      assert Listed(clauses, w, idx, old_fl, []);
    }
  }

  lemma ListOkSwap(clauses: seq<Clause>, idx: nat, list: seq<nat>, l: Lit)
    requires idx < |clauses| && |clauses[idx]| >= 2 && ListOk(clauses, list, l)
    ensures ListOk(clauses[idx := Swap(clauses[idx], 0, 1)], list, l)
  {
    forall i | i in list ensures WatchedBy(clauses[idx := Swap(clauses[idx], 0, 1)], l, i) {
      assert WatchedBy(clauses, l, i);
    }
  }

  /** Exchanging the two watched literals changes nothing for the lists. */
  lemma SwapWatches(clauses: seq<Clause>, w: Watches, fl: Lit, pending: seq<nat>, idx: nat)
    requires WatchInv(clauses, w, fl, pending) && idx < |clauses| && |clauses[idx]| >= 2
    ensures WatchInv(clauses[idx := Swap(clauses[idx], 0, 1)], w, fl, pending)
  {
    var d := clauses[idx := Swap(clauses[idx], 0, 1)];
    forall l | l in w ensures ListOk(d, w[l], l) {
      ListOkSwap(clauses, idx, w[l], l);
    }
    ListOkSwap(clauses, idx, pending, fl);
    forall i | 0 <= i < |d| ensures Listed(d, w, i, fl, pending) {
      assert Listed(clauses, w, i, fl, pending);
    }
  }

  ghost function AddWatch(w: Watches, l: Lit, idx: nat): Watches {
    w[l := WatchList(w, l) + [idx]]
  }

  lemma AddedHas(w: Watches, l: Lit, idx: nat, k: Lit, i: nat)
    ensures Has(AddWatch(w, l, idx), k, i) <==> Has(w, k, i) || (k == l && i == idx)
  {
    if k == l {
      var list := WatchList(w, l);
      assert (list + [idx])[|list|] == idx;
      assert i in list + [idx] <==> i in list || i == idx;
    }
  }

  lemma AddedListOk(clauses: seq<Clause>, list: seq<nat>, l: Lit, idx: nat)
    requires ListOk(clauses, list, l) && idx !in list && WatchedBy(clauses, l, idx)
    ensures ListOk(clauses, list + [idx], l)
  {
    forall i | i in list + [idx] ensures WatchedBy(clauses, l, i) {
      assert i in list || i == idx;
    }
  }

  /** The visited clause keeps watching fl. */
  lemma KeepWatch(clauses: seq<Clause>, w: Watches, fl: Lit, pending: seq<nat>)
    requires WatchInv(clauses, w, fl, pending) && pending != []
    ensures WatchInv(clauses, AddWatch(w, fl, pending[0]), fl, pending[1..])
  {
    var idx, v := pending[0], AddWatch(w, fl, pending[0]);
    assert idx in pending;
    AddedListOk(clauses, WatchList(w, fl), fl, idx);
    forall i | i in pending[1..] ensures !Has(v, fl, i) {
      AddedHas(w, fl, idx, fl, i);
    }
    forall i | 0 <= i < |clauses| ensures Listed(clauses, v, i, fl, pending[1..]) {
      assert Listed(clauses, w, i, fl, pending);
      if |clauses[i]| >= 2 {
        AddedHas(w, fl, idx, clauses[i][0], i);
        AddedHas(w, fl, idx, clauses[i][1], i);
        assert i in pending ==> i == idx || i in pending[1..];
      }
    }
  }

  lemma MoveListOk(clauses: seq<Clause>, idx: nat, k: nat, list: seq<nat>, l: Lit)
    requires idx < |clauses| && 2 <= k < |clauses[idx]| && ListOk(clauses, list, l)
    requires l == clauses[idx][1] && WellFormed(clauses[idx]) ==> idx !in list
    requires WellFormed(clauses[idx])
    ensures ListOk(clauses[idx := Swap(clauses[idx], 1, k)], list, l)
  {
    forall i | i in list ensures WatchedBy(clauses[idx := Swap(clauses[idx], 1, k)], l, i) {
      assert WatchedBy(clauses, l, i);
    }
  }

  /** The visited clause, watching fl second, watches its literal k instead. */
  lemma MoveWatch(clauses: seq<Clause>, w: Watches, fl: Lit, pending: seq<nat>, k: nat)
    requires WatchInv(clauses, w, fl, pending) && pending != [] && AllWellFormed(clauses)
    requires pending[0] < |clauses| && 2 <= k < |clauses[pending[0]]| && clauses[pending[0]][1] == fl
    ensures WatchInv(clauses[pending[0] := Swap(clauses[pending[0]], 1, k)],
                     AddWatch(w, clauses[pending[0]][k], pending[0]), fl, pending[1..])
  {
    var idx := pending[0];
    var c, l := clauses[idx], clauses[idx][k];
    var d, v := clauses[idx := Swap(c, 1, k)], AddWatch(w, l, idx);
    assert idx in pending && l != fl;
    HasMeansWatched(clauses, w, fl, pending, l, idx);
    forall m | m in v ensures ListOk(d, v[m], m) {
      MoveOneList(clauses, w, fl, pending, k, m);
    }
    assert idx !in pending[1..];
    MoveListOk(clauses, idx, k, pending[1..], fl);
    forall i | i in pending[1..] ensures !Has(v, fl, i) {
      AddedHas(w, l, idx, fl, i);
    }
    forall i | 0 <= i < |d| ensures Listed(d, v, i, fl, pending[1..]) {
      MoveListed(clauses, w, fl, pending, k, i);
    }
  }

  lemma HasMeansWatched(clauses: seq<Clause>, w: Watches, fl: Lit, pending: seq<nat>, l: Lit, idx: nat)
    requires WatchInv(clauses, w, fl, pending)
    ensures Has(w, l, idx) ==> WatchedBy(clauses, l, idx)
  {
    assert l in w ==> ListOk(clauses, w[l], l);
  }

  lemma MoveOneList(clauses: seq<Clause>, w: Watches, fl: Lit, pending: seq<nat>, k: nat, m: Lit)
    requires WatchInv(clauses, w, fl, pending) && pending != [] && AllWellFormed(clauses)
    requires pending[0] < |clauses| && 2 <= k < |clauses[pending[0]]| && clauses[pending[0]][1] == fl
    requires !Has(w, clauses[pending[0]][k], pending[0]) && clauses[pending[0]][k] != fl
    requires m in AddWatch(w, clauses[pending[0]][k], pending[0])
    ensures ListOk(clauses[pending[0] := Swap(clauses[pending[0]], 1, k)],
                   AddWatch(w, clauses[pending[0]][k], pending[0])[m], m)
  {
    var idx := pending[0];
    var l := clauses[idx][k];
    var d := clauses[idx := Swap(clauses[idx], 1, k)];
    assert idx in pending;
    if m in w || m == l {
      assert ListOk(clauses, WatchList(w, m), m);
      assert m == fl ==> !Has(w, fl, idx);
      MoveListOk(clauses, idx, k, WatchList(w, m), m);
      if m == l {
        AddedListOk(d, WatchList(w, m), m, idx);
      }
    }
  }

  lemma MoveListed(clauses: seq<Clause>, w: Watches, fl: Lit, pending: seq<nat>, k: nat, i: nat)
    requires WatchInv(clauses, w, fl, pending) && pending != [] && AllWellFormed(clauses)
    requires pending[0] < |clauses| && 2 <= k < |clauses[pending[0]]| && clauses[pending[0]][1] == fl
    requires i < |clauses|
    ensures Listed(clauses[pending[0] := Swap(clauses[pending[0]], 1, k)],
                   AddWatch(w, clauses[pending[0]][k], pending[0]), i, fl, pending[1..])
  {
    var idx, l := pending[0], clauses[pending[0]][k];
    var d := clauses[idx := Swap(clauses[idx], 1, k)];
    assert Listed(clauses, w, i, fl, pending);
    assert i in pending ==> i == idx || i in pending[1..];
    if |d[i]| >= 2 {
      AddedHas(w, l, idx, d[i][0], i);
      AddedHas(w, l, idx, d[i][1], i);
    }
  }

  /** Abandoning the walk puts the unvisited entries back. */
  lemma AbortWalk(clauses: seq<Clause>, w: Watches, fl: Lit, pending: seq<nat>)
    requires WatchInv(clauses, w, fl, pending)
    ensures WatchInv(clauses, w[fl := WatchList(w, fl) + pending], fl, [])
  {
    var kept := WatchList(w, fl);
    var v := w[fl := kept + pending];
    assert ListOk(clauses, kept, fl);
    forall idx | idx in kept + pending ensures WatchedBy(clauses, fl, idx) {
      assert idx in kept || idx in pending;
    }
    forall i, j | 0 <= i < j < |kept + pending| ensures (kept + pending)[i] != (kept + pending)[j] {
      if i < |kept| <= j {
        assert pending[j - |kept|] in pending;
      }
    }
    forall i | 0 <= i < |clauses| ensures Listed(clauses, v, i, fl, []) {
      assert Listed(clauses, w, i, fl, pending);
    }
  }

  lemma EndWalk(clauses: seq<Clause>, w: Watches, fl: Lit)
    requires WatchInv(clauses, w, fl, [])
    ensures WatchInv(clauses, w, 0, [])
  {
    forall i | 0 <= i < |clauses| ensures Listed(clauses, w, i, 0, []) {
      assert Listed(clauses, w, i, fl, []);
    }
  }

  /** A new clause enters the lists of its first two literals. */
  lemma AppendWatched(clauses: seq<Clause>, w: Watches, fl: Lit, c: Clause)
    requires WatchInv(clauses, w, fl, []) && |c| >= 2 && WellFormed(c)
    ensures WatchInv(clauses + [c], AddWatch(AddWatch(w, c[0], |clauses|), c[1], |clauses|), fl, [])
  {
    var n, d := |clauses|, clauses + [c];
    var v := AddWatch(w, c[0], n);
    var u := AddWatch(v, c[1], n);
    assert c[0] != c[1];
    forall l | l in u ensures ListOk(d, u[l], l) {
      assert ListOk(clauses, WatchList(w, l), l);
      AppendListOk(clauses, c, WatchList(w, l), l);
      if l == c[0] || l == c[1] {
        AddedListOk(d, WatchList(w, l), l, n);
      }
    }
    forall i | 0 <= i < |d| ensures Listed(d, u, i, fl, []) {
      if |d[i]| >= 2 {
        AddedHas(w, c[0], n, d[i][0], i);
        AddedHas(w, c[0], n, d[i][1], i);
        AddedHas(v, c[1], n, d[i][0], i);
        AddedHas(v, c[1], n, d[i][1], i);
        if i < n { assert Listed(clauses, w, i, fl, []); }
      }
    }
  }

  lemma AppendListOk(clauses: seq<Clause>, c: Clause, list: seq<nat>, l: Lit)
    requires ListOk(clauses, list, l)
    ensures ListOk(clauses + [c], list, l) && |clauses| !in list
  {
    forall i | i in list ensures i < |clauses| && WatchedBy(clauses + [c], l, i) {
      assert WatchedBy(clauses, l, i);
    }
  }

  lemma AppendUnwatched(clauses: seq<Clause>, w: Watches, fl: Lit, c: Clause)
    requires WatchInv(clauses, w, fl, []) && |c| < 2
    ensures WatchInv(clauses + [c], w, fl, [])
  {
    var d := clauses + [c];
    forall l | l in w ensures ListOk(d, w[l], l) {
      AppendListOk(clauses, c, w[l], l);
    }
    forall i | 0 <= i < |d| ensures Listed(d, w, i, fl, []) {
      if i < |clauses| { assert Listed(clauses, w, i, fl, []); }
    }
  }

  // ---------------------------------------------------------------- what watching guarantees

  /** Not both watched literals were falsified by entries already propagated. The textbook
      invariant (a falsified watch implies a true partner of no higher level) does not hold
      here, because a learned clause watches an arbitrary second literal. */
  ghost predicate Live(s: Core, qhead: nat, c: Clause) {
    |c| >= 2 ==> !(FalseBefore(s, c[0], qhead) && FalseBefore(s, c[1], qhead))
  }

  ghost predicate AllLive(s: Core, qhead: nat, clauses: seq<Clause>) {
    forall i :: 0 <= i < |clauses| ==> Live(s, qhead, clauses[i])
  }

  ghost predicate AtTop(s: Core, l: Lit) {
    Var(l) in s.level && s.level[Var(l)] == |s.lim|
  }

  /** Live, or about to lose a falsified watch when the current level is undone. */
  ghost predicate LiveBelow(s: Core, qhead: nat, c: Clause) {
    Live(s, qhead, c) || (|c| >= 2 && (AtTop(s, c[0]) || AtTop(s, c[1])))
  }

  lemma CutMakesLive(s: Core, t: Core, level: nat, qhead: nat, c: Clause)
    requires TrailOk(s) && level < |s.lim| && CutTo(s, t, s.lim[level], level) && TrailOk(t)
    requires s.lim[|s.lim| - 1] <= qhead && LiveBelow(s, qhead, c)
    ensures Live(t, |t.trail|, c)
  {
    if |c| >= 2 && FalseBefore(t, c[0], |t.trail|) && FalseBefore(t, c[1], |t.trail|) {
      CutFalse(s, t, level, qhead, c[0]);
      CutFalse(s, t, level, qhead, c[1]);
      assert false;
    }
  }

  lemma CutFalse(s: Core, t: Core, level: nat, qhead: nat, l: Lit)
    requires TrailOk(s) && level < |s.lim| && CutTo(s, t, s.lim[level], level)
    requires s.lim[|s.lim| - 1] <= qhead && FalseBefore(t, l, |t.trail|)
    ensures FalseBefore(s, l, qhead) && !AtTop(s, l)
  {
    CutEntry(s, t, level, Var(l));
    assert s.lim[level] <= s.lim[|s.lim| - 1];
    TopLevel(s, Var(l));
  }

  lemma CutEntry(s: Core, t: Core, level: nat, v: nat)
    requires TrailOk(s) && level < |s.lim| && CutTo(s, t, s.lim[level], level) && v in t.assignment
    ensures SameEntry(s, t, v) && VarOk(s, v) && s.pos[v] < s.lim[level]
  {
    assert SameEntry(s, t, v);
  }

  lemma ExtendLive(s: Core, qhead: nat, clauses: seq<Clause>, lit: Lit, reason: Option<nat>, i: nat)
    requires Var(lit) !in s.assignment && qhead <= |s.trail| && i < |clauses|
    ensures Live(s, qhead, clauses[i]) ==> Live(Extend(s, lit, reason), qhead, clauses[i])
  {
  }

  /** Moving qhead past p endangers only the clauses that watch -p. */
  lemma AdvanceLive(s: Core, qhead: nat, clauses: seq<Clause>, w: Watches, fl: Lit, i: nat)
    requires TrailOk(s) && qhead < |s.trail| && i < |clauses|
    requires WatchInv(clauses, w, fl, []) && Live(s, qhead, clauses[i])
    ensures i in WatchList(w, -s.trail[qhead]) || Live(s, qhead + 1, clauses[i])
  {
    assert Listed(clauses, w, i, fl, []);
    if |clauses[i]| >= 2 {
      FalseNow(s, qhead, clauses[i][0]);
      FalseNow(s, qhead, clauses[i][1]);
    }
  }

  lemma FalseNow(s: Core, qhead: nat, l: Lit)
    requires TrailOk(s) && qhead < |s.trail|
    ensures FalseBefore(s, l, qhead + 1) ==> FalseBefore(s, l, qhead) || l == -s.trail[qhead]
  {
    if FalseBefore(s, l, qhead + 1) {
      assert VarOk(s, Var(l));
    }
  }

  /** Once everything on the trail is propagated, a live clause is not falsified. */
  lemma LiveNotFalsified(s: Core, c: Clause)
    requires TrailOk(s) && |c| >= 2 && Live(s, |s.trail|, c)
    ensures !IsFalse(s, c[0]) || !IsFalse(s, c[1])
  {
    FalseIsBefore(s, c[0]);
    FalseIsBefore(s, c[1]);
  }

  lemma FalseIsBefore(s: Core, l: Lit)
    requires TrailOk(s)
    ensures IsFalse(s, l) ==> FalseBefore(s, l, |s.trail|)
  {
    if IsFalse(s, l) {
      assert VarOk(s, Var(l));
    }
  }
}

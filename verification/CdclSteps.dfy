/** What each step of the engine does to its state, on values: one fact for every branch of
    its methods. */
module CdclSteps {
  import opened Cnf
  import opened CdclState
  import opened CdclWatches
  import opened CdclAnalysis
  import opened Wrappers

  datatype RealConflictClause = RealConflictClause(
    id: nat, lits: seq<Lit>, lbd: nat, backjumpLevel: nat, activity: real)

  /** What visiting one watched clause did. */
  datatype Visit = Satisfied | Moved | Propagated | Falsified

  /** A learned clause as reported: a nonempty well-formed consequence of the formula. */
  ghost predicate Sound(base: seq<Clause>, e: RealConflictClause) {
    && e.lits != [] && WellFormed(e.lits) && Entails(base, e.lits)
    && 1 <= e.lbd <= |e.lits|
  }

  ghost function VarsOf(f: seq<Clause>): set<nat> {
    set i, j | 0 <= i < |f| && 0 <= j < |f[i]| :: Var(f[i][j])
  }

  ghost function UpTo(n: nat): (r: set<nat>)
    ensures forall v :: v in r <==> 1 <= v <= n
  {
    if n == 0 then {} else UpTo(n - 1) + {n}
  }

  ghost predicate AllFalse(s: Core, c: Clause) {
    forall l :: l in c ==> IsFalse(s, l)
  }

  /** The trail only grew, at the same level. */
  ghost predicate Grown(s: Core, t: Core) {
    && s.trail <= t.trail && t.lim == s.lim
    && (|t.trail| > |s.trail| ==> s.assignment.Keys < t.assignment.Keys)
    && (|t.trail| == |s.trail| ==> t == s)
  }

  lemma GrownSelf(s: Core)
    ensures Grown(s, s)
  {
  }

  lemma GrownExtend(s: Core, t: Core, lit: Lit, reason: Option<nat>)
    requires Grown(s, t) && Var(lit) !in t.assignment
    ensures Grown(s, Extend(t, lit, reason))
  {
    assert Var(lit) !in s.assignment.Keys;
  }

  /** The same clauses up to the order of their literals. */
  ghost predicate Permuted(before: seq<Clause>, after: seq<Clause>) {
    |before| == |after| && forall i :: 0 <= i < |after| ==> SameLits(before[i], after[i])
  }

  lemma PermutedSelf(a: seq<Clause>)
    ensures Permuted(a, a)
  {
  }

  lemma PermutedTrans(a: seq<Clause>, b: seq<Clause>, c: seq<Clause>)
    requires Permuted(a, b) && Permuted(b, c)
    ensures Permuted(a, c)
  {
    forall i | 0 <= i < |c| ensures SameLits(a[i], c[i]) {
      assert SameLits(a[i], b[i]) && SameLits(b[i], c[i]);
    }
  }

  /** Every variable assigned since s got a reason of two or more literals. */
  ghost predicate Forced(s: Core, t: Core, clauses: seq<Clause>) {
    forall v :: v in t.assignment ==> v in t.reason && (SameEntryOf(s, t, v) || ForcedVar(s, t, clauses, v))
  }

  ghost predicate SameEntryOf(s: Core, t: Core, v: nat)
    requires v in t.assignment && v in t.reason
  {
    v in s.assignment && v in s.reason && s.assignment[v] == t.assignment[v] && s.reason[v] == t.reason[v]
  }

  ghost predicate ForcedVar(s: Core, t: Core, clauses: seq<Clause>, v: nat)
    requires v in t.reason
  {
    && v !in s.assignment && t.reason[v].Some?
    && t.reason[v].value < |clauses| && |clauses[t.reason[v].value]| >= 2
  }

  lemma ForcedSelf(s: Core, clauses: seq<Clause>)
    requires s.assignment.Keys == s.reason.Keys
    ensures Forced(s, s, clauses)
  {
  }

  lemma NothingForced(universe: set<nat>, base: seq<Clause>, s: Core, clauses: seq<Clause>)
    requires CoreOk(universe, base, s, clauses)
    ensures Permuted(clauses, clauses) && Forced(s, s, clauses)
  {
    PermutedSelf(clauses);
    ForcedSelf(s, clauses);
  }

  lemma ForcedTrans(r: Core, s: Core, t: Core, before: seq<Clause>, after: seq<Clause>)
    requires Forced(r, s, before) && Forced(s, t, after) && Permuted(before, after) && Grown(r, s)
    ensures Forced(r, t, after)
  {
    forall v | v in t.assignment ensures v in t.reason && (SameEntryOf(r, t, v) || ForcedVar(r, t, after, v)) {
      if SameEntryOf(s, t, v) && ForcedVar(r, s, before, v) {
        assert SameLits(before[s.reason[v].value], after[s.reason[v].value]);
      }
    }
  }

  /** Every variable is a positive decision or was assigned by a learned clause or by one of two
      or more literals: a unit of the formula is never a reason. */
  ghost predicate Sourced(base: seq<Clause>, s: Core, clauses: seq<Clause>) {
    forall v :: v in s.assignment ==> v in s.reason && SourceOk(|base|, clauses, s.reason[v], s.assignment[v])
  }

  ghost predicate SourceOk(n: nat, clauses: seq<Clause>, reason: Option<nat>, positive: bool) {
    match reason
    case None => positive
    case Some(c) => c < |clauses| && (|clauses[c]| >= 2 || c >= n)
  }

  lemma ForcedKeepsSourced(base: seq<Clause>, s: Core, t: Core, before: seq<Clause>, after: seq<Clause>)
    requires Sourced(base, s, before) && Forced(s, t, after) && Permuted(before, after)
    ensures Sourced(base, t, after)
  {
    forall v | v in t.assignment
      ensures v in t.reason && SourceOk(|base|, after, t.reason[v], t.assignment[v])
    {
      if SameEntryOf(s, t, v) && s.reason[v].Some? {
        assert SourceOk(|base|, before, s.reason[v], s.assignment[v]);
        assert SameLits(before[s.reason[v].value], after[s.reason[v].value]);
      }
    }
  }

  lemma ExtendKeepsSourced(base: seq<Clause>, s: Core, clauses: seq<Clause>, lit: Lit, reason: Option<nat>,
                           more: seq<Clause>)
    requires Sourced(base, s, clauses) && SourceOk(|base|, clauses + more, reason, lit > 0)
    ensures Sourced(base, Extend(s, lit, reason), clauses + more)
  {
    var t := Extend(s, lit, reason);
    forall v | v in t.assignment
      ensures v in t.reason && SourceOk(|base|, clauses + more, t.reason[v], t.assignment[v])
    {
      if v != Var(lit) {
        assert SourceOk(|base|, clauses, s.reason[v], s.assignment[v]);
      }
    }
  }

  lemma CutKeepsSourced(base: seq<Clause>, s: Core, t: Core, clauses: seq<Clause>, level: nat)
    requires TrailOk(s) && level < |s.lim| && CutTo(s, t, s.lim[level], level)
    requires Sourced(base, s, clauses)
    ensures Sourced(base, t, clauses)
  {
    hide VarOk; hide EntryOk; hide SourceOk;
    forall v | v in t.assignment
      ensures v in t.reason && SourceOk(|base|, clauses, t.reason[v], t.assignment[v])
    {
      assert SameEntry(s, t, v);
    }
  }

  /** The trace numbers its clauses 1, 2, ..., and what was learned is a prefix of it, up to the
      order of the literals. */
  ghost predicate Recorded(base: seq<Clause>, clauses: seq<Clause>, trace: seq<RealConflictClause>) {
    && (forall i :: 0 <= i < |trace| ==> trace[i].id == i + 1)
    && |base| <= |clauses| <= |base| + |trace|
    && forall i :: 0 <= i < |clauses| - |base| ==> SameLits(trace[i].lits, clauses[|base| + i])
  }

  lemma RecordedPermutes(base: seq<Clause>, before: seq<Clause>, after: seq<Clause>, trace: seq<RealConflictClause>)
    requires Recorded(base, before, trace) && Permuted(before, after)
    ensures Recorded(base, after, trace)
  {
    forall i | 0 <= i < |after| - |base| ensures SameLits(trace[i].lits, after[|base| + i]) {
      assert SameLits(trace[i].lits, before[|base| + i]) && SameLits(before[|base| + i], after[|base| + i]);
    }
  }

  lemma StepPermutes(base: seq<Clause>, before: seq<Clause>, after: seq<Clause>, trace: seq<RealConflictClause>,
                     inStep: bool)
    requires (inStep ==> Recorded(base, before, trace)) && Permuted(before, after)
    ensures |before| == |after| && (inStep ==> Recorded(base, after, trace))
  {
    if inStep {
      RecordedPermutes(base, before, after, trace);
    }
  }

  lemma PermutedSizes(before: seq<Clause>, after: seq<Clause>)
    requires Permuted(before, after)
    ensures |before| == |after| && forall i :: 0 <= i < |after| ==> |before[i]| == |after[i]|
  {
    assert forall i :: 0 <= i < |after| ==> SameLits(before[i], after[i]);
  }

  lemma ConflictSize(s: Core, clauses: seq<Clause>, idx: nat)
    requires FalsifiedAtTop(s, clauses, idx)
    ensures idx < |clauses| && |clauses[idx]| >= 2
  {
  }

  lemma StepGrows(base: seq<Clause>, clauses: seq<Clause>, trace: seq<RealConflictClause>,
                  more: seq<RealConflictClause>, inStep: bool, conflicts: nat)
    requires trace <= more && |more| == |trace| + 1 && more[|trace|].id == conflicts
    requires inStep ==> Recorded(base, clauses, trace) && |clauses| == |base| + |trace| && conflicts == |more|
    ensures inStep ==> Recorded(base, clauses, more) && Recorded(base, clauses + [more[|trace|].lits], more)
  {
    if inStep {
      RecordedGrows(base, clauses, trace, more);
    }
  }

  lemma RecordedGrows(base: seq<Clause>, clauses: seq<Clause>, trace: seq<RealConflictClause>,
                      more: seq<RealConflictClause>)
    requires Recorded(base, clauses, trace) && |clauses| == |base| + |trace|
    requires trace <= more && |more| == |trace| + 1 && more[|trace|].id == |more|
    ensures Recorded(base, clauses, more) && Recorded(base, clauses + [more[|trace|].lits], more)
  {
  }

  /** A clause that watches falseLit, with it second. */
  function Ordered(c: Clause, falseLit: Lit): (d: Clause)
    requires |c| >= 2
    ensures |d| == |c|
  {
    if c[0] == falseLit then Swap(c, 0, 1) else c
  }

  function OtherWatch(c: Clause, l: Lit): Lit
    requires |c| >= 2
  {
    if c[0] == l then c[1] else c[0]
  }

  /** The first literal from index 2 on that is not false, or the clause length. */
  ghost predicate IsReplacement(s: Core, c: Clause, k: nat) {
    2 <= k <= |c| && (forall j :: 2 <= j < k ==> IsFalse(s, c[j])) && (k < |c| ==> !IsFalse(s, c[k]))
  }

  /** Why a visit ends as it does: the other watch is true, else the first literal that is not
      false replaces falseLit, else the other watch is false or becomes true. */
  ghost predicate VisitCause(s: Core, c: Clause, after: Clause, falseLit: Lit, visit: Visit)
    requires |c| >= 2
  {
    var d := Ordered(c, falseLit);
    match visit
    case Satisfied => after == d && IsTrue(s, d[0])
    case Moved =>
      !IsTrue(s, d[0]) && exists k: nat :: IsReplacement(s, d, k) && k < |d| && after == Swap(d, 1, k)
    case Propagated => after == d && !IsTrue(s, d[0]) && !IsFalse(s, d[0]) && IsReplacement(s, d, |d|)
    case Falsified => after == d && IsFalse(s, d[0]) && IsReplacement(s, d, |d|)
  }

  /** What a visit does to the watch lists: the clause goes to the end of one. */
  ghost predicate ListEffect(before: Watches, after: Watches, falseLit: Lit, idx: nat, c: Clause, visit: Visit)
    requires |c| >= 2
  {
    after == AddWatch(before, if visit == Moved then c[1] else falseLit, idx)
  }

  /** What visiting clause idx from the list of falseLit may do: only its literal order
      changes, it ends up falsified or with a watch that is not false, and the trail grows
      exactly when it propagates. */
  ghost predicate VisitEffect(s: Core, t: Core, before: seq<Clause>, after: seq<Clause>,
                              falseLit: Lit, idx: nat, visit: Visit) {
    && |after| == |before| && idx < |after| && |after[idx]| >= 2
    && SameLits(before[idx], after[idx]) && VisitCause(s, before[idx], after[idx], falseLit, visit)
    && (forall i :: 0 <= i < |after| && i != idx ==> after[i] == before[i])
    && (visit == Falsified ==> AllFalse(t, after[idx]) && after[idx][1] == falseLit)
    && (visit != Falsified ==> !IsFalse(t, after[idx][0]) || !IsFalse(t, after[idx][1]))
    && (if visit == Propagated
        then Var(after[idx][0]) !in s.assignment && t == Extend(s, after[idx][0], Some(idx))
        else t == s)
  }

  /** Clause i, if it watches l, has its other watch true. */
  ghost predicate OtherTrue(s: Core, clauses: seq<Clause>, l: Lit, i: nat) {
    WatchedBy(clauses, l, i) ==> IsTrue(s, OtherWatch(clauses[i], l))
  }

  ghost predicate Settled(s: Core, clauses: seq<Clause>, done: set<Lit>) {
    && (forall l :: l in done ==> IsFalse(s, l))
    && forall l, i: nat :: l in done && i < |clauses| ==> OtherTrue(s, clauses, l, i)
  }

  ghost predicate SettledExcept(s: Core, clauses: seq<Clause>, falseLit: Lit, pending: seq<nat>) {
    forall i: nat :: i < |clauses| && i !in pending ==> OtherTrue(s, clauses, falseLit, i)
  }

  /** A visit settles its clause for falseLit, and unsettles none for a literal already walked. */
  lemma VisitSettles(universe: set<nat>, base: seq<Clause>, s: Core, t: Core, before: seq<Clause>, after: seq<Clause>,
                     falseLit: Lit, pending: seq<nat>, visit: Visit, done: set<Lit>)
    requires pending != [] && VisitEffect(s, t, before, after, falseLit, pending[0], visit) && visit != Falsified
    requires CoreOk(universe, base, s, before) && WatchedBy(before, falseLit, pending[0]) && IsFalse(s, falseLit)
    requires falseLit !in done && Settled(s, before, done) && SettledExcept(s, before, falseLit, pending)
    ensures Settled(t, after, done) && SettledExcept(t, after, falseLit, pending[1..])
  {
    hide CoreOk; hide SameLits;
    var idx := pending[0];
    CoreWellFormed(universe, base, s, before);
    forall l, i: nat | l in done && i < |after| ensures OtherTrue(t, after, l, i) {
      assert IsFalse(s, l) && OtherTrue(s, before, l, i);
    }
    forall i: nat | i < |after| && i !in pending[1..] ensures OtherTrue(t, after, falseLit, i) {
      if i != idx {
        assert pending == [idx] + pending[1..];
        assert i !in pending;
        assert OtherTrue(s, before, falseLit, i);
      }
    }
  }

  /** Once no entry is pending, falseLit is walked too. */
  lemma WalkSettles(s: Core, clauses: seq<Clause>, falseLit: Lit, done: set<Lit>)
    requires Settled(s, clauses, done) && SettledExcept(s, clauses, falseLit, []) && IsFalse(s, falseLit)
    ensures Settled(s, clauses, done + {falseLit})
  {
  }

  /** Before a walk, the clauses not listed do not watch falseLit. */
  lemma WalkStartsSettled(s: Core, clauses: seq<Clause>, w: Watches, falseLit: Lit)
    requires WatchInv(clauses, w, 0, []) && falseLit != 0
    ensures SettledExcept(s, clauses, falseLit, WatchList(w, falseLit))
  {
    forall i: nat | i < |clauses| && i !in WatchList(w, falseLit) ensures OtherTrue(s, clauses, falseLit, i) {
      assert Listed(clauses, w, i, 0, []);
    }
  }

  /** The negations of the trail entries from position a up to b. */
  ghost predicate Walked(trail: seq<Lit>, a: nat, b: nat, done: set<Lit>) {
    b <= |trail| && forall l :: l in done <==> exists j :: a <= j < b && l == -trail[j]
  }

  lemma NothingSettled(s: Core, clauses: seq<Clause>, a: nat)
    requires a <= |s.trail|
    ensures Walked(s.trail, a, a, {}) && Settled(s, clauses, {})
  {
  }

  lemma NextWalked(universe: set<nat>, base: seq<Clause>, s: Core, clauses: seq<Clause>, a: nat, b: nat, done: set<Lit>)
    requires CoreOk(universe, base, s, clauses) && a <= b < |s.trail| && Walked(s.trail, a, b, done)
    ensures -s.trail[b] !in done && s.trail[b] != 0 && Walked(s.trail, a, b + 1, done + {-s.trail[b]})
  {
    hide CoreOk; hide TrailOk;
    CoreTrail(universe, base, s, clauses);
    forall j | a <= j < b ensures s.trail[j] != s.trail[b] {
      EntriesDiffer(s, j, b);
    }
    EntryNonzero(s, b);
  }

  lemma EntryNonzero(s: Core, b: nat)
    requires TrailOk(s) && b < |s.trail|
    ensures s.trail[b] != 0
  {
    assert EntryOk(s, b) && VarOk(s, Var(s.trail[b]));
  }

  lemma EntriesDiffer(s: Core, j: nat, b: nat)
    requires TrailOk(s) && j < b < |s.trail|
    ensures s.trail[j] != s.trail[b]
  {
    hide VarOk; hide LimOk;
    assert EntryOk(s, j) && EntryOk(s, b);
  }

  lemma WalkedGrows(s: Core, t: Core, a: nat, b: nat, done: set<Lit>)
    requires Walked(s.trail, a, b, done) && Grown(s, t)
    ensures Walked(t.trail, a, b, done)
  {
  }

  lemma AllSettled(s: Core, clauses: seq<Clause>, a: nat, done: set<Lit>)
    requires Walked(s.trail, a, |s.trail|, done) && Settled(s, clauses, done)
    ensures forall j, i: nat :: a <= j < |s.trail| && WatchedBy(clauses, -s.trail[j], i) ==>
                                  IsTrue(s, OtherWatch(clauses[i], -s.trail[j]))
  {
    forall j, i: nat | a <= j < |s.trail| && WatchedBy(clauses, -s.trail[j], i)
      ensures IsTrue(s, OtherWatch(clauses[i], -s.trail[j]))
    {
      assert -s.trail[j] in done;
      assert OtherTrue(s, clauses, -s.trail[j], i);
    }
  }

  lemma VisitGrows(r: Core, s: Core, t: Core, before: seq<Clause>, after: seq<Clause>,
                   falseLit: Lit, idx: nat, visit: Visit)
    requires VisitEffect(s, t, before, after, falseLit, idx, visit) && Grown(r, s)
    requires IsFalse(s, falseLit) && AtTop(s, falseLit)
    ensures Grown(r, t) && IsFalse(t, falseLit) && AtTop(t, falseLit) && |s.trail| <= |t.trail|
  {
    if visit == Propagated {
      GrownExtend(r, s, after[idx][0], Some(idx));
    }
  }

  /** A visit assigns, if at all, with the visited clause as reason. */
  lemma VisitForces(r: Core, s: Core, t: Core, before: seq<Clause>, after: seq<Clause>,
                    falseLit: Lit, idx: nat, visit: Visit)
    requires VisitEffect(s, t, before, after, falseLit, idx, visit) && Forced(r, s, before) && Grown(r, s)
    ensures Permuted(before, after) && Forced(r, t, after)
  {
    forall i | 0 <= i < |after| ensures SameLits(before[i], after[i]) {
      if i != idx {
        assert after[i] == before[i];
      }
    }
    forall v | v in t.assignment ensures v in t.reason && (SameEntryOf(r, t, v) || ForcedVar(r, t, after, v)) {
      if v in s.assignment && ForcedVar(r, s, before, v) {
        assert SameLits(before[s.reason[v].value], after[s.reason[v].value]);
      }
      if visit == Propagated && v == Var(after[idx][0]) {
        assert v !in r.assignment;
      }
    }
  }

  lemma VisitKeepsLive(s: Core, t: Core, before: seq<Clause>, after: seq<Clause>,
                       falseLit: Lit, pending: seq<nat>, visit: Visit, qhead: nat)
    requires pending != [] && VisitEffect(s, t, before, after, falseLit, pending[0], visit)
    requires visit != Falsified && qhead <= |s.trail|
    ensures LiveExcept(s, qhead, before, pending) ==> LiveExcept(t, qhead, after, pending[1..])
  {
    if LiveExcept(s, qhead, before, pending) {
      forall i | 0 <= i < |after| ensures i in pending[1..] || Live(t, qhead, after[i]) {
        assert i in pending ==> i == pending[0] || i in pending[1..];
        if i != pending[0] && visit == Propagated {
          ExtendLive(s, qhead, before, after[pending[0]][0], Some(pending[0]), i);
        }
      }
    }
  }

  /** At a conflict only clauses watching the just falsified literal can be stale. */
  lemma ConflictKeepsLive(s: Core, t: Core, before: seq<Clause>, after: seq<Clause>, w: Watches,
                          falseLit: Lit, pending: seq<nat>, qhead: nat)
    requires pending != [] && VisitEffect(s, t, before, after, falseLit, pending[0], Falsified)
    requires WatchInv(after, w, falseLit, pending[1..]) && AtTop(t, falseLit)
    ensures FalsifiedAtTop(t, after, pending[0])
    ensures LiveExcept(s, qhead, before, pending) ==>
              forall i :: 0 <= i < |after| ==> LiveBelow(t, qhead, after[i])
  {
    assert after[pending[0]][1] in after[pending[0]];
    if LiveExcept(s, qhead, before, pending) {
      forall i | 0 <= i < |after| ensures LiveBelow(t, qhead, after[i]) {
        assert i in pending ==> i == pending[0] || i in pending[1..];
        assert i in pending[1..] ==> WatchedBy(after, falseLit, i);
      }
    }
  }

  /** A database clause with all literals false, one of them of the current level. */
  ghost predicate FalsifiedAtTop(s: Core, clauses: seq<Clause>, idx: nat) {
    && idx < |clauses| && |clauses[idx]| >= 2
    && AllFalse(s, clauses[idx])
    && exists l :: l in clauses[idx] && AtTop(s, l)
  }

  ghost predicate LiveExcept(s: Core, qhead: nat, clauses: seq<Clause>, pending: seq<nat>) {
    forall i :: 0 <= i < |clauses| ==> i in pending || Live(s, qhead, clauses[i])
  }

  ghost predicate NothingFalsified(s: Core, clauses: seq<Clause>) {
    forall i :: 0 <= i < |clauses| && |clauses[i]| >= 2 ==> !AllFalse(s, clauses[i])
  }

  lemma ReadyNothingFalsified(universe: set<nat>, base: seq<Clause>, s: Core, clauses: seq<Clause>)
    requires CoreOk(universe, base, s, clauses) && AllLive(s, |s.trail|, clauses)
    ensures NothingFalsified(s, clauses)
  {
    forall i | 0 <= i < |clauses| && |clauses[i]| >= 2 ensures !AllFalse(s, clauses[i]) {
      LiveNotFalsified(s, clauses[i]);
      assert clauses[i][0] in clauses[i] && clauses[i][1] in clauses[i];
    }
  }

  lemma AdvanceQueue(universe: set<nat>, base: seq<Clause>, s: Core, qhead: nat, clauses: seq<Clause>, w: Watches)
    requires CoreOk(universe, base, s, clauses) && WatchInv(clauses, w, 0, [])
    requires qhead < |s.trail| && (s.lim != [] ==> s.lim[|s.lim| - 1] <= qhead)
    ensures IsFalse(s, -s.trail[qhead]) && AtTop(s, -s.trail[qhead])
    ensures AllLive(s, qhead, clauses) ==>
              LiveExcept(s, qhead + 1, clauses, WatchList(w, -s.trail[qhead]))
  {
    assert EntryOk(s, qhead);
    assert VarOk(s, Var(s.trail[qhead]));
    TopLevel(s, Var(s.trail[qhead]));
    if AllLive(s, qhead, clauses) {
      forall i | 0 <= i < |clauses|
        ensures i in WatchList(w, -s.trail[qhead]) || Live(s, qhead + 1, clauses[i])
      {
        AdvanceLive(s, qhead, clauses, w, 0, i);
      }
    }
  }

  lemma GrownTrans(r: Core, s: Core, t: Core)
    requires Grown(r, s) && Grown(s, t)
    ensures Grown(r, t)
  {
  }

  lemma GrownBounds(universe: set<nat>, base: seq<Clause>, s: Core, t: Core, clauses: seq<Clause>)
    requires Grown(s, t) && CoreOk(universe, base, t, clauses)
    ensures |s.trail| <= |t.trail| && t.lim == s.lim && t.assignment.Keys <= universe
    ensures s.assignment.Keys < t.assignment.Keys || (|s.trail| == |t.trail| && s == t)
  {
  }

  /** The variable resolved on last; no variable is 0. */
  function Skip(p: Option<Lit>): nat {
    if p.None? then 0 else Var(p.value)
  }

  lemma ConflictHasTop(universe: set<nat>, base: seq<Clause>, s: Core, clauses: seq<Clause>, idx: nat)
    requires CoreOk(universe, base, s, clauses) && FalsifiedAtTop(s, clauses, idx)
    ensures exists l :: l in clauses[idx] && Var(l) != 0 && AtTop(s, l)
  {
    assert ClauseOk(universe, base, clauses[idx]);
  }

  function ActivityIn(activity: map<nat, real>, v: nat): real {
    if v in activity then activity[v] else 0.0
  }

  /** v is more active than u, or as active and not larger. */
  ghost predicate Precedes(activity: map<nat, real>, v: nat, u: nat) {
    ActivityIn(activity, u) < ActivityIn(activity, v) || (ActivityIn(activity, u) == ActivityIn(activity, v) && v <= u)
  }

  /** The last decision is the positive literal of the variable that comes first among those not on
      the trail before it. */
  ghost predicate DecidedBest(s: Core, activity: map<nat, real>, numVars: nat) {
    s.lim != [] && BestAt(s, activity, numVars, s.lim[|s.lim| - 1])
  }

  ghost predicate BestAt(s: Core, activity: map<nat, real>, numVars: nat, n: nat) {
    && n < |s.trail| && 1 <= s.trail[n] <= numVars
    && forall u :: 1 <= u <= numVars && NotBefore(s, u, n) ==> Precedes(activity, s.trail[n], u)
  }

  ghost predicate NotBefore(s: Core, u: nat, n: nat)
    requires n <= |s.trail|
  {
    forall i :: 0 <= i < n ==> Var(s.trail[i]) != u
  }

  lemma BestIsDecided(s: Core, t: Core, activity: map<nat, real>, numVars: nat, v: nat)
    requires TrailOk(s) && 1 <= v <= numVars && t == Extend(s.(lim := s.lim + [|s.trail|]), v, None)
    requires forall u :: 1 <= u <= numVars && u !in s.assignment ==> Precedes(activity, v, u)
    ensures DecidedBest(t, activity, numVars)
  {
    hide Precedes;
    assert t.lim[|t.lim| - 1] == |s.trail| && t.trail[|s.trail|] == v;
    forall u: nat | 1 <= u <= numVars ensures NotBefore(t, u, |s.trail|) ==> Precedes(activity, v, u) {
      if u in s.assignment {
        Placed(s, t, u);
      }
    }
  }

  lemma Placed(s: Core, t: Core, u: nat)
    requires TrailOk(s) && s.trail <= t.trail && u in s.assignment
    ensures !NotBefore(t, u, |s.trail|)
  {
    assert VarOk(s, u);
    assert t.trail[s.pos[u]] == s.trail[s.pos[u]];
  }

  lemma BestStays(s: Core, t: Core, activity: map<nat, real>, numVars: nat)
    requires Grown(s, t) && DecidedBest(s, activity, numVars)
    ensures DecidedBest(t, activity, numVars) && t.lim == s.lim
  {
    hide Precedes;
    var n := s.lim[|s.lim| - 1];
    assert forall i :: 0 <= i <= n ==> s.trail[i] == t.trail[i];
    assert forall u :: NotBefore(t, u, n) ==> NotBefore(s, u, n);
  }

  function LevelIn(level: map<nat, nat>, v: nat): nat {
    if v in level then level[v] else 0
  }

  lemma AssertingLevels(universe: set<nat>, base: seq<Clause>, s: Core, learned: seq<Lit>)
    requires Asserting(universe, base, s, learned)
    ensures learned != []
    ensures forall i :: 1 <= i < |learned| ==> 1 <= LevelIn(s.level, Var(learned[i])) < |s.lim|
  {
  }

  lemma CutPopLevel(s: Core, t: Core, n: nat, level: nat)
    requires TrailOk(s) && n <= |s.trail| && 0 < level <= |s.lim| && CutTo(s, t, n, level)
    requires n == if level < |s.lim| then s.lim[level] else |s.trail|
    ensures CutTo(s, t.(lim := t.lim[..level - 1]), n, level - 1)
    ensures t.lim == s.lim[..level] && s.lim[level - 1] <= n
  {
    assert t.lim[..level - 1] == s.lim[..level - 1];
  }

  /** Undoing levels keeps the core and makes every clause live again, also after a conflict. */
  lemma CutCore(universe: set<nat>, base: seq<Clause>, s: Core, t: Core, clauses: seq<Clause>, level: nat, qhead: nat)
    requires CoreOk(universe, base, s, clauses) && level < |s.lim| && CutTo(s, t, s.lim[level], level)
    requires s.lim[|s.lim| - 1] <= qhead
    ensures CoreOk(universe, base, t, clauses) && t.lim == s.lim[..level]
    ensures level > 0 ==> s.lim[level - 1] <= |t.trail|
    ensures (forall i :: 0 <= i < |clauses| ==> LiveBelow(s, qhead, clauses[i])) ==> AllLive(t, |t.trail|, clauses)
  {
    CutKeepsCore(universe, base, s, t, clauses, level);
    if forall i :: 0 <= i < |clauses| ==> LiveBelow(s, qhead, clauses[i]) {
      forall i | 0 <= i < |clauses| ensures Live(t, |t.trail|, clauses[i]) {
        CutMakesLive(s, t, level, qhead, clauses[i]);
      }
    }
  }

  lemma LiveIsLiveBelow(s: Core, qhead: nat, clauses: seq<Clause>)
    ensures AllLive(s, qhead, clauses) ==> forall i :: 0 <= i < |clauses| ==> LiveBelow(s, qhead, clauses[i])
  {
  }

  /** After the backjump the learned clause is unit: its first literal is unassigned and all
      others are still false. */
  lemma CutAsserting(universe: set<nat>, base: seq<Clause>, s: Core, t: Core, clauses: seq<Clause>,
                     learned: seq<Lit>, level: nat)
    requires CoreOk(universe, base, s, clauses) && level < |s.lim| && CutTo(s, t, s.lim[level], level)
    requires Asserting(universe, base, s, learned)
    requires forall i :: 1 <= i < |learned| ==> LevelIn(s.level, Var(learned[i])) <= level
    ensures learned != [] && ClauseOk(universe, base, learned) && Var(learned[0]) !in t.assignment
    ensures forall i :: 1 <= i < |learned| ==> IsFalse(t, learned[i])
  {
    hide CoreOk; hide TrailOk; hide ClauseOk; hide CutTo; hide WellFormed; hide AtCurrent;
    CoreTrail(universe, base, s, clauses);
    CutTopGone(s, t, level, Var(learned[0]));
    forall i | 1 <= i < |learned| ensures IsFalse(t, learned[i]) {
      assert learned[i] in learned;
      CutKeepsRoot(s, t, level, Var(learned[i]));
    }
  }

  lemma CutTopGone(s: Core, t: Core, level: nat, v: nat)
    requires TrailOk(s) && level < |s.lim| && CutTo(s, t, s.lim[level], level)
    requires AtCurrent(s, v)
    ensures v !in t.assignment
  {
    assert VarOk(s, v);
    assert s.lim[level] <= s.lim[|s.lim| - 1];
  }

  lemma LearnedWatches(clauses: seq<Clause>, w: Watches, c: Clause)
    requires WatchInv(clauses, w, 0, []) && WellFormed(c)
    ensures if |c| >= 2
            then WatchInv(clauses + [c], AddWatch(AddWatch(w, c[0], |clauses|), c[1], |clauses|), 0, [])
            else WatchInv(clauses + [c], w, 0, [])
  {
    if |c| >= 2 {
      AppendWatched(clauses, w, 0, c);
    } else {
      AppendUnwatched(clauses, w, 0, c);
    }
  }

  lemma LearnedLive(universe: set<nat>, base: seq<Clause>, t: Core, clauses: seq<Clause>, c: Clause)
    requires CoreOk(universe, base, t, clauses) && c != [] && c[0] != 0 && Var(c[0]) !in t.assignment
    requires forall i :: 1 <= i < |c| ==> IsFalse(t, c[i]) && Var(c[i]) != Var(c[0])
    ensures AllLive(t, |t.trail|, clauses) ==>
              AllLive(Extend(t, c[0], Some(|clauses|)), |t.trail|, clauses + [c])
    ensures IsTrue(Extend(t, c[0], Some(|clauses|)), c[0])
    ensures forall i :: 1 <= i < |c| ==> IsFalse(Extend(t, c[0], Some(|clauses|)), c[i])
  {
    var u := Extend(t, c[0], Some(|clauses|));
    if AllLive(t, |t.trail|, clauses) {
      forall i | 0 <= i < |clauses + [c]| ensures Live(u, |t.trail|, (clauses + [c])[i]) {
        if i < |clauses| {
          ExtendLive(t, |t.trail|, clauses, c[0], Some(|clauses|), i);
        }
      }
    }
  }

  /** Appending a clause that is unit and asserting its first literal keeps everything. */
  lemma LearnedKeeps(universe: set<nat>, base: seq<Clause>, t: Core, clauses: seq<Clause>, w: Watches, c: Clause)
    requires CoreOk(universe, base, t, clauses) && WatchInv(clauses, w, 0, []) && Sourced(base, t, clauses)
    requires ClauseOk(universe, base, c) && c != [] && Var(c[0]) !in t.assignment
    requires forall i :: 1 <= i < |c| ==> IsFalse(t, c[i])
    requires |c| == 1 ==> t.lim == []
    ensures c[0] != 0 && CoreOk(universe, base, Extend(t, c[0], Some(|clauses|)), clauses + [c])
    ensures Sourced(base, Extend(t, c[0], Some(|clauses|)), clauses + [c])
    ensures Extend(t, c[0], Some(|clauses|)).lim == t.lim && t.trail <= Extend(t, c[0], Some(|clauses|)).trail
    ensures if |c| >= 2
            then WatchInv(clauses + [c], AddWatch(AddWatch(w, c[0], |clauses|), c[1], |clauses|), 0, [])
            else WatchInv(clauses + [c], w, 0, [])
    ensures AllLive(t, |t.trail|, clauses) ==>
              AllLive(Extend(t, c[0], Some(|clauses|)), |t.trail|, clauses + [c])
    ensures IsTrue(Extend(t, c[0], Some(|clauses|)), c[0])
    ensures forall i :: 1 <= i < |c| ==> IsFalse(Extend(t, c[0], Some(|clauses|)), c[i])
  {
    hide CoreOk; hide WatchInv; hide AllLive; hide IsFalse; hide IsTrue; hide Entails; hide Sourced;
    LearnCore(universe, base, t, clauses, c);
    LearnedWatches(clauses, w, c);
    LearnedLive(universe, base, t, clauses, c);
    LearnedSourced(universe, base, t, clauses, c);
  }

  lemma DecideSourced(base: seq<Clause>, s: Core, t: Core, clauses: seq<Clause>, v: nat)
    requires t == s.(lim := s.lim + [|s.trail|]) && v > 0 && Sourced(base, s, clauses)
    ensures Sourced(base, Extend(t, v, None), clauses)
  {
    assert clauses + [] == clauses;
    ExtendKeepsSourced(base, t, clauses, v, None, []);
  }

  lemma LearnedSourced(universe: set<nat>, base: seq<Clause>, t: Core, clauses: seq<Clause>, c: Clause)
    requires CoreOk(universe, base, t, clauses) && Sourced(base, t, clauses) && c != []
    ensures Sourced(base, Extend(t, c[0], Some(|clauses|)), clauses + [c])
  {
    ExtendKeepsSourced(base, t, clauses, c[0], Some(|clauses|), [c]);
  }

  lemma DecideLive(s: Core, t: Core, qhead: nat, clauses: seq<Clause>, v: nat)
    requires t == s.(lim := s.lim + [|s.trail|]) && qhead <= |s.trail| && v !in s.assignment
    ensures AllLive(s, qhead, clauses) ==> AllLive(Extend(t, v, None), qhead, clauses)
  {
    if AllLive(s, qhead, clauses) {
      forall i | 0 <= i < |clauses| ensures Live(Extend(t, v, None), qhead, clauses[i]) {
        assert Live(t, qhead, clauses[i]);
        ExtendLive(t, qhead, clauses, v, None, i);
      }
    }
  }

  lemma AssertingSound(universe: set<nat>, base: seq<Clause>, s: Core, e: RealConflictClause)
    requires Asserting(universe, base, s, e.lits) && 1 <= e.lbd <= |e.lits|
    ensures Sound(base, e)
  {
  }

  lemma RootRefuted(universe: set<nat>, base: seq<Clause>, s: Core, clauses: seq<Clause>, idx: nat)
    requires CoreOk(universe, base, s, clauses) && FalsifiedAtTop(s, clauses, idx) && s.lim == []
    ensures Unsatisfiable(base)
  {
    RootConflictRefutes(universe, base, s, clauses, idx);
  }

  lemma GrownLevel(s: Core, t: Core)
    requires Grown(s, t)
    ensures t.lim == s.lim
  {
  }

  lemma DecideProgress(universe: set<nat>, base: seq<Clause>, s: Core, d: Core, t: Core,
                       clauses: seq<Clause>, v: nat, numVars: nat)
    requires UpTo(numVars) <= universe && 1 <= v <= numVars && v !in s.assignment
    requires d == Extend(s.(lim := s.lim + [|s.trail|]), v, None) && Grown(d, t)
    ensures universe - t.assignment.Keys < universe - s.assignment.Keys
  {
    assert v in universe - s.assignment.Keys && v !in universe - t.assignment.Keys;
  }

  lemma InitialClausesOk(universe: set<nat>, clauses: seq<Clause>)
    requires forall i :: 0 <= i < |clauses| ==> WellFormed(clauses[i])
    requires VarsOf(clauses) <= universe
    ensures ClausesOk(universe, clauses, clauses)
  {
    forall i | 0 <= i < |clauses| ensures ClauseOk(universe, clauses, clauses[i]) {
      assert clauses[i] in clauses;
      forall l | l in clauses[i] ensures Var(l) in universe {
        var j :| 0 <= j < |clauses[i]| && clauses[i][j] == l;
        assert Var(clauses[i][j]) in VarsOf(clauses);
      }
    }
  }

  lemma CoreWellFormed(universe: set<nat>, base: seq<Clause>, s: Core, clauses: seq<Clause>)
    requires CoreOk(universe, base, s, clauses)
    ensures AllWellFormed(clauses)
  {
    forall i | 0 <= i < |clauses| ensures WellFormed(clauses[i]) {
      assert ClauseOk(universe, base, clauses[i]);
    }
  }

  lemma UnitClause(universe: set<nat>, base: seq<Clause>, s: Core, clauses: seq<Clause>, idx: nat)
    requires CoreOk(universe, base, s, clauses) && idx < |clauses| && clauses[idx] != []
    requires forall j :: 1 <= j < |clauses[idx]| ==> IsFalse(s, clauses[idx][j])
    ensures clauses[idx][0] != 0 && Var(clauses[idx][0]) in universe
    ensures Unit(s, clauses, clauses[idx][0], Some(idx))
  {
    var c := clauses[idx];
    assert ClauseOk(universe, base, c);
    assert c[0] in c;
    forall l | l in c && l != c[0] ensures IsFalse(s, l) {
      var j :| 0 <= j < |c| && c[j] == l;
    }
  }

  lemma PendingWatched(clauses: seq<Clause>, w: Watches, fl: Lit, pending: seq<nat>)
    requires WatchInv(clauses, w, fl, pending) && pending != []
    ensures WatchedBy(clauses, fl, pending[0])
  {
    assert pending[0] in pending;
  }

  lemma {:induction false} LevelsSize(c: seq<Lit>, level: map<nat, nat>)
    ensures |set l | l in c :: LevelIn(level, Var(l))| <= |c|
  {
    var all := set l | l in c :: LevelIn(level, Var(l));
    if c == [] {
      assert all == {};
    } else {
      var d, x := c[..|c| - 1], c[|c| - 1];
      LevelsSize(d, level);
      assert forall l :: l in c <==> l in d || l == x;
      assert all == (set l | l in d :: LevelIn(level, Var(l))) + {LevelIn(level, Var(x))};
    }
  }
}

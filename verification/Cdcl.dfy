/** The instrumented CDCL engine: two-watched-literal propagation, first-UIP learning,
    backjumping, Luby restarts, and the conflict trace it collects. */
module Cdcl {
  import opened Cnf
  import opened CdclState
  import opened CdclWatches
  import opened CdclAnalysis
  import opened CdclSteps
  import opened CdclResults
  import opened CdclUip
  import opened Wrappers
  import Luby

  const RESTART_BASE := 32
  const VAR_DECAY := 0.95

  class InstrumentedCdcl {
    const numVars: nat
    var assignment: map<nat, bool>
    var decisionLevel: map<nat, nat>
    var reason: map<nat, Option<nat>>
    var trail: seq<Lit>
    var trailLim: seq<nat>
    var qhead: nat
    var clauses: seq<Clause>
    var watches: map<Lit, seq<nat>>
    var varActivity: map<nat, real>
    var varInc: real
    var conflicts: nat
    var restarts: nat
    var restartLimit: nat
    var conflictsSinceRestart: nat
    var conflictTrace: seq<RealConflictClause>

    /** The formula as given, the variables it can touch, and the inverse of the trail. */
    ghost const base: seq<Clause>
    ghost const universe: set<nat>
    ghost var pos: map<nat, nat>

    ghost function State(): Core
      reads this
    {
      Core(assignment, decisionLevel, reason, trail, trailLim, pos)
    }

    ghost predicate QueueOk()
      reads this
    {
      qhead <= |trail| && (trailLim != [] ==> trailLim[|trailLim| - 1] <= qhead)
    }

    /** The invariant of every public operation. */
    ghost predicate Valid()
      reads this
    {
      && CoreOk(universe, base, State(), clauses)
      && WatchInv(clauses, watches, 0, [])
      && QueueOk()
      && universe == VarsOf(base) + UpTo(numVars)
      && (exists l: nat :: Luby.IsEntry(restarts + 1, l) && restartLimit == 32 * l) && restartLimit > 0
      && (forall e :: e in conflictTrace ==> Sound(base, e))
      && Sourced(base, State(), clauses)
    }

    /** No propagated falsification went unnoticed; lost only while a conflict is pending. */
    ghost predicate Ready()
      reads this
    {
      AllLive(State(), qhead, clauses)
    }

    /** Nothing was lost since the start: as many trace entries and learned clauses as conflicts. */
    ghost predicate InStep()
      reads this
    {
      Recorded(base, clauses, conflictTrace) && |conflictTrace| == conflicts && |clauses| == |base| + conflicts
    }

    /** The last conflict reached the target: it was recorded, and not learned. */
    ghost predicate TargetMet(target: int)
      reads this
    {
      && Recorded(base, clauses, conflictTrace)
      && |conflictTrace| == conflicts == target && |clauses| == |base| + conflicts - 1
    }

    /** The last conflict was at level 0: it was counted, and neither recorded nor learned. */
    ghost predicate RootMet()
      reads this
    {
      && Recorded(base, clauses, conflictTrace)
      && |conflictTrace| + 1 == conflicts && |clauses| == |base| + |conflictTrace|
      && CurrentLevel() == 0 && Unsatisfiable(base)
    }

    /** A call that meets a conflict before it decides anything returns at once. */
    ghost predicate PendingOnly(before: nat, trace: seq<RealConflictClause>)
      reads this
    {
      conflicts == before && conflictTrace == trace && exists i :: FalsifiedAtTop(State(), clauses, i)
    }

    /** There is no clause to propagate. */
    ghost predicate OnlyUnits()
      reads `clauses
    {
      forall i :: 0 <= i < |clauses| ==> |clauses[i]| < 2
    }

    constructor (numVars: nat, clauses: seq<Clause>)
      requires forall i :: 0 <= i < |clauses| ==> WellFormed(clauses[i])
      ensures Valid() && Ready() && base == clauses && this.numVars == numVars
      ensures this.clauses == clauses && trail == [] && trailLim == [] && conflicts == 0 && conflictTrace == []
      ensures InStep() && restarts == conflictsSinceRestart == 0
      ensures varActivity == map[] && varInc == 1.0
    {
      this.numVars := numVars;
      assignment, decisionLevel, reason := map[], map[], map[];
      trail, trailLim, qhead := [], [], 0;
      this.clauses := clauses;
      varActivity, varInc := map[], 1.0;
      conflicts, restarts, conflictsSinceRestart, conflictTrace := 0, 0, 0, [];
      base, pos := clauses, map[];
      universe := VarsOf(clauses) + UpTo(numVars);
      var w := InitialWatches(clauses);
      watches := w;
      var l := Luby.Luby(1);
      restartLimit := RESTART_BASE * l;
      new;
      InitialClausesOk(universe, clauses);
    }

    // -------------------------------------------------------------- values and assignment

    function CurrentLevel(): nat
      reads this
    {
      |trailLim|
    }

    function Activity(v: nat): real
      reads `varActivity
    {
      ActivityIn(varActivity, v)
    }

    method Assign(lit: Lit, reasonIdx: Option<nat>) returns (ok: bool)
      requires lit != 0
      modifies `assignment, `decisionLevel, `reason, `trail, `pos
      ensures old(Var(lit) in assignment) ==>
                State() == old(State()) && ok == (LitVal(assignment, lit) == Some(true))
      ensures old(Var(lit) !in assignment) ==>
                State() == Extend(old(State()), lit, reasonIdx) && ok
    {
      var v := Var(lit);
      var val := lit > 0;
      if v in assignment {
        return assignment[v] == val;
      }
      assignment := assignment[v := val];
      decisionLevel := decisionLevel[v := CurrentLevel()];
      reason := reason[v := reasonIdx];
      pos := pos[v := |trail|];
      trail := trail + [lit];
      return true;
    }

    // -------------------------------------------------------------- propagation

    /** Makes falseLit the second literal of a clause that watches it. */
    method OrderWatches(falseLit: Lit, cIdx: nat, ghost pending: seq<nat>)
      requires CoreOk(universe, base, State(), clauses)
      requires WatchInv(clauses, watches, falseLit, pending) && WatchedBy(clauses, falseLit, cIdx)
      modifies `clauses
      ensures CoreOk(universe, base, State(), clauses)
      ensures WatchInv(clauses, watches, falseLit, pending)
      ensures |clauses| == old(|clauses|) && |clauses[cIdx]| >= 2 && clauses[cIdx][1] == falseLit
      ensures SameLits(old(clauses)[cIdx], clauses[cIdx])
      ensures clauses == old(clauses)[cIdx := Ordered(old(clauses)[cIdx], falseLit)]
    {
      if clauses[cIdx][0] == falseLit {
        CoreWellFormed(universe, base, State(), clauses);
        SwapWatches(clauses, watches, falseLit, pending, cIdx);
        SwapKeeps(clauses[cIdx], 0, 1);
        ReorderCore(universe, base, State(), clauses, cIdx, Swap(clauses[cIdx], 0, 1));
        clauses := clauses[cIdx := Swap(clauses[cIdx], 0, 1)];
      }
    }

    /** The first literal from index 2 on that is not false, or the clause length. */
    method FindReplacement(c: Clause) returns (k: nat)
      requires |c| >= 2
      ensures IsReplacement(State(), c, k)
    {
      k := 2;
      while k < |c| && LitVal(assignment, c[k]) == Some(false)
        invariant 2 <= k <= |c|
        invariant forall j :: 2 <= j < k ==> IsFalse(State(), c[j])
      {
        k := k + 1;
      }
    }

    /** The visited clause watches its literal k instead of falseLit. */
    method MoveToLiteral(falseLit: Lit, cIdx: nat, k: nat, ghost pending: seq<nat>)
      requires CoreOk(universe, base, State(), clauses)
      requires WatchInv(clauses, watches, falseLit, pending) && pending != [] && pending[0] == cIdx
      requires cIdx < |clauses| && 2 <= k < |clauses[cIdx]| && clauses[cIdx][1] == falseLit
      requires !IsFalse(State(), clauses[cIdx][k])
      modifies `clauses, `watches
      ensures CoreOk(universe, base, State(), clauses)
      ensures WatchInv(clauses, watches, falseLit, pending[1..])
      ensures |clauses| == old(|clauses|) && |clauses[cIdx]| >= 2
      ensures SameLits(old(clauses)[cIdx], clauses[cIdx]) && !IsFalse(State(), clauses[cIdx][1])
      ensures clauses == old(clauses)[cIdx := Swap(old(clauses)[cIdx], 1, k)]
      ensures ListEffect(old(watches), watches, falseLit, cIdx, clauses[cIdx], Moved)
    {
      var c := clauses[cIdx];
      CoreWellFormed(universe, base, State(), clauses);
      MoveWatch(clauses, watches, falseLit, pending, k);
      SwapKeeps(c, 1, k);
      ReorderCore(universe, base, State(), clauses, cIdx, Swap(c, 1, k));
      clauses := clauses[cIdx := Swap(c, 1, k)];
      watches := watches[c[k] := WatchList(watches, c[k]) + [cIdx]];
    }

    /** The clause keeps watching falseLit; all its literals but the first are false. */
    method PropagateFirst(cIdx: nat) returns (visit: Visit)
      requires CoreOk(universe, base, State(), clauses) && qhead <= |trail|
      requires cIdx < |clauses| && |clauses[cIdx]| >= 2
      requires forall j :: 1 <= j < |clauses[cIdx]| ==> IsFalse(State(), clauses[cIdx][j])
      requires !IsTrue(State(), clauses[cIdx][0])
      modifies `assignment, `decisionLevel, `reason, `trail, `pos
      ensures CoreOk(universe, base, State(), clauses)
      ensures visit == Propagated || visit == Falsified
      ensures visit == Falsified ==> AllFalse(State(), clauses[cIdx]) && State() == old(State())
      ensures visit == Propagated ==>
                && Var(clauses[cIdx][0]) in universe && clauses[cIdx][0] != 0
                && Var(clauses[cIdx][0]) !in old(assignment)
                && State() == Extend(old(State()), clauses[cIdx][0], Some(cIdx))
    {
      hide CoreOk;
      var c := clauses[cIdx];
      if LitVal(assignment, c[0]) == Some(false) {
        return Falsified;
      }
      UnitClause(universe, base, State(), clauses, cIdx);
      NeitherIsOpen(State(), c[0]);
      ExtendCore(universe, base, State(), clauses, c[0], Some(cIdx));
      var _ := Assign(c[0], Some(cIdx));
      return Propagated;
    }

    /** The clause just visited stays in the list of falseLit. */
    method KeepWatching(falseLit: Lit, cIdx: nat, ghost pending: seq<nat>)
      requires WatchInv(clauses, watches, falseLit, pending) && pending != [] && pending[0] == cIdx
      modifies `watches
      ensures WatchInv(clauses, watches, falseLit, pending[1..])
      ensures watches == AddWatch(old(watches), falseLit, cIdx)
    {
      KeepWatch(clauses, watches, falseLit, pending);
      watches := watches[falseLit := WatchList(watches, falseLit) + [cIdx]];
    }

    /** Visits the first pending clause of the list of falseLit: it keeps its watch, moves
        it to a literal that is not false, propagates its other watch, or is falsified. */
    method VisitClause(falseLit: Lit, cIdx: nat, ghost pending: seq<nat>) returns (visit: Visit)
      requires CoreOk(universe, base, State(), clauses)
      requires WatchInv(clauses, watches, falseLit, pending) && pending != [] && pending[0] == cIdx
      requires WatchedBy(clauses, falseLit, cIdx)
      requires IsFalse(State(), falseLit) && qhead <= |trail|
      modifies `assignment, `decisionLevel, `reason, `trail, `pos, `clauses, `watches
      ensures CoreOk(universe, base, State(), clauses)
      ensures WatchInv(clauses, watches, falseLit, pending[1..])
      ensures VisitEffect(old(State()), State(), old(clauses), clauses, falseLit, cIdx, visit)
      ensures ListEffect(old(watches), watches, falseLit, cIdx, clauses[cIdx], visit)
    {
      hide CoreOk; hide WatchInv;
      OrderWatches(falseLit, cIdx, pending);
      var c := clauses[cIdx];
      if LitVal(assignment, c[0]) == Some(true) {
        KeepWatching(falseLit, cIdx, pending);
        return Satisfied;
      }
      var k := FindReplacement(c);
      if k < |c| {
        MoveToLiteral(falseLit, cIdx, k, pending);
        return Moved;
      }
      KeepWatching(falseLit, cIdx, pending);
      visit := PropagateFirst(cIdx);
    }

    /** Walks the watch list of a literal that just became false. */
    method VisitWatches(falseLit: Lit, ghost done: set<Lit>) returns (confl: Option<nat>)
      requires falseLit !in done && falseLit != 0 && Settled(State(), clauses, done)
      requires CoreOk(universe, base, State(), clauses) && WatchInv(clauses, watches, 0, [])
      requires IsFalse(State(), falseLit) && AtTop(State(), falseLit) && qhead <= |trail|
      modifies `assignment, `decisionLevel, `reason, `trail, `pos, `clauses, `watches
      ensures CoreOk(universe, base, State(), clauses) && WatchInv(clauses, watches, 0, [])
      ensures Grown(old(State()), State()) && |clauses| == old(|clauses|) && qhead <= |trail|
      ensures Permuted(old(clauses), clauses) && Forced(old(State()), State(), clauses)
      ensures confl.None? ==> Settled(State(), clauses, done + {falseLit})
      ensures confl.Some? ==> FalsifiedAtTop(State(), clauses, confl.value)
      ensures old(LiveExcept(State(), qhead, clauses, WatchList(watches, falseLit))) ==>
                if confl.None? then Ready() else ReadyBelow()
    {
      hide CoreOk; hide WatchInv; hide Live; hide IsFalse; hide AtTop; hide Grown; hide FalsifiedAtTop; hide LiveBelow;
      hide Permuted; hide Forced; hide Settled; hide SettledExcept; hide VisitCause;
      WalkStartsSettled(State(), clauses, watches, falseLit);
      var watchList := WatchList(watches, falseLit);
      BeginWalk(clauses, watches, 0, falseLit);
      watches := watches[falseLit := []];
      ghost var live := LiveExcept(State(), qhead, clauses, watchList);
      GrownSelf(State());
      NothingForced(universe, base, State(), clauses);
      assert watchList[0..] == watchList;
      var i := 0;
      while i < |watchList|
        invariant 0 <= i <= |watchList|
        invariant CoreOk(universe, base, State(), clauses)
        invariant WatchInv(clauses, watches, falseLit, watchList[i..])
        invariant Grown(old(State()), State()) && |clauses| == old(|clauses|)
        invariant Permuted(old(clauses), clauses) && Forced(old(State()), State(), clauses)
        invariant IsFalse(State(), falseLit) && AtTop(State(), falseLit) && qhead <= |trail|
        invariant live ==> LiveExcept(State(), qhead, clauses, watchList[i..])
        invariant Settled(State(), clauses, done) && SettledExcept(State(), clauses, falseLit, watchList[i..])
      {
        var cIdx := watchList[i];
        PendingWatched(clauses, watches, falseLit, watchList[i..]);
        ghost var before, clausesBefore := State(), clauses;
        var visit := VisitClause(falseLit, cIdx, watchList[i..]);
        assert watchList[i..][1..] == watchList[i + 1..];
        VisitForces(old(State()), before, State(), clausesBefore, clauses, falseLit, cIdx, visit);
        PermutedTrans(old(clauses), clausesBefore, clauses);
        VisitGrows(old(State()), before, State(), clausesBefore, clauses, falseLit, cIdx, visit);
        if visit == Falsified {
          ConflictKeepsLive(before, State(), clausesBefore, clauses, watches, falseLit, watchList[i..], qhead);
          AbortWalk(clauses, watches, falseLit, watchList[i + 1..]);
          watches := watches[falseLit := WatchList(watches, falseLit) + watchList[i + 1..]];
          EndWalk(clauses, watches, falseLit);
          return Some(cIdx);
        }
        VisitKeepsLive(before, State(), clausesBefore, clauses, falseLit, watchList[i..], visit, qhead);
        VisitSettles(universe, base, before, State(), clausesBefore, clauses, falseLit, watchList[i..], visit, done);
        i := i + 1;
      }
      assert watchList[|watchList|..] == [];
      EndWalk(clauses, watches, falseLit);
      WalkSettles(State(), clauses, falseLit, done);
      return None;
    }

    /** Takes the next literal off the queue and walks the list of its negation. */
    method PropagateNext(ghost from: nat, ghost done: set<Lit>) returns (confl: Option<nat>)
      requires Valid() && from <= qhead < |trail| && Walked(trail, from, qhead, done)
      requires Settled(State(), clauses, done)
      modifies `assignment, `decisionLevel, `reason, `trail, `pos, `clauses, `watches, `qhead
      ensures Valid() && Grown(old(State()), State()) && qhead == old(qhead) + 1
      ensures Permuted(old(clauses), clauses) && Forced(old(State()), State(), clauses)
      ensures confl.Some? ==> FalsifiedAtTop(State(), clauses, confl.value)
      ensures Walked(trail, from, qhead, done + {-old(trail[qhead])})
      ensures confl.None? ==> Settled(State(), clauses, done + {-old(trail[qhead])})
      ensures old(Ready()) ==> if confl.None? then Ready() else ReadyBelow()
      ensures old(assignment.Keys) < assignment.Keys <= universe || |trail| == old(|trail|)
      ensures assignment.Keys <= universe && old(assignment.Keys) <= assignment.Keys
    {
      hide CoreOk; hide WatchInv; hide Grown; hide FalsifiedAtTop; hide Live; hide LiveBelow; hide IsFalse; hide AtTop;
      hide Permuted; hide Forced; hide Sourced; hide Sound; hide VarsOf; hide UpTo; hide Settled; hide Walked;
      var p := trail[qhead];
      ghost var before, clausesBefore := State(), clauses;
      AdvanceQueue(universe, base, State(), qhead, clauses, watches);
      NextWalked(universe, base, State(), clauses, from, qhead, done);
      qhead := qhead + 1;
      var falseLit := -p;
      confl := VisitWatches(falseLit, done);
      WalkedGrows(before, State(), from, qhead, done + {falseLit});
      ForcedKeepsSourced(base, before, State(), clausesBefore, clauses);
      GrownBounds(universe, base, before, State(), clauses);
    }

    /** Boolean constraint propagation to a fixpoint or a falsified clause. Only clauses of two or
        more literals propagate, and an empty queue is left as it is. It misses nothing: whatever
        watches a literal falsified from the queue on has its other watch true at the end. */
    method Bcp() returns (confl: Option<nat>)
      requires Valid()
      modifies `assignment, `decisionLevel, `reason, `trail, `pos, `clauses, `watches, `qhead
      ensures Valid() && Grown(old(State()), State())
      ensures Permuted(old(clauses), clauses) && Forced(old(State()), State(), clauses)
      ensures old(qhead == |trail|) ==>
                confl.None? && State() == old(State()) && clauses == old(clauses) && watches == old(watches)
      ensures confl.Some? ==> FalsifiedAtTop(State(), clauses, confl.value)
      ensures confl.None? ==> qhead == |trail|
      ensures confl.None? ==>
                forall j, i: nat :: old(qhead) <= j < |trail| && WatchedBy(clauses, -trail[j], i) ==>
                                      IsTrue(State(), OtherWatch(clauses[i], -trail[j]))
      ensures old(Ready()) ==> if confl.None? then Ready() else ReadyBelow()
      ensures confl.None? && old(Ready()) ==> NothingFalsified(State(), clauses)
    {
      hide CoreOk; hide WatchInv; hide Grown; hide FalsifiedAtTop; hide Live; hide LiveBelow; hide IsFalse; hide AtTop;
      hide Permuted; hide Forced; hide Sourced; hide Sound; hide VarsOf; hide UpTo; hide Settled; hide Walked;
      ghost var done: set<Lit>, ready := {}, Ready();
      NothingSettled(State(), clauses, qhead);
      GrownSelf(State());
      NothingForced(universe, base, State(), clauses);
      while qhead < |trail|
        invariant Valid() && Grown(old(State()), State())
        invariant Permuted(old(clauses), clauses) && Forced(old(State()), State(), clauses)
        invariant old(qhead == |trail|) ==>
                    qhead == |trail| && State() == old(State()) && clauses == old(clauses) && watches == old(watches)
        invariant ready ==> Ready()
        invariant old(qhead) <= qhead && Walked(trail, old(qhead), qhead, done) && Settled(State(), clauses, done)
        decreases universe - assignment.Keys, |trail| - qhead
      {
        ghost var before, clausesBefore, p := State(), clauses, trail[qhead];
        confl := PropagateNext(old(qhead), done);
        done := done + {-p};
        ForcedTrans(old(State()), before, State(), clausesBefore, clauses);
        PermutedTrans(old(clauses), clausesBefore, clauses);
        GrownTrans(old(State()), before, State());
        if confl.Some? {
          return;
        }
      }
      if ready {
        ReadyNothingFalsified(universe, base, State(), clauses);
      }
      AllSettled(State(), clauses, old(qhead), done);
      return None;
    }

    // -------------------------------------------------------------- conflict analysis

    /** Reads one antecedent: marks its new literals, counting those of the current level
        and collecting the others. */
    method MarkClause(c: Clause, p: Option<Lit>, seen0: set<nat>, count0: nat, tail0: seq<Lit>, ghost n: nat)
      returns (seen: set<nat>, count: nat, tail: seq<Lit>)
      requires CoreOk(universe, base, State(), clauses) && trailLim != []
      requires Walk(base, State(), seen0, count0, tail0, c, Skip(p), n)
      modifies `varActivity
      ensures Walk(base, State(), seen, count, tail, [], Skip(p), n) && count >= count0
      ensures (exists l :: l in c && Var(l) != Skip(p) && AtTop(State(), l)) ==> count > 0
      ensures seen0 <= seen
      ensures Cut(seen, tail) == Read(State(), c, Skip(p), Cut(seen0, tail0))
      ensures forall v :: Activity(v) == old(Activity(v)) + if v in seen && v !in seen0 then varInc else 0.0
    {
      hide CoreOk; hide Walk; hide Antecedent; hide Read;
      seen, count, tail := seen0, count0, tail0;
      assert c[0..] == c;
      var k := 0;
      while k < |c|
        invariant 0 <= k <= |c|
        invariant Walk(base, State(), seen, count, tail, c[k..], Skip(p), n) && count >= count0
        invariant forall j :: 0 <= j < k && Var(c[j]) != Skip(p) && AtTop(State(), c[j]) ==> Var(c[j]) in seen
        invariant seen0 <= seen
        invariant Read(State(), c[k..], Skip(p), Cut(seen, tail)) == Read(State(), c, Skip(p), Cut(seen0, tail0))
        invariant forall v :: Activity(v) == old(Activity(v)) + if v in seen && v !in seen0 then varInc else 0.0
      {
        var lit := c[k];
        var v := Var(lit);
        assert c[k..][0] == lit && c[k..][1..] == c[k + 1..];
        WalkNonzero(base, State(), seen, count, tail, c[k..], Skip(p), n);
        ReadOne(State(), c[k..], Skip(p), Cut(seen, tail));
        if p.Some? && v == Var(p.value) {
          WalkSkips(universe, base, State(), clauses, seen, count, tail, c[k..], Skip(p), n);
        } else if v in seen || LevelOf(v) == 0 {
          WalkSkips(universe, base, State(), clauses, seen, count, tail, c[k..], Skip(p), n);
        } else {
          WalkReadLevel(universe, base, State(), clauses, seen, count, tail, c[k..], Skip(p), n);
          if decisionLevel[v] == CurrentLevel() {
            WalkMarksCurrent(base, State(), seen, count, tail, c[k..], Skip(p), n);
            count := count + 1;
          } else {
            WalkMarksLower(base, State(), seen, count, tail, c[k..], Skip(p), n);
            tail := tail + [lit];
          }
          seen := seen + {v};
          varActivity := varActivity[v := Activity(v) + varInc];
        }
        k := k + 1;
      }
      assert c[|c|..] == [];
      ReadNone(State(), Skip(p), Cut(seen, tail));
      if l :| l in c && Var(l) != Skip(p) && AtTop(State(), l) {
        OpenCounted(base, State(), seen, count, tail, Skip(p), n, Var(l));
      }
    }

    function LevelOf(v: nat): nat
      reads this
    {
      LevelIn(decisionLevel, v)
    }

    /** The topmost marked entry at or below trail position idx0. */
    method FindMarked(seen: set<nat>, idx0: int, ghost count: nat, ghost tail: seq<Lit>, ghost skip: nat)
      returns (idx: nat)
      requires CoreOk(universe, base, State(), clauses) && trailLim != [] && -1 <= idx0 < |trail|
      requires Walk(base, State(), seen, count, tail, [], skip, idx0 + 1) && count > 0
      ensures idx <= idx0 && Var(trail[idx]) in seen
      ensures forall k :: idx < k <= idx0 ==> Var(trail[k]) !in seen
      ensures Walk(base, State(), seen, count, tail, [], skip, idx + 1)
    {
      hide CoreOk; hide Walk;
      WalkContinues(base, State(), seen, count, tail, skip, idx0 + 1);
      idx := idx0;
      while Var(trail[idx]) !in seen
        invariant 0 <= idx <= idx0 && forall k :: idx < k <= idx0 ==> Var(trail[k]) !in seen
        invariant Walk(base, State(), seen, count, tail, [], skip, idx + 1)
        decreases idx
      {
        WalkPasses(universe, base, State(), clauses, seen, count, tail, skip, idx);
        WalkContinues(base, State(), seen, count, tail, skip, idx);
        idx := idx - 1;
      }
    }

    /** Walks the trail backwards from a falsified clause, resolving with reasons, until one
        variable of the current level is left: the first unique implication point. */
    method LearnClause(conflict: nat) returns (learned: seq<Lit>, ghost touched: set<nat>)
      requires CoreOk(universe, base, State(), clauses) && trailLim != []
      requires FalsifiedAtTop(State(), clauses, conflict)
      modifies `varActivity
      ensures Asserting(universe, base, State(), learned)
      ensures Learns(State(), clauses, clauses[conflict], learned, touched)
      ensures forall v :: Activity(v) == old(Activity(v)) + Gain(touched, v, varInc)
    {
      hide CoreOk; hide Walk; hide Asserting; hide AtTop; hide Reading; hide Read; hide CutAt; hide NoneAfter;
      hide Learns; hide Touched;
      var seen: set<nat>, count: nat, tail: seq<Lit> := {}, 0, [];
      var p: Option<Lit> := None;
      var cIdx: nat := conflict;
      var idx := |trail| - 1;
      WalkStarts(universe, base, State(), clauses, conflict);
      ConflictHasTop(universe, base, State(), clauses, conflict);
      StartsReading(State(), clauses, clauses[conflict]);
      touched := {};
      while true
        invariant -1 <= idx < |trail|
        invariant cIdx < |clauses|
        invariant Walk(base, State(), seen, count, tail, clauses[cIdx], Skip(p), idx + 1)
        invariant count > 0 || exists l :: l in clauses[cIdx] && Var(l) != Skip(p) && AtTop(State(), l)
        invariant Reading(State(), clauses, clauses[conflict], idx + 1, clauses[cIdx], Skip(p), Cut(seen, tail),
                          touched)
        invariant forall v :: Activity(v) == old(Activity(v)) + Gain(touched, v, varInc)
        decreases idx
      {
        ghost var n, skip, seen0, tail0 := idx + 1, Skip(p), seen, tail;
        AllGains(universe, base, State(), clauses, clauses[conflict], n, clauses[cIdx], skip, Cut(seen0, tail0),
                 touched, varInc);
        seen, count, tail := MarkClause(clauses[cIdx], p, seen, count, tail, idx + 1);
        touched := Touched(State(), clauses, clauses[conflict], n);
        idx := FindMarked(seen, idx, count, tail, skip);
        p := Some(trail[idx]);
        WalkFinds(universe, base, State(), clauses, seen, count, tail, skip, idx);
        WalkCounts(base, State(), seen, count, tail, skip, idx + 1);
        if count == 1 {
          WalkEnds(universe, base, State(), clauses, seen, tail, skip, idx);
          ReadEnds(universe, base, State(), clauses, clauses[conflict], n, idx, Cut(seen, tail));
        } else {
          ReadsOn(State(), clauses, clauses[conflict], n, idx, Cut(seen, tail));
        }
        idx := idx - 1;
        seen := seen - {Var(p.value)};
        count := count - 1;
        if count == 0 {
          break;
        }
        cIdx := reason[Var(p.value)].value;
      }
      learned := [-p.value] + tail;
    }

    /** First-UIP analysis of a falsified clause above level 0: the learned clause with the
        asserting literal first, the number of its levels, and the level to jump back to. */
    method AnalyzeConflict(conflict: nat)
      returns (learned: seq<Lit>, lbd: nat, backjumpLevel: nat, ghost touched: set<nat>)
      requires CoreOk(universe, base, State(), clauses) && trailLim != []
      requires FalsifiedAtTop(State(), clauses, conflict)
      modifies `varActivity
      ensures Asserting(universe, base, State(), learned)
      ensures Learns(State(), clauses, clauses[conflict], learned, touched)
      ensures forall v :: Activity(v) == old(Activity(v)) + Gain(touched, v, varInc)
      ensures lbd == |set l | l in learned :: LevelIn(decisionLevel, Var(l))| && 1 <= lbd <= |learned|
      ensures backjumpLevel < CurrentLevel()
      ensures forall i :: 1 <= i < |learned| ==> LevelOf(Var(learned[i])) <= backjumpLevel
      ensures if |learned| == 1 then backjumpLevel == 0
              else exists i :: 1 <= i < |learned| && LevelOf(Var(learned[i])) == backjumpLevel
    {
      hide CoreOk; hide Asserting; hide FalsifiedAtTop; hide Learns; hide Gain;
      learned, touched := LearnClause(conflict);
      AssertingLevels(universe, base, State(), learned);
      var levels := set l | l in learned :: LevelIn(decisionLevel, Var(l));
      LevelsSize(learned, decisionLevel);
      assert LevelIn(decisionLevel, Var(learned[0])) in levels;
      lbd := |levels|;
      backjumpLevel := MaxLevel(learned);
      assert |learned| > 1 ==> 1 <= LevelOf(Var(learned[1])) <= backjumpLevel;
    }

    /** The highest level among the literals after the first, 0 if there are none. */
    method MaxLevel(learned: seq<Lit>) returns (m: nat)
      requires |learned| >= 1
      ensures forall i :: 1 <= i < |learned| ==> LevelOf(Var(learned[i])) <= m
      ensures m == 0 || exists i :: 1 <= i < |learned| && LevelOf(Var(learned[i])) == m
    {
      m := 0;
      for i := 1 to |learned|
        invariant forall j :: 1 <= j < i ==> LevelOf(Var(learned[j])) <= m
        invariant m == 0 || exists j :: 1 <= j < i && LevelOf(Var(learned[j])) == m
      {
        if LevelOf(Var(learned[i])) > m {
          m := LevelOf(Var(learned[i]));
        }
      }
    }

    // -------------------------------------------------------------- backtracking and learning

    /** Unassigns the trail entries from position lim on. */
    method PopEntries(lim: nat, ghost s: Core, ghost level: nat)
      requires TrailOk(s) && level <= |s.lim| && lim <= |trail| <= |s.trail|
      requires CutTo(s, State(), |trail|, level)
      modifies `assignment, `decisionLevel, `reason, `trail
      ensures |trail| == lim && CutTo(s, State(), lim, level)
    {
      hide TrailOk; hide CutTo;
      while |trail| > lim
        invariant lim <= |trail| <= |s.trail| && CutTo(s, State(), |trail|, level)
      {
        CutPop(s, State(), |trail|, level);
        var v := Var(trail[|trail| - 1]);
        trail := trail[..|trail| - 1];
        assignment := assignment - {v};
        decisionLevel := decisionLevel - {v};
        reason := reason - {v};
      }
    }

    /** Undoes every level above the given one; below or at it, does nothing. */
    method BacktrackTo(level: nat)
      requires TrailOk(State())
      modifies `assignment, `decisionLevel, `reason, `trail, `trailLim, `qhead
      ensures CurrentLevel() == if old(CurrentLevel()) <= level then old(CurrentLevel()) else level
      ensures old(CurrentLevel()) <= level ==> State() == old(State()) && qhead == old(qhead)
      ensures old(CurrentLevel()) > level ==>
                CutTo(old(State()), State(), old(trailLim)[level], level) && qhead == |trail|
    {
      hide TrailOk; hide CutTo;
      if CurrentLevel() <= level {
        return;
      }
      ghost var s := State();
      CutSelf(s);
      while |trailLim| > level
        invariant level <= |trailLim| <= |s.lim|
        invariant |trail| == (if |trailLim| < |s.lim| then s.lim[|trailLim|] else |s.trail|) <= |s.trail|
        invariant CutTo(s, State(), |trail|, |trailLim|)
        decreases |trailLim|
      {
        var lim := trailLim[|trailLim| - 1];
        CutPopLevel(s, State(), |trail|, |trailLim|);
        trailLim := trailLim[..|trailLim| - 1];
        PopEntries(lim, s, |trailLim|);
      }
      qhead := |trail|;
    }

    /** Appends a clause and watches its first two literals. */
    method Attach(learned: seq<Lit>)
      modifies `clauses, `watches
      ensures clauses == old(clauses) + [learned]
      ensures watches == if |learned| < 2 then old(watches)
                         else AddWatch(AddWatch(old(watches), learned[0], |old(clauses)|), learned[1], |old(clauses)|)
    {
      var newIdx := |clauses|;
      clauses := clauses + [learned];
      if |learned| >= 2 {
        watches := watches[learned[0] := WatchList(watches, learned[0]) + [newIdx]];
        watches := watches[learned[1] := WatchList(watches, learned[1]) + [newIdx]];
      }
    }

    /** Appends a clause that is unit after the backjump, watches its first two literals and
        asserts the first. The assignment never contradicts the trail, so the engine's
        RuntimeError cannot be raised. */
    method AppendLearned(learned: seq<Lit>)
      requires Valid() && qhead == |trail| && ClauseOk(universe, base, learned) && learned != []
      requires Var(learned[0]) !in assignment
      requires forall i :: 1 <= i < |learned| ==> IsFalse(State(), learned[i])
      requires |learned| == 1 ==> trailLim == []
      modifies `assignment, `decisionLevel, `reason, `trail, `clauses, `watches, `pos
      ensures Valid() && clauses == old(clauses) + [learned]
      ensures State() == Extend(old(State()), learned[0], Some(old(|clauses|)))
      ensures IsTrue(State(), learned[0]) && forall i :: 1 <= i < |learned| ==> IsFalse(State(), learned[i])
      ensures old(Ready()) ==> Ready()
    {
      hide CoreOk; hide WatchInv; hide AllLive; hide IsFalse; hide IsTrue; hide Sound; hide Entails;
      hide VarsOf; hide UpTo;
      hide Sourced; hide ClauseOk; hide Extend;
      var newIdx := |clauses|;
      LearnedKeeps(universe, base, State(), clauses, watches, learned);
      Attach(learned);
      var ok := Assign(learned[0], Some(newIdx));
      assert ok;
    }

    /** Jumps back and learns. */
    method Learn(learned: seq<Lit>, backjumpLevel: nat)
      requires Valid() && Asserting(universe, base, State(), learned)
      requires backjumpLevel < CurrentLevel()
      requires forall i :: 1 <= i < |learned| ==> LevelOf(Var(learned[i])) <= backjumpLevel
      requires |learned| == 1 ==> backjumpLevel == 0
      modifies `assignment, `decisionLevel, `reason, `trail, `trailLim, `qhead, `clauses, `watches, `pos
      ensures Valid() && CurrentLevel() == backjumpLevel
      ensures clauses == old(clauses) + [learned]
      ensures IsTrue(State(), learned[0]) && forall i :: 1 <= i < |learned| ==> IsFalse(State(), learned[i])
      ensures old(ReadyBelow()) ==> Ready()
    {
      hide CoreOk; hide WatchInv; hide Asserting; hide CutTo; hide LiveBelow; hide Live; hide IsFalse; hide IsTrue;
      hide ClauseOk; hide Sourced;
      ghost var s, q := State(), qhead;
      CoreTrail(universe, base, s, clauses);
      BacktrackTo(backjumpLevel);
      CutCore(universe, base, s, State(), clauses, backjumpLevel, q);
      CutAsserting(universe, base, s, State(), clauses, learned, backjumpLevel);
      CutKeepsSourced(base, s, State(), clauses, backjumpLevel);
      AppendLearned(learned);
    }

    method Restart()
      requires Valid()
      modifies `assignment, `decisionLevel, `reason, `trail, `trailLim, `qhead,
               `restarts, `conflictsSinceRestart, `restartLimit
      ensures Valid() && CurrentLevel() == 0 && conflictsSinceRestart == 0
      ensures restarts == old(restarts) + 1
      ensures exists l: nat :: Luby.IsEntry(restarts + 1, l) && restartLimit == 32 * l
      ensures old(Ready()) ==> Ready()
      ensures old(qhead == |trail|) ==> qhead == |trail|
      ensures old(CurrentLevel()) == 0 ==> State() == old(State())
    {
      hide CoreOk; hide WatchInv; hide CutTo; hide LiveBelow; hide AllLive; hide Luby.IsEntry; hide Sound; hide VarsOf;
      hide UpTo; hide TrailOk; hide Sourced;
      ghost var s, q := State(), qhead;
      CoreTrail(universe, base, s, clauses);
      BacktrackTo(0);
      if s.lim != [] {
        LiveIsLiveBelow(s, q, clauses);
        CutCore(universe, base, s, State(), clauses, 0, q);
        CutKeepsSourced(base, s, State(), clauses, 0);
      }
      restarts := restarts + 1;
      conflictsSinceRestart := 0;
      var l := Luby.Luby(restarts + 1);
      Luby.EntryPositive(restarts + 1, l);
      restartLimit := RESTART_BASE * l;
    }

    // -------------------------------------------------------------- deciding

    /** The unassigned variable of highest activity, the smallest one on ties. */
    method PickBranchLit() returns (pick: Option<nat>)
      ensures pick.None? ==> forall v :: 1 <= v <= numVars ==> v in assignment
      ensures pick.Some? ==>
                && 1 <= pick.value <= numVars && pick.value !in assignment
                && (forall v :: 1 <= v <= numVars && v !in assignment ==> Precedes(varActivity, pick.value, v))
    {
      pick := None;
      for v := 1 to numVars + 1
        invariant pick.None? ==> forall u :: 1 <= u < v ==> u in assignment
        invariant pick.Some? ==>
                    && 1 <= pick.value < v && pick.value !in assignment
                    && (forall u :: 1 <= u < v && u !in assignment ==> Precedes(varActivity, pick.value, u))
      {
        if v !in assignment && (pick.None? || Activity(v) > Activity(pick.value)) {
          pick := Some(v);
        }
      }
    }

    /** Opens a level and decides an unassigned variable positively. */
    method Decide(v: nat)
      requires Valid() && qhead == |trail| && 1 <= v <= numVars && v !in assignment
      modifies `assignment, `decisionLevel, `reason, `trail, `pos, `trailLim
      ensures Valid() && CurrentLevel() == old(CurrentLevel()) + 1
      ensures State() == Extend(old(State()).(lim := old(trailLim) + [old(|trail|)]), v, None)
      ensures old(Ready()) ==> Ready()
    {
      hide CoreOk; hide WatchInv; hide Live; hide Sourced;
      ghost var s := State();
      ghost var t := s.(lim := s.lim + [|s.trail|]);
      OpenLevel(universe, base, s, t, clauses);
      ExtendCore(universe, base, t, clauses, v, None);
      DecideLive(s, t, qhead, clauses, v);
      DecideSourced(base, s, t, clauses, v);
      trailLim := trailLim + [|trail|];
      var _ := Assign(v, None);
    }

    // -------------------------------------------------------------- the search

    ghost function TotalActivity(lits: seq<Lit>): real
      reads `varActivity
    {
      if lits == [] then 0.0 else TotalActivity(lits[..|lits| - 1]) + Activity(Var(lits[|lits| - 1]))
    }

    /** Mean activity of the variables of a learned clause. */
    method MeanActivity(lits: seq<Lit>) returns (mean: real)
      requires lits != []
      ensures mean * |lits| as real == TotalActivity(lits)
    {
      var sum := 0.0;
      for i := 0 to |lits|
        invariant sum == TotalActivity(lits[..i])
      {
        assert lits[..i + 1][..i] == lits[..i];
        sum := sum + Activity(Var(lits[i]));
      }
      assert lits[..|lits|] == lits;
      mean := sum / (if |lits| > 1 then |lits| else 1) as real;
    }

    /** Analyses a falsified clause above level 0 and records what was learned. */
    method RecordConflict(confl: nat) returns (learned: seq<Lit>, backjumpLevel: nat, ghost touched: set<nat>)
      requires Valid() && CurrentLevel() > 0 && FalsifiedAtTop(State(), clauses, confl)
      modifies `varActivity, `conflictTrace
      ensures Valid() && Asserting(universe, base, State(), learned) && learned != []
      ensures Learns(State(), clauses, clauses[confl], learned, touched)
      ensures forall v :: Activity(v) == old(Activity(v)) + Gain(touched, v, varInc)
      ensures backjumpLevel < CurrentLevel() && (|learned| == 1 ==> backjumpLevel == 0)
      ensures forall i :: 1 <= i < |learned| ==> LevelOf(Var(learned[i])) <= backjumpLevel
      ensures |conflictTrace| == old(|conflictTrace|) + 1 && old(conflictTrace) <= conflictTrace
      ensures var e := conflictTrace[|conflictTrace| - 1];
              && e.id == conflicts && e.lits == learned && e.backjumpLevel == backjumpLevel
              && e.lbd == |set l | l in learned :: LevelIn(decisionLevel, Var(l))|
              && e.activity * |learned| as real == TotalActivity(learned)
    {
      hide CoreOk; hide WatchInv; hide Asserting; hide FalsifiedAtTop; hide VarsOf; hide UpTo;
      hide TotalActivity; hide Sound; hide Learns; hide Gain;
      var lbd: nat;
      learned, lbd, backjumpLevel, touched := AnalyzeConflict(confl);
      AssertingLevels(universe, base, State(), learned);
      var mean := MeanActivity(learned);
      var entry := RealConflictClause(conflicts, learned, lbd, backjumpLevel, mean);
      AssertingSound(universe, base, State(), entry);
      conflictTrace := conflictTrace + [entry];
    }

    /** Analyses a falsified clause above level 0, records it, and unless the target is
        reached learns from it. */
    method HandleConflict(confl: nat, target: int) returns (ghost touched: set<nat>)
      requires Valid() && CurrentLevel() > 0 && FalsifiedAtTop(State(), clauses, confl)
      modifies this
      ensures Valid() && conflicts == old(conflicts) && restartLimit == old(restartLimit)
      ensures restarts == old(restarts) && conflictsSinceRestart == old(conflictsSinceRestart)
      ensures |conflictTrace| == old(|conflictTrace|) + 1 && old(conflictTrace) <= conflictTrace
      ensures conflictTrace[|conflictTrace| - 1].id == conflicts
      ensures conflictTrace[|conflictTrace| - 1].backjumpLevel < old(CurrentLevel())
      ensures Learns(old(State()), old(clauses), old(clauses[confl]), conflictTrace[|conflictTrace| - 1].lits, touched)
      ensures forall v :: Activity(v) == old(Activity(v)) + Gain(touched, v, old(varInc))
      ensures conflicts < target ==>
                && clauses == old(clauses) + [conflictTrace[|conflictTrace| - 1].lits]
                && CurrentLevel() == conflictTrace[|conflictTrace| - 1].backjumpLevel
                && (old(ReadyBelow()) ==> Ready())
      ensures conflicts < target ==> varInc * 0.95 == old(varInc)
      ensures conflicts >= target ==> clauses == old(clauses)
    {
      hide CoreOk; hide WatchInv; hide Asserting; hide LiveBelow; hide AllLive; hide FalsifiedAtTop; hide Sound;
      hide IsTrue; hide IsFalse; hide VarsOf; hide UpTo; hide WellFormed; hide Sourced; hide Learns; hide Gain;
      hide Luby.IsEntry; hide Recorded; hide TotalActivity; hide Activity;
      var learned: seq<Lit>, backjumpLevel: nat;
      learned, backjumpLevel, touched := RecordConflict(confl);
      if conflicts >= target {
        return;
      }
      Learn(learned, backjumpLevel);
      varInc := varInc * (1.0 / VAR_DECAY);
    }

    /** Counts a conflict and, unless it refutes the formula or reaches the target, learns from it.
        One that reaches the target is recorded and not learned, one at level 0 neither. */
    method MeetConflict(confl: nat, target: int) returns (stop: bool)
      requires Valid() && conflicts < target && FalsifiedAtTop(State(), clauses, confl)
      modifies this
      ensures Valid() && restartLimit == old(restartLimit) && restarts == old(restarts)
      ensures conflicts == old(conflicts) + 1 && conflictsSinceRestart == old(conflictsSinceRestart) + 1
      ensures stop ==> conflicts >= target || (CurrentLevel() == 0 && Unsatisfiable(base))
      ensures !stop ==> conflicts < target && (old(ReadyBelow()) ==> Ready())
      ensures old(InStep()) ==> if stop then TargetMet(target) || RootMet() else InStep()
      ensures old(CurrentLevel()) > 0 ==>
                && old(conflictTrace) < conflictTrace
                && LearnsSome(old(State()), old(clauses), old(clauses[confl]), conflictTrace[|conflictTrace| - 1].lits)
    {
      hide CoreOk; hide WatchInv; hide LiveBelow; hide Live; hide FalsifiedAtTop; hide Sound; hide Sourced;
      hide Recorded; hide VarsOf; hide UpTo; hide Learns;
      ghost var clausesBefore, trace, inStep := clauses, conflictTrace, InStep();
      conflicts := conflicts + 1;
      conflictsSinceRestart := conflictsSinceRestart + 1;
      if CurrentLevel() == 0 {
        RootRefuted(universe, base, State(), clauses, confl);
        return true;
      }
      ghost var touched := HandleConflict(confl, target);
      StepGrows(base, clausesBefore, trace, conflictTrace, inStep, conflicts);
      return conflicts >= target;
    }

    /** Propagates and learns until nothing is falsified; stop means the search is over. */
    method Settle(target: int) returns (stop: bool)
      requires Valid() && conflicts < target
      modifies this
      ensures Valid() && restartLimit == old(restartLimit) && restarts == old(restarts)
      ensures conflictsSinceRestart - old(conflictsSinceRestart) == conflicts - old(conflicts) >= 0
      ensures stop ==> conflicts >= target || (CurrentLevel() == 0 && Unsatisfiable(base))
      ensures !stop ==> conflicts < target && qhead == |trail|
      ensures !stop && old(Ready()) ==> Ready() && NothingFalsified(State(), clauses)
      ensures !stop && conflicts == old(conflicts) ==>
                && conflictsSinceRestart == old(conflictsSinceRestart) && Grown(old(State()), State())
                && varActivity == old(varActivity)
      ensures old(InStep()) ==> if stop then TargetMet(target) || RootMet() else InStep()
      ensures old(OnlyUnits()) ==> !stop && OnlyUnits() && conflicts == old(conflicts)
    {
      hide CoreOk; hide WatchInv; hide LiveBelow; hide Live; hide FalsifiedAtTop; hide Sound; hide Grown;
      hide NothingFalsified; hide Permuted; hide Forced; hide Sourced; hide Recorded; hide VarsOf; hide UpTo;
      ghost var ready, inStep, units := Ready(), InStep(), OnlyUnits();
      GrownSelf(State());
      while true
        invariant Valid() && restartLimit == old(restartLimit) && restarts == old(restarts)
        invariant old(conflicts) <= conflicts < target
        invariant conflictsSinceRestart - old(conflictsSinceRestart) == conflicts - old(conflicts)
        invariant ready ==> Ready()
        invariant inStep ==> InStep()
        invariant units ==> OnlyUnits() && conflicts == old(conflicts)
        invariant conflicts == old(conflicts) ==>
                    && conflictsSinceRestart == old(conflictsSinceRestart) && State() == old(State())
                    && varActivity == old(varActivity)
        decreases target - conflicts
      {
        ghost var clausesBefore := clauses;
        var confl := Bcp();
        PermutedSizes(clausesBefore, clauses);
        StepPermutes(base, clausesBefore, clauses, conflictTrace, inStep);
        if confl.None? {
          return false;
        }
        ConflictSize(State(), clauses, confl.value);
        stop := MeetConflict(confl.value, target);
        if stop {
          return;
        }
      }
    }

    /** Every variable is assigned and propagation found nothing more to do. */
    ghost predicate Exhausted()
      reads this
    {
      (forall v :: 1 <= v <= numVars ==> v in assignment) && qhead == |trail|
    }

    /** The assignment satisfies every base clause of two or more literals. */
    ghost predicate Solved()
      reads this
    {
      VarsOf(base) <= UpTo(numVars) ==>
        forall i :: 0 <= i < |base| && |base[i]| >= 2 ==> Satisfies(ModelOf(State()), base[i])
    }

    /** Decides v, which comes first among the unassigned variables, and settles. Without a conflict
        that decision stays the last. */
    method Branch(v: nat, target: int) returns (stop: bool)
      requires Valid() && qhead == |trail| && conflicts < target && 1 <= v <= numVars && v !in assignment
      requires forall u :: 1 <= u <= numVars && u !in assignment ==> Precedes(varActivity, v, u)
      modifies this
      ensures Valid() && restartLimit == old(restartLimit) && restarts == old(restarts)
      ensures conflictsSinceRestart - old(conflictsSinceRestart) == conflicts - old(conflicts) >= 0
      ensures stop ==> conflicts >= target || (CurrentLevel() == 0 && Unsatisfiable(base))
      ensures !stop ==> conflicts < target && qhead == |trail|
      ensures !stop && old(Ready()) ==> Ready() && NothingFalsified(State(), clauses)
      ensures !stop && conflicts == old(conflicts) ==>
                && DecidedBest(State(), varActivity, numVars) && trailLim == old(trailLim) + [old(|trail|)]
                && universe - assignment.Keys < universe - old(assignment.Keys)
      ensures old(InStep()) ==> if stop then TargetMet(target) || RootMet() else InStep()
      ensures old(OnlyUnits()) ==> !stop && OnlyUnits() && conflicts == old(conflicts)
    {
      hide CoreOk; hide WatchInv; hide LiveBelow; hide Live; hide Sound; hide Grown; hide NothingFalsified;
      hide Sourced; hide Recorded; hide VarsOf; hide DecidedBest; hide Precedes; hide TrailOk;
      ghost var before, activity := State(), varActivity;
      CoreTrail(universe, base, before, clauses);
      Decide(v);
      ghost var decided := State();
      BestIsDecided(before, decided, activity, numVars, v);
      stop := Settle(target);
      if !stop && conflicts == old(conflicts) {
        BestStays(decided, State(), activity, numVars);
        DecideProgress(universe, base, before, decided, State(), clauses, v, numVars);
      }
    }

    /** One round of the search: restart if due, decide, settle. stop means it is over. */
    method Round(target: int) returns (stop: bool)
      requires Valid() && qhead == |trail| && conflicts < target
      requires Ready() ==> NothingFalsified(State(), clauses)
      modifies this
      ensures Valid() && conflicts >= old(conflicts)
      ensures var due := old(conflictsSinceRestart >= restartLimit);
              && restarts == old(restarts) + (if due then 1 else 0)
              && conflictsSinceRestart - (if due then 0 else old(conflictsSinceRestart)) == conflicts - old(conflicts)
              && (!due ==> restartLimit == old(restartLimit))
      ensures stop ==> || conflicts >= target
                       || (Exhausted() && (old(Ready()) ==> NothingFalsified(State(), clauses) && Solved()))
                       || (CurrentLevel() == 0 && Unsatisfiable(base))
      ensures !stop ==> qhead == |trail| && conflicts < target
      ensures !stop && old(Ready()) ==> Ready() && NothingFalsified(State(), clauses)
      ensures !stop && conflicts == old(conflicts) ==>
                && conflictsSinceRestart < restartLimit
                && (old(conflictsSinceRestart >= restartLimit)
                    || universe - assignment.Keys < universe - old(assignment.Keys))
                && DecidedBest(State(), varActivity, numVars)
                && (old(conflictsSinceRestart < restartLimit) ==> trailLim == old(trailLim) + [old(|trail|)])
      ensures old(InStep()) ==> InStep() || (stop && (TargetMet(target) || RootMet()))
      ensures old(OnlyUnits()) ==> OnlyUnits() && conflicts == old(conflicts) && (stop ==> Exhausted())
    {
      hide CoreOk; hide WatchInv; hide LiveBelow; hide Live; hide Sound; hide Grown; hide NothingFalsified;
      hide Sourced; hide Recorded; hide VarsOf; hide DecidedBest; hide Precedes;
      if conflictsSinceRestart >= restartLimit {
        Restart();
      }
      var nextLit := PickBranchLit();
      if nextLit.None? {
        if Ready() {
          ReadyNothingFalsified(universe, base, State(), clauses);
          if VarsOf(base) <= UpTo(numVars) {
            FinalAssignmentSatisfies(universe, base, State(), clauses);
          }
        }
        return true;
      }
      stop := Branch(nextLit.value, target);
    }

    /** The search. It stops because enough conflicts were collected, because no variable is
        left (then, from a ready state, no clause of two or more literals is falsified and the
        assignment satisfies those of the formula), or because a conflict at level 0 refutes the
        formula. A call above level 0 may also meet a conflict before it decides anything, and then
        returns without counting it. Valid() makes every learned clause of the trace and of the
        database a consequence of the formula. From a fresh engine the trace has one entry for each
        conflict, numbered from 1, but for one at level 0, and what was learned is the trace, but
        for an entry that met the target. */
    method CollectConflicts(target: int) returns (trace: seq<RealConflictClause>)
      requires Valid()
      modifies this
      ensures Valid() && trace == conflictTrace
      ensures forall e :: e in trace ==> Sound(base, e)
      ensures || conflicts >= target
              || (Exhausted() && (old(Ready()) ==> NothingFalsified(State(), clauses) && Solved()))
              || (CurrentLevel() == 0 && Unsatisfiable(base))
              || (CurrentLevel() > 0 && PendingOnly(old(conflicts), old(conflictTrace)))
      ensures old(InStep()) ==> InStep() || TargetMet(target) || RootMet()
      ensures old(OnlyUnits()) && old(conflicts) < target ==>
                OnlyUnits() && conflicts == old(conflicts) && Exhausted()
    {
      hide CoreOk; hide WatchInv; hide LiveBelow; hide Live; hide FalsifiedAtTop; hide Sound; hide Grown;
      hide NothingFalsified; hide Permuted; hide Forced; hide Sourced; hide Recorded; hide VarsOf; hide UpTo;
      ghost var ready, inStep, units, start, clausesBefore := Ready(), InStep(), OnlyUnits(), conflicts, clauses;
      var first := Bcp();
      PermutedSizes(clausesBefore, clauses);
      StepPermutes(base, clausesBefore, clauses, conflictTrace, inStep);
      if first.Some? {
        GrownLevel(old(State()), State());
        ConflictSize(State(), clauses, first.value);
        if CurrentLevel() == 0 {
          RootRefuted(universe, base, State(), clauses, first.value);
        }
        return conflictTrace;
      }
      if Ready() {
        ReadyNothingFalsified(universe, base, State(), clauses);
      }
      while conflicts < target
        invariant Valid() && qhead == |trail|
        invariant ready ==> Ready()
        invariant inStep ==> InStep()
        invariant units ==> OnlyUnits() && conflicts == start
        invariant Ready() ==> NothingFalsified(State(), clauses)
        decreases target - conflicts, if conflictsSinceRestart >= restartLimit then 1 else 0,
                  universe - assignment.Keys
      {
        var stop := Round(target);
        if stop {
          return conflictTrace;
        }
        if Ready() {
          ReadyNothingFalsified(universe, base, State(), clauses);
        }
      }
      return conflictTrace;
    }

    ghost predicate ReadyBelow()
      reads this
    {
      forall i :: 0 <= i < |clauses| ==> LiveBelow(State(), qhead, clauses[i])
    }
  }

  method InitialWatches(clauses: seq<Clause>) returns (watches: map<Lit, seq<nat>>)
    requires forall i :: 0 <= i < |clauses| ==> WellFormed(clauses[i])
    ensures WatchInv(clauses, watches, 0, [])
  {
    watches := map[];
    for idx := 0 to |clauses|
      invariant WatchInv(clauses[..idx], watches, 0, [])
    {
      var c := clauses[idx];
      assert clauses[..idx + 1] == clauses[..idx] + [c];
      if |c| >= 2 {
        AppendWatched(clauses[..idx], watches, 0, c);
        watches := watches[c[0] := WatchList(watches, c[0]) + [idx]];
        watches := watches[c[1] := WatchList(watches, c[1]) + [idx]];
      } else {
        AppendUnwatched(clauses[..idx], watches, 0, c);
      }
    }
    assert clauses[..|clauses|] == clauses;
  }

  /** A search of a formula of at most unit clauses: nothing is ever propagated, every variable is
      decided positively, and the result is a model exactly when all units are positive. */
  method SearchUnits(numVars: nat, units: seq<Clause>, target: nat) returns (engine: InstrumentedCdcl)
    requires forall i :: 0 <= i < |units| ==> WellFormed(units[i]) && |units[i]| < 2
    requires VarsOf(units) <= UpTo(numVars) && target > 0
    ensures engine.Valid() && engine.base == units && engine.conflicts == 0
    ensures engine.assignment.Keys == UpTo(numVars) && forall v :: 1 <= v <= numVars ==> engine.assignment[v]
    ensures Models(ModelOf(engine.State()), units) <==> forall c :: c in units ==> c != [] && c[0] > 0
  {
    hide CoreOk; hide WatchInv; hide Sound; hide VarsOf; hide Models; hide Sourced; hide WellFormed;
    engine := new InstrumentedCdcl(numVars, units);
    var trace := engine.CollectConflicts(target);
    assert engine.universe == UpTo(numVars);
    CoreKeys(engine.universe, units, engine.State(), engine.clauses);
    UnitsAreDecidedPositively(engine.universe, units, engine.State(), engine.clauses);
  }

  /** A base unit is never enqueued: on the satisfiable formula { not 1 } the search ends having
      decided 1, which falsifies it. */
  method BaseUnitsAreNotPropagated() returns (engine: InstrumentedCdcl)
    ensures engine.Valid() && engine.base == [[-1]] && engine.trail == [1]
    ensures !Models(ModelOf(engine.State()), [[-1]]) && !Unsatisfiable([[-1]])
  {
    var units: seq<Clause> := [[-1]];
    NegativeUnit(units);
    engine := SearchUnits(1, units, 1);
    assert units[0] in units && !(units[0][0] > 0);
    CoreTrail(engine.universe, engine.base, engine.State(), engine.clauses);
    SingleEntry(engine.State());
  }

  lemma NegativeUnit(units: seq<Clause>)
    requires units == [[-1]]
    ensures WellFormed(units[0]) && VarsOf(units) <= UpTo(1) && !Unsatisfiable(units)
  {
    assert -1 in units[0] && LitTrue(iset{}, -1);
    assert Satisfies(iset{}, units[0]);
    assert Models(iset{}, units);
  }

  lemma CoreKeys(universe: set<nat>, base: seq<Clause>, s: Core, clauses: seq<Clause>)
    requires CoreOk(universe, base, s, clauses)
    ensures s.assignment.Keys <= universe
  {
  }
}

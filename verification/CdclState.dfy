/** The assignment trail, the reasons and the clause database of the CDCL engine as
    values, with the invariants its methods keep. */
module CdclState {
  import opened Cnf
  import opened Wrappers

  /** assignment, decision_level, reason, trail and trail_lim; pos is the inverse of trail. */
  datatype Core = Core(
    assignment: map<nat, bool>,
    level: map<nat, nat>,
    reason: map<nat, Option<nat>>,
    trail: seq<Lit>,
    lim: seq<nat>,
    pos: map<nat, nat>)

  function LitVal(assignment: map<nat, bool>, l: Lit): (r: Option<bool>) {
    if Var(l) !in assignment then None
    else if l > 0 then Some(assignment[Var(l)])
    else Some(!assignment[Var(l)])
  }

  ghost predicate IsTrue(s: Core, l: Lit) {
    LitVal(s.assignment, l) == Some(true)
  }

  ghost predicate IsFalse(s: Core, l: Lit) {
    LitVal(s.assignment, l) == Some(false)
  }

  lemma NeitherIsOpen(s: Core, l: Lit)
    ensures IsTrue(s, l) || IsFalse(s, l) || Var(l) !in s.assignment
  {
    if Var(l) in s.assignment {
      if s.assignment[Var(l)] == (l > 0) {
        assert LitVal(s.assignment, l) == Some(true);
      } else {
        assert LitVal(s.assignment, l) == Some(false);
      }
    }
  }

  /** Falsified by an entry before position i of the trail. */
  ghost predicate FalseBefore(s: Core, l: Lit, i: nat) {
    IsFalse(s, l) && Var(l) in s.pos && s.pos[Var(l)] < i
  }

  ghost predicate LevelFits(lim: seq<nat>, i: nat, l: nat) {
    && l <= |lim|
    && (l > 0 ==> lim[l - 1] <= i)
    && (l < |lim| ==> i < lim[l])
  }

  function Literal(v: nat, positive: bool): Lit {
    if positive then v as int else -(v as int)
  }

  ghost predicate VarOk(s: Core, v: nat)
    requires v in s.assignment
  {
    && v > 0
    && v in s.level && v in s.reason && v in s.pos
    && s.pos[v] < |s.trail|
    && s.trail[s.pos[v]] == Literal(v, s.assignment[v])
    && LevelFits(s.lim, s.pos[v], s.level[v])
  }

  ghost predicate EntryOk(s: Core, i: nat)
    requires i < |s.trail|
  {
    Var(s.trail[i]) in s.assignment && Var(s.trail[i]) in s.pos && s.pos[Var(s.trail[i])] == i
  }

  /** The decision marks are ordered positions of the trail. */
  ghost predicate LimOk(s: Core) {
    && (forall k :: 0 <= k < |s.lim| ==> s.lim[k] <= |s.trail|)
    && (forall j, k :: 0 <= j < k < |s.lim| ==> s.lim[j] <= s.lim[k])
  }

  /** The maps describe exactly the trail, and levels follow the decision marks. */
  ghost predicate TrailOk(s: Core) {
    && s.level.Keys == s.assignment.Keys
    && s.reason.Keys == s.assignment.Keys
    && (forall v :: v in s.assignment ==> VarOk(s, v))
    && (forall i :: 0 <= i < |s.trail| ==> EntryOk(s, i))
    && LimOk(s)
  }

  /** Clause c made l unit at trail position i: its other literals were false before. */
  ghost predicate Propagates(s: Core, c: Clause, l: Lit, i: nat) {
    l in c && forall k :: k in c && k != l ==> FalseBefore(s, k, i)
  }

  /** A variable without a reason is the decision of its level. */
  ghost predicate ReasonFits(s: Core, clauses: seq<Clause>, v: nat)
    requires v in s.assignment && VarOk(s, v)
  {
    match s.reason[v]
    case None => s.level[v] > 0 && s.lim[s.level[v] - 1] == s.pos[v]
    case Some(c) => c < |clauses| && Propagates(s, clauses[c], s.trail[s.pos[v]], s.pos[v])
  }

  ghost predicate ReasonsOk(s: Core, clauses: seq<Clause>)
    requires TrailOk(s)
  {
    forall v :: v in s.assignment ==> ReasonFits(s, clauses, v)
  }

  ghost predicate ClauseOk(universe: set<nat>, base: seq<Clause>, c: Clause) {
    WellFormed(c) && Entails(base, c) && forall l :: l in c ==> Var(l) in universe
  }

  /** The database is the base formula, up to literal order, followed by consequences of it. */
  ghost predicate ClausesOk(universe: set<nat>, base: seq<Clause>, clauses: seq<Clause>) {
    && |base| <= |clauses|
    && (forall i :: 0 <= i < |base| ==> SameLits(base[i], clauses[i]))
    && (forall i :: 0 <= i < |clauses| ==> ClauseOk(universe, base, clauses[i]))
  }

  /** Learned clauses are nonempty, and a learned unit stays asserted at level 0. */
  ghost predicate LearnedOk(s: Core, c: Clause) {
    |c| > 0 && (|c| == 1 ==> IsTrue(s, c[0]) && Var(c[0]) in s.level && s.level[Var(c[0])] == 0)
  }

  ghost predicate CoreOk(universe: set<nat>, base: seq<Clause>, s: Core, clauses: seq<Clause>) {
    && TrailOk(s)
    && ReasonsOk(s, clauses)
    && ClausesOk(universe, base, clauses)
    && (forall i :: |base| <= i < |clauses| ==> LearnedOk(s, clauses[i]))
    && s.assignment.Keys <= universe
  }

  /** The current level holds the entries from its decision mark on. */
  lemma TopLevel(s: Core, v: nat)
    requires TrailOk(s) && v in s.assignment && VarOk(s, v)
    ensures s.level[v] == |s.lim| <==> s.lim == [] || s.lim[|s.lim| - 1] <= s.pos[v]
  {
    if s.level[v] < |s.lim| {
      assert s.lim[s.level[v]] <= s.lim[|s.lim| - 1];
    }
  }

  // ---------------------------------------------------------------- extending the trail

  ghost function Extend(s: Core, lit: Lit, reason: Option<nat>): Core {
    Core(s.assignment[Var(lit) := lit > 0], s.level[Var(lit) := |s.lim|],
         s.reason[Var(lit) := reason], s.trail + [lit], s.lim, s.pos[Var(lit) := |s.trail|])
  }

  lemma ExtendTrail(s: Core, lit: Lit, reason: Option<nat>)
    requires TrailOk(s) && lit != 0 && Var(lit) !in s.assignment
    ensures TrailOk(Extend(s, lit, reason))
  {
    hide VarOk; hide EntryOk;
    var t := Extend(s, lit, reason);
    forall v | v in t.assignment ensures VarOk(t, v) {
      ExtendVar(s, lit, reason, v);
    }
    forall i | 0 <= i < |t.trail| ensures EntryOk(t, i) {
      ExtendEntry(s, lit, reason, i);
    }
  }

  lemma ExtendVar(s: Core, lit: Lit, reason: Option<nat>, v: nat)
    requires LimOk(s) && lit != 0 && v in Extend(s, lit, reason).assignment
    requires v != Var(lit) ==> VarOk(s, v)
    ensures VarOk(Extend(s, lit, reason), v)
  {
  }

  lemma ExtendEntry(s: Core, lit: Lit, reason: Option<nat>, i: nat)
    requires i <= |s.trail| && lit != 0 && Var(lit) !in s.assignment
    requires i < |s.trail| ==> EntryOk(s, i)
    ensures EntryOk(Extend(s, lit, reason), i)
  {
  }

  ghost predicate Unit(s: Core, clauses: seq<Clause>, lit: Lit, reason: Option<nat>) {
    match reason
    case None => s.lim != [] && s.lim[|s.lim| - 1] == |s.trail|
    case Some(c) => c < |clauses| && lit in clauses[c]
                    && forall l :: l in clauses[c] && l != lit ==> IsFalse(s, l)
  }

  lemma ExtendReasons(s: Core, clauses: seq<Clause>, lit: Lit, reason: Option<nat>)
    requires TrailOk(s) && ReasonsOk(s, clauses)
    requires lit != 0 && Var(lit) !in s.assignment && Unit(s, clauses, lit, reason)
    ensures TrailOk(Extend(s, lit, reason)) && ReasonsOk(Extend(s, lit, reason), clauses)
  {
    var t := Extend(s, lit, reason);
    ExtendTrail(s, lit, reason);
    forall v | v in t.assignment ensures ReasonFits(t, clauses, v) {
      assert VarOk(t, v);
      if v == Var(lit) {
        ExtendNewReason(s, clauses, lit, reason);
      } else {
        assert VarOk(s, v) && ReasonFits(s, clauses, v);
        if s.reason[v].Some? {
          ExtendPropagates(s, clauses[s.reason[v].value], v, lit, reason);
        }
      }
    }
  }

  lemma ExtendNewReason(s: Core, clauses: seq<Clause>, lit: Lit, reason: Option<nat>)
    requires TrailOk(s) && lit != 0 && Var(lit) !in s.assignment && Unit(s, clauses, lit, reason)
    requires VarOk(Extend(s, lit, reason), Var(lit))
    ensures ReasonFits(Extend(s, lit, reason), clauses, Var(lit))
  {
    if reason.Some? {
      forall k | k in clauses[reason.value] && k != lit
        ensures FalseBefore(Extend(s, lit, reason), k, |s.trail|)
      {
        assert IsFalse(s, k) && VarOk(s, Var(k));
      }
    }
  }

  /** Assigning an unassigned literal that the reason clause makes unit, or deciding one
      right after its level was opened. */
  lemma ExtendCore(universe: set<nat>, base: seq<Clause>, s: Core, clauses: seq<Clause>, lit: Lit, reason: Option<nat>)
    requires CoreOk(universe, base, s, clauses)
    requires lit != 0 && Var(lit) !in s.assignment && Var(lit) in universe
    requires Unit(s, clauses, lit, reason)
    ensures CoreOk(universe, base, Extend(s, lit, reason), clauses)
  {
    hide EntryOk; hide LimOk; hide ReasonFits; hide ClauseOk;
    var t := Extend(s, lit, reason);
    ExtendReasons(s, clauses, lit, reason);
    forall i | |base| <= i < |clauses| ensures LearnedOk(t, clauses[i]) {
      assert LearnedOk(s, clauses[i]);
    }
  }

  lemma ExtendPropagates(s: Core, c: Clause, v: nat, lit: Lit, reason: Option<nat>)
    requires TrailOk(s) && lit != 0 && Var(lit) !in s.assignment && v in s.assignment
    requires VarOk(s, v) && Propagates(s, c, s.trail[s.pos[v]], s.pos[v])
    ensures Propagates(Extend(s, lit, reason), c, s.trail[s.pos[v]], s.pos[v])
  {
    var t := Extend(s, lit, reason);
    forall k | k in c && k != s.trail[s.pos[v]] ensures FalseBefore(t, k, s.pos[v]) {
      assert FalseBefore(s, k, s.pos[v]);
    }
  }

  // ---------------------------------------------------------------- undoing levels

  /** t is s cut back to its first n trail entries and its first `level` levels. */
  ghost predicate CutTo(s: Core, t: Core, n: nat, level: nat)
    requires TrailOk(s) && n <= |s.trail| && level <= |s.lim|
  {
    && t.trail == s.trail[..n]
    && t.lim == s.lim[..level]
    && t.pos == s.pos
    && (forall v :: v in t.assignment <==> v in s.assignment && VarOk(s, v) && s.pos[v] < n)
    && t.level.Keys == t.assignment.Keys
    && t.reason.Keys == t.assignment.Keys
    && (forall v :: v in t.assignment ==> SameEntry(s, t, v))
  }

  ghost predicate SameEntry(s: Core, t: Core, v: nat) {
    && v in s.assignment && v in t.assignment && s.assignment[v] == t.assignment[v]
    && v in s.level && v in t.level && s.level[v] == t.level[v]
    && v in s.reason && v in t.reason && s.reason[v] == t.reason[v]
  }

  ghost function Pop(t: Core): Core
    requires t.trail != []
  {
    var v := Var(t.trail[|t.trail| - 1]);
    Core(t.assignment - {v}, t.level - {v}, t.reason - {v}, t.trail[..|t.trail| - 1], t.lim, t.pos)
  }

  lemma CutSelf(s: Core)
    requires TrailOk(s)
    ensures CutTo(s, s, |s.trail|, |s.lim|)
  {
    forall v | v in s.assignment ensures VarOk(s, v) && SameEntry(s, s, v) {
      assert VarOk(s, v);
    }
  }

  lemma CutPop(s: Core, t: Core, n: nat, level: nat)
    requires TrailOk(s) && 0 < n <= |s.trail| && level <= |s.lim| && CutTo(s, t, n, level)
    ensures CutTo(s, Pop(t), n - 1, level)
  {
    hide EntryOk; hide LimOk; hide SameEntry; hide LevelFits;
    var u := Pop(t);
    assert t.trail[|t.trail| - 1] == s.trail[n - 1];
    forall v ensures v in u.assignment <==> v in s.assignment && VarOk(s, v) && s.pos[v] < n - 1 {
      if v in s.assignment {
        PopMember(s, n, v);
      }
    }
    forall v | v in u.assignment ensures SameEntry(s, u, v) {
      PopSame(s, t, v);
    }
  }

  lemma PopSame(s: Core, t: Core, v: nat)
    requires t.trail != [] && v in Pop(t).assignment && SameEntry(s, t, v)
    ensures SameEntry(s, Pop(t), v)
  {
  }

  lemma PopMember(s: Core, n: nat, v: nat)
    requires TrailOk(s) && 0 < n <= |s.trail| && v in s.assignment && VarOk(s, v)
    ensures s.pos[v] == n - 1 <==> v == Var(s.trail[n - 1])
  {
    assert EntryOk(s, n - 1);
  }

  lemma CutKeepsTrail(s: Core, t: Core, level: nat)
    requires TrailOk(s) && level < |s.lim| && CutTo(s, t, s.lim[level], level)
    ensures TrailOk(t)
  {
    hide EntryOk; hide VarOk; hide SameEntry;
    forall v | v in t.assignment ensures VarOk(t, v) {
      CutKeepsVar(s, t, level, v);
    }
    forall i | 0 <= i < |t.trail| ensures EntryOk(t, i) {
      CutKeepsEntry(s, t, level, i);
    }
    forall k | 0 <= k < |t.lim| ensures t.lim[k] <= |t.trail| {
      assert s.lim[k] <= s.lim[level];
    }
  }

  lemma CutKeepsVar(s: Core, t: Core, level: nat, v: nat)
    requires TrailOk(s) && level < |s.lim| && CutTo(s, t, s.lim[level], level) && v in t.assignment
    ensures VarOk(t, v)
  {
    hide EntryOk;
    assert VarOk(s, v) && SameEntry(s, t, v);
    if s.level[v] > level {
      assert false;
    }
  }

  lemma CutKeepsEntry(s: Core, t: Core, level: nat, i: nat)
    requires TrailOk(s) && level < |s.lim| && CutTo(s, t, s.lim[level], level) && i < |t.trail|
    ensures EntryOk(t, i)
  {
    hide LevelFits; hide SameEntry;
    assert EntryOk(s, i);
  }

  lemma CutKeepsReasons(s: Core, t: Core, clauses: seq<Clause>, level: nat)
    requires TrailOk(s) && ReasonsOk(s, clauses) && level < |s.lim| && CutTo(s, t, s.lim[level], level)
    ensures TrailOk(t) && ReasonsOk(t, clauses)
  {
    hide Propagates; hide EntryOk; hide LimOk; hide ReasonFits; hide SameEntry;
    CutKeepsTrail(s, t, level);
    forall v | v in t.assignment ensures VarOk(t, v) && ReasonFits(t, clauses, v) {
      CutKeepsReason(s, t, clauses, level, v);
    }
  }

  lemma CutKeepsReason(s: Core, t: Core, clauses: seq<Clause>, level: nat, v: nat)
    requires TrailOk(s) && ReasonsOk(s, clauses) && level < |s.lim| && CutTo(s, t, s.lim[level], level)
    requires v in t.assignment && VarOk(t, v)
    ensures ReasonFits(t, clauses, v)
  {
    hide Propagates; hide EntryOk; hide LimOk;
    assert SameEntry(s, t, v) && VarOk(s, v);
    assert ReasonFits(s, clauses, v);
    if s.reason[v].Some? {
      CutPropagates(s, t, level, clauses[s.reason[v].value], v);
    }
  }

  lemma CutKeepsCore(universe: set<nat>, base: seq<Clause>, s: Core, t: Core, clauses: seq<Clause>, level: nat)
    requires CoreOk(universe, base, s, clauses) && level < |s.lim| && CutTo(s, t, s.lim[level], level)
    ensures CoreOk(universe, base, t, clauses)
  {
    CutKeepsReasons(s, t, clauses, level);
    forall i | |base| <= i < |clauses| ensures LearnedOk(t, clauses[i]) {
      assert LearnedOk(s, clauses[i]);
      if |clauses[i]| == 1 {
        CutKeepsRoot(s, t, level, Var(clauses[i][0]));
      }
    }
  }

  lemma CutKeepsRoot(s: Core, t: Core, level: nat, v: nat)
    requires TrailOk(s) && level < |s.lim| && CutTo(s, t, s.lim[level], level)
    requires v in s.assignment && v in s.level && s.level[v] <= level
    ensures v in t.assignment && SameEntry(s, t, v)
  {
    assert VarOk(s, v);
    if s.level[v] < level {
      assert s.lim[s.level[v]] <= s.lim[level];
    }
  }

  lemma CutPropagates(s: Core, t: Core, level: nat, c: Clause, v: nat)
    requires TrailOk(s) && level < |s.lim| && CutTo(s, t, s.lim[level], level)
    requires v in t.assignment && v in s.assignment && VarOk(s, v) && VarOk(t, v)
    requires Propagates(s, c, s.trail[s.pos[v]], s.pos[v])
    ensures Propagates(t, c, t.trail[t.pos[v]], t.pos[v])
  {
    forall k | k in c && k != s.trail[s.pos[v]] ensures FalseBefore(t, k, s.pos[v]) {
      assert FalseBefore(s, k, s.pos[v]);
      assert VarOk(s, Var(k));
      assert SameEntry(s, t, Var(k));
    }
  }

  /** Opening a level at the end of the trail. */
  lemma OpenLevel(universe: set<nat>, base: seq<Clause>, s: Core, t: Core, clauses: seq<Clause>)
    requires CoreOk(universe, base, s, clauses)
    requires t == s.(lim := s.lim + [|s.trail|])
    ensures CoreOk(universe, base, t, clauses)
  {
    OpenLevelTrail(s, t);
    forall v | v in t.assignment ensures ReasonFits(t, clauses, v) {
      assert VarOk(s, v) && VarOk(t, v) && ReasonFits(s, clauses, v);
      if s.reason[v].Some? {
        OpenLevelPropagates(s, t, clauses[s.reason[v].value], v);
      }
    }
    forall i | |base| <= i < |clauses| ensures LearnedOk(t, clauses[i]) {
      assert LearnedOk(s, clauses[i]);
    }
  }

  lemma OpenLevelTrail(s: Core, t: Core)
    requires TrailOk(s) && t == s.(lim := s.lim + [|s.trail|])
    ensures TrailOk(t)
  {
    forall v | v in t.assignment ensures VarOk(t, v) {
      assert VarOk(s, v);
    }
    forall i | 0 <= i < |t.trail| ensures EntryOk(t, i) {
      assert EntryOk(s, i);
    }
  }

  lemma OpenLevelPropagates(s: Core, t: Core, c: Clause, v: nat)
    requires t == s.(lim := s.lim + [|s.trail|]) && v in s.assignment && VarOk(s, v)
    requires Propagates(s, c, s.trail[s.pos[v]], s.pos[v])
    ensures Propagates(t, c, s.trail[s.pos[v]], s.pos[v])
  {
    forall k | k in c && k != s.trail[s.pos[v]] ensures FalseBefore(t, k, s.pos[v]) {
      assert FalseBefore(s, k, s.pos[v]);
    }
  }

  // ---------------------------------------------------------------- level 0

  lemma CoreTrail(universe: set<nat>, base: seq<Clause>, s: Core, clauses: seq<Clause>)
    requires CoreOk(universe, base, s, clauses)
    ensures TrailOk(s)
  {
  }

  lemma RootReason(universe: set<nat>, base: seq<Clause>, s: Core, clauses: seq<Clause>, v: nat)
    requires CoreOk(universe, base, s, clauses) && v in s.assignment && VarOk(s, v) && s.level[v] == 0
    ensures s.reason[v].Some? && s.reason[v].value < |clauses| && Entails(base, clauses[s.reason[v].value])
    ensures Propagates(s, clauses[s.reason[v].value], s.trail[s.pos[v]], s.pos[v])
  {
    hide EntryOk; hide LimOk; hide Propagates; hide WellFormed; hide SameLits; hide Entails; hide LearnedOk;
    assert ReasonFits(s, clauses, v);
    assert ClauseOk(universe, base, clauses[s.reason[v].value]);
  }

  lemma RootBefore(s: Core, l: Lit, v: nat)
    requires TrailOk(s) && v in s.assignment && VarOk(s, v) && s.level[v] == 0 && FalseBefore(s, l, s.pos[v])
    ensures Var(l) in s.assignment && VarOk(s, Var(l)) && s.level[Var(l)] == 0
    ensures s.trail[s.pos[Var(l)]] == -l
  {
    hide EntryOk;
    assert VarOk(s, Var(l));
    if s.lim != [] && s.level[Var(l)] > 0 {
      assert false;
    }
  }

  /** Every literal assigned at level 0 is a consequence of the base formula. */
  lemma {:induction false} RootEntailed(universe: set<nat>, base: seq<Clause>, s: Core, clauses: seq<Clause>,
                                        v: nat, m: Model)
    requires CoreOk(universe, base, s, clauses) && Models(m, base)
    requires v in s.assignment && VarOk(s, v) && s.level[v] == 0
    ensures LitTrue(m, s.trail[s.pos[v]])
    decreases s.pos[v]
  {
    hide TrailOk; hide CoreOk; hide LevelFits;
    CoreTrail(universe, base, s, clauses);
    RootReason(universe, base, s, clauses, v);
    var c := clauses[s.reason[v].value];
    var l :| l in c && LitTrue(m, l);
    if l != s.trail[s.pos[v]] {
      assert FalseBefore(s, l, s.pos[v]);
      RootBefore(s, l, v);
      RootEntailed(universe, base, s, clauses, Var(l), m);
      assert false;
    }
  }

  /** A clause falsified at level 0 refutes the base formula. */
  lemma RootConflictRefutes(universe: set<nat>, base: seq<Clause>, s: Core, clauses: seq<Clause>, c: nat)
    requires CoreOk(universe, base, s, clauses)
    requires s.lim == [] && c < |clauses| && forall l :: l in clauses[c] ==> IsFalse(s, l)
    ensures Unsatisfiable(base)
  {
    forall m ensures !Models(m, base) {
      if Models(m, base) {
        assert ClauseOk(universe, base, clauses[c]);
        var l :| l in clauses[c] && LitTrue(m, l);
        assert IsFalse(s, l) && VarOk(s, Var(l));
        RootEntailed(universe, base, s, clauses, Var(l), m);
        assert false;
      }
    }
  }

  // ---------------------------------------------------------------- the database

  lemma ReorderClauses(universe: set<nat>, base: seq<Clause>, clauses: seq<Clause>, idx: nat, d: Clause)
    requires ClausesOk(universe, base, clauses)
    requires idx < |clauses| && SameLits(clauses[idx], d) && WellFormed(d)
    ensures ClausesOk(universe, base, clauses[idx := d])
  {
    var ds := clauses[idx := d];
    assert ClauseOk(universe, base, clauses[idx]);
    SameLitsEntails(base, clauses[idx], d);
    forall i | 0 <= i < |ds| ensures ClauseOk(universe, base, ds[i]) {
      assert ClauseOk(universe, base, clauses[i]);
    }
  }

  /** Permuting the literals of a clause in place keeps every invariant of the core. */
  lemma ReorderCore(universe: set<nat>, base: seq<Clause>, s: Core, clauses: seq<Clause>, idx: nat, d: Clause)
    requires CoreOk(universe, base, s, clauses)
    requires idx < |clauses| && SameLits(clauses[idx], d) && WellFormed(d) && |d| >= 2
    ensures CoreOk(universe, base, s, clauses[idx := d])
  {
    hide EntryOk; hide LimOk; hide VarOk; hide ClauseOk;
    var ds := clauses[idx := d];
    ReorderClauses(universe, base, clauses, idx, d);
    forall v | v in s.assignment ensures ReasonFits(s, ds, v) {
      assert ReasonFits(s, clauses, v);
    }
    forall i | |base| <= i < |ds| ensures LearnedOk(s, ds[i]) {
      assert LearnedOk(s, clauses[i]);
    }
  }

  /** The learned clause is appended and its first literal asserted, with it as the reason. */
  lemma LearnCore(universe: set<nat>, base: seq<Clause>, s: Core, clauses: seq<Clause>, c: Clause)
    requires CoreOk(universe, base, s, clauses) && ClauseOk(universe, base, c)
    requires |c| > 0 && Var(c[0]) !in s.assignment
    requires forall i :: 1 <= i < |c| ==> IsFalse(s, c[i])
    requires |c| == 1 ==> s.lim == []
    ensures CoreOk(universe, base, Extend(s, c[0], Some(|clauses|)), clauses + [c])
  {
    hide EntryOk; hide ReasonFits; hide LimOk; hide VarOk; hide Unit;
    var ds, t := clauses + [c], Extend(s, c[0], Some(|clauses|));
    LearnReasons(s, clauses, c);
    LearnedIsUnit(s, clauses, c);
    ExtendReasons(s, ds, c[0], Some(|clauses|));
    forall i | |base| <= i < |ds| ensures LearnedOk(t, ds[i]) {
      if i < |clauses| { assert LearnedOk(s, clauses[i]); }
    }
    forall i | 0 <= i < |ds| ensures ClauseOk(universe, base, ds[i]) {
      if i < |clauses| { assert ClauseOk(universe, base, clauses[i]); }
    }
  }

  lemma LearnedIsUnit(s: Core, clauses: seq<Clause>, c: Clause)
    requires |c| > 0 && forall i :: 1 <= i < |c| ==> IsFalse(s, c[i])
    ensures Unit(s, clauses + [c], c[0], Some(|clauses|))
  {
    forall l | l in c && l != c[0] ensures IsFalse(s, l) {
      var i :| 0 <= i < |c| && c[i] == l;
    }
  }

  lemma LearnReasons(s: Core, clauses: seq<Clause>, c: Clause)
    requires TrailOk(s) && ReasonsOk(s, clauses)
    ensures ReasonsOk(s, clauses + [c])
  {
    forall v | v in s.assignment ensures ReasonFits(s, clauses + [c], v) {
      assert ReasonFits(s, clauses, v);
    }
  }
}

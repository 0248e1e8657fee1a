/** Which clause conflict analysis learns: the first cut of the implication graph, from the conflict
    on, with a single literal of the current level. */
module CdclUip {
  import opened Cnf
  import opened CdclState
  import opened CdclAnalysis
  import opened CdclSteps

  /** The marked variables, and the literals of lower levels in the order they were met. */
  datatype Cut = Cut(seen: set<nat>, tail: seq<Lit>)

  /** The cut after the clause c, of which skip is resolved on, is read. */
  ghost function Read(s: Core, c: seq<Lit>, skip: nat, cut: Cut): Cut {
    if c == [] then cut
    else
      var v := Var(c[0]);
      Read(s, c[1..], skip,
           if v == skip || v in cut.seen || LevelIn(s.level, v) == 0 then cut
           else Cut(cut.seen + {v}, if LevelIn(s.level, v) == |s.lim| then cut.tail else cut.tail + [c[0]]))
  }

  ghost function ReasonOf(s: Core, clauses: seq<Clause>, v: nat): Clause {
    if v in s.reason && s.reason[v].Some? && s.reason[v].value < |clauses| then clauses[s.reason[v].value] else []
  }

  /** The cut that is left when the marked entries from n on are resolved, the last first. */
  ghost function CutAt(s: Core, clauses: seq<Clause>, conflict: Clause, n: nat): Cut
    requires n <= |s.trail|
    decreases |s.trail| - n
  {
    if n == |s.trail| then Read(s, conflict, 0, Cut({}, []))
    else
      var cut, v := CutAt(s, clauses, conflict, n + 1), Var(s.trail[n]);
      if v in cut.seen then Read(s, ReasonOf(s, clauses, v), v, Cut(cut.seen - {v}, cut.tail)) else cut
  }

  ghost function OpenAt(s: Core, clauses: seq<Clause>, conflict: Clause, n: nat): set<nat>
    requires n <= |s.trail|
  {
    Open(s, CutAt(s, clauses, conflict, n).seen)
  }

  /** No cut after n has a single open variable. */
  ghost predicate NoneAfter(s: Core, clauses: seq<Clause>, conflict: Clause, n: nat) {
    forall k :: n < k <= |s.trail| ==> |OpenAt(s, clauses, conflict, k)| > 1
  }

  /** The learned clause is the first cut with a single open variable, with the literal of that
      variable in front. */
  ghost predicate FirstUip(s: Core, clauses: seq<Clause>, conflict: Clause, n: nat, u: nat, learned: seq<Lit>) {
    && n <= |s.trail| && u in s.assignment && OpenAt(s, clauses, conflict, n) == {u}
    && NoneAfter(s, clauses, conflict, n)
    && learned == [FalseLit(s, u)] + CutAt(s, clauses, conflict, n).tail
  }

  /** What analysis learns, and which variables it marks on the way. */
  ghost predicate Learns(s: Core, clauses: seq<Clause>, conflict: Clause, learned: seq<Lit>, touched: set<nat>) {
    exists n, u :: FirstUip(s, clauses, conflict, n, u, learned) && touched == Touched(s, clauses, conflict, n)
  }

  ghost predicate LearnsSome(s: Core, clauses: seq<Clause>, conflict: Clause, learned: seq<Lit>) {
    exists touched :: Learns(s, clauses, conflict, learned, touched)
  }

  /** There is one such clause. */
  lemma LearnsOne(s: Core, clauses: seq<Clause>, conflict: Clause, a: seq<Lit>, x: set<nat>, b: seq<Lit>, y: set<nat>)
    requires Learns(s, clauses, conflict, a, x) && Learns(s, clauses, conflict, b, y)
    ensures a == b && x == y
  {
    hide CutAt; hide Open; hide NoneAfter; hide Touched;
    var n: nat, u: nat :| FirstUip(s, clauses, conflict, n, u, a) && x == Touched(s, clauses, conflict, n);
    var m: nat, v: nat :| FirstUip(s, clauses, conflict, m, v, b) && y == Touched(s, clauses, conflict, m);
    if n < m {
      FirstIsLast(s, clauses, conflict, n, m);
    }
    if m < n {
      FirstIsLast(s, clauses, conflict, m, n);
    }
    assert u in OpenAt(s, clauses, conflict, n) && v in OpenAt(s, clauses, conflict, m);
  }

  lemma FirstIsLast(s: Core, clauses: seq<Clause>, conflict: Clause, n: nat, m: nat)
    requires n < m <= |s.trail| && NoneAfter(s, clauses, conflict, n)
    ensures forall v: nat :: OpenAt(s, clauses, conflict, m) != {v}
  {
    hide CutAt; hide Open;
    assert |OpenAt(s, clauses, conflict, m)| > 1;
  }

  // ---------------------------------------------------------------- what a cut is

  ghost predicate Names(s: Core, c: seq<Lit>, skip: nat, v: nat) {
    v != skip && LevelIn(s.level, v) > 0 && exists l :: l in c && Var(l) == v
  }

  /** Reading a clause marks its variables above level 0. */
  lemma {:induction false} ReadMarks(s: Core, c: seq<Lit>, skip: nat, cut: Cut, v: nat)
    ensures v in Read(s, c, skip, cut).seen <==> v in cut.seen || Names(s, c, skip, v)
  {
    if c != [] {
      var w := Var(c[0]);
      var next := if w == skip || w in cut.seen || LevelIn(s.level, w) == 0 then cut
                  else Cut(cut.seen + {w}, if LevelIn(s.level, w) == |s.lim| then cut.tail else cut.tail + [c[0]]);
      ReadMarks(s, c[1..], skip, next, v);
      assert forall l :: l in c <==> l == c[0] || l in c[1..];
    }
  }

  /** A path of the implication graph at the current level that ends in the falsified clause. */
  ghost predicate Path(s: Core, clauses: seq<Clause>, conflict: Clause, path: seq<nat>) {
    && path != [] && Names(s, conflict, 0, path[|path| - 1])
    && (forall i :: 0 <= i < |path| ==> path[i] in s.pos && AtCurrent(s, path[i]))
    && forall i :: 0 < i < |path| ==> Names(s, ReasonOf(s, clauses, path[i]), path[i], path[i - 1])
  }

  /** Every path that starts before entry n crosses the cut there. */
  lemma {:induction false} PathCrosses(s: Core, clauses: seq<Clause>, conflict: Clause, path: seq<nat>, n: nat)
    returns (i: nat)
    requires TrailOk(s) && n <= |s.trail| && Path(s, clauses, conflict, path) && s.pos[path[0]] < n
    ensures i < |path| && path[i] in OpenAt(s, clauses, conflict, n)
    decreases |s.trail| - n
  {
    hide Names; hide TrailOk;
    if n == |s.trail| {
      i := |path| - 1;
      ReadMarks(s, conflict, 0, Cut({}, []), path[i]);
    } else {
      i := PathCrosses(s, clauses, conflict, path, n + 1);
      var cut, v := CutAt(s, clauses, conflict, n + 1), Var(s.trail[n]);
      if v in cut.seen {
        var rest := Cut(cut.seen - {v}, cut.tail);
        if path[i] == v {
          EntryPlace(s, n);
          i := i - 1;
        }
        ReadMarks(s, ReasonOf(s, clauses, v), v, rest, path[i]);
      }
    }
  }

  lemma EntryPlace(s: Core, n: nat)
    requires TrailOk(s) && n < |s.trail|
    ensures Var(s.trail[n]) in s.pos && s.pos[Var(s.trail[n])] == n
  {
    assert EntryOk(s, n);
  }

  /** What is marked at entry n comes before it. */
  lemma {:induction false} CutBelow(universe: set<nat>, base: seq<Clause>, s: Core, clauses: seq<Clause>,
                                    conflict: Clause, n: nat, v: nat)
    requires CoreOk(universe, base, s, clauses) && AllFalse(s, conflict) && n <= |s.trail|
    requires v in CutAt(s, clauses, conflict, n).seen
    ensures v in s.assignment && v in s.pos && s.pos[v] < n
    decreases |s.trail| - n
  {
    hide CoreOk; hide TrailOk;
    CoreTrail(universe, base, s, clauses);
    if n == |s.trail| {
      ReadMarks(s, conflict, 0, Cut({}, []), v);
      NamedIsPlaced(s, conflict, 0, v);
    } else {
      var cut, x := CutAt(s, clauses, conflict, n + 1), Var(s.trail[n]);
      EntryPlace(s, n);
      if v in cut.seen {
        CutBelow(universe, base, s, clauses, conflict, n + 1, v);
        if s.pos[v] == n {
          SamePlace(s, v, n);
        }
      }
      if x in cut.seen {
        ReadMarks(s, ReasonOf(s, clauses, x), x, Cut(cut.seen - {x}, cut.tail), v);
        if Names(s, ReasonOf(s, clauses, x), x, v) {
          ReasonPlaced(universe, base, s, clauses, x, v);
        }
      }
    }
  }

  lemma SamePlace(s: Core, v: nat, n: nat)
    requires TrailOk(s) && n < |s.trail| && v in s.pos && s.pos[v] == n && v in s.assignment
    ensures v == Var(s.trail[n])
  {
    assert VarOk(s, v);
  }

  lemma NamedIsPlaced(s: Core, c: Clause, skip: nat, v: nat)
    requires TrailOk(s) && AllFalse(s, c) && Names(s, c, skip, v)
    ensures v in s.assignment && v in s.pos && s.pos[v] < |s.trail|
  {
    var l :| l in c && Var(l) == v;
    assert IsFalse(s, l) && VarOk(s, v);
  }

  lemma ReasonPlaced(universe: set<nat>, base: seq<Clause>, s: Core, clauses: seq<Clause>, x: nat, v: nat)
    requires CoreOk(universe, base, s, clauses) && x in s.assignment
    requires Names(s, ReasonOf(s, clauses, x), x, v)
    ensures v in s.assignment && v in s.pos && x in s.pos && s.pos[v] < s.pos[x]
  {
    var c := ReasonOf(s, clauses, x);
    var l :| l in c && Var(l) == v;
    assert VarOk(s, x) && ReasonFits(s, clauses, x);
    assert Propagates(s, c, s.trail[s.pos[x]], s.pos[x]);
  }

  /** The asserting literal dominates the conflict: every path to it from the decision of its level
      passes through its variable. */
  lemma UipDominates(universe: set<nat>, base: seq<Clause>, s: Core, clauses: seq<Clause>, conflict: Clause,
                     n: nat, u: nat, learned: seq<Lit>, path: seq<nat>)
    requires CoreOk(universe, base, s, clauses) && AllFalse(s, conflict) && s.lim != []
    requires FirstUip(s, clauses, conflict, n, u, learned)
    requires Path(s, clauses, conflict, path) && s.pos[path[0]] == s.lim[|s.lim| - 1]
    ensures u in path
  {
    hide CutAt; hide Names; hide TrailOk; hide NoneAfter;
    CoreTrail(universe, base, s, clauses);
    assert u in OpenAt(s, clauses, conflict, n);
    CutBelow(universe, base, s, clauses, conflict, n, u);
    CurrentPlace(s, u);
    var i := PathCrosses(s, clauses, conflict, path, n);
  }

  lemma CurrentPlace(s: Core, v: nat)
    requires TrailOk(s) && AtCurrent(s, v) && s.lim != [] && v in s.pos
    ensures s.lim[|s.lim| - 1] <= s.pos[v]
  {
    assert VarOk(s, v);
  }

  // ---------------------------------------------------------------- the walk

  /** The variables marked in the cuts from entry n on. */
  ghost function Touched(s: Core, clauses: seq<Clause>, conflict: Clause, n: nat): set<nat>
    requires n <= |s.trail|
    decreases |s.trail| - n
  {
    CutAt(s, clauses, conflict, n).seen + if n == |s.trail| then {} else Touched(s, clauses, conflict, n + 1)
  }

  /** What a variable of the conflict gains: one increment, however often it is met. */
  ghost function Gain(touched: set<nat>, v: nat, inc: real): real {
    if v in touched then inc else 0.0
  }

  lemma ReadOne(s: Core, c: seq<Lit>, skip: nat, cut: Cut)
    requires c != []
    ensures var v := Var(c[0]);
            Read(s, c, skip, cut)
            == Read(s, c[1..], skip,
                    if v == skip || v in cut.seen || LevelIn(s.level, v) == 0 then cut
                    else Cut(cut.seen + {v}, if LevelIn(s.level, v) == |s.lim| then cut.tail else cut.tail + [c[0]]))
  {
  }

  lemma ReadNone(s: Core, skip: nat, cut: Cut)
    ensures Read(s, [], skip, cut) == cut
  {
  }

  /** Entries that are not marked leave the cut as it is. */
  lemma {:induction false} CutPasses(s: Core, clauses: seq<Clause>, conflict: Clause, n: nat, m: nat)
    requires n <= m <= |s.trail|
    requires forall k :: n <= k < m ==> Var(s.trail[k]) !in CutAt(s, clauses, conflict, m).seen
    ensures CutAt(s, clauses, conflict, n) == CutAt(s, clauses, conflict, m)
    ensures Touched(s, clauses, conflict, n) == Touched(s, clauses, conflict, m)
    decreases m - n
  {
    if n < m {
      CutPasses(s, clauses, conflict, n + 1, m);
      assert CutAt(s, clauses, conflict, m).seen <= Touched(s, clauses, conflict, m);
    }
  }

  /** A variable that was marked from entry n on is still marked, or belongs to one of those entries. */
  lemma {:induction false} TouchedPlace(s: Core, clauses: seq<Clause>, conflict: Clause, n: nat, v: nat)
    requires TrailOk(s) && n <= |s.trail| && v in Touched(s, clauses, conflict, n)
    ensures v in CutAt(s, clauses, conflict, n).seen || (v in s.pos && n <= s.pos[v])
    decreases |s.trail| - n
  {
    hide TrailOk;
    if n < |s.trail| && v !in CutAt(s, clauses, conflict, n).seen {
      TouchedPlace(s, clauses, conflict, n + 1, v);
      var cut, x := CutAt(s, clauses, conflict, n + 1), Var(s.trail[n]);
      EntryPlace(s, n);
      if x in cut.seen {
        ReadMarks(s, ReasonOf(s, clauses, x), x, Cut(cut.seen - {x}, cut.tail), v);
      }
    }
  }

  /** What resolving entry n marks was not marked before. */
  lemma MarkedOnce(universe: set<nat>, base: seq<Clause>, s: Core, clauses: seq<Clause>, conflict: Clause, n: nat,
                   v: nat)
    requires CoreOk(universe, base, s, clauses) && AllFalse(s, conflict) && n < |s.trail|
    requires v in CutAt(s, clauses, conflict, n).seen
    requires v !in CutAt(s, clauses, conflict, n + 1).seen - {Var(s.trail[n])}
    ensures v !in Touched(s, clauses, conflict, n + 1)
  {
    hide CutAt; hide TrailOk; hide CoreOk;
    CoreTrail(universe, base, s, clauses);
    CutBelow(universe, base, s, clauses, conflict, n, v);
    EntryPlace(s, n);
    if v in Touched(s, clauses, conflict, n + 1) {
      TouchedPlace(s, clauses, conflict, n + 1, v);
    }
  }

  lemma NoneBefore(s: Core, clauses: seq<Clause>, conflict: Clause, n: nat, m: nat)
    requires 0 < n <= m <= |s.trail| && NoneAfter(s, clauses, conflict, m) && |OpenAt(s, clauses, conflict, m)| > 1
    requires forall k :: n <= k < m ==> Var(s.trail[k]) !in CutAt(s, clauses, conflict, m).seen
    ensures NoneAfter(s, clauses, conflict, n - 1)
  {
    hide CutAt; hide Touched; hide Open;
    forall k | n <= k <= |s.trail| ensures |OpenAt(s, clauses, conflict, k)| > 1 {
      if k < m {
        CutPasses(s, clauses, conflict, k, m);
      }
    }
  }

  /** Before the clause c is read to resolve entry n, or the conflict itself. */
  ghost predicate Reading(s: Core, clauses: seq<Clause>, conflict: Clause, n: nat, c: Clause, skip: nat, cut: Cut,
                          touched: set<nat>) {
    && n <= |s.trail| && NoneAfter(s, clauses, conflict, n)
    && Read(s, c, skip, cut) == CutAt(s, clauses, conflict, n)
    && if n == |s.trail| then touched == {} == cut.seen
       else touched == Touched(s, clauses, conflict, n + 1)
            && cut.seen == CutAt(s, clauses, conflict, n + 1).seen - {Var(s.trail[n])}
  }

  /** The walk starts with the falsified clause. */
  lemma StartsReading(s: Core, clauses: seq<Clause>, conflict: Clause)
    ensures Reading(s, clauses, conflict, |s.trail|, conflict, 0, Cut({}, []), {})
  {
  }

  /** Reading raises the activity of what it marks, for the first time. */
  lemma ReadingGains(universe: set<nat>, base: seq<Clause>, s: Core, clauses: seq<Clause>, conflict: Clause, n: nat,
                     c: Clause, skip: nat, cut: Cut, touched: set<nat>, v: nat, inc: real)
    requires CoreOk(universe, base, s, clauses) && AllFalse(s, conflict)
    requires Reading(s, clauses, conflict, n, c, skip, cut, touched)
    ensures var seen := CutAt(s, clauses, conflict, n).seen;
            Gain(Touched(s, clauses, conflict, n), v, inc)
            == Gain(touched, v, inc) + if v in seen && v !in cut.seen then inc else 0.0
  {
    hide CutAt; hide CoreOk; hide Read; hide NoneAfter;
    if n < |s.trail| {
      CutIsTouched(s, clauses, conflict, n + 1);
      if v in CutAt(s, clauses, conflict, n).seen && v !in cut.seen {
        MarkedOnce(universe, base, s, clauses, conflict, n, v);
      }
    }
  }

  lemma AllGains(universe: set<nat>, base: seq<Clause>, s: Core, clauses: seq<Clause>, conflict: Clause, n: nat,
                 c: Clause, skip: nat, cut: Cut, touched: set<nat>, inc: real)
    requires CoreOk(universe, base, s, clauses) && AllFalse(s, conflict)
    requires Reading(s, clauses, conflict, n, c, skip, cut, touched)
    ensures forall v :: Gain(Touched(s, clauses, conflict, n), v, inc)
                        == Gain(touched, v, inc)
                           + if v in CutAt(s, clauses, conflict, n).seen && v !in cut.seen then inc else 0.0
    ensures n <= |s.trail| && Read(s, c, skip, cut) == CutAt(s, clauses, conflict, n)
    ensures NoneAfter(s, clauses, conflict, n)
  {
    hide Gain; hide CoreOk; hide CutAt; hide Read; hide Touched; hide NoneAfter;
    forall v: nat
      ensures Gain(Touched(s, clauses, conflict, n), v, inc)
              == Gain(touched, v, inc)
                 + if v in CutAt(s, clauses, conflict, n).seen && v !in cut.seen then inc else 0.0
    {
      ReadingGains(universe, base, s, clauses, conflict, n, c, skip, cut, touched, v, inc);
    }
  }

  lemma WalkCounts(base: seq<Clause>, s: Core, seen: set<nat>, count: nat, tail: seq<Lit>, skip: nat, n: nat)
    requires Walk(base, s, seen, count, tail, [], skip, n)
    ensures count == |Open(s, seen)|
  {
  }

  /** The walk ends at the first cut with one open variable. */
  lemma ReadEnds(universe: set<nat>, base: seq<Clause>, s: Core, clauses: seq<Clause>, conflict: Clause, n: nat,
                 idx: nat, cut: Cut)
    requires CoreOk(universe, base, s, clauses) && idx < n <= |s.trail| && NoneAfter(s, clauses, conflict, n)
    requires cut == CutAt(s, clauses, conflict, n) && |Open(s, cut.seen)| == 1 && Var(s.trail[idx]) in Open(s, cut.seen)
    ensures Learns(s, clauses, conflict, [-s.trail[idx]] + cut.tail, Touched(s, clauses, conflict, n))
  {
    hide CutAt; hide CoreOk; hide NoneAfter; hide Touched;
    FalseAt(universe, base, s, clauses, idx);
    SingletonSet(Open(s, cut.seen), Var(s.trail[idx]));
    assert FirstUip(s, clauses, conflict, n, Var(s.trail[idx]), [-s.trail[idx]] + cut.tail);
  }

  lemma CutIsTouched(s: Core, clauses: seq<Clause>, conflict: Clause, n: nat)
    requires n <= |s.trail|
    ensures CutAt(s, clauses, conflict, n).seen <= Touched(s, clauses, conflict, n)
  {
  }

  /** From one resolved entry to the next marked one. */
  lemma ReadsOn(s: Core, clauses: seq<Clause>, conflict: Clause, n: nat, idx: nat, cut: Cut)
    requires idx < n <= |s.trail| && NoneAfter(s, clauses, conflict, n)
    requires cut == CutAt(s, clauses, conflict, n) && |Open(s, cut.seen)| > 1
    requires Var(s.trail[idx]) in cut.seen && forall k :: idx < k < n ==> Var(s.trail[k]) !in cut.seen
    ensures var v := Var(s.trail[idx]);
            Reading(s, clauses, conflict, idx, ReasonOf(s, clauses, v), v, Cut(cut.seen - {v}, cut.tail),
                    Touched(s, clauses, conflict, n))
  {
    hide Read; hide NoneAfter;
    NoneBefore(s, clauses, conflict, idx + 1, n);
    CutPasses(s, clauses, conflict, idx + 1, n);
  }
}

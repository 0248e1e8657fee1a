/** The clause that conflict analysis is building: which literals it stands for while the
    trail is walked backwards, and why it stays a consequence of the formula. */
module CdclAnalysis {
  import opened Cnf
  import opened CdclState

  /** The literal of an assigned variable that the trail falsifies. */
  ghost function FalseLit(s: Core, v: nat): Lit
    requires v in s.assignment
  {
    Literal(v, !s.assignment[v])
  }

  ghost predicate AtCurrent(s: Core, v: nat) {
    v in s.assignment && v in s.level && s.level[v] == |s.lim|
  }

  /** Marked variables of the current level. */
  ghost function Open(s: Core, seen: set<nat>): set<nat> {
    set v | v in seen && AtCurrent(s, v)
  }

  ghost predicate LowerLit(s: Core, seen: set<nat>, l: Lit) {
    Var(l) in seen && IsFalse(s, l) && Var(l) in s.level && 1 <= s.level[Var(l)] < |s.lim|
  }

  ghost predicate Marked(s: Core, tail: seq<Lit>, v: nat) {
    v in s.assignment && (AtCurrent(s, v) || FalseLit(s, v) in tail)
  }

  /** The learned tail holds exactly the marked variables of lower levels. */
  ghost predicate TailOk(s: Core, seen: set<nat>, tail: seq<Lit>) {
    && WellFormed(tail)
    && (forall l :: l in tail ==> LowerLit(s, seen, l))
    && (forall v :: v in seen ==> Marked(s, tail, v))
  }

  /** The open variables sit in the first n trail entries. */
  ghost predicate Below(s: Core, seen: set<nat>, n: nat) {
    forall v :: v in Open(s, seen) ==> v in s.pos && s.pos[v] < n
  }

  /** Some literal of the clause under construction holds in m. */
  ghost predicate Resolvent(s: Core, seen: set<nat>, tail: seq<Lit>, m: Model) {
    Satisfies(m, tail) || exists v :: v in Open(s, seen) && LitTrue(m, FalseLit(s, v))
  }

  ghost predicate RestTrue(rest: seq<Lit>, skip: nat, m: Model) {
    exists l :: l in rest && Var(l) != skip && LitTrue(m, l)
  }

  /** The clause under construction, together with what is still to be read of the current
      antecedent (except the resolved variable), follows from the formula. */
  ghost predicate Follows(base: seq<Clause>, s: Core, seen: set<nat>, tail: seq<Lit>, rest: seq<Lit>, skip: nat) {
    forall m :: Models(m, base) ==> Resolvent(s, seen, tail, m) || RestTrue(rest, skip, m)
  }

  ghost predicate Antecedent(s: Core, c: Clause, skip: nat, n: nat) {
    forall l :: l in c && Var(l) != skip ==> FalseBefore(s, l, n)
  }

  // ---------------------------------------------------------------- reading one literal

  lemma FalseLitIs(s: Core, l: Lit)
    requires l != 0 && IsFalse(s, l)
    ensures FalseLit(s, Var(l)) == l
  {
  }

  lemma SkipResolved(base: seq<Clause>, s: Core, seen: set<nat>, tail: seq<Lit>, rest: seq<Lit>, skip: nat)
    requires rest != [] && Follows(base, s, seen, tail, rest, skip) && Var(rest[0]) == skip
    ensures Follows(base, s, seen, tail, rest[1..], skip)
  {
    forall m | Models(m, base)
      ensures Resolvent(s, seen, tail, m) || RestTrue(rest[1..], skip, m)
    {
      Later(s, seen, tail, rest, skip, m);
    }
  }

  lemma Later(s: Core, seen: set<nat>, tail: seq<Lit>, rest: seq<Lit>, skip: nat, m: Model)
    requires rest != [] && (Resolvent(s, seen, tail, m) || RestTrue(rest, skip, m))
    ensures Resolvent(s, seen, tail, m) || RestTrue(rest[1..], skip, m)
            || (Var(rest[0]) != skip && LitTrue(m, rest[0]))
  {
    if !Resolvent(s, seen, tail, m) {
      var l :| l in rest && Var(l) != skip && LitTrue(m, l);
      assert l == rest[0] || l in rest[1..];
    }
  }

  lemma SkipSeen(base: seq<Clause>, s: Core, seen: set<nat>, tail: seq<Lit>, rest: seq<Lit>, skip: nat)
    requires rest != [] && Follows(base, s, seen, tail, rest, skip) && TailOk(s, seen, tail)
    requires rest[0] != 0 && IsFalse(s, rest[0]) && Var(rest[0]) in seen
    ensures Follows(base, s, seen, tail, rest[1..], skip)
  {
    forall m | Models(m, base)
      ensures Resolvent(s, seen, tail, m) || RestTrue(rest[1..], skip, m)
    {
      Later(s, seen, tail, rest, skip, m);
      FalseLitIs(s, rest[0]);
      assert Marked(s, tail, Var(rest[0]));
      assert AtCurrent(s, Var(rest[0])) ==> Var(rest[0]) in Open(s, seen);
    }
  }

  lemma FalseLitAt(s: Core, l: Lit)
    requires TrailOk(s) && l != 0 && IsFalse(s, l)
    ensures VarOk(s, Var(l)) && s.trail[s.pos[Var(l)]] == -l
  {
    hide EntryOk; hide LimOk; hide LevelFits;
  }

  lemma SkipRoot(universe: set<nat>, base: seq<Clause>, s: Core, clauses: seq<Clause>,
                 seen: set<nat>, tail: seq<Lit>, rest: seq<Lit>, skip: nat)
    requires CoreOk(universe, base, s, clauses)
    requires rest != [] && Follows(base, s, seen, tail, rest, skip)
    requires rest[0] != 0 && IsFalse(s, rest[0]) && Var(rest[0]) in s.level && s.level[Var(rest[0])] == 0
    ensures Follows(base, s, seen, tail, rest[1..], skip)
  {
    hide CoreOk; hide TrailOk; hide Resolvent; hide LevelFits;
    forall m | Models(m, base)
      ensures Resolvent(s, seen, tail, m) || RestTrue(rest[1..], skip, m)
    {
      Later(s, seen, tail, rest, skip, m);
      CoreTrail(universe, base, s, clauses);
      FalseLitAt(s, rest[0]);
      RootEntailed(universe, base, s, clauses, Var(rest[0]), m);
    }
  }

  lemma MarkCurrent(base: seq<Clause>, s: Core, seen: set<nat>, tail: seq<Lit>, rest: seq<Lit>, skip: nat)
    requires rest != [] && Follows(base, s, seen, tail, rest, skip) && TailOk(s, seen, tail)
    requires rest[0] != 0 && IsFalse(s, rest[0]) && Var(rest[0]) !in seen && AtCurrent(s, Var(rest[0]))
    ensures Follows(base, s, seen + {Var(rest[0])}, tail, rest[1..], skip)
    ensures TailOk(s, seen + {Var(rest[0])}, tail)
    ensures Open(s, seen + {Var(rest[0])}) == Open(s, seen) + {Var(rest[0])}
    ensures |Open(s, seen + {Var(rest[0])})| == |Open(s, seen)| + 1
  {
    var v, seen' := Var(rest[0]), seen + {Var(rest[0])};
    assert Open(s, seen') == Open(s, seen) + {v};
    forall m | Models(m, base)
      ensures Resolvent(s, seen', tail, m) || RestTrue(rest[1..], skip, m)
    {
      Later(s, seen, tail, rest, skip, m);
      FalseLitIs(s, rest[0]);
      assert v in Open(s, seen');
      OpenGrows(s, seen, seen', tail, m);
    }
    forall l | l in tail ensures LowerLit(s, seen', l) {
      assert LowerLit(s, seen, l);
    }
  }

  lemma OpenGrows(s: Core, seen: set<nat>, seen': set<nat>, tail: seq<Lit>, m: Model)
    requires seen <= seen'
    ensures Resolvent(s, seen, tail, m) ==> Resolvent(s, seen', tail, m)
  {
    if Resolvent(s, seen, tail, m) && !Satisfies(m, tail) {
      var v :| v in Open(s, seen) && LitTrue(m, FalseLit(s, v));
      assert v in Open(s, seen');
    }
  }

  lemma MarkLower(base: seq<Clause>, s: Core, seen: set<nat>, tail: seq<Lit>, rest: seq<Lit>, skip: nat)
    requires rest != [] && Follows(base, s, seen, tail, rest, skip) && TailOk(s, seen, tail)
    requires rest[0] != 0 && IsFalse(s, rest[0]) && Var(rest[0]) !in seen
    requires Var(rest[0]) in s.level && 1 <= s.level[Var(rest[0])] < |s.lim|
    ensures Follows(base, s, seen + {Var(rest[0])}, tail + [rest[0]], rest[1..], skip)
    ensures Open(s, seen + {Var(rest[0])}) == Open(s, seen)
  {
    var seen', tail' := seen + {Var(rest[0])}, tail + [rest[0]];
    assert Open(s, seen') == Open(s, seen);
    forall m | Models(m, base)
      ensures Resolvent(s, seen', tail', m) || RestTrue(rest[1..], skip, m)
    {
      Later(s, seen, tail, rest, skip, m);
      if Satisfies(m, tail) {
        var l :| l in tail && LitTrue(m, l);
        assert l in tail';
      }
      assert rest[0] in tail';
      assert Resolvent(s, seen', tail, m) ==> Resolvent(s, seen', tail', m);
    }
  }

  lemma MarkLowerTail(s: Core, seen: set<nat>, tail: seq<Lit>, lit: Lit)
    requires TailOk(s, seen, tail)
    requires lit != 0 && IsFalse(s, lit) && Var(lit) !in seen
    requires Var(lit) in s.level && 1 <= s.level[Var(lit)] < |s.lim|
    ensures TailOk(s, seen + {Var(lit)}, tail + [lit])
  {
    var seen', tail' := seen + {Var(lit)}, tail + [lit];
    forall l | l in tail' ensures LowerLit(s, seen', l) {
      assert l in tail ==> LowerLit(s, seen, l);
    }
    forall i | 0 <= i < |tail| ensures Var(tail[i]) != Var(lit) {
      assert LowerLit(s, seen, tail[i]);
    }
    forall v | v in seen' ensures Marked(s, tail', v) {
      if v in seen {
        assert Marked(s, tail, v);
      } else {
        FalseLitIs(s, lit);
        assert tail'[|tail|] == lit;
      }
    }
  }

  // ---------------------------------------------------------------- resolving

  /** Resolving on an open variable with the clause that propagated it. */
  lemma ResolveWithReason(base: seq<Clause>, s: Core, seen: set<nat>, tail: seq<Lit>, skip: nat, v: nat, c: Clause)
    requires TrailOk(s) && v in Open(s, seen) && VarOk(s, v)
    requires Follows(base, s, seen, tail, [], skip) && Entails(base, c) && WellFormed(c)
    requires Propagates(s, c, s.trail[s.pos[v]], s.pos[v])
    ensures Follows(base, s, seen - {v}, tail, c, v)
    ensures Antecedent(s, c, v, s.pos[v])
  {
    forall m | Models(m, base)
      ensures Resolvent(s, seen - {v}, tail, m) || RestTrue(c, v, m)
    {
      var l :| l in c && LitTrue(m, l);
      SameVarSameLit(c, l, s.trail[s.pos[v]]);
      if !Satisfies(m, tail) {
        var w :| w in Open(s, seen) && LitTrue(m, FalseLit(s, w));
        assert w != v ==> w in Open(s, seen - {v});
      }
    }
  }

  lemma SameVarSameLit(c: Clause, k: Lit, l: Lit)
    requires WellFormed(c) && k in c && l in c
    ensures Var(k) == Var(l) ==> k == l
  {
    var i :| 0 <= i < |c| && c[i] == k;
    var j :| 0 <= j < |c| && c[j] == l;
    assert i < j ==> Var(c[i]) != Var(c[j]);
    assert j < i ==> Var(c[j]) != Var(c[i]);
  }

  lemma CloseOne(s: Core, seen: set<nat>, tail: seq<Lit>, n: nat, v: nat)
    requires TrailOk(s) && TailOk(s, seen, tail) && v in Open(s, seen) && VarOk(s, v) && s.pos[v] == n
    requires Below(s, seen, n + 1)
    ensures TailOk(s, seen - {v}, tail) && Below(s, seen - {v}, n)
    ensures Open(s, seen - {v}) == Open(s, seen) - {v}
    ensures |Open(s, seen - {v})| == |Open(s, seen)| - 1
  {
    assert Open(s, seen - {v}) == Open(s, seen) - {v};
    forall l | l in tail ensures LowerLit(s, seen - {v}, l) {
      assert LowerLit(s, seen, l);
    }
    forall w | w in Open(s, seen - {v}) ensures s.pos[w] < n {
      assert w in Open(s, seen) && VarOk(s, w);
      assert s.pos[w] == n ==> Var(s.trail[n]) == w;
    }
  }

  /** The open variable found first on the way down really is of the current level. */
  lemma FoundIsCurrent(s: Core, seen: set<nat>, n: nat, w: nat)
    requires TrailOk(s) && s.lim != [] && n < |s.trail| && Below(s, seen, n + 1)
    requires w in Open(s, seen) && Var(s.trail[n]) in seen
    ensures Var(s.trail[n]) in Open(s, seen) && VarOk(s, Var(s.trail[n])) && s.pos[Var(s.trail[n])] == n
    ensures s.lim[|s.lim| - 1] <= n && (w != Var(s.trail[n]) ==> s.lim[|s.lim| - 1] < n)
  {
    var v := Var(s.trail[n]);
    assert EntryOk(s, n) && VarOk(s, v) && VarOk(s, w);
    TopLevel(s, w);
    TopLevel(s, v);
    assert w != v ==> s.pos[w] != n;
  }

  /** With one open variable left, its falsified literal and the tail form the learned clause. */
  lemma LearnedFollows(universe: set<nat>, base: seq<Clause>, s: Core, seen: set<nat>, tail: seq<Lit>, skip: nat,
                       v: nat)
    requires Follows(base, s, seen, tail, [], skip) && TailOk(s, seen, tail)
    requires v in Open(s, seen) && Open(s, seen) == {v} && v > 0
    requires s.assignment.Keys <= universe
    ensures ClauseOk(universe, base, [FalseLit(s, v)] + tail)
  {
    var c := [FalseLit(s, v)] + tail;
    forall m | Models(m, base) ensures Satisfies(m, c) {
      assert Resolvent(s, seen, tail, m);
      if Satisfies(m, tail) {
        var l :| l in tail && LitTrue(m, l);
        assert l in c;
      } else {
        var w :| w in Open(s, seen) && LitTrue(m, FalseLit(s, w));
        assert c[0] in c;
      }
    }
    forall l | l in c ensures Var(l) in universe {
      assert l in tail ==> LowerLit(s, seen, l);
    }
    forall i | 0 <= i < |tail| ensures Var(tail[i]) != v {
      assert LowerLit(s, seen, tail[i]);
    }
  }

  // ---------------------------------------------------------------- one step of the walk

  /** The walk's invariant: what is marked, what is counted, what is still to be read of the
      current antecedent, and the prefix of the trail still to be walked. */
  ghost predicate Walk(base: seq<Clause>, s: Core, seen: set<nat>, count: nat, tail: seq<Lit>,
                       rest: seq<Lit>, skip: nat, n: nat) {
    && n <= |s.trail|
    && TailOk(s, seen, tail)
    && count == |Open(s, seen)|
    && Below(s, seen, n)
    && Follows(base, s, seen, tail, rest, skip)
    && WellFormed(rest) && Antecedent(s, rest, skip, n)
  }

  lemma DropHead(s: Core, rest: seq<Lit>, skip: nat, n: nat)
    requires rest != [] && WellFormed(rest) && Antecedent(s, rest, skip, n)
    ensures WellFormed(rest[1..]) && Antecedent(s, rest[1..], skip, n)
    ensures rest[0] != 0 && (Var(rest[0]) != skip ==> FalseBefore(s, rest[0], n))
  {
    assert rest[0] in rest;
  }

  /** The literal adds nothing: it is resolved on, marked already, or false at level 0. */
  lemma WalkSkips(universe: set<nat>, base: seq<Clause>, s: Core, clauses: seq<Clause>,
                  seen: set<nat>, count: nat, tail: seq<Lit>, rest: seq<Lit>, skip: nat, n: nat)
    requires CoreOk(universe, base, s, clauses)
    requires rest != [] && Walk(base, s, seen, count, tail, rest, skip, n)
    requires Var(rest[0]) == skip || Var(rest[0]) in seen
             || (Var(rest[0]) in s.level ==> s.level[Var(rest[0])] == 0)
    ensures Walk(base, s, seen, count, tail, rest[1..], skip, n)
  {
    DropHead(s, rest, skip, n);
    if Var(rest[0]) == skip {
      SkipResolved(base, s, seen, tail, rest, skip);
    } else if Var(rest[0]) in seen {
      SkipSeen(base, s, seen, tail, rest, skip);
    } else {
      assert VarOk(s, Var(rest[0]));
      SkipRoot(universe, base, s, clauses, seen, tail, rest, skip);
    }
  }

  lemma WalkMarksCurrent(base: seq<Clause>, s: Core, seen: set<nat>, count: nat, tail: seq<Lit>,
                         rest: seq<Lit>, skip: nat, n: nat)
    requires rest != [] && Walk(base, s, seen, count, tail, rest, skip, n)
    requires Var(rest[0]) != skip && Var(rest[0]) !in seen
    requires Var(rest[0]) in s.level && s.level[Var(rest[0])] == |s.lim|
    ensures Walk(base, s, seen + {Var(rest[0])}, count + 1, tail, rest[1..], skip, n)
  {
    DropHead(s, rest, skip, n);
    MarkCurrent(base, s, seen, tail, rest, skip);
  }

  lemma WalkMarksLower(base: seq<Clause>, s: Core, seen: set<nat>, count: nat, tail: seq<Lit>,
                       rest: seq<Lit>, skip: nat, n: nat)
    requires rest != [] && Walk(base, s, seen, count, tail, rest, skip, n)
    requires Var(rest[0]) != skip && Var(rest[0]) !in seen
    requires Var(rest[0]) in s.level && 1 <= s.level[Var(rest[0])] < |s.lim|
    ensures Walk(base, s, seen + {Var(rest[0])}, count, tail + [rest[0]], rest[1..], skip, n)
  {
    DropHead(s, rest, skip, n);
    MarkLower(base, s, seen, tail, rest, skip);
    MarkLowerTail(s, seen, tail, rest[0]);
  }

  lemma ReadLevel(universe: set<nat>, base: seq<Clause>, s: Core, clauses: seq<Clause>,
                  rest: seq<Lit>, skip: nat, n: nat)
    requires CoreOk(universe, base, s, clauses) && rest != [] && Antecedent(s, rest, skip, n)
    requires Var(rest[0]) != skip
    ensures Var(rest[0]) in s.level && s.level[Var(rest[0])] <= |s.lim|
  {
    assert rest[0] in rest;
    assert VarOk(s, Var(rest[0]));
  }

  /** The analysis starts from the falsified clause. */
  lemma WalkStarts(universe: set<nat>, base: seq<Clause>, s: Core, clauses: seq<Clause>, idx: nat)
    requires CoreOk(universe, base, s, clauses) && idx < |clauses|
    requires forall l :: l in clauses[idx] ==> IsFalse(s, l)
    ensures Walk(base, s, {}, 0, [], clauses[idx], 0, |s.trail|)
  {
    var c := clauses[idx];
    assert ClauseOk(universe, base, c);
    assert Open(s, {}) == {};
    forall l | l in c ensures FalseBefore(s, l, |s.trail|) && Var(l) != 0 {
      assert VarOk(s, Var(l));
    }
    forall m | Models(m, base) ensures RestTrue(c, 0, m) {
      var l :| l in c && LitTrue(m, l);
    }
  }

  /** The next marked variable down the trail: of the current level, and a propagated one
      unless it is the only open one. */
  lemma WalkFinds(universe: set<nat>, base: seq<Clause>, s: Core, clauses: seq<Clause>,
                  seen: set<nat>, count: nat, tail: seq<Lit>, skip: nat, n: nat)
    requires CoreOk(universe, base, s, clauses) && s.lim != []
    requires n < |s.trail| && Walk(base, s, seen, count, tail, [], skip, n + 1) && count > 0
    requires Var(s.trail[n]) in seen
    ensures Var(s.trail[n]) in Open(s, seen) && AtCurrent(s, Var(s.trail[n]))
    ensures count > 1 ==>
              && Var(s.trail[n]) in s.reason
              && s.reason[Var(s.trail[n])].Some?
              && s.reason[Var(s.trail[n])].value < |clauses|
              && Walk(base, s, seen - {Var(s.trail[n])}, count - 1, tail,
                      clauses[s.reason[Var(s.trail[n])].value], Var(s.trail[n]), n)
  {
    var w :| w in Open(s, seen);
    FoundIsCurrent(s, seen, n, w);
    var v := Var(s.trail[n]);
    CloseOne(s, seen, tail, n, v);
    if count > 1 {
      var u :| u in Open(s, seen - {v});
      FoundIsCurrent(s, seen, n, u);
      assert ReasonFits(s, clauses, v);
      var c := clauses[s.reason[v].value];
      assert ClauseOk(universe, base, c);
      ResolveWithReason(base, s, seen, tail, skip, v, c);
    }
  }

  /** What analysis returns: a consequence whose first literal is the only one of the current
      level, all of it false. */
  ghost predicate Asserting(universe: set<nat>, base: seq<Clause>, s: Core, learned: seq<Lit>) {
    && learned != [] && ClauseOk(universe, base, learned)
    && (forall l :: l in learned ==> IsFalse(s, l))
    && AtCurrent(s, Var(learned[0]))
    && (forall i :: 1 <= i < |learned| ==>
          Var(learned[i]) in s.level && 1 <= s.level[Var(learned[i])] < |s.lim|)
  }

  lemma FalseAt(universe: set<nat>, base: seq<Clause>, s: Core, clauses: seq<Clause>, n: nat)
    requires CoreOk(universe, base, s, clauses) && n < |s.trail|
    ensures Var(s.trail[n]) in s.assignment && Var(s.trail[n]) > 0
    ensures FalseLit(s, Var(s.trail[n])) == -s.trail[n] && s.assignment.Keys <= universe
  {
    hide LimOk; hide LevelFits;
    assert EntryOk(s, n) && VarOk(s, Var(s.trail[n]));
  }

  lemma WalkEnds(universe: set<nat>, base: seq<Clause>, s: Core, clauses: seq<Clause>,
                 seen: set<nat>, tail: seq<Lit>, skip: nat, n: nat)
    requires CoreOk(universe, base, s, clauses) && s.lim != []
    requires n < |s.trail| && Walk(base, s, seen, 1, tail, [], skip, n + 1)
    requires Var(s.trail[n]) in seen
    ensures Asserting(universe, base, s, [-s.trail[n]] + tail)
  {
    hide CoreOk; hide TailOk; hide Follows; hide Antecedent; hide Below; hide AtCurrent; hide Asserting; hide ClauseOk;
    WalkFinds(universe, base, s, clauses, seen, 1, tail, skip, n);
    var v := Var(s.trail[n]);
    FalseAt(universe, base, s, clauses, n);
    SingletonSet(Open(s, seen), v);
    LearnedFollows(universe, base, s, seen, tail, skip, v);
    LearnedIsAsserting(universe, base, s, seen, tail, v);
  }

  lemma LearnedIsAsserting(universe: set<nat>, base: seq<Clause>, s: Core, seen: set<nat>, tail: seq<Lit>, v: nat)
    requires TailOk(s, seen, tail) && AtCurrent(s, v) && v > 0
    requires ClauseOk(universe, base, [FalseLit(s, v)] + tail)
    ensures Asserting(universe, base, s, [FalseLit(s, v)] + tail)
  {
    hide ClauseOk;
    var c := [FalseLit(s, v)] + tail;
    forall l | l in c ensures IsFalse(s, l) {
      assert l in tail ==> LowerLit(s, seen, l);
    }
    forall i | 1 <= i < |c| ensures Var(c[i]) in s.level && 1 <= s.level[Var(c[i])] < |s.lim| {
      assert c[i] == tail[i - 1] && LowerLit(s, seen, tail[i - 1]);
    }
  }

  lemma SingletonSet(a: set<nat>, v: nat)
    requires |a| == 1 && v in a
    ensures a == {v}
  {
    assert |a - {v}| == 0;
    assert a == (a - {v}) + {v};
  }

  lemma WalkNonzero(base: seq<Clause>, s: Core, seen: set<nat>, count: nat, tail: seq<Lit>, rest: seq<Lit>,
                    skip: nat, n: nat)
    requires rest != [] && Walk(base, s, seen, count, tail, rest, skip, n)
    ensures Var(rest[0]) != 0
  {
  }

  lemma WalkReadLevel(universe: set<nat>, base: seq<Clause>, s: Core, clauses: seq<Clause>,
                      seen: set<nat>, count: nat, tail: seq<Lit>, rest: seq<Lit>, skip: nat, n: nat)
    requires CoreOk(universe, base, s, clauses) && rest != []
    requires Walk(base, s, seen, count, tail, rest, skip, n) && Var(rest[0]) != skip
    ensures Var(rest[0]) in s.level && s.level[Var(rest[0])] <= |s.lim|
  {
    ReadLevel(universe, base, s, clauses, rest, skip, n);
  }

  /** An open variable is counted and still ahead of the walk. */
  lemma WalkContinues(base: seq<Clause>, s: Core, seen: set<nat>, count: nat, tail: seq<Lit>, skip: nat, n: nat)
    requires Walk(base, s, seen, count, tail, [], skip, n) && count > 0
    ensures n > 0
  {
    var v :| v in Open(s, seen);
  }

  lemma TrailEntryOf(s: Core, v: nat)
    requires TrailOk(s) && v in s.assignment
    ensures v in s.pos && s.pos[v] < |s.trail| && Var(s.trail[s.pos[v]]) == v
  {
    hide EntryOk; hide LimOk; hide LevelFits;
    assert VarOk(s, v);
  }

  lemma WalkPasses(universe: set<nat>, base: seq<Clause>, s: Core, clauses: seq<Clause>,
                   seen: set<nat>, count: nat, tail: seq<Lit>, skip: nat, n: nat)
    requires CoreOk(universe, base, s, clauses) && n < |s.trail|
    requires Walk(base, s, seen, count, tail, [], skip, n + 1) && Var(s.trail[n]) !in seen
    ensures Walk(base, s, seen, count, tail, [], skip, n)
  {
    hide CoreOk; hide TailOk; hide Follows; hide TrailOk;
    CoreTrail(universe, base, s, clauses);
    forall v | v in Open(s, seen) ensures v in s.pos && s.pos[v] < n {
      TrailEntryOf(s, v);
    }
  }

  lemma OpenCounted(base: seq<Clause>, s: Core, seen: set<nat>, count: nat, tail: seq<Lit>, skip: nat, n: nat, v: nat)
    requires Walk(base, s, seen, count, tail, [], skip, n)
    requires v in seen && v in s.level && s.level[v] == |s.lim|
    ensures count > 0
  {
    assert Marked(s, tail, v);
    if v in s.assignment && FalseLit(s, v) in tail {
      assert LowerLit(s, seen, FalseLit(s, v));
    }
    assert v in Open(s, seen);
  }
}

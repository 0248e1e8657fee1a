/** What the end of a search means for the formula. */
module CdclResults {
  import opened Cnf
  import opened CdclState
  import opened CdclSteps

  ghost function ModelOf(s: Core): Model {
    iset v | v in s.assignment && s.assignment[v]
  }

  lemma TrueInModel(s: Core, l: Lit)
    requires l != 0 && Var(l) in s.assignment && !IsFalse(s, l)
    ensures LitTrue(ModelOf(s), l)
  {
  }

  /** When no variable is left and propagation is done, the assignment satisfies every learned
      clause and every base clause of two or more literals. */
  lemma FinalAssignmentSatisfies(universe: set<nat>, base: seq<Clause>, s: Core, clauses: seq<Clause>)
    requires CoreOk(universe, base, s, clauses) && NothingFalsified(s, clauses)
    requires universe <= s.assignment.Keys
    ensures forall i :: 0 <= i < |clauses| && (|clauses[i]| >= 2 || i >= |base|) ==>
              Satisfies(ModelOf(s), clauses[i])
    ensures forall i :: 0 <= i < |base| && |base[i]| >= 2 ==> Satisfies(ModelOf(s), base[i])
  {
    forall i | 0 <= i < |clauses| && (|clauses[i]| >= 2 || i >= |base|)
      ensures Satisfies(ModelOf(s), clauses[i])
    {
      assert ClauseOk(universe, base, clauses[i]);
      if |clauses[i]| >= 2 {
        var l :| l in clauses[i] && !IsFalse(s, l);
        TrueInModel(s, l);
      } else {
        assert LearnedOk(s, clauses[i]);
        TrueInModel(s, clauses[i][0]);
      }
    }
    forall i | 0 <= i < |base| && |base[i]| >= 2 ensures Satisfies(ModelOf(s), base[i]) {
      assert SameLits(base[i], clauses[i]);
      var l :| l in clauses[i] && LitTrue(ModelOf(s), l);
      assert l in base[i];
    }
  }

  /** So only the short clauses of the formula can be missed: the assignment is a model exactly
      when none of them is empty and all units hold, in particular when there are none. */
  lemma FinalAssignmentModelsIff(universe: set<nat>, base: seq<Clause>, s: Core, clauses: seq<Clause>)
    requires CoreOk(universe, base, s, clauses) && NothingFalsified(s, clauses)
    requires universe <= s.assignment.Keys
    ensures Models(ModelOf(s), base) <==> forall c :: c in base && |c| < 2 ==> c != [] && IsTrue(s, c[0])
  {
    hide NothingFalsified; hide TrailOk;
    FinalAssignmentSatisfies(universe, base, s, clauses);
    forall c | c in base ensures Satisfies(ModelOf(s), c) <==> |c| >= 2 || (c != [] && IsTrue(s, c[0])) {
      var i :| 0 <= i < |base| && base[i] == c;
      assert SameLits(base[i], clauses[i]) && ClauseOk(universe, base, clauses[i]);
      if |c| < 2 {
        ShortSatisfied(universe, base, s, c, clauses[i]);
      }
    }
  }

  lemma ShortSatisfied(universe: set<nat>, base: seq<Clause>, s: Core, c: Clause, d: Clause)
    requires SameLits(c, d) && |d| < 2 && ClauseOk(universe, base, d) && universe <= s.assignment.Keys
    ensures Satisfies(ModelOf(s), c) <==> c != [] && IsTrue(s, c[0])
  {
    hide Entails;
    if c != [] {
      var l := c[0];
      assert l in c;
      assert l in d;
      assert d[0] == l && l != 0 && Var(l) in universe;
      assert c == [l];
    }
  }

  /** A state in which nothing was learned and no clause has two literals assigns every variable
      positively, so it satisfies exactly the formulas of positive units. */
  lemma UnitsAreDecidedPositively(universe: set<nat>, base: seq<Clause>, s: Core, clauses: seq<Clause>)
    requires CoreOk(universe, base, s, clauses) && Sourced(base, s, clauses) && universe <= s.assignment.Keys
    requires |clauses| == |base| && forall i :: 0 <= i < |clauses| ==> |clauses[i]| < 2
    ensures forall v :: v in universe ==> v in s.assignment && s.assignment[v]
    ensures Models(ModelOf(s), base) <==> forall c :: c in base ==> c != [] && c[0] > 0
  {
    forall v | v in universe ensures v in s.assignment && s.assignment[v] {
      assert SourceOk(|base|, clauses, s.reason[v], s.assignment[v]);
    }
    forall c | c in base ensures Satisfies(ModelOf(s), c) <==> c != [] && c[0] > 0 {
      var i :| 0 <= i < |base| && base[i] == c;
      assert SameLits(c, clauses[i]) && ClauseOk(universe, base, clauses[i]);
      UnitSatisfied(universe, base, s, c, clauses[i]);
    }
  }

  lemma UnitSatisfied(universe: set<nat>, base: seq<Clause>, s: Core, c: Clause, d: Clause)
    requires SameLits(c, d) && |d| < 2 && ClauseOk(universe, base, d)
    requires forall v :: v in universe ==> v in s.assignment && s.assignment[v]
    ensures Satisfies(ModelOf(s), c) <==> c != [] && c[0] > 0
  {
    hide Entails; hide ModelOf;
    ShortSatisfied(universe, base, s, c, d);
    if c != [] {
      assert c[0] in c;
      assert c[0] in d;
    }
  }

  /** A trail that assigns variable 1 only, positively. */
  lemma SingleEntry(s: Core)
    requires TrailOk(s) && s.assignment.Keys == {1} && s.assignment[1]
    ensures s.trail == [1]
  {
    assert VarOk(s, 1);
    OnlyEntry(s, 0);
    OnlyEntry(s, |s.trail| - 1);
  }

  lemma OnlyEntry(s: Core, i: nat)
    requires TrailOk(s) && s.assignment.Keys == {1} && i < |s.trail|
    ensures s.pos.Keys >= {1} && i == s.pos[1]
  {
    assert EntryOk(s, i);
    assert Var(s.trail[i]) in s.assignment.Keys;
  }
}

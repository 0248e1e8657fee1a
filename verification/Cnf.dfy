/** Conjunctive normal form over DIMACS literals: a literal is a nonzero integer,
    its variable is the absolute value, its sign the polarity. */
module Cnf {

  type Lit = int
  type Clause = seq<Lit>

  function Var(l: Lit): nat {
    if l < 0 then -l else l
  }

  /** No zero literal and no variable twice, as every clause generator produces. */
  ghost predicate WellFormed(c: Clause) {
    && (forall i :: 0 <= i < |c| ==> c[i] != 0)
    && (forall i, j :: 0 <= i < j < |c| ==> Var(c[i]) != Var(c[j]))
  }

  /** A total assignment is the set of variables it makes true. */
  type Model = iset<nat>

  ghost predicate LitTrue(m: Model, l: Lit) {
    if l > 0 then Var(l) in m else Var(l) !in m
  }

  ghost predicate Satisfies(m: Model, c: Clause) {
    exists l :: l in c && LitTrue(m, l)
  }

  ghost predicate Models(m: Model, f: seq<Clause>) {
    forall c :: c in f ==> Satisfies(m, c)
  }

  ghost predicate Entails(f: seq<Clause>, c: Clause) {
    forall m :: Models(m, f) ==> Satisfies(m, c)
  }

  ghost predicate Unsatisfiable(f: seq<Clause>) {
    forall m :: !Models(m, f)
  }

  ghost predicate SameLits(c: Clause, d: Clause) {
    && |c| == |d|
    && forall l :: l in c <==> l in d
  }

  function Swap(c: Clause, i: nat, j: nat): (d: Clause)
    requires i < |c| && j < |c|
    ensures |d| == |c| && d[i] == c[j] && d[j] == c[i]
    ensures forall k :: 0 <= k < |c| && k != i && k != j ==> d[k] == c[k]
  {
    c[i := c[j]][j := c[i]]
  }

  lemma SwapKeeps(c: Clause, i: nat, j: nat)
    requires i < |c| && j < |c|
    ensures SameLits(c, Swap(c, i, j))
    ensures WellFormed(c) ==> WellFormed(Swap(c, i, j))
  {
    var d := Swap(c, i, j);
    forall l ensures l in c <==> l in d {
      if l in c {
        var k :| 0 <= k < |c| && c[k] == l;
        assert d[if k == i then j else if k == j then i else k] == l;
      }
      if l in d {
        var k :| 0 <= k < |d| && d[k] == l;
        assert c[if k == i then j else if k == j then i else k] == l;
      }
    }
  }

  lemma SameLitsEntails(f: seq<Clause>, c: Clause, d: Clause)
    requires SameLits(c, d) && Entails(f, c)
    ensures Entails(f, d)
  {
    forall m | Models(m, f) ensures Satisfies(m, d) {
      var l :| l in c && LitTrue(m, l);
      assert l in d;
    }
  }
}

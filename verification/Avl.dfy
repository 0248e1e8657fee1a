/** The AVL interval tree as a value: the specification of the pointer code, its invariants,
    and what its operations do to the in-order interval list. */
module Avl {
  import opened Arithmetic
  import opened Numbers
  import opened Intervals
  import opened Wrappers

  datatype Tree = Leaf | Node(left: Tree, key: Interval, height: int, right: Tree)

  function Height(t: Tree): int {
    if t.Leaf? then 0 else t.height
  }

  function Max(a: int, b: int): int {
    if a > b then a else b
  }

  /** A node with its height recomputed. */
  function Mk(l: Tree, k: Interval, r: Tree): Tree {
    Node(l, k, 1 + Max(Height(l), Height(r)), r)
  }

  function RotateRight(t: Tree): Tree {
    if t.Leaf? || t.left.Leaf? then t
    else Mk(t.left.left, t.left.key, Mk(t.left.right, t.key, t.right))
  }

  function RotateLeft(t: Tree): Tree {
    if t.Leaf? || t.right.Leaf? then t
    else Mk(Mk(t.left, t.key, t.right.left), t.right.key, t.right.right)
  }

  function Rebalance(t: Tree): Tree {
    if t.Leaf? then Leaf
    else
      var u := Mk(t.left, t.key, t.right);
      var balance := Height(t.left) - Height(t.right);
      if balance > 1 && t.left.Node? then
        if Height(t.left.left) < Height(t.left.right)
        then RotateRight(u.(left := RotateLeft(t.left)))
        else RotateRight(u)
      else if balance < -1 && t.right.Node? then
        if Height(t.right.right) < Height(t.right.left)
        then RotateLeft(u.(right := RotateRight(t.right)))
        else RotateLeft(u)
      else u
  }

  function Insert(t: Tree, k: Interval): (r: Tree) {
    if t.Leaf? then Mk(Leaf, k, Leaf)
    else if k.lo < t.key.lo then Rebalance(t.(left := Insert(t.left, k)))
    else Rebalance(t.(right := Insert(t.right, k)))
  }

  function Minimum(t: Tree): Interval
    requires t.Node?
  {
    if t.left.Leaf? then t.key else Minimum(t.left)
  }

  function Delete(t: Tree, lo: real): Tree {
    if t.Leaf? then Leaf
    else if lo < t.key.lo then Rebalance(t.(left := Delete(t.left, lo)))
    else if lo > t.key.lo then Rebalance(t.(right := Delete(t.right, lo)))
    else if t.left.Leaf? || t.right.Leaf? then (if t.left.Node? then t.left else t.right)
    else
      var successor := Minimum(t.right);
      Rebalance(t.(key := successor, right := Delete(t.right, successor.lo)))
  }

  function FindOverlap(t: Tree, lo: real, hi: real): (r: Option<Interval>) {
    if t.Leaf? then None
    else if t.key.hi < lo then FindOverlap(t.right, lo, hi)
    else if t.key.lo > hi then FindOverlap(t.left, lo, hi)
    else Some(t.key)
  }

  function CoversPoint(t: Tree, x: real): bool {
    if t.Leaf? then false
    else if x < t.key.lo then CoversPoint(t.left, x)
    else if x > t.key.hi then CoversPoint(t.right, x)
    else true
  }

  // ---------------------------------------------------------------- the list of a tree

  function InOrder(t: Tree): seq<Interval> {
    if t.Leaf? then [] else InOrder(t.left) + [t.key] + InOrder(t.right)
  }

  lemma RotationsKeepOrder(t: Tree)
    ensures InOrder(RotateRight(t)) == InOrder(t) && InOrder(RotateLeft(t)) == InOrder(t)
  {
  }

  lemma RebalanceKeepsOrder(t: Tree)
    ensures InOrder(Rebalance(t)) == InOrder(t)
  {
    if t.Node? {
      RotationsKeepOrder(t.left);
      RotationsKeepOrder(t.right);
      var u := Mk(t.left, t.key, t.right);
      RotationsKeepOrder(u);
      RotationsKeepOrder(u.(left := RotateLeft(t.left)));
      RotationsKeepOrder(u.(right := RotateRight(t.right)));
    }
  }

  lemma CanonicalParts(a: seq<Interval>, k: Interval, b: seq<Interval>)
    requires Canonical(a + [k] + b)
    ensures Canonical(a) && Canonical(b) && k.lo <= k.hi
    ensures forall x :: x in a ==> x.lo <= x.hi < k.lo
    ensures forall x :: x in b ==> k.hi < x.lo <= x.hi
  {
    var s := a + [k] + b;
    assert s[|a|] == k;
    assert forall i :: 0 <= i < |a| ==> s[i] == a[i];
    assert forall i :: 0 <= i < |b| ==> s[|a| + 1 + i] == b[i];
  }

  lemma {:induction false} InsertConcat(a: seq<Interval>, k: Interval, b: seq<Interval>, n: Interval)
    requires forall x :: x in a ==> x.lo < k.lo
    ensures SeqInsert(a + [k] + b, n) ==
            if n.lo < k.lo then SeqInsert(a, n) + [k] + b else a + [k] + SeqInsert(b, n)
  {
    var s := a + [k] + b;
    if a == [] {
      assert s == [k] + b && s[1..] == b;
      assert a + [k] + SeqInsert(b, n) == [k] + SeqInsert(b, n);
    } else {
      assert a[0] in a;
      assert s[0] == a[0] && s[1..] == a[1..] + [k] + b;
      InsertConcat(a[1..], k, b, n);
      assert a == [a[0]] + a[1..];
      if n.lo < a[0].lo {
        assert [n] + s == [n] + a + [k] + b;
      }
    }
  }

  lemma RemoveCons(x: Interval, s: seq<Interval>, lo: real)
    ensures SeqRemove([x] + s, lo) == if x.lo == lo then s else [x] + SeqRemove(s, lo)
  {
    assert ([x] + s)[1..] == s;
  }

  lemma {:induction false} RemoveBefore(a: seq<Interval>, k: Interval, b: seq<Interval>, lo: real)
    requires (forall x :: x in a ==> x.lo < k.lo) && (forall x :: x in b ==> k.lo < x.lo) && lo < k.lo
    ensures SeqRemove(a + [k] + b, lo) == SeqRemove(a, lo) + [k] + b
  {
    if a == [] {
      RemoveAbsent([k] + b, lo);
      assert a + [k] + b == [k] + b;
    } else {
      RemoveBefore(a[1..], k, b, lo);
      assert a + [k] + b == [a[0]] + (a[1..] + [k] + b);
      RemoveCons(a[0], a[1..] + [k] + b, lo);
    }
  }

  lemma {:induction false} RemoveAfter(a: seq<Interval>, k: Interval, b: seq<Interval>, lo: real)
    requires (forall x :: x in a ==> x.lo < k.lo) && lo >= k.lo
    ensures SeqRemove(a + [k] + b, lo) == if lo == k.lo then a + b else a + [k] + SeqRemove(b, lo)
  {
    if a == [] {
      RemoveCons(k, b, lo);
      assert a + [k] + b == [k] + b && a + b == b && a + [k] + SeqRemove(b, lo) == [k] + SeqRemove(b, lo);
    } else {
      assert a[0] in a;
      RemoveAfter(a[1..], k, b, lo);
      assert a + [k] + b == [a[0]] + (a[1..] + [k] + b);
      RemoveCons(a[0], a[1..] + [k] + b, lo);
      assert a == [a[0]] + a[1..];
    }
  }

  lemma {:induction false} RemoveAbsent(s: seq<Interval>, lo: real)
    requires forall x :: x in s ==> x.lo != lo
    ensures SeqRemove(s, lo) == s
  {
    if s != [] {
      assert s[0] in s;
      RemoveAbsent(s[1..], lo);
      assert s == [s[0]] + s[1..];
    }
  }

  /** tree_insert puts the interval at its place in the in-order list. */
  lemma {:induction false} InsertOrder(t: Tree, k: Interval)
    requires Canonical(InOrder(t))
    ensures InOrder(Insert(t, k)) == SeqInsert(InOrder(t), k)
  {
    if t.Node? {
      CanonicalParts(InOrder(t.left), t.key, InOrder(t.right));
      InsertConcat(InOrder(t.left), t.key, InOrder(t.right), k);
      if k.lo < t.key.lo {
        InsertOrder(t.left, k);
        RebalanceKeepsOrder(t.(left := Insert(t.left, k)));
      } else {
        InsertOrder(t.right, k);
        RebalanceKeepsOrder(t.(right := Insert(t.right, k)));
      }
    }
  }

  lemma {:induction false} MinimumIsFirst(t: Tree)
    requires t.Node?
    ensures InOrder(t) != [] && InOrder(t)[0] == Minimum(t)
  {
    if t.left.Node? {
      MinimumIsFirst(t.left);
    }
  }

  /** tree_delete removes exactly the interval with the given lower endpoint, also when it
      copies the successor up. */
  lemma {:induction false} DeleteOrder(t: Tree, lo: real)
    requires Canonical(InOrder(t))
    ensures InOrder(Delete(t, lo)) == SeqRemove(InOrder(t), lo)
  {
    hide Rebalance; hide Canonical;
    if t.Node? {
      var a, b := InOrder(t.left), InOrder(t.right);
      CanonicalParts(a, t.key, b);
      if lo < t.key.lo {
        RemoveBefore(a, t.key, b, lo);
      } else {
        RemoveAfter(a, t.key, b, lo);
      }
      if lo < t.key.lo {
        DeleteOrder(t.left, lo);
        RebalanceKeepsOrder(t.(left := Delete(t.left, lo)));
      } else if lo > t.key.lo {
        DeleteOrder(t.right, lo);
        RebalanceKeepsOrder(t.(right := Delete(t.right, lo)));
      } else if t.left.Node? && t.right.Node? {
        var m := Minimum(t.right);
        MinimumIsFirst(t.right);
        DeleteOrder(t.right, m.lo);
        RebalanceKeepsOrder(t.(key := m, right := Delete(t.right, m.lo)));
        RemoveFirst(a, b);
      }
    }
  }

  lemma RemoveFirst(a: seq<Interval>, b: seq<Interval>)
    requires b != []
    ensures a + [b[0]] + SeqRemove(b, b[0].lo) == a + b
  {
  }

  // ---------------------------------------------------------------- balance

  /** Stored heights are exact and siblings differ by at most one. */
  ghost predicate Balanced(t: Tree) {
    t.Node? ==>
      && Balanced(t.left) && Balanced(t.right)
      && t.height == 1 + Max(Height(t.left), Height(t.right))
      && -1 <= Height(t.left) - Height(t.right) <= 1
  }

  lemma {:induction false} HeightNonNegative(t: Tree)
    requires Balanced(t)
    ensures Height(t) >= 0 && (Height(t) == 0 <==> t.Leaf?)
  {
    if t.Node? {
      HeightNonNegative(t.left);
      HeightNonNegative(t.right);
    }
  }

  lemma RebalanceBalances(t: Tree)
    requires t.Node? && Balanced(t.left) && Balanced(t.right)
    requires -2 <= Height(t.left) - Height(t.right) <= 2
    ensures Balanced(Rebalance(t))
    ensures var m := Max(Height(t.left), Height(t.right));
            && m <= Height(Rebalance(t)) <= m + 1
            && (-1 <= Height(t.left) - Height(t.right) <= 1 ==> Height(Rebalance(t)) == m + 1)
  {
    HeightNonNegative(t.left);
    HeightNonNegative(t.right);
    if Height(t.left) - Height(t.right) == 2 {
      HeavyLeft(t);
    } else if Height(t.left) - Height(t.right) == -2 {
      HeavyRight(t);
    }
  }

  lemma HeavyLeft(t: Tree)
    requires t.Node? && t.left.Node? && Balanced(t.left) && Balanced(t.right)
    requires Height(t.left) - Height(t.right) == 2
    ensures Balanced(Rebalance(t)) && Height(t.left) <= Height(Rebalance(t)) <= Height(t.left) + 1
  {
    var ll, lr := t.left.left, t.left.right;
    HeightNonNegative(t.right);
    HeightNonNegative(ll);
    HeightNonNegative(lr);
    if Height(ll) < Height(lr) {
      HeightNonNegative(lr.left);
      HeightNonNegative(lr.right);
      assert Rebalance(t) == Mk(Mk(ll, t.left.key, lr.left), lr.key, Mk(lr.right, t.key, t.right));
    } else {
      assert Rebalance(t) == Mk(ll, t.left.key, Mk(lr, t.key, t.right));
    }
  }

  lemma HeavyRight(t: Tree)
    requires t.Node? && t.right.Node? && Balanced(t.left) && Balanced(t.right)
    requires Height(t.left) - Height(t.right) == -2
    ensures Balanced(Rebalance(t)) && Height(t.right) <= Height(Rebalance(t)) <= Height(t.right) + 1
  {
    var rl, rr := t.right.left, t.right.right;
    HeightNonNegative(t.left);
    HeightNonNegative(rl);
    HeightNonNegative(rr);
    if Height(rr) < Height(rl) {
      HeightNonNegative(rl.left);
      HeightNonNegative(rl.right);
      assert Rebalance(t) == Mk(Mk(t.left, t.key, rl.left), rl.key, Mk(rl.right, t.right.key, rr));
    } else {
      assert Rebalance(t) == Mk(Mk(t.left, t.key, rl), t.right.key, rr);
    }
  }

  lemma {:induction false} InsertBalances(t: Tree, k: Interval)
    requires Balanced(t)
    ensures Balanced(Insert(t, k)) && Height(t) <= Height(Insert(t, k)) <= Height(t) + 1
  {
    if t.Node? {
      if k.lo < t.key.lo {
        InsertBalances(t.left, k);
        RebalanceBalances(t.(left := Insert(t.left, k)));
      } else {
        InsertBalances(t.right, k);
        RebalanceBalances(t.(right := Insert(t.right, k)));
      }
    }
  }

  lemma {:induction false} DeleteBalances(t: Tree, lo: real)
    requires Balanced(t)
    ensures Balanced(Delete(t, lo)) && Height(t) - 1 <= Height(Delete(t, lo)) <= Height(t)
  {
    if t.Node? {
      HeightNonNegative(t.left);
      HeightNonNegative(t.right);
      if lo < t.key.lo {
        DeleteBalances(t.left, lo);
        RebalanceBalances(t.(left := Delete(t.left, lo)));
      } else if lo > t.key.lo {
        DeleteBalances(t.right, lo);
        RebalanceBalances(t.(right := Delete(t.right, lo)));
      } else if t.left.Node? && t.right.Node? {
        var m := Minimum(t.right);
        DeleteBalances(t.right, m.lo);
        RebalanceBalances(t.(key := m, right := Delete(t.right, m.lo)));
      }
    }
  }

  // ---------------------------------------------------------------- searching

  /** The search for an overlap is complete, although it follows one path. */
  lemma {:induction false} FindOverlapExact(t: Tree, lo: real, hi: real)
    requires Canonical(InOrder(t)) && lo <= hi
    ensures match FindOverlap(t, lo, hi)
            case Some(k) => k in InOrder(t) && Overlaps(k, lo, hi)
            case None => forall k :: k in InOrder(t) ==> !Overlaps(k, lo, hi)
  {
    if t.Node? {
      CanonicalParts(InOrder(t.left), t.key, InOrder(t.right));
      FindOverlapExact(t.left, lo, hi);
      FindOverlapExact(t.right, lo, hi);
    }
  }

  lemma {:induction false} CoversPointExact(t: Tree, x: real)
    requires Canonical(InOrder(t))
    ensures CoversPoint(t, x) <==> Covers(InOrder(t), x)
  {
    CoversMember(InOrder(t), x);
    if t.Node? {
      CanonicalParts(InOrder(t.left), t.key, InOrder(t.right));
      CoversPointExact(t.left, x);
      CoversPointExact(t.right, x);
      CoversMember(InOrder(t.left), x);
      CoversMember(InOrder(t.right), x);
      assert t.key in InOrder(t);
    }
  }

  // ---------------------------------------------------------------- cost

  function Fib(n: nat): nat {
    if n < 2 then n else Fib(n - 1) + Fib(n - 2)
  }

  lemma {:induction false} FibMonotone(m: nat, n: nat)
    requires m <= n
    ensures Fib(m) <= Fib(n)
    decreases n
  {
    if m < n {
      if n >= 2 {
        FibMonotone(m, n - 1);
      }
    }
  }

  /** A tree of height h has at least Fib(h + 2) - 1 nodes. */
  lemma {:induction false} NodesAtLeastFib(t: Tree)
    requires Balanced(t)
    ensures Height(t) >= 0 && |InOrder(t)| >= Fib(Height(t) + 2) - 1
  {
    HeightNonNegative(t);
    if t.Node? {
      NodesAtLeastFib(t.left);
      NodesAtLeastFib(t.right);
      var h := Height(t);
      FibMonotone(h, Height(t.left) + 2);
      FibMonotone(h, Height(t.right) + 2);
      FibMonotone(h + 1, if Height(t.left) > Height(t.right) then Height(t.left) + 2 else Height(t.right) + 2);
    }
  }

  /** Nodes visited by a point lookup. */
  function Steps(t: Tree, x: real): nat {
    if t.Leaf? then 0
    else 1 + (if x < t.key.lo then Steps(t.left, x) else if x > t.key.hi then Steps(t.right, x) else 0)
  }

  lemma {:induction false} FibAtLeastPower(n: nat)
    ensures Fib(n + 2) >= Pow2(n / 2)
  {
    if n >= 2 {
      FibAtLeastPower(n - 2);
      FibMonotone(n, n + 1);
    }
  }

  /** Lookups are logarithmic: visiting s nodes needs at least Fib(s + 2) - 1 and so 2^(s / 2) - 1
      intervals. */
  lemma {:induction false} LookupBound(t: Tree, x: real)
    requires Balanced(t)
    ensures Steps(t, x) <= Height(t) && Fib(Steps(t, x) + 2) <= |InOrder(t)| + 1
    ensures Pow2(Steps(t, x) / 2) <= |InOrder(t)| + 1
  {
    FibAtLeastPower(Steps(t, x));
    StepsBound(t, x);
    NodesAtLeastFib(t);
    FibMonotone(Steps(t, x) + 2, Height(t) + 2);
  }

  lemma {:induction false} StepsBound(t: Tree, x: real)
    requires Balanced(t)
    ensures Steps(t, x) <= Height(t)
  {
    if t.Node? {
      HeightNonNegative(t.left);
      HeightNonNegative(t.right);
      StepsBound(t.left, x);
      StepsBound(t.right, x);
    }
  }

  // ---------------------------------------------------------------- the validator

  datatype Summary = Summary(
    valid: bool, hasNode: bool, minimumLower: real, maximumUpper: real,
    height: int, count: nat, measure: real)

  /** A node's summary from those of its children. */
  function Combine(l: Summary, r: Summary, k: Interval, height: int, domainMin: real, domainMax: real): Summary {
    var h := 1 + Max(l.height, r.height);
    Summary(
      && l.valid && r.valid && k.lo <= k.hi && k.lo >= domainMin && k.hi <= domainMax
      && !(l.hasNode && l.maximumUpper >= k.lo)
      && !(r.hasNode && k.hi >= r.minimumLower)
      && height == h && -1 <= l.height - r.height <= 1,
      true,
      if l.hasNode then l.minimumLower else k.lo,
      if r.hasNode then r.maximumUpper else k.hi,
      h,
      l.count + r.count + 1,
      l.measure + r.measure + (k.hi - k.lo))
  }

  /** validate_node: one bottom-up pass. */
  function Summarize(t: Tree, domainMin: real, domainMax: real): Summary {
    if t.Leaf? then Summary(true, false, 0.0, 0.0, 0, 0, 0.0)
    else Combine(Summarize(t.left, domainMin, domainMax), Summarize(t.right, domainMin, domainMax),
                 t.key, t.height, domainMin, domainMax)
  }

  ghost predicate Within(s: seq<Interval>, domainMin: real, domainMax: real) {
    forall k :: k in s ==> domainMin <= k.lo && k.hi <= domainMax
  }

  lemma CanonicalJoin(a: seq<Interval>, k: Interval, b: seq<Interval>)
    requires Canonical(a) && Canonical(b) && k.lo <= k.hi
    requires a != [] ==> a[|a| - 1].hi < k.lo
    requires b != [] ==> k.hi < b[0].lo
    ensures Canonical(a + [k] + b)
  {
    var s := a + [k] + b;
    assert forall i :: 0 <= i < |a| ==> s[i] == a[i];
    assert s[|a|] == k;
    assert forall i :: |a| < i < |s| ==> s[i] == b[i - |a| - 1];
    forall i, j | 0 <= i < j < |s| ensures s[i].hi < s[j].lo {
      if i < |a| - 1 { assert a[i].hi < a[|a| - 1].lo; }
      if j > |a| + 1 { assert b[0].hi < b[j - |a| - 1].lo; }
    }
  }

  /** The pass counts the nodes and measures the union, whatever the tree. */
  lemma {:induction false} SummaryCounts(t: Tree, domainMin: real, domainMax: real)
    ensures var m := Summarize(t, domainMin, domainMax);
            m.count == |InOrder(t)| && m.measure == Measure(InOrder(t)) && m.hasNode == t.Node?
  {
    if t.Node? {
      SummaryCounts(t.left, domainMin, domainMax);
      SummaryCounts(t.right, domainMin, domainMax);
      MeasureConcat(InOrder(t.left), [t.key]);
      MeasureConcat(InOrder(t.left) + [t.key], InOrder(t.right));
    }
  }

  lemma {:induction false} SummaryBounds(t: Tree, domainMin: real, domainMax: real)
    ensures var m := Summarize(t, domainMin, domainMax);
            t.Node? ==> && InOrder(t) != [] && m.minimumLower == InOrder(t)[0].lo
                        && m.maximumUpper == InOrder(t)[|InOrder(t)| - 1].hi
    ensures Balanced(t) ==> Summarize(t, domainMin, domainMax).height == Height(t)
  {
    if t.Node? {
      SummaryBounds(t.left, domainMin, domainMax);
      SummaryBounds(t.right, domainMin, domainMax);
      SummaryCounts(t.left, domainMin, domainMax);
      SummaryCounts(t.right, domainMin, domainMax);
      assert InOrder(t)[|InOrder(t.left)|] == t.key;
    }
  }

  ghost predicate Proper(t: Tree, domainMin: real, domainMax: real) {
    Balanced(t) && Canonical(InOrder(t)) && Within(InOrder(t), domainMin, domainMax)
  }

  lemma {:induction false} SummarySound(t: Tree, domainMin: real, domainMax: real)
    requires Summarize(t, domainMin, domainMax).valid
    ensures Proper(t, domainMin, domainMax)
  {
    if t.Node? {
      var a, b := InOrder(t.left), InOrder(t.right);
      SummarySound(t.left, domainMin, domainMax);
      SummarySound(t.right, domainMin, domainMax);
      SummaryBounds(t.left, domainMin, domainMax);
      SummaryBounds(t.right, domainMin, domainMax);
      SummaryCounts(t.left, domainMin, domainMax);
      SummaryCounts(t.right, domainMin, domainMax);
      CanonicalJoin(a, t.key, b);
    }
  }

  lemma ProperChildren(t: Tree, domainMin: real, domainMax: real)
    requires t.Node? && Proper(t, domainMin, domainMax)
    ensures Proper(t.left, domainMin, domainMax) && Proper(t.right, domainMin, domainMax)
    ensures domainMin <= t.key.lo <= t.key.hi <= domainMax
    ensures forall x :: x in InOrder(t.left) ==> x.hi < t.key.lo
    ensures forall x :: x in InOrder(t.right) ==> t.key.hi < x.lo
  {
    hide Canonical;
    CanonicalParts(InOrder(t.left), t.key, InOrder(t.right));
    assert t.key in InOrder(t);
  }

  lemma {:induction false} SummaryComplete(t: Tree, domainMin: real, domainMax: real)
    requires Proper(t, domainMin, domainMax)
    ensures Summarize(t, domainMin, domainMax).valid
  {
    hide Canonical; hide Within;
    if t.Node? {
      var a, b := InOrder(t.left), InOrder(t.right);
      ProperChildren(t, domainMin, domainMax);
      assert a != [] ==> a[|a| - 1] in a;
      assert b != [] ==> b[0] in b;
      SummaryComplete(t.left, domainMin, domainMax);
      SummaryComplete(t.right, domainMin, domainMax);
      SummaryBounds(t.left, domainMin, domainMax);
      SummaryBounds(t.right, domainMin, domainMax);
      SummaryCounts(t.left, domainMin, domainMax);
      SummaryCounts(t.right, domainMin, domainMax);
    }
  }

  /** validate_node accepts exactly the balanced trees of disjoint ordered intervals inside the
      domain. */
  lemma SummaryExact(t: Tree, domainMin: real, domainMax: real)
    ensures Summarize(t, domainMin, domainMax).valid <==> Proper(t, domainMin, domainMax)
  {
    if Summarize(t, domainMin, domainMax).valid {
      SummarySound(t, domainMin, domainMax);
    }
    if Proper(t, domainMin, domainMax) {
      SummaryComplete(t, domainMin, domainMax);
    }
  }
}

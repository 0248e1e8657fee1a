/** Lists of disjoint closed intervals in increasing order: the canonical form of a finite
    union of closed intervals. */
module Intervals {
  import opened Numbers

  ghost predicate Canonical(s: seq<Interval>) {
    && (forall i :: 0 <= i < |s| ==> s[i].lo <= s[i].hi)
    && (forall i, j :: 0 <= i < j < |s| ==> s[i].hi < s[j].lo)
  }

  ghost predicate Covers(s: seq<Interval>, x: real) {
    exists i :: 0 <= i < |s| && Inside(s[i], x)
  }

  ghost predicate SameCover(s: seq<Interval>, t: seq<Interval>) {
    forall x :: Covers(s, x) <==> Covers(t, x)
  }

  predicate Overlaps(k: Interval, lo: real, hi: real) {
    k.hi >= lo && k.lo <= hi
  }

  function Measure(s: seq<Interval>): real {
    if s == [] then 0.0 else (s[0].hi - s[0].lo) + Measure(s[1..])
  }

  lemma {:induction false} MeasureConcat(s: seq<Interval>, t: seq<Interval>)
    ensures Measure(s + t) == Measure(s) + Measure(t)
  {
    if s == [] {
      assert s + t == t;
    } else {
      assert (s + t)[1..] == s[1..] + t;
      MeasureConcat(s[1..], t);
    }
  }

  // ---------------------------------------------------------------- uniqueness

  lemma CoverSplit(k: Interval, s: seq<Interval>, x: real)
    ensures Covers([k] + s, x) <==> Inside(k, x) || Covers(s, x)
  {
    var t := [k] + s;
    assert forall i :: 0 <= i < |s| ==> t[i + 1] == s[i];
    if Inside(k, x) {
      assert Inside(t[0], x);
    }
    if Covers(s, x) {
      var i :| 0 <= i < |s| && Inside(s[i], x);
      assert Inside(t[i + 1], x);
    }
  }

  /** Nothing below the first interval or in the gap after it is covered. */
  lemma GapUncovered(s: seq<Interval>, x: real)
    requires Canonical(s) && s != []
    requires x < s[0].lo || (s[0].hi < x && (|s| > 1 ==> x < s[1].lo))
    ensures !Covers(s, x)
  {
    forall i | 0 <= i < |s| ensures !Inside(s[i], x) {
      if i > 1 {
        assert s[1].hi < s[i].lo;
      }
    }
  }

  lemma FirstEqual(s: seq<Interval>, t: seq<Interval>)
    requires Canonical(s) && Canonical(t) && s != [] && t != [] && SameCover(s, t)
    ensures s[0].lo == t[0].lo && s[0].hi <= t[0].hi
  {
    assert Inside(s[0], s[0].lo) && Inside(t[0], t[0].lo);
    assert Covers(s, s[0].lo) && Covers(t, t[0].lo);
    if s[0].lo < t[0].lo {
      GapUncovered(t, s[0].lo);
    } else if t[0].lo < s[0].lo {
      GapUncovered(s, t[0].lo);
    }
    if t[0].hi < s[0].hi {
      var bound := if |t| > 1 && t[1].lo < s[0].hi then t[1].lo else s[0].hi;
      var x := (t[0].hi + bound) / 2.0;
      assert Inside(s[0], x);
      GapUncovered(t, x);
    }
  }

  lemma TailCover(s: seq<Interval>, t: seq<Interval>)
    requires Canonical(s) && Canonical(t) && s != [] && t != [] && SameCover(s, t) && s[0] == t[0]
    ensures SameCover(s[1..], t[1..])
  {
    forall x ensures Covers(s[1..], x) <==> Covers(t[1..], x) {
      assert s == [s[0]] + s[1..] && t == [t[0]] + t[1..];
      CoverSplit(s[0], s[1..], x);
      CoverSplit(t[0], t[1..], x);
      assert forall i :: 0 <= i < |s[1..]| ==> s[1..][i] == s[i + 1];
      assert forall i :: 0 <= i < |t[1..]| ==> t[1..][i] == t[i + 1];
    }
  }

  lemma CoversFirst(s: seq<Interval>)
    requires Canonical(s)
    ensures s != [] ==> Covers(s, s[0].lo)
  {
    assert s != [] ==> Inside(s[0], s[0].lo);
  }

  /** A point set has at most one canonical list: the state depends only on the union. */
  lemma {:induction false} CanonicalUnique(s: seq<Interval>, t: seq<Interval>)
    requires Canonical(s) && Canonical(t) && SameCover(s, t)
    ensures s == t
    decreases |s|
  {
    if s == [] || t == [] {
      CoversFirst(s);
      CoversFirst(t);
    } else {
      FirstEqual(s, t);
      FirstEqual(t, s);
      TailCover(s, t);
      CanonicalUnique(s[1..], t[1..]);
      assert s == [s[0]] + s[1..] && t == [t[0]] + t[1..];
    }
  }

  // ---------------------------------------------------------------- one insertion, one removal

  /** Inserts by lower endpoint, after equal ones. */
  function SeqInsert(s: seq<Interval>, k: Interval): (t: seq<Interval>)
    ensures |t| == |s| + 1
  {
    if s == [] then [k]
    else if k.lo < s[0].lo then [k] + s
    else [s[0]] + SeqInsert(s[1..], k)
  }

  /** Removes the first interval with the given lower endpoint. */
  function SeqRemove(s: seq<Interval>, lo: real): (t: seq<Interval>) {
    if s == [] then []
    else if s[0].lo == lo then s[1..]
    else [s[0]] + SeqRemove(s[1..], lo)
  }

  lemma {:induction false} InsertMembers(s: seq<Interval>, k: Interval, x: Interval)
    ensures x in SeqInsert(s, k) <==> x in s || x == k
  {
    if s != [] && k.lo >= s[0].lo {
      InsertMembers(s[1..], k, x);
      assert s == [s[0]] + s[1..];
    }
  }

  lemma {:induction false} InsertMeasure(s: seq<Interval>, k: Interval)
    ensures Measure(SeqInsert(s, k)) == Measure(s) + (k.hi - k.lo)
  {
    if s != [] {
      if k.lo < s[0].lo {
        assert ([k] + s)[1..] == s;
      } else {
        InsertMeasure(s[1..], k);
        assert ([s[0]] + SeqInsert(s[1..], k))[1..] == SeqInsert(s[1..], k);
      }
    }
  }

  /** An interval beyond the last one goes to the end. */
  lemma {:induction false} InsertLast(s: seq<Interval>, k: Interval)
    requires Canonical(s) && (s != [] ==> s[|s| - 1].hi < k.lo)
    ensures SeqInsert(s, k) == s + [k]
  {
    if s != [] {
      CanonicalTail(s);
      assert s[0].lo <= s[0].hi;
      assert |s| > 1 ==> s[0].hi < s[|s| - 1].lo;
      assert |s| > 1 ==> s[1..][|s[1..]| - 1] == s[|s| - 1];
      InsertLast(s[1..], k);
      assert s + [k] == [s[0]] + (s[1..] + [k]);
    }
  }

  lemma CanonicalCons(k: Interval, s: seq<Interval>)
    requires k.lo <= k.hi && Canonical(s) && (forall x :: x in s ==> k.hi < x.lo)
    ensures Canonical([k] + s)
  {
    var t := [k] + s;
    forall i, j | 0 <= i < j < |t| ensures t[i].hi < t[j].lo {
      if i == 0 {
        assert s[j - 1] in s;
      } else {
        assert t[i] == s[i - 1] && t[j] == s[j - 1];
      }
    }
    forall i | 0 <= i < |t| ensures t[i].lo <= t[i].hi {
      assert i > 0 ==> t[i] == s[i - 1];
    }
  }

  lemma CanonicalTail(s: seq<Interval>)
    requires Canonical(s) && s != []
    ensures Canonical(s[1..]) && forall x :: x in s[1..] ==> s[0].hi < x.lo
  {
    assert forall i :: 0 <= i < |s[1..]| ==> s[1..][i] == s[i + 1];
  }

  lemma {:induction false} InsertKeepsCanonical(s: seq<Interval>, k: Interval)
    requires Canonical(s) && k.lo <= k.hi
    requires forall x :: x in s ==> !Overlaps(x, k.lo, k.hi)
    ensures Canonical(SeqInsert(s, k))
  {
    if s == [] {
    } else if k.lo < s[0].lo {
      CanonicalTail(s);
      assert s[0] in s;
      forall x | x in s ensures k.hi < x.lo {
        var i :| 0 <= i < |s| && s[i] == x;
        assert i > 0 ==> s[0].hi < s[i].lo;
      }
      CanonicalCons(k, s);
    } else {
      CanonicalTail(s);
      assert s[0] in s;
      InsertKeepsCanonical(s[1..], k);
      forall x | x in SeqInsert(s[1..], k) ensures s[0].hi < x.lo {
        InsertMembers(s[1..], k, x);
      }
      CanonicalCons(s[0], SeqInsert(s[1..], k));
    }
  }

  /** Removing an element of a canonical list by its lower end removes just that element. */
  lemma {:induction false} RemoveMember(s: seq<Interval>, k: Interval)
    requires Canonical(s) && k in s
    ensures Canonical(SeqRemove(s, k.lo)) && |SeqRemove(s, k.lo)| == |s| - 1
    ensures forall x :: x in SeqRemove(s, k.lo) <==> x in s && x != k
    ensures Measure(SeqRemove(s, k.lo)) == Measure(s) - (k.hi - k.lo)
  {
    CanonicalTail(s);
    assert s == [s[0]] + s[1..];
    if s[0].lo == k.lo {
      assert s[0] !in s[1..];
    } else {
      var t := SeqRemove(s[1..], k.lo);
      RemoveMember(s[1..], k);
      CanonicalCons(s[0], t);
      assert ([s[0]] + t)[1..] == t;
      assert forall x :: x in [s[0]] + t <==> x == s[0] || x in t;
    }
  }

  lemma CoversMember(s: seq<Interval>, x: real)
    ensures Covers(s, x) <==> exists k :: k in s && Inside(k, x)
  {
    if Covers(s, x) {
      var i :| 0 <= i < |s| && Inside(s[i], x);
      assert s[i] in s;
    }
  }
}

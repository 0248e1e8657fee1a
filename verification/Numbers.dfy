/** The numbers a cache computes with: exact reals, or an ordered grid of representable
    values with round-to-nearest; and the epsilon ball with inward-directed endpoints. */
module Numbers {

  /** A grid has its values in increasing order, an overflow threshold on either side beyond
      which rounding yields an infinity, and an arbitrary rule for ties. */
  datatype Numbers =
    | Exact
    | Grid(points: seq<real>, overflow: real, tieUp: real -> bool)

  datatype Extended = NegInf | Finite(value: real) | PosInf

  ghost predicate Increasing(s: seq<real>) {
    forall i, j :: 0 <= i < j < |s| ==> s[i] < s[j]
  }

  ghost predicate Sensible(n: Numbers) {
    n.Grid? ==> && n.points != [] && Increasing(n.points)
                && -n.overflow < n.points[0] && n.points[|n.points| - 1] < n.overflow
  }

  ghost predicate Has(n: Numbers, x: real) {
    n.Grid? ==> x in n.points
  }

  // ---------------------------------------------------------------- neighbours

  /** The largest index whose value is at most z, -1 if there is none. */
  function FloorIndex(s: seq<real>, z: real): (i: int)
    ensures -1 <= i < |s|
    ensures i >= 0 ==> s[i] <= z
    ensures Increasing(s) ==> forall j :: i < j < |s| ==> z < s[j]
    decreases |s|
  {
    if s == [] then -1
    else if s[|s| - 1] <= z then |s| - 1
    else
      var r := FloorIndex(s[..|s| - 1], z);
      assert Increasing(s) ==> Increasing(s[..|s| - 1]);
      r
  }

  lemma FloorBetween(s: seq<real>, k: nat, z: real)
    requires Increasing(s) && k + 1 < |s| && s[k] <= z < s[k + 1]
    ensures FloorIndex(s, z) == k
  {
    hide Increasing;
    var f := FloorIndex(s, z);
    if f > k {
      PointsInOrder(s, k + 1, f);
    }
  }

  lemma PointsInOrder(s: seq<real>, a: nat, b: nat)
    requires Increasing(s) && a <= b < |s|
    ensures s[a] <= s[b]
  {
  }

  /** Round to nearest: to the closer neighbour, by the tie rule in the middle. */
  function Round(n: Numbers, z: real): (r: Extended)
    requires n.Grid? ==> n.points != []
  {
    match n
    case Exact => Finite(z)
    case Grid(s, overflow, tieUp) =>
      if z <= -overflow then NegInf
      else if z >= overflow then PosInf
      else
        var i := FloorIndex(s, z);
        if i == -1 then Finite(s[0])
        else if i == |s| - 1 then Finite(s[i])
        else if z - s[i] < s[i + 1] - z || (z - s[i] == s[i + 1] - z && !tieUp(z)) then Finite(s[i])
        else Finite(s[i + 1])
  }

  /** nextafter towards plus infinity. */
  function NextUp(n: Numbers, v: real): (r: Extended)
    requires n.Grid?
  {
    var i := FloorIndex(n.points, v) + 1;
    if i == |n.points| then PosInf else Finite(n.points[i])
  }

  /** nextafter towards minus infinity: the last value below v. */
  function NextDown(n: Numbers, v: real): (r: Extended)
    requires n.Grid?
  {
    var i := FloorIndex(n.points, v);
    if i >= 0 && n.points[i] == v then (if i == 0 then NegInf else Finite(n.points[i - 1]))
    else if i < 0 then NegInf else Finite(n.points[i])
  }

  /** Rounding gives no value farther away than any other. */
  lemma RoundIsNearest(n: Numbers, z: real, y: real)
    requires Sensible(n) && Has(n, y) && Round(n, z).Finite?
    ensures Has(n, Round(n, z).value)
    ensures Distance(z, Round(n, z).value) <= Distance(z, y)
  {
    if n.Grid? {
      var j :| 0 <= j < |n.points| && n.points[j] == y;
      var i := FloorIndex(n.points, z);
      if j <= i {
        assert n.points[j] <= n.points[i];
      } else {
        assert n.points[i + 1] <= n.points[j];
      }
    }
  }

  function Distance(x: real, y: real): real {
    if x < y then y - x else x - y
  }

  // ---------------------------------------------------------------- the ball

  datatype Interval = Interval(lo: real, hi: real)

  predicate Inside(k: Interval, x: real) {
    k.lo <= x <= k.hi
  }

  /** x - epsilon rounded, and moved up if rounding went below it. The residual is the exact
      rounding error, which TwoSum recovers in the source. */
  function InwardLower(n: Numbers, x: real, epsilon: real): Extended
    requires Sensible(n)
  {
    var r := Round(n, x - epsilon);
    if n.Grid? && r.Finite? && (x - epsilon) - r.value > 0.0 then NextUp(n, r.value) else r
  }

  function InwardUpper(n: Numbers, x: real, epsilon: real): Extended
    requires Sensible(n)
  {
    var r := Round(n, x + epsilon);
    if n.Grid? && r.Finite? && (x + epsilon) - r.value < 0.0 then NextDown(n, r.value) else r
  }

  function MakeEpsilonBall(n: Numbers, x: real, epsilon: real, domainMin: real, domainMax: real): (k: Interval)
    requires Sensible(n)
  {
    var lower := InwardLower(n, x, epsilon);
    var upper := InwardUpper(n, x, epsilon);
    Interval(
      if !lower.Finite? || lower.value <= domainMin then domainMin else lower.value,
      if !upper.Finite? || upper.value >= domainMax then domainMax else upper.value)
  }

  lemma FloorOfPoint(s: seq<real>, i: nat)
    requires Increasing(s) && i < |s|
    ensures FloorIndex(s, s[i]) == i
  {
  }

  /** The least value not below z. */
  ghost function Ceil(s: seq<real>, z: real): Extended {
    var i := FloorIndex(s, z);
    if i >= 0 && s[i] == z then Finite(z)
    else if i + 1 < |s| then Finite(s[i + 1]) else PosInf
  }

  /** The greatest value not above z. */
  ghost function Floor(s: seq<real>, z: real): Extended {
    var i := FloorIndex(s, z);
    if i >= 0 then Finite(s[i]) else NegInf
  }

  lemma InwardLowerIsCeil(n: Numbers, x: real, epsilon: real)
    requires Sensible(n) && n.Grid?
    requires -n.overflow < x - epsilon < n.overflow
    ensures InwardLower(n, x, epsilon) == Ceil(n.points, x - epsilon)
  {
    var i := FloorIndex(n.points, x - epsilon);
    if i >= 0 {
      FloorOfPoint(n.points, i);
    }
  }

  lemma InwardUpperIsFloor(n: Numbers, x: real, epsilon: real)
    requires Sensible(n) && n.Grid?
    requires -n.overflow < x + epsilon < n.overflow
    ensures InwardUpper(n, x, epsilon) == Floor(n.points, x + epsilon)
  {
    var i := FloorIndex(n.points, x + epsilon);
    if i + 1 < |n.points| {
      FloorOfPoint(n.points, i + 1);
    }
  }

  lemma CeilIsLeast(s: seq<real>, z: real, y: real)
    requires Increasing(s) && y in s
    ensures match Ceil(s, z)
            case NegInf => false
            case PosInf => y < z
            case Finite(v) => v in s && z <= v && (v <= y <==> z <= y)
  {
    var j :| 0 <= j < |s| && s[j] == y;
    var i := FloorIndex(s, z);
    if j < i {
      assert s[j] < s[i];
    } else if i + 1 < j {
      assert s[i + 1] < s[j];
    }
  }

  lemma FloorIsGreatest(s: seq<real>, z: real, y: real)
    requires Increasing(s) && y in s
    ensures match Floor(s, z)
            case NegInf => z < y
            case PosInf => false
            case Finite(v) => v in s && v <= z && (y <= v <==> y <= z)
  {
    var j :| 0 <= j < |s| && s[j] == y;
    var i := FloorIndex(s, z);
    if j < i {
      assert s[j] < s[i];
    }
  }

  lemma InRange(n: Numbers, x: real)
    requires Sensible(n) && n.Grid? && Has(n, x)
    ensures -n.overflow < x < n.overflow
  {
    var j :| 0 <= j < |n.points| && n.points[j] == x;
    assert j > 0 ==> n.points[0] < n.points[j];
    assert j < |n.points| - 1 ==> n.points[j] < n.points[|n.points| - 1];
  }

  /** The computed lower end is at or below a value exactly when x - epsilon is. */
  lemma LowerExact(n: Numbers, x: real, epsilon: real, y: real)
    requires Sensible(n) && Has(n, x) && Has(n, y) && epsilon >= 0.0
    ensures match InwardLower(n, x, epsilon)
            case NegInf => x - epsilon < y
            case PosInf => false
            case Finite(v) => Has(n, v) && v <= x && (v <= y <==> x - epsilon <= y)
  {
    hide Increasing; hide Ceil; hide FloorIndex;
    if n.Grid? {
      InRange(n, x);
      InRange(n, y);
      if -n.overflow < x - epsilon {
        InwardLowerIsCeil(n, x, epsilon);
        CeilIsLeast(n.points, x - epsilon, y);
        CeilIsLeast(n.points, x - epsilon, x);
      }
    }
  }

  lemma UpperExact(n: Numbers, x: real, epsilon: real, y: real)
    requires Sensible(n) && Has(n, x) && Has(n, y) && epsilon >= 0.0
    ensures match InwardUpper(n, x, epsilon)
            case NegInf => false
            case PosInf => y < x + epsilon
            case Finite(v) => Has(n, v) && x <= v && (y <= v <==> y <= x + epsilon)
  {
    hide Increasing; hide Floor; hide FloorIndex;
    if n.Grid? {
      InRange(n, x);
      InRange(n, y);
      if x + epsilon < n.overflow {
        InwardUpperIsFloor(n, x, epsilon);
        FloorIsGreatest(n.points, x + epsilon, y);
        FloorIsGreatest(n.points, x + epsilon, x);
      }
    }
  }

  /** A representable domain point lies in the computed ball exactly when its real distance
      to the centre is at most epsilon; the ball is representable, holds its centre and stays
      in the domain. */
  lemma BallExact(n: Numbers, x: real, epsilon: real, domainMin: real, domainMax: real, y: real)
    requires Sensible(n) && Has(n, x) && Has(n, domainMin) && Has(n, domainMax) && Has(n, y)
    requires domainMin <= x <= domainMax && domainMin <= y <= domainMax && epsilon >= 0.0
    ensures var k := MakeEpsilonBall(n, x, epsilon, domainMin, domainMax);
            && Has(n, k.lo) && Has(n, k.hi) && domainMin <= k.lo <= x <= k.hi <= domainMax
            && (Inside(k, y) <==> Distance(x, y) <= epsilon)
  {
    LowerExact(n, x, epsilon, y);
    UpperExact(n, x, epsilon, y);
  }
}

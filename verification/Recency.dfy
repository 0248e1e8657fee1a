/** The recency list that a least-recently-used cache stands for. */
module Recency {

  function Without(s: seq<real>, key: real): (t: seq<real>)
    ensures |t| <= |s| && key !in t
    ensures forall x :: x in t <==> x in s && x != key
  {
    if s == [] then []
    else if s[0] == key then Without(s[1..], key)
    else [s[0]] + Without(s[1..], key)
  }

  ghost predicate NoRepeats(s: seq<real>) {
    forall i, j :: 0 <= i < j < |s| ==> s[i] != s[j]
  }

  /** The distinct keys of a stream, the latest first. */
  ghost function Recent(stream: seq<real>): (r: seq<real>)
    ensures NoRepeats(r)
    ensures forall x :: x in r <==> x in stream
  {
    if stream == [] then []
    else
      var key, r := stream[|stream| - 1], Recent(stream[..|stream| - 1]);
      WithoutKeepsDistinct(r, key);
      assert forall x :: x in stream <==> x in stream[..|stream| - 1] || x == key;
      [key] + Without(r, key)
  }

  lemma {:induction false} WithoutKeepsDistinct(s: seq<real>, key: real)
    requires NoRepeats(s)
    ensures NoRepeats(Without(s, key))
  {
    if s != [] {
      WithoutKeepsDistinct(s[1..], key);
      if s[0] != key {
        Prepend(s[0], Without(s[1..], key));
      }
    }
  }

  lemma Prepend(x: real, s: seq<real>)
    requires NoRepeats(s) && x !in s
    ensures NoRepeats([x] + s)
  {
    forall i, j | 0 <= i < j < |[x] + s| ensures ([x] + s)[i] != ([x] + s)[j] {
      if i == 0 {
        assert ([x] + s)[j] == s[j - 1];
      }
    }
  }

  function Take(s: seq<real>, k: nat): seq<real> {
    if |s| <= k then s else s[..k]
  }

  /** A capacity of zero still keeps one key. */
  function Bound(capacity: nat): (k: nat)
    ensures k >= 1
  {
    if capacity == 0 then 1 else capacity
  }

  /** One observation of the cache: a hit moves the key to the front, a miss drops the last key
      of a full list and puts the new one in front. */
  function Touch(list: seq<real>, key: real, capacity: nat): seq<real> {
    if key in list then [key] + Without(list, key) else [key] + MakeRoom(list, capacity)
  }

  function MakeRoom(list: seq<real>, capacity: nat): seq<real> {
    if |list| >= capacity && list != [] then list[..|list| - 1] else list
  }

  lemma {:induction false} WithoutAbsent(s: seq<real>, key: real)
    requires key !in s
    ensures Without(s, key) == s
  {
    if s != [] {
      WithoutAbsent(s[1..], key);
    }
  }

  lemma {:induction false} WithoutAppend(s: seq<real>, t: seq<real>, key: real)
    ensures Without(s + t, key) == Without(s, key) + Without(t, key)
  {
    if s == [] {
      assert s + t == t;
    } else {
      assert (s + t)[1..] == s[1..] + t;
      WithoutAppend(s[1..], t, key);
    }
  }

  lemma {:induction false} WithoutLength(s: seq<real>, key: real)
    requires NoRepeats(s)
    ensures |Without(s, key)| == if key in s then |s| - 1 else |s|
  {
    if s != [] {
      WithoutLength(s[1..], key);
      if s[0] == key {
        assert forall j :: 1 <= j < |s| ==> s[j] != key;
        WithoutAbsent(s[1..], key);
      }
    }
  }

  /** Without drops exactly the one place of a key that does not repeat. */
  lemma {:induction false} WithoutAt(s: seq<real>, k: nat)
    requires NoRepeats(s) && k < |s|
    ensures Without(s, s[k]) == s[..k] + s[k + 1..]
    ensures NoRepeats(s[..k] + s[k + 1..]) && s[k] !in s[..k] + s[k + 1..]
  {
    if k == 0 {
      WithoutAbsent(s[1..], s[0]);
    } else {
      WithoutAt(s[1..], k - 1);
      assert s[..k] + s[k + 1..] == [s[0]] + (s[1..][..k - 1] + s[1..][k..]);
    }
    WithoutKeepsDistinct(s, s[k]);
  }

  lemma FirstStays(s: seq<real>)
    requires NoRepeats(s) && s != []
    ensures [s[0]] + Without(s, s[0]) == s
  {
    WithoutAt(s, 0);
  }

  /** Touching commutes with truncation: the cache of capacity k is the front of the unbounded
      recency list. */
  lemma TouchTake(r: seq<real>, key: real, k: nat)
    requires NoRepeats(r) && k >= 1
    ensures Touch(Take(r, k), key, k) == Take([key] + Without(r, key), k)
  {
    var a := Take(r, k);
    var b := r[|a|..];
    assert r == a + b;
    WithoutAppend(a, b, key);
    PrefixDistinct(r, |a|);
    WithoutLength(a, key);
    if key in a {
      NotAgain(r, |a|, key);
      WithoutAbsent(b, key);
      assert Take([key] + Without(r, key), k) == [key] + Without(a, key);
    } else {
      WithoutAbsent(a, key);
      assert Without(r, key) == a + Without(b, key);
      if |r| >= k {
        assert ([key] + (a + Without(b, key)))[..k] == [key] + a[..k - 1];
      }
    }
  }

  lemma PrefixDistinct(r: seq<real>, n: nat)
    requires NoRepeats(r) && n <= |r|
    ensures NoRepeats(r[..n])
  {
  }

  lemma NotAgain(r: seq<real>, n: nat, key: real)
    requires NoRepeats(r) && n <= |r| && key in r[..n]
    ensures key !in r[n..]
  {
    var i :| 0 <= i < n && r[..n][i] == key;
    assert r[i] == key;
  }

  /** A cache that has replayed a stream. */
  ghost function Replay(stream: seq<real>, capacity: nat): seq<real> {
    if stream == [] then []
    else Touch(Replay(stream[..|stream| - 1], capacity), stream[|stream| - 1], capacity)
  }

  lemma {:induction false} ReplayIsRecent(stream: seq<real>, capacity: nat)
    ensures Replay(stream, capacity) == Take(Recent(stream), Bound(capacity))
  {
    if stream != [] {
      var key, before := stream[|stream| - 1], stream[..|stream| - 1];
      ReplayIsRecent(before, capacity);
      TouchTake(Recent(before), key, Bound(capacity));
      ZeroActsAsOne(Replay(before, capacity), key, capacity);
    }
  }

  lemma ZeroActsAsOne(list: seq<real>, key: real, capacity: nat)
    ensures Touch(list, key, capacity) == Touch(list, key, Bound(capacity))
  {
  }

  /** A key is resident exactly when it is among the last `capacity` distinct keys. */
  lemma ResidentIffRecent(stream: seq<real>, capacity: nat, key: real)
    ensures key in Replay(stream, capacity) <==>
              exists i :: 0 <= i < |Recent(stream)| && i < Bound(capacity) && Recent(stream)[i] == key
  {
    ReplayIsRecent(stream, capacity);
    var r := Recent(stream);
    if key in Take(r, Bound(capacity)) {
      var i :| 0 <= i < |Take(r, Bound(capacity))| && Take(r, Bound(capacity))[i] == key;
      assert r[i] == key;
    }
    if i :| 0 <= i < |r| && i < Bound(capacity) && r[i] == key {
      assert Take(r, Bound(capacity))[i] == key;
    }
  }

  /** Inclusion: a larger cache holds at least what a smaller one holds, so a hit stays a hit. */
  lemma LargerHoldsMore(stream: seq<real>, capacity: nat, larger: nat, key: real)
    requires capacity <= larger && key in Replay(stream, capacity)
    ensures key in Replay(stream, larger)
  {
    ResidentIffRecent(stream, capacity, key);
    ResidentIffRecent(stream, larger, key);
  }

  lemma TouchGrows(list: seq<real>, key: real, capacity: nat)
    requires NoRepeats(list)
    ensures |Touch(list, key, capacity)| >= |list|
    ensures key in list ==> |Touch(list, key, capacity)| == |list|
  {
    WithoutLength(list, key);
  }

  /** How many observations of a stream are reported novel. */
  ghost function Misses(stream: seq<real>, capacity: nat): nat {
    if stream == [] then 0
    else
      var before, key := stream[..|stream| - 1], stream[|stream| - 1];
      Misses(before, capacity) + if key in Replay(before, capacity) then 0 else 1
  }

  /** No larger cache misses more often. */
  lemma {:induction false} LargerMissesLess(stream: seq<real>, capacity: nat, larger: nat)
    requires capacity <= larger
    ensures Misses(stream, larger) <= Misses(stream, capacity)
  {
    if stream != [] {
      var before, key := stream[..|stream| - 1], stream[|stream| - 1];
      LargerMissesLess(before, capacity, larger);
      if key in Replay(before, capacity) {
        LargerHoldsMore(before, capacity, larger, key);
      }
    }
  }
}

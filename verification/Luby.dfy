/** The Luby restart sequence 1 1 2 1 1 2 4 ... */
module Luby {
  import opened Arithmetic

  /** The defining prefixes: each block is its predecessor twice, then one larger power. */
  function Block(k: nat): (b: seq<nat>)
    ensures |b| == Pow2(k) - 1
  {
    if k == 0 then [] else Block(k - 1) + Block(k - 1) + [Pow2(k - 1)]
  }

  lemma {:induction false} BlockIsPrefix(j: nat, k: nat)
    requires j <= k
    ensures Block(j) <= Block(k)
    decreases k - j
  {
    if j < k {
      BlockIsPrefix(j, k - 1);
      assert Block(k - 1) <= Block(k);
    }
  }

  lemma {:induction false} BlockReaches(i: nat)
    ensures i < Pow2(i)
  {
    if i > 0 {
      BlockReaches(i - 1);
    }
  }

  /** Entry i, counted from 1, of every block that is long enough. */
  ghost predicate IsEntry(i: nat, r: nat) {
    && r >= 1
    && (forall k: nat :: 1 <= i <= |Block(k)| ==> Block(k)[i - 1] == r)
  }

  lemma EntryPositive(i: nat, r: nat)
    requires IsEntry(i, r)
    ensures r >= 1
  {
  }

  method Luby(i: nat) returns (r: nat)
    requires i >= 1
    ensures IsEntry(i, r)
    decreases i
  {
    var k := 1;
    BlockReaches(i);
    while true
      invariant 1 <= k <= i && Pow2(k - 1) <= i
      decreases i - k
    {
      if i == Pow2(k) - 1 {
        r := Pow2(k - 1);
        EntryAt(i, k, r);
        return;
      }
      if Pow2(k - 1) <= i < Pow2(k) - 1 {
        assert k > 1;
        r := Luby(i - Pow2(k - 1) + 1);
        assert |Block(k - 1)| == Pow2(k - 1) - 1;
        assert Block(k)[i - 1] == Block(k - 1)[i - Pow2(k - 1)];
        EntryAt(i, k, r);
        return;
      }
      if k == i {
        BlockReaches(i);
      }
      k := k + 1;
    }
  }

  lemma EntryAt(i: nat, k: nat, r: nat)
    requires 1 <= i <= |Block(k)| && Block(k)[i - 1] == r && r >= 1
    ensures IsEntry(i, r)
  {
    forall j: nat | 1 <= i <= |Block(j)| ensures Block(j)[i - 1] == r {
      if j <= k {
        BlockIsPrefix(j, k);
      } else {
        BlockIsPrefix(k, j);
      }
    }
  }
}

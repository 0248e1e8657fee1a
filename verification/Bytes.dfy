/** Bytes, their bits, and little-endian integers. */
module Bytes {
  import opened Arithmetic

  newtype Byte = x: int | 0 <= x < 256

  function Pow256(n: nat): (r: nat)
    ensures r > 0
  {
    Power(256, n)
  }

  lemma ByteRange(b: Byte)
    ensures 0 <= b as int <= 255
  {
  }

  /** The n low bytes of v, least significant first. */
  function WriteLe(v: nat, n: nat): (b: seq<Byte>)
    ensures |b| == n
    decreases n
  {
    if n == 0 then [] else [(v % 256) as Byte] + WriteLe(v / 256, n - 1)
  }

  function ReadLe(b: seq<Byte>): (v: nat)
    ensures v < Pow256(|b|)
  {
    if b == [] then 0 else b[0] as nat + 256 * ReadLe(b[1..])
  }

  lemma {:induction false} ReadWrite(v: nat, n: nat)
    requires v < Pow256(n)
    ensures ReadLe(WriteLe(v, n)) == v
    decreases n
  {
    if n > 0 {
      ReadWrite(v / 256, n - 1);
      assert WriteLe(v, n)[1..] == WriteLe(v / 256, n - 1);
    }
  }

  /** Byte i of a written number is its i-th digit to the base 256. */
  lemma {:induction false} WrittenDigit(v: nat, n: nat, i: nat)
    requires i < n
    ensures WriteLe(v, n)[i] as nat == (v / Power(256, i)) % 256
  {
    if i == 0 {
      PowerZero(256);
    } else {
      WrittenDigit(v / 256, n - 1, i - 1);
      PowerNext(256, i - 1);
      DividedTwice(v, 256, Power(256, i - 1));
    }
  }

  /** write_u16_le, write_u32_le and write_u64_le: byte by byte into a buffer. */
  method WriteInto(destination: array<Byte>, offset: nat, value: nat, size: nat)
    requires offset + size <= destination.Length
    modifies destination
    ensures destination[..] == old(destination[..offset]) + WriteLe(value, size) + old(destination[offset + size..])
  {
    var rest := value;
    for index := 0 to size
      invariant destination[..offset] == old(destination[..offset])
      invariant destination[offset + size..] == old(destination[offset + size..])
      invariant destination[offset..offset + index] + WriteLe(rest, size - index) == WriteLe(value, size)
    {
      ghost var before := destination[offset..offset + index];
      destination[offset + index] := (rest % 256) as Byte;
      assert destination[offset..offset + index] == before;
      assert destination[offset..offset + index + 1] == before + [(rest % 256) as Byte];
      rest := rest / 256;
    }
    assert destination[..] == destination[..offset] + destination[offset..offset + size] + destination[offset + size..];
  }

  // ---------------------------------------------------------------- bits

  /** Least significant bit first. */
  function BitsOf(v: nat, n: nat): (b: seq<bool>)
    ensures |b| == n
    decreases n
  {
    if n == 0 then [] else [v % 2 == 1] + BitsOf(v / 2, n - 1)
  }

  /** Bit i is set when the quotient by 2^i is odd. */
  lemma {:induction false} BitAt(v: nat, n: nat, i: nat)
    requires i < n
    ensures BitsOf(v, n)[i] <==> (v / Pow2(i)) % 2 == 1
    decreases n
  {
    if i > 0 {
      BitAt(v / 2, n - 1, i - 1);
      PowerNext(2, i - 1);
      DividedTwice(v, 2, Pow2(i - 1));
    }
  }

  function ValueOf(b: seq<bool>): nat {
    if b == [] then 0 else (if b[0] then 1 else 0) + 2 * ValueOf(b[1..])
  }

  lemma {:induction false} ValueBound(b: seq<bool>)
    ensures ValueOf(b) < Pow2(|b|)
  {
    if b != [] {
      ValueBound(b[1..]);
    }
  }

  lemma {:induction false} ValueInjective(a: seq<bool>, b: seq<bool>)
    requires |a| == |b| && ValueOf(a) == ValueOf(b)
    ensures a == b
  {
    if a != [] {
      ValueInjective(a[1..], b[1..]);
      assert a == [a[0]] + a[1..] && b == [b[0]] + b[1..];
    }
  }

  lemma {:induction false} BitsValue(v: nat, n: nat)
    requires v < Pow2(n)
    ensures ValueOf(BitsOf(v, n)) == v
    decreases n
  {
    if n > 0 {
      BitsValue(v / 2, n - 1);
      assert BitsOf(v, n)[1..] == BitsOf(v / 2, n - 1);
    }
  }

  lemma BitsInjective(a: Byte, b: Byte)
    requires BitsOf(a as nat, 8) == BitsOf(b as nat, 8)
    ensures a == b
  {
    assert Pow2(8) == 256 by {
      assert Pow2(4) == 16;
    }
    BitsValue(a as nat, 8);
    BitsValue(b as nat, 8);
  }

  /** The bits of a byte string in transmission order. */
  function BitString(data: seq<Byte>): (b: seq<bool>)
    ensures |b| == 8 * |data|
  {
    if data == [] then [] else BitsOf(data[0] as nat, 8) + BitString(data[1..])
  }

  lemma {:induction false} BitStringConcat(a: seq<Byte>, b: seq<Byte>)
    ensures BitString(a + b) == BitString(a) + BitString(b)
  {
    hide BitsOf;
    if a == [] {
      assert a + b == b;
    } else {
      BitStringConcat(a[1..], b);
      assert (a + b)[1..] == a[1..] + b;
      var first := BitsOf(a[0] as nat, 8);
      assert BitString(a + b) == first + BitString(a[1..] + b);
      assert first + (BitString(a[1..]) + BitString(b)) == (first + BitString(a[1..])) + BitString(b);
    }
  }

  lemma {:induction false} BitStringInjective(a: seq<Byte>, b: seq<Byte>)
    requires |a| == |b| && BitString(a) == BitString(b)
    ensures a == b
  {
    if a != [] {
      assert BitString(a)[..8] == BitsOf(a[0] as nat, 8) && BitString(b)[..8] == BitsOf(b[0] as nat, 8);
      assert BitString(a)[8..] == BitString(a[1..]) && BitString(b)[8..] == BitString(b[1..]);
      BitsInjective(a[0], b[0]);
      BitStringInjective(a[1..], b[1..]);
      assert a == [a[0]] + a[1..] && b == [b[0]] + b[1..];
    }
  }
}

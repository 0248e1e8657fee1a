/** The CRC-32 of section 8 of RFC 1952 as the snapshot code computes it, shift by shift, and
    what it is for: every burst of at most 32 bits is detected. */
module Crc32 {
  import opened Bytes

  function Repeat(b: bool, n: nat): (r: seq<bool>)
    ensures |r| == n && forall i :: 0 <= i < n ==> r[i] == b
  {
    if n == 0 then [] else [b] + Repeat(b, n - 1)
  }

  /** A 32-bit word, least significant bit first. */
  type Word = w: seq<bool> | |w| == 32 witness Repeat(false, 32)

  function Xor(a: Word, b: Word): (r: Word)
    ensures forall i :: 0 <= i < 32 ==> r[i] == (a[i] != b[i])
  {
    seq(32, i requires 0 <= i < 32 => a[i] != b[i])
  }

  function And(a: Word, b: Word): (r: Word)
    ensures forall i :: 0 <= i < 32 ==> r[i] == (a[i] && b[i])
  {
    seq(32, i requires 0 <= i < 32 => a[i] && b[i])
  }

  function ShiftRight(a: Word): (r: Word) {
    a[1..] + [false]
  }

  /** 0xedb88320: bits 5, 8, 9, 15, 19 to 21, 23, 24, 26, 27, 29, 30 and 31. */
  const POLYNOMIAL: Word := [
    false, false, false, false, false, true, false, false, true, true, false, false, false, false, false, true,
    false, false, false, true, true, true, false, true, true, false, true, true, false, true, true, true]

  const ONES: Word := Repeat(true, 32)
  const ZEROS: Word := Repeat(false, 32)

  lemma OneBit(b: seq<bool>, k: nat)
    requires k < |b|
    ensures ValueOf(b[k..]) == (if b[k] then 1 else 0) + 2 * ValueOf(b[k + 1..])
  {
    assert b[k..][1..] == b[k + 1..];
  }

  lemma OneByte(b: seq<bool>, k: nat)
    requires k + 8 <= |b|
    ensures ValueOf(b[k..]) == (if b[k] then 1 else 0) + (if b[k + 1] then 2 else 0)
                               + (if b[k + 2] then 4 else 0) + (if b[k + 3] then 8 else 0)
                               + (if b[k + 4] then 16 else 0) + (if b[k + 5] then 32 else 0)
                               + (if b[k + 6] then 64 else 0) + (if b[k + 7] then 128 else 0)
                               + 256 * ValueOf(b[k + 8..])
  {
    hide ValueOf;
    OneBit(b, k);
    OneBit(b, k + 1);
    OneBit(b, k + 2);
    OneBit(b, k + 3);
    OneBit(b, k + 4);
    OneBit(b, k + 5);
    OneBit(b, k + 6);
    OneBit(b, k + 7);
  }

  lemma WholeValue(b: seq<bool>)
    ensures ValueOf(b[|b|..]) == 0 && b[0..] == b
  {
  }

  lemma TopByte()
    ensures ValueOf(POLYNOMIAL[24..]) == 0xed
  {
    hide ValueOf;
    WholeValue(POLYNOMIAL);
    OneByte(POLYNOMIAL, 24);
  }

  lemma TopTwoBytes()
    ensures ValueOf(POLYNOMIAL[16..]) == 0xedb8
  {
    hide ValueOf;
    TopByte();
    OneByte(POLYNOMIAL, 16);
  }

  lemma TopThreeBytes()
    ensures ValueOf(POLYNOMIAL[8..]) == 0xed_b883
  {
    hide ValueOf;
    TopTwoBytes();
    OneByte(POLYNOMIAL, 8);
  }

  /** The polynomial of the register, as a number. */
  lemma PolynomialValue()
    ensures ValueOf(POLYNOMIAL) == 0xedb8_8320
  {
    hide ValueOf; hide Repeat;
    TopThreeBytes();
    WholeValue(POLYNOMIAL);
    OneByte(POLYNOMIAL, 0);
  }

  /** One shift of the register, with feedback when a one falls out. */
  function Shift(c: Word): Word {
    if c[0] then Xor(ShiftRight(c), POLYNOMIAL) else ShiftRight(c)
  }

  function FeedBit(c: Word, b: bool): Word {
    Shift(c[0 := c[0] != b])
  }

  /** The register after a bit string. */
  function Feed(c: Word, bits: seq<bool>): Word
    decreases |bits|
  {
    if bits == [] then c else Feed(FeedBit(c, bits[0]), bits[1..])
  }

  function Crc(data: seq<Byte>): Word {
    Xor(Feed(ONES, BitString(data)), ONES)
  }

  // ---------------------------------------------------------------- the loops

  function Shifts(c: Word, n: nat): Word
    decreases n
  {
    if n == 0 then c else Shifts(Shift(c), n - 1)
  }

  /** Eight shifts, the feedback selected by a mask made from the low bit. */
  method ShiftByte(start: Word) returns (crc: Word)
    ensures crc == Shifts(start, 8)
  {
    hide Xor; hide And; hide ShiftRight; hide Shift; hide Repeat;
    crc := start;
    for bit := 0 to 8
      invariant Shifts(start, 8) == Shifts(crc, 8 - bit)
    {
      var mask := if crc[0] then ONES else ZEROS;
      MaskedShift(crc, mask);
      crc := Xor(ShiftRight(crc), And(POLYNOMIAL, mask));
    }
  }

  lemma MaskedShift(c: Word, mask: Word)
    requires mask == if c[0] then ONES else ZEROS
    ensures Xor(ShiftRight(c), And(POLYNOMIAL, mask)) == Shift(c)
  {
  }

  /** Exclusive-or of bits into the low end of the register. */
  function Mix(c: Word, bits: seq<bool>): (r: Word)
    requires |bits| <= 32
    ensures forall i :: 0 <= i < 32 ==> r[i] == (c[i] != (i < |bits| && bits[i]))
  {
    seq(32, i requires 0 <= i < 32 => c[i] != (i < |bits| && bits[i]))
  }

  /** Mixing a whole byte in first and shifting then is feeding its bits one at a time: the
      later bits reach the low end unchanged. */
  lemma {:induction false} FeedIsShifts(c: Word, bits: seq<bool>)
    requires |bits| <= 32
    ensures Feed(c, bits) == Shifts(Mix(c, bits), |bits|)
    decreases |bits|
  {
    if bits == [] {
      assert Mix(c, bits) == c;
    } else {
      FeedIsShifts(FeedBit(c, bits[0]), bits[1..]);
      assert Shift(Mix(c, bits)) == Mix(FeedBit(c, bits[0]), bits[1..]);
    }
  }

  method Crc32Bytes(data: array<Byte>, size: nat) returns (r: Word)
    requires size <= data.Length
    ensures r == Crc(data[..size])
  {
    var crc: Word := ONES;
    assert data[0..size] == data[..size];
    for index := 0 to size
      invariant Feed(ONES, BitString(data[..size])) == Feed(crc, BitString(data[index..size]))
    {
      ghost var rest := data[index..size];
      assert rest[0] == data[index] && rest[1..] == data[index + 1..size];
      var bits := BitsOf(data[index] as nat, 8);
      FeedConcat(crc, bits, BitString(rest[1..]));
      FeedIsShifts(crc, bits);
      crc := ShiftByte(Mix(crc, bits));
    }
    r := Xor(crc, ONES);
  }

  lemma {:induction false} FeedConcat(c: Word, a: seq<bool>, b: seq<bool>)
    ensures Feed(c, a + b) == Feed(Feed(c, a), b)
    decreases |a|
  {
    if a == [] {
      assert a + b == b;
    } else {
      assert (a + b)[1..] == a[1..] + b;
      FeedConcat(FeedBit(c, a[0]), a[1..], b);
    }
  }

  // ---------------------------------------------------------------- burst detection

  lemma FeedBitShape(c: Word, b: bool)
    ensures var d := FeedBit(c, b);
            && d[31] == (c[0] != b)
            && (forall i :: 0 <= i < 31 ==> d[i] == (c[i + 1] != ((c[0] != b) && POLYNOMIAL[i])))
  {
  }

  /** Equal registers came from equal registers, fed the same bits. */
  lemma {:induction false} FeedInjective(a: Word, b: Word, bits: seq<bool>)
    requires Feed(a, bits) == Feed(b, bits)
    ensures a == b
    decreases |bits|
  {
    if bits != [] {
      FeedInjective(FeedBit(a, bits[0]), FeedBit(b, bits[0]), bits[1..]);
      FeedBitShape(a, bits[0]);
      FeedBitShape(b, bits[0]);
      assert a[0] == b[0];
      assert forall i :: 1 <= i < 32 ==> a[i] == b[i] by {
        forall i | 1 <= i < 32 ensures a[i] == b[i] {
          assert FeedBit(a, bits[0])[i - 1] == FeedBit(b, bits[0])[i - 1];
        }
      }
    }
  }

  /** If two bit strings of at most 32 bits take two registers to the same value, the strings
      differ exactly where the registers did: no feedback can hide a difference that short. */
  lemma {:induction false} ShortStringsReveal(a: Word, b: Word, u: seq<bool>, v: seq<bool>)
    requires |u| == |v| <= 32 && Feed(a, u) == Feed(b, v)
    ensures forall i :: |u| <= i < 32 ==> a[i] == b[i]
    ensures forall i :: 0 <= i < |u| ==> ((a[i] != b[i]) <==> (u[i] != v[i]))
    decreases |u|
  {
    if u != [] {
      var a1, b1 := FeedBit(a, u[0]), FeedBit(b, v[0]);
      ShortStringsReveal(a1, b1, u[1..], v[1..]);
      FeedBitShape(a, u[0]);
      FeedBitShape(b, v[0]);
      assert a1[31] == b1[31];
      forall i | 1 <= i < 32 ensures (a[i] != b[i]) <==> (a1[i - 1] != b1[i - 1]) {
      }
      forall i | 1 <= i < |u| ensures (a[i] != b[i]) <==> (u[i] != v[i]) {
        assert u[i] == u[1..][i - 1] && v[i] == v[1..][i - 1];
      }
    }
  }

  lemma FeedThree(c: Word, prefix: seq<bool>, u: seq<bool>, suffix: seq<bool>)
    ensures Feed(c, prefix + u + suffix) == Feed(Feed(Feed(c, prefix), u), suffix)
  {
    hide Feed;
    FeedConcat(c, prefix + u, suffix);
    FeedConcat(c, prefix, u);
  }

  /** Two bit strings that differ only within 32 consecutive bits leave different registers. */
  lemma BurstDetected(c: Word, prefix: seq<bool>, u: seq<bool>, v: seq<bool>, suffix: seq<bool>)
    requires |u| == |v| <= 32 && u != v
    ensures Feed(c, prefix + u + suffix) != Feed(c, prefix + v + suffix)
  {
    hide Feed;
    var s := Feed(c, prefix);
    FeedThree(c, prefix, u, suffix);
    FeedThree(c, prefix, v, suffix);
    if Feed(Feed(s, u), suffix) == Feed(Feed(s, v), suffix) {
      FeedInjective(Feed(s, u), Feed(s, v), suffix);
      ShortStringsReveal(s, s, u, v);
    }
  }

  /** Byte strings that differ only inside a window of at most four bytes have different CRCs. */
  lemma ByteBurstDetected(prefix: seq<Byte>, u: seq<Byte>, v: seq<Byte>, suffix: seq<Byte>)
    requires |u| == |v| <= 4 && u != v
    ensures Crc(prefix + u + suffix) != Crc(prefix + v + suffix)
  {
    BitStringConcat(prefix + u, suffix);
    BitStringConcat(prefix, u);
    BitStringConcat(prefix + v, suffix);
    BitStringConcat(prefix, v);
    if BitString(u) == BitString(v) {
      BitStringInjective(u, v);
    }
    BurstDetected(ONES, BitString(prefix), BitString(u), BitString(v), BitString(suffix));
    ComplementInjective(Feed(ONES, BitString(prefix + u + suffix)), Feed(ONES, BitString(prefix + v + suffix)));
  }

  lemma ComplementInjective(a: Word, b: Word)
    ensures Xor(a, ONES) == Xor(b, ONES) ==> a == b
  {
    if Xor(a, ONES) == Xor(b, ONES) {
      forall i | 0 <= i < 32 ensures a[i] == b[i] {
        assert Xor(a, ONES)[i] == Xor(b, ONES)[i];
      }
    }
  }
}

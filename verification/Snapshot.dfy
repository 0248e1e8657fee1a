/** The version 1 snapshot format of the interval cache: encoding, decoding with every check
    of the reader, and what the two guarantee together. */
module Snapshot {
  import opened Arithmetic
  import opened Bytes
  import opened Numbers
  import opened Intervals
  import opened Doubles
  import Crc32

  datatype Snapshot = Snapshot(
    epsilon: real, domainMin: real, domainMax: real,
    observations: nat, novel: nat, generation: nat,
    intervals: seq<Interval>)

  datatype Error = TooShort | Corrupt

  datatype Result = Accepted(value: Snapshot) | Rejected(error: Error)

  datatype IntervalsResult = Decoded(value: seq<Interval>) | Malformed

  const MAGIC: seq<Byte> := [70, 85, 84, 67, 65, 67, 72, 69]
  const VERSION: nat := 1
  const HEADER_SIZE: nat := 72
  const SIZE_MAX: nat := 0xffff_ffff_ffff_ffff
  const MAX_INTERVALS: nat := (SIZE_MAX - 76) / 16

  // ---------------------------------------------------------------- encoding

  function EncodeInterval(k: Interval): (b: seq<Byte>)
    ensures |b| == 16
  {
    EncodeDouble(k.lo) + EncodeDouble(k.hi)
  }

  function EncodeIntervals(s: seq<Interval>): (b: seq<Byte>)
    ensures |b| == 16 * |s|
  {
    if s == [] then [] else EncodeInterval(s[0]) + EncodeIntervals(s[1..])
  }

  function Fields(s: Snapshot): (c: seq<seq<Byte>>) {
    [MAGIC, WriteLe(VERSION, 2), WriteLe(HEADER_SIZE, 2), WriteLe(0, 4),
     EncodeDouble(s.epsilon), EncodeDouble(s.domainMin), EncodeDouble(s.domainMax),
     WriteLe(s.observations, 8), WriteLe(s.novel, 8), WriteLe(s.generation, 8),
     WriteLe(|s.intervals|, 8), EncodeIntervals(s.intervals)]
  }

  function Flatten(c: seq<seq<Byte>>): seq<Byte> {
    if c == [] then [] else c[0] + Flatten(c[1..])
  }

  function Body(s: Snapshot): seq<Byte> {
    Flatten(Fields(s))
  }

  function Checksum(body: seq<Byte>): (b: seq<Byte>)
    ensures |b| == 4
  {
    WriteLe(ValueOf(Crc32.Crc(body)), 4)
  }

  function Encode(s: Snapshot): seq<Byte> {
    Body(s) + Checksum(Body(s))
  }

  // ---------------------------------------------------------------- decoding

  function DecodeIntervals(b: seq<Byte>, n: nat, domainMin: real, domainMax: real, previous: seq<Interval>)
    : (r: IntervalsResult)
    requires |b| == 16 * n
    decreases n
  {
    if n == 0 then Decoded(previous)
    else
      var lo, hi := DecodeDouble(b[..8]), DecodeDouble(b[8..16]);
      if lo.Special? || hi.Special? || lo.value > hi.value || lo.value < domainMin || hi.value > domainMax
         || (previous != [] && previous[|previous| - 1].hi >= lo.value)
      then Malformed
      else DecodeIntervals(b[16..], n - 1, domainMin, domainMax, previous + [Interval(lo.value, hi.value)])
  }

  predicate HeaderOk(b: seq<Byte>)
    requires |b| >= 76
  {
    && b[..8] == MAGIC
    && ReadLe(b[8..10]) == VERSION && ReadLe(b[10..12]) == HEADER_SIZE && ReadLe(b[12..16]) == 0
  }

  predicate FrameOk(b: seq<Byte>)
    requires |b| >= 76
  {
    ReadLe(b[64..72]) <= MAX_INTERVALS && |b| == 76 + 16 * ReadLe(b[64..72])
  }

  predicate ChecksumOk(b: seq<Byte>)
    requires |b| >= 76
  {
    ReadLe(b[|b| - 4..]) == ValueOf(Crc32.Crc(b[..|b| - 4]))
  }

  predicate ParametersOk(epsilon: Double, domainMin: Double, domainMax: Double) {
    && epsilon.Finite64? && domainMin.Finite64? && domainMax.Finite64?
    && domainMin.value <= domainMax.value && epsilon.value >= 0.0
    && Round(DoubleGrid(), domainMax.value - domainMin.value).Finite?
  }

  /** The relations the validator checks after the intervals are read. */
  predicate TelemetryOk(count: nat, observations: nat, novel: nat, generation: nat) {
    count <= novel <= observations <= generation && (count == 0 ==> observations == 0)
  }

  /** Everything after the frame is known to be intact. */
  function DecodeState(b: seq<Byte>, count: nat): Result
    requires |b| == 76 + 16 * count
  {
    var epsilon, domainMin, domainMax := DecodeDouble(b[16..24]), DecodeDouble(b[24..32]), DecodeDouble(b[32..40]);
    var observations, novel, generation := ReadLe(b[40..48]), ReadLe(b[48..56]), ReadLe(b[56..64]);
    if !ParametersOk(epsilon, domainMin, domainMax) || novel > observations then Rejected(Corrupt)
    else
      var intervals := DecodeIntervals(b[72..|b| - 4], count, domainMin.value, domainMax.value, []);
      if intervals.Malformed? || !TelemetryOk(count, observations, novel, generation) then Rejected(Corrupt)
      else Accepted(Snapshot(epsilon.value, domainMin.value, domainMax.value, observations, novel, generation,
                             intervals.value))
  }

  function Decode(b: seq<Byte>): Result {
    if |b| < 76 then Rejected(TooShort)
    else if !HeaderOk(b) || !FrameOk(b) || !ChecksumOk(b) then Rejected(Corrupt)
    else DecodeState(b, ReadLe(b[64..72]))
  }

  // ---------------------------------------------------------------- what can be stored

  ghost predicate OnGrid(s: seq<Interval>) {
    forall k :: k in s ==> Has(DoubleGrid(), k.lo) && Has(DoubleGrid(), k.hi)
  }

  ghost predicate WithinDomain(s: seq<Interval>, domainMin: real, domainMax: real) {
    forall k :: k in s ==> domainMin <= k.lo && k.hi <= domainMax
  }

  /** The invariants of a cache state over binary64 that fits a snapshot. */
  ghost predicate Storable(s: Snapshot) {
    && Has(DoubleGrid(), s.epsilon) && Has(DoubleGrid(), s.domainMin) && Has(DoubleGrid(), s.domainMax)
    && s.domainMin <= s.domainMax && s.epsilon >= 0.0
    && Round(DoubleGrid(), s.domainMax - s.domainMin).Finite?
    && Canonical(s.intervals) && WithinDomain(s.intervals, s.domainMin, s.domainMax) && OnGrid(s.intervals)
    && 76 + 16 * |s.intervals| < 0x1_0000_0000_0000_0000 && s.generation < 0x1_0000_0000_0000_0000
    && |s.intervals| <= s.novel <= s.observations <= s.generation && (s.intervals == [] ==> s.observations == 0)
  }

  // ---------------------------------------------------------------- reading back the fields

  function Offset(c: seq<seq<Byte>>, k: nat): nat
    requires k <= |c|
  {
    if k == 0 then 0 else |c[0]| + Offset(c[1..], k - 1)
  }

  lemma {:induction false} OffsetStep(c: seq<seq<Byte>>, k: nat)
    requires k < |c|
    ensures Offset(c, k + 1) == Offset(c, k) + |c[k]|
    decreases k
  {
    if k > 0 {
      OffsetStep(c[1..], k - 1);
    }
  }

  /** Field k of a concatenation, found at its offset. */
  lemma {:induction false} FieldAt(c: seq<seq<Byte>>, k: nat, tail: seq<Byte>)
    requires k < |c|
    ensures Offset(c, k) + |c[k]| <= |Flatten(c)|
    ensures (Flatten(c) + tail)[Offset(c, k)..Offset(c, k) + |c[k]|] == c[k]
    decreases k
  {
    var rest := Flatten(c[1..]);
    assert Flatten(c) + tail == c[0] + (rest + tail);
    if k > 0 {
      FieldAt(c[1..], k - 1, tail);
      var i, n := Offset(c[1..], k - 1), |c[k]|;
      assert (c[0] + (rest + tail))[|c[0]| + i..|c[0]| + i + n] == (rest + tail)[i..i + n];
    }
  }

  lemma FieldOffsets(s: Snapshot)
    ensures var c := Fields(s);
            && Offset(c, 0) == 0 && Offset(c, 1) == 8 && Offset(c, 2) == 10 && Offset(c, 3) == 12
            && Offset(c, 4) == 16 && Offset(c, 5) == 24 && Offset(c, 6) == 32 && Offset(c, 7) == 40
            && Offset(c, 8) == 48 && Offset(c, 9) == 56 && Offset(c, 10) == 64 && Offset(c, 11) == 72
            && |Body(s)| == 72 + 16 * |s.intervals|
  {
    hide Offset; hide WriteLe; hide EncodeDouble; hide EncodeIntervals;
    var c := Fields(s);
    OffsetZero(c);
    OffsetStep(c, 0);
    OffsetStep(c, 1);
    OffsetStep(c, 2);
    OffsetStep(c, 3);
    OffsetStep(c, 4);
    OffsetStep(c, 5);
    OffsetStep(c, 6);
    OffsetStep(c, 7);
    OffsetStep(c, 8);
    OffsetStep(c, 9);
    OffsetStep(c, 10);
    OffsetStep(c, 11);
    OffsetAll(c);
  }

  lemma OffsetZero(c: seq<seq<Byte>>)
    ensures Offset(c, 0) == 0
  {
  }

  lemma {:induction false} OffsetAll(c: seq<seq<Byte>>)
    ensures Offset(c, |c|) == |Flatten(c)|
  {
    if c != [] {
      OffsetAll(c[1..]);
    }
  }

  /** Field k of an encoded snapshot. */
  lemma EncodedField(s: Snapshot, k: nat)
    requires k < 12
    ensures var c := Fields(s);
            && Offset(c, k) + |c[k]| <= |Body(s)| && |Encode(s)| == |Body(s)| + 4
            && Encode(s)[Offset(c, k)..Offset(c, k) + |c[k]|] == c[k]
  {
    FieldAt(Fields(s), k, Checksum(Body(s)));
  }

  lemma NumberRoundTrip(v: nat)
    requires v <= SIZE_MAX
    ensures ReadLe(WriteLe(v, 8)) == v
  {
    assert Pow256(8) == 0x1_0000_0000_0000_0000 by {
      assert Pow256(4) == 0x1_0000_0000;
    }
    ReadWrite(v, 8);
  }

  /** Field k, known by its place and its contents. */
  lemma FieldIs(s: Snapshot, k: nat, offset: nat, field: seq<Byte>)
    requires k < 12 && Fields(s)[k] == field && Offset(Fields(s), k) == offset
    ensures offset + |field| <= |Encode(s)| && Encode(s)[offset..offset + |field|] == field
  {
    hide Fields; hide Body; hide Offset; hide Encode;
    EncodedField(s, k);
  }

  lemma HeaderRoundTrip(s: Snapshot)
    requires |s.intervals| <= MAX_INTERVALS
    ensures |Encode(s)| == 76 + 16 * |s.intervals| && HeaderOk(Encode(s)) && FrameOk(Encode(s))
  {
    hide Fields; hide EncodeIntervals; hide Body; hide Offset; hide Flatten; hide Encode; hide WriteLe; hide ReadLe;
    hide FrameOk;
    FieldOffsets(s);
    FieldContents(s);
    EncodedField(s, 0);
    FieldIs(s, 0, 0, MAGIC);
    FieldIs(s, 1, 8, WriteLe(VERSION, 2));
    FieldIs(s, 2, 10, WriteLe(HEADER_SIZE, 2));
    FieldIs(s, 3, 12, WriteLe(0, 4));
    CountRoundTrip(s);
    ReadConstants();
  }

  lemma CountRoundTrip(s: Snapshot)
    requires |s.intervals| <= MAX_INTERVALS && |Encode(s)| == 76 + 16 * |s.intervals|
    ensures FrameOk(Encode(s))
  {
    hide Fields; hide EncodeIntervals; hide Body; hide Offset; hide Flatten; hide Encode; hide WriteLe; hide ReadLe;
    FieldOffsets(s);
    FieldContents(s);
    FieldIs(s, 10, 64, WriteLe(|s.intervals|, 8));
    NumberRoundTrip(|s.intervals|);
  }

  lemma ReadConstants()
    ensures ReadLe(WriteLe(VERSION, 2)) == VERSION && ReadLe(WriteLe(HEADER_SIZE, 2)) == HEADER_SIZE
    ensures ReadLe(WriteLe(0, 4)) == 0
  {
    assert Pow256(2) == 65536;
    assert Pow256(4) == 0x1_0000_0000;
    ReadWrite(VERSION, 2);
    ReadWrite(HEADER_SIZE, 2);
    ReadWrite(0, 4);
  }

  lemma FieldContents(s: Snapshot)
    ensures var c := Fields(s);
            && |c| == 12
            && c[0] == MAGIC && c[1] == WriteLe(VERSION, 2) && c[2] == WriteLe(HEADER_SIZE, 2) && c[3] == WriteLe(0, 4)
            && c[4] == EncodeDouble(s.epsilon) && c[5] == EncodeDouble(s.domainMin) && c[6] == EncodeDouble(s.domainMax)
            && c[7] == WriteLe(s.observations, 8) && c[8] == WriteLe(s.novel, 8) && c[9] == WriteLe(s.generation, 8)
            && c[10] == WriteLe(|s.intervals|, 8) && c[11] == EncodeIntervals(s.intervals)
  {
    hide WriteLe; hide EncodeDouble; hide EncodeIntervals;
  }

  lemma FourBytes()
    ensures Pow2(32) == Pow256(4)
  {
    assert Pow2(8) == 256;
    assert Pow2(16) == 65536;
    assert Pow2(24) == 0x100_0000;
  }

  lemma ChecksumReads(body: seq<Byte>)
    ensures ReadLe(Checksum(body)) == ValueOf(Crc32.Crc(body))
  {
    hide ReadLe; hide WriteLe; hide ValueOf; hide Crc32.Crc;
    FourBytes();
    ValueBound(Crc32.Crc(body));
    ReadWrite(ValueOf(Crc32.Crc(body)), 4);
  }

  lemma ChecksumRoundTrip(s: Snapshot)
    ensures |Encode(s)| >= 76 && ChecksumOk(Encode(s))
    ensures Encode(s)[..|Encode(s)| - 4] == Body(s) && Encode(s)[|Encode(s)| - 4..] == Checksum(Body(s))
  {
    hide Fields; hide EncodeIntervals; hide Flatten; hide Body; hide Checksum; hide Crc32.Crc; hide ReadLe;
    hide ValueOf;
    FieldOffsets(s);
    ChecksumReads(Body(s));
    var b, body := Encode(s), Body(s);
    assert b[..|b| - 4] == body && b[|b| - 4..] == Checksum(body);
  }

  /** The fields of s, read back at their offsets. */
  ghost predicate Reads(b: seq<Byte>, s: Snapshot) {
    && |b| == 76 + 16 * |s.intervals|
    && DecodeDouble(b[16..24]) == Finite64(s.epsilon) && DecodeDouble(b[24..32]) == Finite64(s.domainMin)
    && DecodeDouble(b[32..40]) == Finite64(s.domainMax)
    && ReadLe(b[40..48]) == s.observations && ReadLe(b[48..56]) == s.novel && ReadLe(b[56..64]) == s.generation
    && ReadLe(b[64..72]) == |s.intervals|
    && b[72..|b| - 4] == EncodeIntervals(s.intervals)
  }

  lemma ParametersRoundTrip(s: Snapshot)
    requires Storable(s) && |Encode(s)| == 76 + 16 * |s.intervals|
    ensures Reads(Encode(s), s)
  {
    hide Fields; hide EncodeIntervals; hide EncodeDouble; hide DecodeDouble; hide Body; hide Offset;
    hide Flatten; hide Encode;
    hide WriteLe; hide ReadLe; hide DoubleGrid; hide Canonical;
    FieldOffsets(s);
    FieldContents(s);
    FieldIs(s, 4, 16, EncodeDouble(s.epsilon));
    FieldIs(s, 5, 24, EncodeDouble(s.domainMin));
    FieldIs(s, 6, 32, EncodeDouble(s.domainMax));
    FieldIs(s, 7, 40, WriteLe(s.observations, 8));
    FieldIs(s, 8, 48, WriteLe(s.novel, 8));
    FieldIs(s, 9, 56, WriteLe(s.generation, 8));
    FieldIs(s, 10, 64, WriteLe(|s.intervals|, 8));
    FieldIs(s, 11, 72, EncodeIntervals(s.intervals));
    DoubleRoundTrip(s.epsilon);
    DoubleRoundTrip(s.domainMin);
    DoubleRoundTrip(s.domainMax);
    NumberRoundTrip(s.observations);
    NumberRoundTrip(s.novel);
    NumberRoundTrip(s.generation);
    NumberRoundTrip(|s.intervals|);
  }

  lemma IntervalRoundTrip(k: Interval, rest: seq<Byte>)
    requires Has(DoubleGrid(), k.lo) && Has(DoubleGrid(), k.hi)
    ensures var b := EncodeInterval(k) + rest;
            DecodeDouble(b[..8]) == Finite64(k.lo) && DecodeDouble(b[8..16]) == Finite64(k.hi) && b[16..] == rest
  {
    hide EncodeDouble; hide DecodeDouble; hide DoubleGrid;
    var b := EncodeInterval(k) + rest;
    DoubleRoundTrip(k.lo);
    DoubleRoundTrip(k.hi);
    assert b[..8] == EncodeDouble(k.lo) && b[8..16] == EncodeDouble(k.hi);
  }

  lemma {:induction false} IntervalsRoundTrip(previous: seq<Interval>, s: seq<Interval>, domainMin: real,
                                              domainMax: real)
    requires Canonical(previous + s) && WithinDomain(s, domainMin, domainMax) && OnGrid(s)
    ensures DecodeIntervals(EncodeIntervals(s), |s|, domainMin, domainMax, previous) == Decoded(previous + s)
    decreases |s|
  {
    hide EncodeInterval; hide DecodeDouble; hide DoubleGrid;
    if s == [] {
      assert previous + s == previous;
    } else {
      var k, all := s[0], previous + s;
      assert k in s;
      IntervalRoundTrip(k, EncodeIntervals(s[1..]));
      assert all[|previous|] == k;
      assert previous != [] ==> all[|previous| - 1] == previous[|previous| - 1];
      assert previous + [k] + s[1..] == all;
      IntervalsRoundTrip(previous + [k], s[1..], domainMin, domainMax);
    }
  }

  lemma DecodeReads(b: seq<Byte>, s: Snapshot)
    requires |b| >= 76 && HeaderOk(b) && FrameOk(b) && ChecksumOk(b) && Reads(b, s) && Storable(s)
    ensures Decode(b) == Accepted(s)
  {
    hide HeaderOk; hide FrameOk; hide ChecksumOk; hide DecodeDouble; hide EncodeIntervals; hide DecodeIntervals;
    hide DoubleGrid; hide ReadLe;
    assert [] + s.intervals == s.intervals;
    IntervalsRoundTrip([], s.intervals, s.domainMin, s.domainMax);
  }

  /** The reader restores every stored state from its own snapshot. */
  lemma RoundTrip(s: Snapshot)
    requires Storable(s)
    ensures Decode(Encode(s)) == Accepted(s)
  {
    hide Encode; hide HeaderOk; hide FrameOk; hide ChecksumOk; hide Reads; hide Decode; hide DoubleGrid;
    HeaderRoundTrip(s);
    ChecksumRoundTrip(s);
    ParametersRoundTrip(s);
    DecodeReads(Encode(s), s);
  }

  lemma {:induction false} IntervalsSound(b: seq<Byte>, n: nat, domainMin: real, domainMax: real,
                                          previous: seq<Interval>)
    requires |b| == 16 * n && Canonical(previous) && WithinDomain(previous, domainMin, domainMax) && OnGrid(previous)
    ensures var r := DecodeIntervals(b, n, domainMin, domainMax, previous);
            r.Decoded? ==> && |r.value| == |previous| + n && Canonical(r.value)
                           && WithinDomain(r.value, domainMin, domainMax) && OnGrid(r.value)
    decreases n
  {
    hide DoubleGrid; hide FromBits;
    if n > 0 {
      var lo, hi := DecodeDouble(b[..8]), DecodeDouble(b[8..16]);
      if lo.Finite64? && hi.Finite64? && lo.value <= hi.value && domainMin <= lo.value && hi.value <= domainMax
         && (previous == [] || previous[|previous| - 1].hi < lo.value) {
        var k := Interval(lo.value, hi.value);
        FiniteIsOnGrid(ReadLe(b[..8]));
        FiniteIsOnGrid(ReadLe(b[8..16]));
        SnocCanonical(previous, k);
        IntervalsSound(b[16..], n - 1, domainMin, domainMax, previous + [k]);
      }
    }
  }

  lemma SnocCanonical(s: seq<Interval>, k: Interval)
    requires Canonical(s) && k.lo <= k.hi && (s == [] || s[|s| - 1].hi < k.lo)
    ensures Canonical(s + [k])
  {
    var t := s + [k];
    forall i, j | 0 <= i < j < |t| ensures t[i].hi < t[j].lo {
      if j == |s| && i < |s| - 1 {
        assert s[i].hi < s[|s| - 1].lo;
      }
    }
  }

  lemma EightBytes(b: seq<Byte>)
    requires |b| == 8
    ensures ReadLe(b) <= SIZE_MAX
  {
    assert Pow256(8) == 0x1_0000_0000_0000_0000 by {
      assert Pow256(4) == 0x1_0000_0000;
    }
  }

  /** Whatever the reader accepts satisfies every invariant and fills its frame exactly. */
  lemma AcceptedIsStorable(b: seq<Byte>)
    requires Decode(b).Accepted?
    ensures Storable(Decode(b).value) && |b| == 76 + 16 * |Decode(b).value.intervals|
  {
    hide HeaderOk; hide ChecksumOk; hide FromBits; hide DecodeIntervals; hide DoubleGrid;
    FiniteIsOnGrid(ReadLe(b[16..24]));
    FiniteIsOnGrid(ReadLe(b[24..32]));
    FiniteIsOnGrid(ReadLe(b[32..40]));
    EightBytes(b[56..64]);
    IntervalsSound(b[72..|b| - 4], ReadLe(b[64..72]),
      DecodeDouble(b[24..32]).value, DecodeDouble(b[32..40]).value, []);
  }

  // ---------------------------------------------------------------- byte for byte

  /** The intervals of s stand at b[16 * k..], the lower end first. */
  ghost predicate IntervalsAt(b: seq<Byte>, s: seq<Interval>) {
    && |b| == 16 * |s|
    && forall k :: 0 <= k < |s| ==> IntervalAt(b, k, s[k])
  }

  ghost predicate IntervalAt(b: seq<Byte>, k: nat, v: Interval)
    requires 16 * k + 16 <= |b|
  {
    DecodeDouble(b[16 * k..16 * k + 8]) == Finite64(v.lo) && DecodeDouble(b[16 * k + 8..16 * k + 16]) == Finite64(v.hi)
  }

  /** The letters FUTCACHE, version 1, a header of 72 bytes, no flags, every field at its place, and
      the checksum of all that at the end. */
  ghost predicate Laid(b: seq<Byte>, s: Snapshot) {
    && |b| == 76 + 16 * |s.intervals|
    && (forall i :: 0 <= i < 8 ==> b[i] as int == "FUTCACHE"[i] as int)
    && b[8..16] == [1, 0, 72, 0, 0, 0, 0, 0]
    && DecodeDouble(b[16..24]) == Finite64(s.epsilon) && DecodeDouble(b[24..32]) == Finite64(s.domainMin)
    && DecodeDouble(b[32..40]) == Finite64(s.domainMax)
    && ReadLe(b[40..48]) == s.observations && ReadLe(b[48..56]) == s.novel && ReadLe(b[56..64]) == s.generation
    && ReadLe(b[64..72]) == |s.intervals|
    && IntervalsAt(b[72..|b| - 4], s.intervals)
    && ReadLe(b[|b| - 4..]) == ValueOf(Crc32.Crc(b[..|b| - 4]))
  }

  lemma ReadTwo(b: seq<Byte>)
    requires |b| == 2
    ensures ReadLe(b) == b[0] as nat + 256 * b[1] as nat
  {
  }

  lemma MagicLetters(b: seq<Byte>)
    requires |b| == 8
    ensures b == MAGIC <==> forall i :: 0 <= i < 8 ==> b[i] as int == "FUTCACHE"[i] as int
  {
    assert forall i :: 0 <= i < 8 ==> MAGIC[i] as int == "FUTCACHE"[i] as int;
  }

  lemma VersionBytes(b: seq<Byte>)
    requires |b| == 8
    ensures ReadLe(b[..2]) == VERSION && ReadLe(b[2..4]) == HEADER_SIZE && ReadLe(b[4..]) == 0
            <==> b == [1, 0, 72, 0, 0, 0, 0, 0]
  {
    hide ReadLe;
    ReadTwo(b[..2]);
    ReadTwo(b[2..4]);
    ReadFour(b[4..]);
    assert b[..2][0] == b[0] && b[..2][1] == b[1] && b[2..4][0] == b[2] && b[2..4][1] == b[3];
    if b[0] == 1 && b[1] == 0 && b[2] == 72 && b[3] == 0 && b[4..] == [0, 0, 0, 0] {
      assert b == [b[0], b[1], b[2], b[3]] + b[4..];
    }
    if b == [1, 0, 72, 0, 0, 0, 0, 0] {
      assert b[4..] == [0, 0, 0, 0];
    }
  }

  lemma ReadFour(b: seq<Byte>)
    requires |b| == 4
    ensures ReadLe(b) == 0 <==> b == [0, 0, 0, 0]
  {
    ReadTwo(b[2..]);
    assert b[1..][1..] == b[2..];
    assert ReadLe(b) == b[0] as nat + 256 * (b[1] as nat + 256 * ReadLe(b[2..]));
  }

  /** The header check, byte by byte. */
  lemma HeaderBytes(b: seq<Byte>)
    requires |b| >= 76
    ensures HeaderOk(b) <==> && (forall i :: 0 <= i < 8 ==> b[i] as int == "FUTCACHE"[i] as int)
                             && b[8..16] == [1, 0, 72, 0, 0, 0, 0, 0]
  {
    hide ReadLe;
    MagicLetters(b[..8]);
    VersionBytes(b[8..16]);
    SliceOfSlice(b, 8, 16, 0, 2);
    SliceOfSlice(b, 8, 16, 2, 4);
    SliceOfSlice(b, 8, 16, 4, 8);
  }

  lemma SliceOfSlice(b: seq<Byte>, i: nat, j: nat, k: nat, l: nat)
    requires i <= j <= |b| && k <= l <= j - i
    ensures b[i..j][k..l] == b[i + k..i + l]
  {
    assert forall m :: 0 <= m < l - k ==> b[i..j][k..l][m] == b[i + k..i + l][m];
  }

  lemma IntervalsShift(b: seq<Byte>, s: seq<Interval>)
    requires |b| == 16 * |s|
    ensures IntervalsAt(b, s) <==> s == [] || (IntervalAt(b, 0, s[0]) && IntervalsAt(b[16..], s[1..]))
  {
    hide DecodeDouble;
    if s == [] {
      return;
    }
    var c := b[16..];
    forall k | 0 <= k < |s| - 1 ensures IntervalAt(c, k, s[1..][k]) <==> IntervalAt(b, k + 1, s[k + 1]) {
      assert c[16 * k..16 * k + 8] == b[16 * (k + 1)..16 * (k + 1) + 8];
      assert c[16 * k + 8..16 * k + 16] == b[16 * (k + 1) + 8..16 * (k + 1) + 16];
    }
    assert IntervalsAt(c, s[1..]) ==> forall k :: 0 < k < |s| ==> s[1..][k - 1] == s[k] && IntervalAt(c, k - 1, s[k]);
  }

  /** Reading the intervals succeeds exactly on ordered intervals inside the domain. */
  lemma {:induction false} DecodeIntervalsIff(b: seq<Byte>, n: nat, domainMin: real, domainMax: real,
                                              previous: seq<Interval>, s: seq<Interval>)
    requires |b| == 16 * n && Canonical(previous) && |s| == n
    ensures DecodeIntervals(b, n, domainMin, domainMax, previous) == Decoded(previous + s)
            <==> IntervalsAt(b, s) && Canonical(previous + s) && WithinDomain(s, domainMin, domainMax)
    decreases n
  {
    hide DecodeDouble; hide IntervalsAt; hide Canonical; hide WithinDomain;
    IntervalsShift(b, s);
    WithinStep(s, domainMin, domainMax);
    if n == 0 {
      assert previous + s == previous;
    } else {
      var lo, hi := DecodeDouble(b[..8]), DecodeDouble(b[8..16]);
      HeadCanonical(previous, s);
      if lo.Finite64? && hi.Finite64? && lo.value <= hi.value && domainMin <= lo.value && hi.value <= domainMax
         && (previous == [] || previous[|previous| - 1].hi < lo.value) {
        var k := Interval(lo.value, hi.value);
        DecodeKeeps(b[16..], n - 1, domainMin, domainMax, previous + [k]);
        if k == s[0] {
          SnocCanonical(previous, k);
          DecodeIntervalsIff(b[16..], n - 1, domainMin, domainMax, previous + [k], s[1..]);
          assert previous + [k] + s[1..] == previous + s;
        } else {
          assert (previous + s)[|previous|] == s[0];
        }
      }
    }
  }

  lemma WithinStep(s: seq<Interval>, domainMin: real, domainMax: real)
    ensures WithinDomain(s, domainMin, domainMax)
            <==> s == [] || (domainMin <= s[0].lo && s[0].hi <= domainMax && WithinDomain(s[1..], domainMin, domainMax))
  {
    assert s != [] ==> s == [s[0]] + s[1..];
  }

  lemma HeadCanonical(previous: seq<Interval>, s: seq<Interval>)
    requires s != []
    ensures Canonical(previous + s)
            ==> s[0].lo <= s[0].hi && (previous != [] ==> previous[|previous| - 1].hi < s[0].lo)
  {
    var all := previous + s;
    assert all[|previous|] == s[0];
    assert previous != [] ==> all[|previous| - 1] == previous[|previous| - 1];
  }

  lemma {:induction false} DecodeKeeps(b: seq<Byte>, n: nat, domainMin: real, domainMax: real,
                                       previous: seq<Interval>)
    requires |b| == 16 * n
    ensures var r := DecodeIntervals(b, n, domainMin, domainMax, previous);
            r.Decoded? ==> |r.value| == |previous| + n && r.value[..|previous|] == previous
    decreases n
  {
    hide DecodeDouble;
    if n > 0 {
      var lo, hi := DecodeDouble(b[..8]), DecodeDouble(b[8..16]);
      if lo.Finite64? && hi.Finite64? {
        DecodeKeeps(b[16..], n - 1, domainMin, domainMax, previous + [Interval(lo.value, hi.value)]);
      }
    }
  }

  /** The reader accepts b as s exactly when s is a state that can be stored and b is laid out as
      the format says. */
  lemma AcceptedIff(b: seq<Byte>, s: Snapshot)
    ensures Decode(b) == Accepted(s) <==> Storable(s) && Laid(b, s)
  {
    hide HeaderOk; hide DecodeDouble; hide DecodeIntervals; hide DoubleGrid; hide ReadLe; hide IntervalsAt;
    if Decode(b) == Accepted(s) {
      AcceptedIsStorable(b);
      HeaderBytes(b);
      assert [] + s.intervals == s.intervals;
      DecodeIntervalsIff(b[72..|b| - 4], |s.intervals|, s.domainMin, s.domainMax, [], s.intervals);
    }
    if Storable(s) && Laid(b, s) {
      LaidIsAccepted(b, s);
    }
  }

  lemma NothingCanonical()
    ensures Canonical([])
  {
  }

  lemma LaidIsAccepted(b: seq<Byte>, s: Snapshot)
    requires Storable(s) && Laid(b, s)
    ensures Decode(b) == Accepted(s)
  {
    hide HeaderOk; hide DecodeDouble; hide DecodeIntervals; hide DoubleGrid; hide ReadLe; hide IntervalsAt;
    hide Canonical; hide WithinDomain; hide OnGrid; hide Crc32.Crc; hide ValueOf; hide Round;
    NothingCanonical();
    HeaderBytes(b);
    assert [] + s.intervals == s.intervals;
    DecodeIntervalsIff(b[72..|b| - 4], |s.intervals|, s.domainMin, s.domainMax, [], s.intervals);
  }

  /** What is written is laid out as the format says. */
  lemma EncodedIsLaid(s: Snapshot)
    requires Storable(s)
    ensures Laid(Encode(s), s)
  {
    hide Encode; hide Decode; hide Laid; hide Storable;
    RoundTrip(s);
    AcceptedIff(Encode(s), s);
  }

  /** Same length, same stored checksum, different checksum of the rest: rejected. */
  lemma MismatchRejected(b: seq<Byte>, body: seq<Byte>)
    requires |b| >= 76 && b[|b| - 4..] == Checksum(body) && Crc32.Crc(b[..|b| - 4]) != Crc32.Crc(body)
    ensures Decode(b).Rejected?
  {
    hide HeaderOk; hide FrameOk; hide ValueOf; hide Crc32.Crc; hide ReadLe; hide DecodeDouble; hide DecodeIntervals;
    ChecksumReads(body);
    if ValueOf(Crc32.Crc(b[..|b| - 4])) == ValueOf(Crc32.Crc(body)) {
      ValueInjective(Crc32.Crc(b[..|b| - 4]), Crc32.Crc(body));
      assert false;
    }
  }

  /** A snapshot corrupted inside any window of at most four consecutive bytes of its
      checksummed part is rejected. */
  lemma BurstRejected(s: Snapshot, prefix: seq<Byte>, u: seq<Byte>, v: seq<Byte>, suffix: seq<Byte>)
    requires Encode(s) == prefix + u + suffix && |suffix| >= 4 && |u| == |v| <= 4 && u != v
    ensures Decode(prefix + v + suffix).Rejected?
  {
    hide Encode; hide Body; hide Decode; hide Crc32.Crc; hide ChecksumOk;
    var bad := prefix + v + suffix;
    var inner := suffix[..|suffix| - 4];
    ChecksumRoundTrip(s);
    assert Encode(s)[..|Encode(s)| - 4] == prefix + u + inner;
    assert bad[..|bad| - 4] == prefix + v + inner;
    assert bad[|bad| - 4..] == suffix[|suffix| - 4..] == Encode(s)[|Encode(s)| - 4..];
    Crc32.ByteBurstDetected(prefix, u, v, inner);
    MismatchRejected(bad, Body(s));
  }
}

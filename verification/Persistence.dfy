/** futcache_serialize and futcache_deserialize over the pointer tree and a byte buffer. */
module Persistence {
  import opened Bytes
  import opened Numbers
  import opened Intervals
  import opened IntervalSpec
  import opened AvlNodes
  import opened Doubles
  import opened Snapshot
  import opened IntervalCache
  import opened Telemetry
  import Avl
  import Crc32

  ghost function SnapshotOf(c: FutCache): Snapshot
    reads c, c.root
  {
    Snapshot(c.config.epsilon, c.config.domainMin, c.config.domainMax,
             c.observations, c.novelObservations, c.generation, c.List())
  }

  /** Every restored or reachable binary64 cache of representable size can be stored. */
  lemma StateIsStorable(c: FutCache)
    requires c.Restored() && c.config.numbers == DoubleGrid() && c.intervalCount <= MAX_INTERVALS
    ensures Storable(SnapshotOf(c))
  {
    hide DoubleGrid; hide Round; hide Ok; hide Canonical; hide Avl.Balanced;
  }

  lemma {:induction false} EncodeConcat(s: seq<Interval>, t: seq<Interval>)
    ensures EncodeIntervals(s + t) == EncodeIntervals(s) + EncodeIntervals(t)
  {
    hide EncodeInterval;
    if s == [] {
      assert s + t == t;
    } else {
      assert (s + t)[1..] == s[1..] + t;
      EncodeConcat(s[1..], t);
    }
  }

  lemma EncodeThree(a: seq<Interval>, k: Interval, b: seq<Interval>)
    ensures EncodeIntervals(a + [k] + b) == EncodeIntervals(a) + EncodeInterval(k) + EncodeIntervals(b)
  {
    hide EncodeInterval;
    EncodeConcat(a + [k], b);
    EncodeConcat(a, [k]);
    assert EncodeIntervals([k]) == EncodeInterval(k) + EncodeIntervals([]);
  }

  /** Overwrites part of a buffer. */
  ghost predicate Overwritten(before: seq<Byte>, after: seq<Byte>, offset: nat, bytes: seq<Byte>) {
    && |before| == |after| && offset + |bytes| <= |before|
    && after == before[..offset] + bytes + before[offset + |bytes|..]
  }

  lemma OverwriteNext(a: seq<Byte>, b: seq<Byte>, c: seq<Byte>, offset: nat, u: seq<Byte>, v: seq<Byte>)
    requires Overwritten(a, b, offset, u) && Overwritten(b, c, offset + |u|, v)
    ensures Overwritten(a, c, offset, u + v)
  {
    assert b[..offset + |u|] == a[..offset] + u;
    assert b[offset + |u| + |v|..] == a[offset + |u| + |v|..];
    assert c == a[..offset] + (u + v) + a[offset + |u + v|..];
  }

  /** Writes the intervals of a subtree in order. */
  method SerializeIntervals(node: AvlNode?, destination: array<Byte>, offset: nat) returns (end: nat)
    requires Ok(node) && offset + 16 * |Avl.InOrder(TreeOf(node))| <= destination.Length
    modifies destination
    ensures end == offset + 16 * |Avl.InOrder(TreeOf(node))|
    ensures Overwritten(old(destination[..]), destination[..], offset, EncodeIntervals(Avl.InOrder(TreeOf(node))))
    decreases ReprOf(node)
  {
    hide Ok; hide AvlNode.Valid; hide Overwritten; hide EncodeDouble; hide EncodeInterval; hide EncodeIntervals;
    if node == null {
      NothingOverwritten(destination[..], offset);
      return offset;
    }
    OkValid(node);
    ghost var a, b := Avl.InOrder(TreeOf(node.left)), Avl.InOrder(TreeOf(node.right));
    ghost var k := Interval(node.lower, node.upper);
    EncodeThree(a, k, b);
    ghost var s0 := destination[..];
    var middle := SerializeIntervals(node.left, destination, offset);
    ghost var s1 := destination[..];
    WriteInterval(destination, middle, node.lower, node.upper);
    ghost var s2 := destination[..];
    end := SerializeIntervals(node.right, destination, middle + 16);
    OverwriteNext(s0, s1, s2, offset, EncodeIntervals(a), EncodeInterval(k));
    OverwriteNext(s0, s2, destination[..], offset, EncodeIntervals(a) + EncodeInterval(k), EncodeIntervals(b));
  }

  method WriteInterval(destination: array<Byte>, offset: nat, lower: real, upper: real)
    requires offset + 16 <= destination.Length
    modifies destination
    ensures Overwritten(old(destination[..]), destination[..], offset, EncodeInterval(Interval(lower, upper)))
  {
    hide Overwritten; hide EncodeDouble;
    ghost var s0 := destination[..];
    WriteDouble(destination, offset, lower);
    ghost var s1 := destination[..];
    WriteDouble(destination, offset + 8, upper);
    OverwriteNext(s0, s1, destination[..], offset, EncodeDouble(lower), EncodeDouble(upper));
  }

  lemma NothingOverwritten(s: seq<Byte>, offset: nat)
    requires offset <= |s|
    ensures Overwritten(s, s, offset, [])
  {
    assert s == s[..offset] + [] + s[offset..];
  }

  method WriteDouble(destination: array<Byte>, offset: nat, value: real)
    requires offset + 8 <= destination.Length
    modifies destination
    ensures Overwritten(old(destination[..]), destination[..], offset, EncodeDouble(value))
  {
    hide WriteLe; hide DoubleBits;
    ghost var before := destination[..];
    WriteInto(destination, offset, DoubleBits(value), 8);
    assert before[..offset] == old(destination[..offset]) && before[offset + 8..] == old(destination[offset + 8..]);
  }

  method WriteNumber(destination: array<Byte>, offset: nat, value: nat, size: nat)
    requires offset + size <= destination.Length
    modifies destination
    ensures Overwritten(old(destination[..]), destination[..], offset, WriteLe(value, size))
  {
    hide WriteLe;
    ghost var before := destination[..];
    WriteInto(destination, offset, value, size);
    assert before[..offset] == old(destination[..offset]);
    assert before[offset + size..] == old(destination[offset + size..]);
  }

  lemma {:induction false} FlattenTake(c: seq<seq<Byte>>, k: nat)
    requires k < |c|
    ensures Flatten(c[..k + 1]) == Flatten(c[..k]) + c[k]
  {
    if k == 0 {
      assert c[..1][1..] == [];
    } else {
      assert c[..k + 1][1..] == c[1..][..k] && c[..k][1..] == c[1..][..k - 1];
      FlattenTake(c[1..], k - 1);
    }
  }

  /** The first k fields are in place, and they fill the buffer up to offset. */
  ghost predicate Written(s0: seq<Byte>, s: seq<Byte>, c: seq<seq<Byte>>, k: nat, offset: nat) {
    k <= |c| && |Flatten(c[..k])| == offset && Overwritten(s0, s, 0, Flatten(c[..k]))
  }

  lemma FieldWritten(s0: seq<Byte>, s: seq<Byte>, t: seq<Byte>, c: seq<seq<Byte>>, k: nat, offset: nat)
    requires Written(s0, s, c, k, offset) && k < |c| && Overwritten(s, t, offset, c[k])
    ensures Written(s0, t, c, k + 1, offset + |c[k]|)
  {
    hide Flatten; hide Overwritten;
    FlattenTake(c, k);
    OverwriteNext(s0, s, t, 0, Flatten(c[..k]), c[k]);
  }

  method WriteNumberField(bytes: array<Byte>, offset: nat, value: nat, size: nat,
                          ghost s0: seq<Byte>, ghost c: seq<seq<Byte>>, ghost k: nat)
    requires offset + size <= bytes.Length && Written(s0, bytes[..], c, k, offset)
    requires k < |c| && c[k] == WriteLe(value, size)
    modifies bytes
    ensures Written(s0, bytes[..], c, k + 1, offset + size)
  {
    hide Written; hide WriteLe; hide Overwritten;
    ghost var s := bytes[..];
    WriteNumber(bytes, offset, value, size);
    FieldWritten(s0, s, bytes[..], c, k, offset);
  }

  method WriteDoubleField(bytes: array<Byte>, offset: nat, value: real,
                          ghost s0: seq<Byte>, ghost c: seq<seq<Byte>>, ghost k: nat)
    requires offset + 8 <= bytes.Length && Written(s0, bytes[..], c, k, offset)
    requires k < |c| && c[k] == EncodeDouble(value)
    modifies bytes
    ensures Written(s0, bytes[..], c, k + 1, offset + 8)
  {
    hide Written; hide EncodeDouble; hide Overwritten;
    ghost var s := bytes[..];
    WriteDouble(bytes, offset, value);
    FieldWritten(s0, s, bytes[..], c, k, offset);
  }

  method WriteMagic(bytes: array<Byte>)
    requires bytes.Length >= 8
    modifies bytes
    ensures Overwritten(old(bytes[..]), bytes[..], 0, MAGIC)
  {
    ghost var s0 := bytes[..];
    for i := 0 to 8
      invariant forall j :: 0 <= j < i ==> bytes[j] == MAGIC[j]
      invariant forall j :: i <= j < bytes.Length ==> bytes[j] == s0[j]
    {
      bytes[i] := MAGIC[i];
    }
    assert bytes[..8] == MAGIC && bytes[8..] == s0[8..];
    assert bytes[..] == bytes[..8] + bytes[8..];
  }

  lemma WrittenMagic(s0: seq<Byte>, s: seq<Byte>, c: seq<seq<Byte>>)
    requires Overwritten(s0, s, 0, MAGIC) && c != [] && c[0] == MAGIC
    ensures Written(s0, s, c, 1, 8)
  {
    assert Flatten(c[..1]) == c[0] + Flatten([]);
  }

  /** The header of a snapshot. */
  method WriteHeader(cache: FutCache, bytes: array<Byte>)
    requires cache.intervalCount == |cache.List()| && bytes.Length >= 72
    modifies bytes
    ensures Written(old(bytes[..]), bytes[..], Fields(SnapshotOf(cache)), 11, 72)
    ensures SnapshotOf(cache) == old(SnapshotOf(cache))
  {
    hide Written; hide Overwritten; hide EncodeDouble; hide WriteLe; hide Flatten;
    hide EncodeIntervals; hide Avl.InOrder; hide Fields;
    ghost var s0, c := bytes[..], Fields(SnapshotOf(cache));
    FieldContents(SnapshotOf(cache));
    WriteMagic(bytes);
    WrittenMagic(s0, bytes[..], c);
    WriteNumberField(bytes, 8, VERSION, 2, s0, c, 1);
    WriteNumberField(bytes, 10, HEADER_SIZE, 2, s0, c, 2);
    WriteNumberField(bytes, 12, 0, 4, s0, c, 3);
    WriteDoubleField(bytes, 16, cache.config.epsilon, s0, c, 4);
    WriteDoubleField(bytes, 24, cache.config.domainMin, s0, c, 5);
    WriteDoubleField(bytes, 32, cache.config.domainMax, s0, c, 6);
    WriteNumberField(bytes, 40, cache.observations, 8, s0, c, 7);
    WriteNumberField(bytes, 48, cache.novelObservations, 8, s0, c, 8);
    WriteNumberField(bytes, 56, cache.generation, 8, s0, c, 9);
    WriteNumberField(bytes, 64, cache.intervalCount, 8, s0, c, 10);
  }

  /** The header and the intervals of a snapshot. */
  method WriteBody(cache: FutCache, bytes: array<Byte>) returns (offset: nat)
    requires Ok(cache.root) && cache.intervalCount == |cache.List()|
    requires bytes.Length >= 72 + 16 * cache.intervalCount
    modifies bytes
    ensures offset == 72 + 16 * cache.intervalCount && Ok(cache.root)
    ensures Overwritten(old(bytes[..]), bytes[..], 0, Body(SnapshotOf(cache)))
    ensures SnapshotOf(cache) == old(SnapshotOf(cache))
  {
    hide Written; hide Overwritten; hide EncodeDouble; hide WriteLe; hide Flatten;
    hide EncodeIntervals; hide Avl.InOrder; hide Fields;
    ghost var s0, c := bytes[..], Fields(SnapshotOf(cache));
    FieldContents(SnapshotOf(cache));
    WriteHeader(cache, bytes);
    ghost var s := bytes[..];
    offset := SerializeIntervals(cache.root, bytes, HEADER_SIZE);
    FieldWritten(s0, s, bytes[..], c, 11, 72);
    AllWritten(s0, bytes[..], c, offset);
  }

  lemma AllWritten(s0: seq<Byte>, s: seq<Byte>, c: seq<seq<Byte>>, offset: nat)
    requires Written(s0, s, c, |c|, offset)
    ensures Overwritten(s0, s, 0, Flatten(c))
  {
    assert c[..|c|] == c;
  }

  /** futcache_serialize: reports the size; with a large enough buffer writes the snapshot. */
  method Serialize(cache: FutCache, buffer: array?<Byte>) returns (status: Status, size: nat)
    requires cache.Restored() && cache.config.numbers == DoubleGrid()
    modifies buffer
    ensures status == if cache.intervalCount > MAX_INTERVALS then OutOfRange
                      else if buffer != null && buffer.Length < 76 + 16 * cache.intervalCount then BufferTooSmall
                      else Status.OK
    ensures status != OutOfRange ==> size == 76 + 16 * cache.intervalCount
    ensures status == Status.OK && buffer != null ==>
              && size <= buffer.Length
              && buffer[..size] == Encode(SnapshotOf(cache)) && buffer[size..] == old(buffer[size..])
    ensures SnapshotOf(cache) == old(SnapshotOf(cache))
    ensures status != Status.OK && buffer != null ==> buffer[..] == old(buffer[..])
  {
    hide AvlNode.Valid; hide Canonical; hide Avl.Balanced; hide Encode; hide Avl.InOrder; hide ConfigOk; hide Measure;
    if cache.intervalCount > MAX_INTERVALS {
      return OutOfRange, 0;
    }
    size := HEADER_SIZE + cache.intervalCount * 16 + 4;
    if buffer == null {
      return Status.OK, size;
    }
    if buffer.Length < size {
      return BufferTooSmall, size;
    }
    WriteSnapshot(cache, buffer);
    return Status.OK, size;
  }

  /** The body followed by its checksum. */
  method WriteSnapshot(cache: FutCache, buffer: array<Byte>)
    requires Ok(cache.root) && cache.intervalCount == |cache.List()|
    requires buffer.Length >= 76 + 16 * cache.intervalCount
    modifies buffer
    ensures SnapshotOf(cache) == old(SnapshotOf(cache))
    ensures Overwritten(old(buffer[..]), buffer[..], 0, Encode(SnapshotOf(cache)))
    ensures |Encode(SnapshotOf(cache))| == 76 + 16 * cache.intervalCount
  {
    hide Avl.InOrder; hide Body; hide WriteLe; hide Crc32.Crc; hide Overwritten; hide ValueOf;
    ghost var s0, body := buffer[..], Body(SnapshotOf(cache));
    BodySize(SnapshotOf(cache));
    var offset := WriteBody(cache, buffer);
    ghost var s1 := buffer[..];
    OverwrittenPrefix(s0, s1, body);
    var crc := Crc32.Crc32Bytes(buffer, offset);
    WriteNumber(buffer, offset, ValueOf(crc), 4);
    OverwriteNext(s0, s1, buffer[..], 0, body, Checksum(body));
  }

  lemma OverwrittenPrefix(s0: seq<Byte>, s: seq<Byte>, bytes: seq<Byte>)
    requires Overwritten(s0, s, 0, bytes)
    ensures |bytes| <= |s| && s[..|bytes|] == bytes
  {
  }

  lemma BodySize(s: Snapshot)
    ensures |Body(s)| == 72 + 16 * |s.intervals|
  {
    FieldOffsets(s);
  }

  // ---------------------------------------------------------------- reading

  lemma AppendLoaded(s: seq<Interval>, k: Interval)
    requires Canonical(s) && k.lo <= k.hi && (s != [] ==> s[|s| - 1].hi < k.lo)
    ensures Canonical(SeqInsert(s, k)) && SeqInsert(s, k) == s + [k]
    ensures Measure(SeqInsert(s, k)) == Measure(s) + (k.hi - k.lo)
  {
    SnocCanonical(s, k);
    InsertLast(s, k);
    InsertMeasure(s, k);
  }

  /** Links one interval read from a snapshot after the ones before it. */
  method LoadInterval(cache: FutCache, lower: real, upper: real)
    requires cache.StructureOk() && cache.intervalCount < U64_MAX
    requires cache.config.domainMin <= lower <= upper <= cache.config.domainMax
    requires cache.List() != [] ==> cache.List()[|cache.List()| - 1].hi < lower
    modifies cache`root, cache`coveredMeasure, cache`intervalCount, ReprOf(cache.root)
    ensures cache.StructureOk() && fresh(ReprOf(cache.root) - old(ReprOf(cache.root)))
    ensures cache.List() == old(cache.List()) + [Interval(lower, upper)]
  {
    hide AvlNode.Valid; hide AvlNodes.Ok; hide Avl.Balanced; hide Avl.InOrder; hide Canonical;
    ProperParts(TreeOf(cache.root), cache.config.domainMin, cache.config.domainMax);
    AppendLoaded(cache.List(), Interval(lower, upper));
    var node := new AvlNode(lower, upper);
    NodeIsOk(node);
    cache.Link(node);
  }

  /** One step of the interval decoder, in terms of the whole buffer. */
  lemma DecodePair(b: seq<Byte>, n: nat, index: nat, domainMin: real, domainMax: real, s: seq<Interval>)
    requires |b| == 16 * n && index < n
    ensures var lo, hi := DecodeDouble(b[16 * index..16 * index + 8]), DecodeDouble(b[16 * index + 8..16 * index + 16]);
            DecodeIntervals(b[16 * index..], n - index, domainMin, domainMax, s)
            == if BadPairOf(lo, hi, domainMin, domainMax, s) then Malformed
               else DecodeIntervals(b[16 * (index + 1)..], n - (index + 1), domainMin, domainMax,
                                    s + [Interval(lo.value, hi.value)])
  {
    hide FromBits; hide DecodeDouble;
    var rest := b[16 * index..];
    assert rest[..8] == b[16 * index..16 * index + 8] && rest[8..16] == b[16 * index + 8..16 * index + 16];
    assert rest[16..] == b[16 * (index + 1)..];
  }

  predicate BadPairOf(lo: Double, hi: Double, domainMin: real, domainMax: real, s: seq<Interval>) {
    lo.Special? || hi.Special? || lo.value > hi.value || lo.value < domainMin || hi.value > domainMax
    || (s != [] && s[|s| - 1].hi >= lo.value)
  }

  lemma DecodeNone(b: seq<Byte>, domainMin: real, domainMax: real, s: seq<Interval>)
    requires b == []
    ensures DecodeIntervals(b, 0, domainMin, domainMax, s) == Decoded(s)
  {
  }

  datatype Load = Loaded | BadPair | Exhausted

  /** Reads n interval pairs into an empty cache, stopping at the first malformed one or when
      an allocation fails. */
  method LoadIntervals(cache: FutCache, b: seq<Byte>, n: nat, allocations: nat) returns (r: Load)
    requires cache.StructureOk() && cache.List() == [] && |b| == 16 * n && n <= MAX_INTERVALS
    modifies cache`root, cache`coveredMeasure, cache`intervalCount, ReprOf(cache.root)
    ensures cache.StructureOk() && fresh(ReprOf(cache.root) - old(ReprOf(cache.root)))
    ensures r == Loaded <==>
              DecodeIntervals(b, n, cache.config.domainMin, cache.config.domainMax, []).Decoded? && n <= allocations
    ensures r == Loaded ==>
              DecodeIntervals(b, n, cache.config.domainMin, cache.config.domainMax, []) == Decoded(cache.List())
    ensures r == Exhausted <==>
              && allocations < n
              && DecodeIntervals(b[..16 * (allocations + 1)], allocations + 1, cache.config.domainMin,
                                 cache.config.domainMax, []).Decoded?
    ensures r == BadPair ==>
              DecodeIntervals(b, n, cache.config.domainMin, cache.config.domainMax, []) == Malformed
  {
    hide AvlNode.Valid; hide AvlNodes.Ok; hide Avl.Balanced; hide Avl.InOrder; hide Canonical; hide Measure;
    hide DecodeDouble; hide Avl.Proper; hide DecodeIntervals;
    ghost var min, max := cache.config.domainMin, cache.config.domainMax;
    ghost var m := if allocations < n then allocations + 1 else n;
    ghost var c := b[..16 * m];
    var index := 0;
    var hasPrevious, previousUpper := false, 0.0;
    assert b[0..] == b && c[0..] == c;
    while index < n
      invariant 0 <= index <= n && index <= allocations
      invariant cache.StructureOk() && fresh(ReprOf(cache.root) - old(ReprOf(cache.root)))
      invariant |cache.List()| == index && hasPrevious == (index > 0)
      invariant hasPrevious ==> previousUpper == cache.List()[index - 1].hi
      invariant DecodeIntervals(b, n, min, max, [])
                == DecodeIntervals(b[16 * index..], n - index, min, max, cache.List())
      invariant DecodeIntervals(c, m, min, max, [])
                == DecodeIntervals(c[16 * index..], m - index, min, max, cache.List())
    {
      var lower, upper := DecodeDouble(b[16 * index..16 * index + 8]), DecodeDouble(b[16 * index + 8..16 * index + 16]);
      DecodePair(b, n, index, min, max, cache.List());
      DecodePair(c, m, index, min, max, cache.List());
      assert c[16 * index..16 * index + 8] == b[16 * index..16 * index + 8];
      assert c[16 * index + 8..16 * index + 16] == b[16 * index + 8..16 * index + 16];
      if lower.Special? || upper.Special? || lower.value > upper.value
         || lower.value < cache.config.domainMin || upper.value > cache.config.domainMax
         || (hasPrevious && previousUpper >= lower.value) {
        return BadPair;
      }
      if index == allocations {
        DecodeNone(c[16 * m..], min, max, cache.List() + [Interval(lower.value, upper.value)]);
        return Exhausted;
      }
      LoadInterval(cache, lower.value, upper.value);
      previousUpper := upper.value;
      hasPrevious := true;
      index := index + 1;
    }
    DecodeNone(b[16 * n..], min, max, cache.List());
    return Loaded;
  }

  /** The parameters of an intact frame make an acceptable configuration. */
  lemma ParametersMakeConfig(b: seq<Byte>)
    requires |b| >= 76
    requires ParametersOk(DecodeDouble(b[16..24]), DecodeDouble(b[24..32]), DecodeDouble(b[32..40]))
    ensures ConfigOk(Config(DoubleGrid(), DecodeDouble(b[24..32]).value, DecodeDouble(b[32..40]).value,
                            DecodeDouble(b[16..24]).value))
  {
    hide DoubleGrid; hide FromBits; hide Round; hide ReadLe; hide Sensible; hide Has;
    GridIsSensible();
    FiniteIsOnGrid(ReadLe(b[16..24]));
    FiniteIsOnGrid(ReadLe(b[24..32]));
    FiniteIsOnGrid(ReadLe(b[32..40]));
  }

  lemma DecodedIsOnGrid(b: seq<Byte>, n: nat, domainMin: real, domainMax: real, s: seq<Interval>)
    requires |b| == 16 * n && DecodeIntervals(b, n, domainMin, domainMax, []) == Decoded(s)
    ensures AllHas(DoubleGrid(), s) && |s| == n
  {
    hide DoubleGrid; hide DecodeIntervals; hide Has;
    IntervalsSound(b, n, domainMin, domainMax, []);
  }

  /** A loaded tree passes the validator exactly when the telemetry does. */
  method CheckLoaded(cache: FutCache) returns (status: Status)
    requires cache.StructureOk()
    ensures status
            == (if TelemetryOk(cache.intervalCount, cache.observations, cache.novelObservations, cache.generation)
                then Status.OK else CorruptData)
  {
    hide Ok; hide AvlNode.Valid; hide Avl.Proper; hide Avl.InOrder; hide Measure;
    NoDifference(Measure(cache.List()));
    status := cache.Validate();
  }

  lemma NoDifference(m: real)
    ensures Distance(m, m) <= Tolerance(m)
  {
  }

  /** One allocation for the cache and one for each interval are not enough, and what is read until
      they run out is acceptable. */
  predicate Exhausts(b: seq<Byte>, count: nat, allocations: nat)
    requires |b| == 76 + 16 * count
  {
    var epsilon, domainMin, domainMax := DecodeDouble(b[16..24]), DecodeDouble(b[24..32]), DecodeDouble(b[32..40]);
    && allocations <= count && ParametersOk(epsilon, domainMin, domainMax) && ReadLe(b[48..56]) <= ReadLe(b[40..48])
    && DecodeIntervals(b[72..72 + 16 * allocations], allocations, domainMin.value, domainMax.value, []).Decoded?
  }

  /** Everything after the frame is known to be intact: creates the cache, loads the intervals
      and the telemetry, and validates the result. */
  method DecodeCache(b: seq<Byte>, count: nat, allocations: nat) returns (status: Status, cache: FutCache?)
    requires |b| == 76 + 16 * count && count <= MAX_INTERVALS
    ensures status == Status.OK <==> DecodeState(b, count).Accepted? && count < allocations
    ensures status == Status.OK ==> cache != null && fresh(cache) && cache.Restored()
    ensures status == Status.OK ==> cache.config.numbers == DoubleGrid()
    ensures status == Status.OK ==> SnapshotOf(cache) == DecodeState(b, count).value
    ensures status == CorruptData ==> DecodeState(b, count) == Rejected(Corrupt)
    ensures status == OutOfMemory <==> Exhausts(b, count, allocations)
    ensures status == Status.OK || status == CorruptData || status == OutOfMemory
    ensures status != Status.OK ==> cache == null
  {
    hide Ok; hide AvlNode.Valid; hide Avl.Proper; hide Avl.InOrder; hide DoubleGrid; hide DecodeDouble;
    hide DecodeIntervals;
    hide ReadLe; hide ConfigOk; hide ParametersOk; hide Measure; hide TelemetryOk; hide AllHas;
    var epsilon, domainMin, domainMax := DecodeDouble(b[16..24]), DecodeDouble(b[24..32]), DecodeDouble(b[32..40]);
    if !ParametersOk(epsilon, domainMin, domainMax) || ReadLe(b[48..56]) > ReadLe(b[40..48]) {
      return CorruptData, null;
    }
    ParametersAreFinite(epsilon, domainMin, domainMax);
    if allocations == 0 {
      DecodeNone(b[72..72], domainMin.value, domainMax.value, []);
      return OutOfMemory, null;
    }
    ParametersMakeConfig(b);
    var c := new FutCache(Config(DoubleGrid(), domainMin.value, domainMax.value, epsilon.value));
    EmptyStart(c);
    var load := LoadIntervals(c, b[72..|b| - 4], count, allocations - 1);
    assert allocations <= count ==> b[72..|b| - 4][..16 * allocations] == b[72..72 + 16 * allocations];
    if load == BadPair {
      return CorruptData, null;
    }
    if load == Exhausted {
      return OutOfMemory, null;
    }
    DecodedIsOnGrid(b[72..|b| - 4], count, domainMin.value, domainMax.value, c.List());
    c.observations := ReadLe(b[40..48]);
    c.novelObservations := ReadLe(b[48..56]);
    c.generation := ReadLe(b[56..64]);
    status := CheckLoaded(c);
    if status != Status.OK {
      return status, null;
    }
    LoadedIsRestored(c, b);
    return Status.OK, c;
  }

  lemma ParametersAreFinite(epsilon: Double, domainMin: Double, domainMax: Double)
    requires ParametersOk(epsilon, domainMin, domainMax)
    ensures epsilon.Finite64? && domainMin.Finite64? && domainMax.Finite64?
  {
  }

  lemma EmptyStart(c: FutCache)
    requires c.Valid() && c.root == null
    ensures c.StructureOk() && c.List() == []
  {
  }

  lemma LoadedIsRestored(c: FutCache, b: seq<Byte>)
    requires c.StructureOk() && ConfigOk(c.config) && AllHas(c.config.numbers, c.List())
    requires TelemetryOk(c.intervalCount, c.observations, c.novelObservations, c.generation)
    requires |b| >= 76 && c.generation == ReadLe(b[56..64])
    ensures c.Restored()
  {
    hide Ok; hide AvlNode.Valid; hide Avl.Proper; hide AllHas; hide ConfigOk; hide ReadLe;
    EightBytes(b[56..64]);
  }

  /** futcache_deserialize: the reader over a buffer, one allocation for the cache and one for
      each interval. */
  method Deserialize(data: array?<Byte>, allocations: nat) returns (status: Status, cache: FutCache?)
    ensures status == Status.OK <==>
              data != null && Decode(data[..]).Accepted? && |Decode(data[..]).value.intervals| < allocations
    ensures status == Status.OK ==> cache != null && fresh(cache) && cache.Restored()
    ensures status == Status.OK ==> cache.config.numbers == DoubleGrid()
    ensures status == Status.OK ==> SnapshotOf(cache) == Decode(data[..]).value
    ensures status == InvalidArgument <==> data == null || Decode(data[..]) == Rejected(TooShort)
    ensures status == CorruptData ==> Decode(data[..]) == Rejected(Corrupt)
    ensures status == OutOfMemory <==>
              && data != null && data.Length >= 76 && HeaderOk(data[..]) && FrameOk(data[..]) && ChecksumOk(data[..])
              && Exhausts(data[..], ReadLe(data[64..72]), allocations)
    ensures status != Status.OK ==> cache == null
  {
    hide HeaderOk; hide DoubleGrid; hide DecodeState; hide ReadLe; hide Crc32.Crc; hide FutCache.Restored; hide ValueOf;
    if data == null || data.Length < HEADER_SIZE + 4 {
      return InvalidArgument, null;
    }
    var b := data[..];
    if !HeaderOk(b) {
      return CorruptData, null;
    }
    var count := ReadLe(b[64..72]);
    if count > SIZE_MAX || count > MAX_INTERVALS || |b| != HEADER_SIZE + count * 16 + 4 {
      return CorruptData, null;
    }
    var crc := Crc32.Crc32Bytes(data, |b| - 4);
    assert data[..|b| - 4] == b[..|b| - 4];
    if ReadLe(b[|b| - 4..]) != ValueOf(crc) {
      return CorruptData, null;
    }
    AcceptedCount(b, count);
    status, cache := DecodeCache(b, count, allocations);
  }

  lemma AcceptedCount(b: seq<Byte>, count: nat)
    requires |b| == 76 + 16 * count
    ensures DecodeState(b, count).Accepted? ==> |DecodeState(b, count).value.intervals| == count
    ensures DecodeState(b, count) != Rejected(TooShort)
  {
    hide DecodeDouble; hide DecodeIntervals; hide ReadLe; hide DoubleGrid; hide ParametersOk;
    if DecodeState(b, count).Accepted? {
      ParametersAreFinite(DecodeDouble(b[16..24]), DecodeDouble(b[24..32]), DecodeDouble(b[32..40]));
      IntervalsSound(b[72..|b| - 4], count, DecodeDouble(b[24..32]).value, DecodeDouble(b[32..40]).value, []);
    }
  }

  /** Saving a reachable cache and loading it back gives a cache that carries the same history,
      answers alike from then on and saves to the same bytes. */
  method SaveAndLoad(cache: FutCache) returns (bytes: array<Byte>, copy: FutCache)
    requires cache.Valid() && cache.config.numbers == DoubleGrid() && cache.intervalCount <= MAX_INTERVALS
    ensures fresh(copy) && copy.Valid() && copy.config == cache.config
    ensures copy.points == cache.points && copy.novel == cache.novel && copy.List() == cache.List()
    ensures bytes[..] == Encode(SnapshotOf(cache)) == Encode(SnapshotOf(copy))
  {
    hide AvlNode.Valid; hide Avl.Proper; hide Avl.InOrder; hide DoubleGrid; hide Encode; hide HistoryOk; hide Decode;
    hide ConfigOk; hide Storable; hide AllHas; hide Measure;
    cache.ValidIsRestored();
    StateIsStorable(cache);
    var status, size := Serialize(cache, null);
    bytes := new Byte[size](_ => 0);
    status, size := Serialize(cache, bytes);
    assert bytes[..] == bytes[..size];
    RoundTrip(SnapshotOf(cache));
    var loaded, c := Deserialize(bytes, cache.intervalCount + 1);
    copy := c;
    copy.Adopt(cache.points, cache.novel);
  }
}

/**
 * The sharded map `ConcurrentHashMap`: a fixed, power-of-two number of
 * independent tables ("segments"). A key's 64-bit hash selects exactly one
 * segment, and every operation on that key is the plain table operation on
 * that segment. Locks are not modelled: each operation is one step on one
 * segment. The abstract value of the whole map is Flatten(segments).
 */
module ConcurrentMap {
  import opened Options
  import opened RustInts
  import opened Segments

  const DEFAULT_INITIAL_CAPACITY: usize := 64
  const DEFAULT_SEGMENT_COUNT: usize := 16

  /** A segment count the map can have: a power of two that fits a usize. */
  predicate ValidSegmentCount(n: nat)
  {
    IsPowerOfTwo(n) && n <= MAX_POWER_OF_TWO
  }

  // ---------------------------------------------------------------------
  // Routing

  /** `get_segment`: shift the hash right by 64 - log2(segmentCount), then
      mask with segmentCount - 1. The shift is the logical one, which is 0
      when all 64 bits are shifted out (one segment); GetSegmentAsWritten
      is the debug-build operator. */
  function GetSegment(hash: u64, segmentCount: nat): (index: nat)
    requires ValidSegmentCount(segmentCount)
    ensures index < segmentCount
    ensures index == ShiftRight(hash, USIZE_BITS - TrailingZeros(segmentCount))
  {
    PowerOfTwoExponent(segmentCount);
    var bits := TrailingZeros(segmentCount);
    var shifted := ShiftRight(hash, USIZE_BITS - bits);
    TopBitsBound(hash, bits);
    BitAndLowMask(shifted, bits);
    BitAnd(shifted, segmentCount - 1)
  }

  /** For 2^b segments a hash goes to the segment numbered by its top b
      bits: the mask never changes the shifted value. */
  lemma GetSegmentIsTopBits(hash: u64, b: nat)
    requires b < USIZE_BITS
    ensures ValidSegmentCount(Pow2(b))
    ensures GetSegment(hash, Pow2(b)) == ShiftRight(hash, USIZE_BITS - b)
  {
    Pow2SegmentCount(b);
  }

  /** 2^b, for b below 64, is a segment count with b trailing zeros. */
  lemma Pow2SegmentCount(b: nat)
    requires b < USIZE_BITS
    ensures ValidSegmentCount(Pow2(b)) && Pow2(b) < U64_LIMIT && TrailingZeros(Pow2(b)) == b
  {
    Pow2Exponent(b);
    Pow2Monotone(b, USIZE_BITS - 1);
    Pow2Limits();
  }

  /** `get_segment` as written, with `>>` overflow-checked as in a debug
      build: None stands for the panic "attempt to shift right with
      overflow". */
  function GetSegmentAsWritten(hash: u64, segmentCount: nat): (r: Option<nat>)
    requires ValidSegmentCount(segmentCount)
    ensures r.None? <==> segmentCount == 1
    ensures r.Some? ==> r.value < segmentCount
  {
    PowerOfTwoExponent(segmentCount);
    var bits := TrailingZeros(segmentCount);
    var shiftSize := USIZE_BITS - bits;
    match CheckedShiftRight(hash, shiftSize)
    case None => None
    case Some(shifted) =>
      TopBitsBound(hash, bits);
      BitAndLowMask(shifted, bits);
      Some(BitAnd(shifted, segmentCount - 1))
  }

  /** On every segment count but 1 (where, by its contract, the written
      shift overflows) `get_segment` as written agrees with GetSegment. */
  lemma GetSegmentAsWrittenOverflows(hash: u64, segmentCount: nat)
    requires ValidSegmentCount(segmentCount)
    ensures segmentCount != 1 ==> GetSegmentAsWritten(hash, segmentCount) == Some(GetSegment(hash, segmentCount))
  {
    PowerOfTwoExponent(segmentCount);
    if segmentCount != 1 {
      assert TrailingZeros(segmentCount) != 0;
    }
  }

  /** Every key held by segment i routes to i. */
  ghost predicate Routed<K, V>(segments: seq<map<K, V>>, hash: K -> u64)
  {
    && ValidSegmentCount(|segments|)
    && forall i, k :: 0 <= i < |segments| && k in segments[i] ==> GetSegment(hash(k), |segments|) == i
  }

  /** Routing puts each key in at most one segment. */
  lemma RoutedIsDisjoint<K, V>(segments: seq<map<K, V>>, hash: K -> u64)
    requires Routed(segments, hash)
    ensures Disjoint(segments)
  {
    forall i, j, k | 0 <= i < |segments| && 0 <= j < |segments| && k in segments[i] && k in segments[j]
      ensures i == j
    {
      assert GetSegment(hash(k), |segments|) == i;
    }
  }

  /** A key is in the abstract map exactly when its own segment holds it,
      with that segment's value. */
  lemma RoutedLookup<K, V>(segments: seq<map<K, V>>, hash: K -> u64, key: K)
    requires Routed(segments, hash)
    ensures var i := GetSegment(hash(key), |segments|);
      && (key in Flatten(segments) <==> key in segments[i])
      && (key in segments[i] ==> Flatten(segments)[key] == segments[i][key])
  {
    var i := GetSegment(hash(key), |segments|);
    RoutedIsDisjoint(segments, hash);
    FlattenMember(segments, key);
    if key in segments[i] {
      FlattenValue(segments, i, key);
    }
  }

  /** Storing into the routed segment keeps the routing and stores into the
      abstract map. */
  lemma RoutedInsert<K, V>(segments: seq<map<K, V>>, hash: K -> u64, key: K, value: V)
    requires Routed(segments, hash)
    ensures var i := GetSegment(hash(key), |segments|);
      var segments' := segments[i := segments[i][key := value]];
      Routed(segments', hash) && Flatten(segments') == Flatten(segments)[key := value]
  {
    var i := GetSegment(hash(key), |segments|);
    var segments' := segments[i := segments[i][key := value]];
    assert Routed(segments', hash);
    var after, expected := Flatten(segments'), Flatten(segments)[key := value];
    forall k
      ensures (k in after <==> k in expected) && (k in after ==> after[k] == expected[k])
    {
      RoutedLookup(segments', hash, k);
      RoutedLookup(segments, hash, k);
    }
    MapExtensionality(after, expected);
  }

  /** Removing from the routed segment keeps the routing and removes from
      the abstract map. */
  lemma RoutedRemove<K, V>(segments: seq<map<K, V>>, hash: K -> u64, key: K)
    requires Routed(segments, hash)
    ensures var i := GetSegment(hash(key), |segments|);
      var segments' := segments[i := segments[i] - {key}];
      Routed(segments', hash) && Flatten(segments') == Flatten(segments) - {key}
  {
    var i := GetSegment(hash(key), |segments|);
    var segments' := segments[i := segments[i] - {key}];
    assert Routed(segments', hash);
    var after, expected := Flatten(segments'), Flatten(segments) - {key};
    forall k
      ensures (k in after <==> k in expected) && (k in after ==> after[k] == expected[k])
    {
      RoutedLookup(segments', hash, k);
      RoutedLookup(segments, hash, k);
    }
    MapExtensionality(after, expected);
  }

  // ---------------------------------------------------------------------
  // Construction

  /** The `for` loop of `with_options` that pushes one empty table per
      segment. */
  method EmptySegments<K, V>(count: nat) returns (segments: seq<map<K, V>>)
    ensures |segments| == count
    ensures forall i :: 0 <= i < count ==> segments[i] == map[]
  {
    segments := [];
    for i := 0 to count
      invariant |segments| == i
      invariant forall j :: 0 <= j < i ==> segments[j] == map[]
    {
      segments := segments + [map[]];
    }
  }

  /** The sizes `with_options` computes fit their types: the segment count
      is a valid one, and each segment's share of the capacity can be
      rounded up to a power of two without overflow. The share is only too
      large when there is one segment. */
  lemma SegmentSizesFit(capacity: usize, concurrencyLevel: usize)
    requires concurrencyLevel <= MAX_POWER_OF_TWO
    requires concurrencyLevel <= 1 ==> capacity <= MAX_POWER_OF_TWO
    ensures ValidSegmentCount(NextPowerOfTwo(concurrencyLevel))
    ensures Div(capacity, NextPowerOfTwo(concurrencyLevel)) <= MAX_POWER_OF_TWO
    ensures NextPowerOfTwo(Div(capacity, NextPowerOfTwo(concurrencyLevel))) < U64_LIMIT
  {
    NextPowerOfTwoFits(concurrencyLevel);
    var count := NextPowerOfTwo(concurrencyLevel);
    var share := Div(capacity, count);
    if count > 1 && share > MAX_POWER_OF_TWO {
      MulMonotone(share, 2, count);
      assert false;
    }
    NextPowerOfTwoFits(share);
  }

  /** The default sizes: 16 segments of capacity 64 / 16 = 4 each. */
  lemma DefaultSizes()
    ensures NextPowerOfTwo(DEFAULT_SEGMENT_COUNT) == DEFAULT_SEGMENT_COUNT
    ensures ValidSegmentCount(DEFAULT_SEGMENT_COUNT)
    ensures NextPowerOfTwo(Div(DEFAULT_INITIAL_CAPACITY, DEFAULT_SEGMENT_COUNT)) == 4
  {
    assert NextPowerOfTwo(2) == 2;
    assert NextPowerOfTwo(4) == 4;
    assert NextPowerOfTwo(8) == 8;
  }

  /** Empty tables are routed, whatever the hash. */
  lemma EmptyIsRouted<K, V>(segments: seq<map<K, V>>, hash: K -> u64)
    requires ValidSegmentCount(|segments|)
    requires forall i :: 0 <= i < |segments| ==> segments[i] == map[]
    ensures Routed(segments, hash) && Flatten(segments) == map[]
  {
    FlattenOfEmpty(segments);
  }

  // ---------------------------------------------------------------------
  // The map

  class ConcurrentHashMap<K(==), V> {
    /** The map's hash configuration: the 64-bit hash of every key. */
    const hashBuilder: K -> u64
    /** The capacity each segment's table was pre-sized to. */
    const segmentCapacity: usize
    /** One table per segment, in index order. */
    var segments: seq<map<K, V>>

    ghost predicate Valid()
      reads this
    {
      Routed(segments, hashBuilder)
    }

    /** The single map all segments together stand for. */
    ghost function Contents(): map<K, V>
      reads this
    {
      Flatten(segments)
    }

    /** `hash` followed by `get_segment`: the segment a key belongs to. */
    function SegmentOf(key: K): (i: nat)
      reads this
      requires Valid()
      ensures i < |segments|
    {
      GetSegment(hashBuilder(key), |segments|)
    }

    constructor WithOptions(capacity: usize, hashBuilder: K -> u64, concurrencyLevel: usize)
      requires concurrencyLevel <= MAX_POWER_OF_TWO
      requires concurrencyLevel <= 1 ==> capacity <= MAX_POWER_OF_TWO
      ensures Valid() && Contents() == map[]
      ensures |segments| == NextPowerOfTwo(concurrencyLevel)
      ensures forall i :: 0 <= i < |segments| ==> segments[i] == map[]
      ensures segmentCapacity == NextPowerOfTwo(Div(capacity, |segments|))
      ensures this.hashBuilder == hashBuilder
    {
      var count := NextPowerOfTwo(concurrencyLevel);
      SegmentSizesFit(capacity, concurrencyLevel);
      this.hashBuilder := hashBuilder;
      segmentCapacity := NextPowerOfTwo(Div(capacity, count));
      var tables := EmptySegments(count);
      EmptyIsRouted(tables, hashBuilder);
      segments := tables;
    }

    /** `default`: 16 segments, each pre-sized for 64 / 16 entries. */
    constructor Default(hashBuilder: K -> u64)
      ensures Valid() && Contents() == map[]
      ensures |segments| == DEFAULT_SEGMENT_COUNT
      ensures forall i :: 0 <= i < |segments| ==> segments[i] == map[]
      ensures segmentCapacity == 4
      ensures this.hashBuilder == hashBuilder
    {
      var count := NextPowerOfTwo(DEFAULT_SEGMENT_COUNT);
      DefaultSizes();
      this.hashBuilder := hashBuilder;
      segmentCapacity := NextPowerOfTwo(Div(DEFAULT_INITIAL_CAPACITY, count));
      var tables := EmptySegments(count);
      EmptyIsRouted(tables, hashBuilder);
      segments := tables;
    }

    /** `new`, which calls `default`: the same body and contract as Default. */
    constructor New(hashBuilder: K -> u64)
      ensures Valid() && Contents() == map[]
      ensures |segments| == DEFAULT_SEGMENT_COUNT
      ensures forall i :: 0 <= i < |segments| ==> segments[i] == map[]
      ensures segmentCapacity == 4
      ensures this.hashBuilder == hashBuilder
    {
      var count := NextPowerOfTwo(DEFAULT_SEGMENT_COUNT);
      DefaultSizes();
      this.hashBuilder := hashBuilder;
      segmentCapacity := NextPowerOfTwo(Div(DEFAULT_INITIAL_CAPACITY, count));
      var tables := EmptySegments(count);
      EmptyIsRouted(tables, hashBuilder);
      segments := tables;
    }

    /** `insert`: store value under key, returning the value it replaced. */
    method Insert(key: K, value: V) returns (previous: Option<V>)
      requires Valid()
      modifies this
      ensures Valid() && |segments| == |old(segments)|
      ensures previous == if key in old(Contents()) then Some(old(Contents())[key]) else None
      ensures Contents() == old(Contents())[key := value]
      ensures forall i :: 0 <= i < |segments| && i != SegmentOf(key) ==> segments[i] == old(segments[i])
    {
      var i := GetSegment(hashBuilder(key), |segments|);
      var table := segments[i];
      previous := if key in table then Some(table[key]) else None;
      RoutedLookup(segments, hashBuilder, key);
      RoutedInsert(segments, hashBuilder, key, value);
      segments := segments[i := table[key := value]];
    }

    /** `contains`: whether key is in the map. */
    function Contains(key: K): (present: bool)
      reads this
      requires Valid()
      ensures present <==> key in Contents()
    {
      RoutedLookup(segments, hashBuilder, key);
      key in segments[GetSegment(hashBuilder(key), |segments|)]
    }

    /** `remove`: take key out of the map, returning its value. */
    method Remove(key: K) returns (removed: Option<V>)
      requires Valid()
      modifies this
      ensures Valid() && |segments| == |old(segments)|
      ensures removed == if key in old(Contents()) then Some(old(Contents())[key]) else None
      ensures Contents() == old(Contents()) - {key}
      ensures forall i :: 0 <= i < |segments| && i != SegmentOf(key) ==> segments[i] == old(segments[i])
    {
      var i := GetSegment(hashBuilder(key), |segments|);
      var table := segments[i];
      removed := if key in table then Some(table[key]) else None;
      RoutedLookup(segments, hashBuilder, key);
      RoutedRemove(segments, hashBuilder, key);
      segments := segments[i := table - {key}];
    }

    /** `get`: the value stored under key, read through its guard. */
    function Get(key: K): (r: Option<V>)
      reads this
      requires Valid()
      ensures r.Some? <==> key in Contents()
      ensures r.Some? ==> r.value == Contents()[key]
    {
      RoutedLookup(segments, hashBuilder, key);
      var table := segments[GetSegment(hashBuilder(key), |segments|)];
      if key in table then Some(table[key]) else None
    }

    /** `get_mut` followed by a write through the returned guard: when key
        is present its value becomes update(value); found says whether a
        guard was returned. */
    method GetMut(key: K, update: V -> V) returns (found: bool)
      requires Valid()
      modifies this
      ensures Valid() && |segments| == |old(segments)|
      ensures found <==> key in old(Contents())
      ensures Contents() == if found then old(Contents())[key := update(old(Contents())[key])] else old(Contents())
      ensures forall i :: 0 <= i < |segments| && i != SegmentOf(key) ==> segments[i] == old(segments[i])
    {
      var i := GetSegment(hashBuilder(key), |segments|);
      var table := segments[i];
      RoutedLookup(segments, hashBuilder, key);
      found := key in table;
      if found {
        RoutedInsert(segments, hashBuilder, key, update(table[key]));
        segments := segments[i := table[key := update(table[key])]];
      }
    }

    /** `into_iter`: hand the segments' tables, in index order, to a
        draining iterator. */
    method IntoIter() returns (it: ConcurrentHashMapIter<K, V>)
      requires Valid()
      ensures fresh(it) && it.Valid()
      ensures it.segments == segments && it.Yielded() == [] && it.Remaining() == Contents()
    {
      RoutedIsDisjoint(segments, hashBuilder);
      it := new ConcurrentHashMapIter(segments);
    }
  }

  // ---------------------------------------------------------------------
  // Draining iteration

  /** Where a drain of the tables `segments` stands: it has started on the
      first `started` tables, `front` is what is left of the last one it
      started, and parts[i] is what it has yielded from table i. */
  ghost predicate DrainState<K, V>(segments: seq<map<K, V>>, started: nat, front: map<K, V>, parts: seq<seq<(K, V)>>)
  {
    && Disjoint(segments)
    && started <= |segments| && |parts| == started
    && (started == 0 ==> front == map[])
    && (forall i :: 0 <= i < started - 1 ==> Enumerates(parts[i], segments[i]))
    && (started > 0 ==>
          && SubMap(front, segments[started - 1])
          && Enumerates(parts[started - 1], segments[started - 1] - front.Keys))
  }

  /** Moving on to the next table when the front one is used up yields
      nothing. */
  lemma DrainStart<K, V>(segments: seq<map<K, V>>, started: nat, parts: seq<seq<(K, V)>>)
    requires DrainState(segments, started, map[], parts) && started < |segments|
    ensures DrainState(segments, started + 1, segments[started], parts + [[]])
    ensures Concat(parts + [[]]) == Concat(parts)
  {
    if started > 0 {
      var empty: map<K, V> := map[];
      assert segments[started - 1] - empty.Keys == segments[started - 1];
      assert Enumerates(parts[started - 1], segments[started - 1]);
    }
    ConcatAppendEmpty(parts);
    assert segments[started] - segments[started].Keys == map[];
    var parts' := parts + [[]];
    assert forall i :: 0 <= i < started ==> parts'[i] == parts[i];
  }

  /** A key left in the front table has not been yielded, and the whole
      map holds it with the same value. */
  lemma FrontNotYielded<K, V>(segments: seq<map<K, V>>, started: nat, front: map<K, V>, parts: seq<seq<(K, V)>>, k: K)
    requires DrainState(segments, started, front, parts) && k in front
    ensures started > 0
    ensures k !in KeysOf(Concat(parts))
    ensures k in Flatten(segments) && Flatten(segments)[k] == front[k]
  {
    forall p | p in Concat(parts)
      ensures p.0 != k
    {
      ConcatMember(parts, p);
    }
    FlattenValue(segments, started - 1, k);
  }

  /** Taking an entry from the front table moves it to the last part. */
  lemma TakeKeepsState<K, V>(segments: seq<map<K, V>>, started: nat, front: map<K, V>, parts: seq<seq<(K, V)>>, k: K)
    requires DrainState(segments, started, front, parts) && k in front
    ensures started > 0
    ensures DrainState(segments, started, front - {k}, parts[started - 1 := parts[started - 1] + [(k, front[k])]])
  {
    var n := started - 1;
    var v := front[k];
    var parts' := parts[n := parts[n] + [(k, v)]];
    var done := segments[n] - front.Keys;
    EnumeratesAppend(parts[n], done, [(k, v)], map[k := v]);
    assert done + map[k := v] == segments[n] - (front - {k}).Keys;
    assert forall i :: 0 <= i < n ==> parts'[i] == parts[i];
  }

  /** Taking one more key out of a map: m - (s + {k}) is (m - s) - {k}. */
  lemma RemoveOneMore<K, V>(m: map<K, V>, s: set<K>, k: K)
    ensures m - (s + {k}) == (m - s) - {k}
  {
  }

  /** Taking any entry of the front table yields an entry of the whole map
      that had not been yielded before. */
  lemma DrainTake<K, V>(segments: seq<map<K, V>>, started: nat, front: map<K, V>, parts: seq<seq<(K, V)>>, k: K)
    requires DrainState(segments, started, front, parts) && k in front
    ensures started > 0
    ensures var parts' := parts[started - 1 := parts[started - 1] + [(k, front[k])]];
      && DrainState(segments, started, front - {k}, parts')
      && Concat(parts') == Concat(parts) + [(k, front[k])]
      && k in Flatten(segments) - KeysOf(Concat(parts))
      && (Flatten(segments) - KeysOf(Concat(parts)))[k] == front[k]
      && Flatten(segments) - KeysOf(Concat(parts')) == (Flatten(segments) - KeysOf(Concat(parts))) - {k}
  {
    FrontNotYielded(segments, started, front, parts, k);
    TakeKeepsState(segments, started, front, parts, k);
    var entry := (k, front[k]);
    ConcatExtendLast(parts, entry);
    KeysOfAppend(Concat(parts), entry);
    RemoveOneMore(Flatten(segments), KeysOf(Concat(parts)), k);
  }

  /** Once every table is started and the last is used up, the drain has
      listed every entry of the map exactly once, table by table. */
  lemma DrainDone<K, V>(segments: seq<map<K, V>>, parts: seq<seq<(K, V)>>)
    requires DrainState(segments, |segments|, map[], parts)
    ensures DrainOrder(Concat(parts), parts, segments)
    ensures Enumerates(Concat(parts), Flatten(segments))
    ensures Flatten(segments) - KeysOf(Concat(parts)) == map[]
  {
    if segments != [] {
      var n := |segments| - 1;
      var empty: map<K, V> := map[];
      assert segments[n] - empty.Keys == segments[n];
      assert Enumerates(parts[n], segments[n]);
    }
    EnumeratesConcat(parts, segments);
    EnumeratesKeys(Concat(parts), Flatten(segments));
  }

  /** `ConcurrentHashMapIter`: flattens the tables one after another. Within
      one table the order is the table's own, which is not modelled: any
      remaining entry may come next. */
  class ConcurrentHashMapIter<K(==), V> {
    /** The segments' tables, in index order. */
    const segments: seq<map<K, V>>
    /** How many tables the iterator has started on. */
    var started: nat
    /** The entries of the last started table not yet yielded. */
    var front: map<K, V>
    /** What has been yielded from each started table, in order. */
    ghost var parts: seq<seq<(K, V)>>

    /** Every entry yielded so far, in order. */
    ghost function Yielded(): seq<(K, V)>
      reads this
    {
      Concat(parts)
    }

    /** The entries still to come. */
    ghost function Remaining(): map<K, V>
      reads this
    {
      Flatten(segments) - KeysOf(Yielded())
    }

    /** All tables are started and the last one is used up. */
    ghost predicate Exhausted()
      reads this
    {
      started == |segments| && front == map[]
    }

    ghost predicate Valid()
      reads this
    {
      DrainState(segments, started, front, parts)
    }

    constructor (segments: seq<map<K, V>>)
      requires Disjoint(segments)
      ensures Valid() && this.segments == segments
      ensures Yielded() == [] && Remaining() == Flatten(segments)
    {
      this.segments := segments;
      started := 0;
      front := map[];
      parts := [];
      new;
      assert KeysOf(Yielded()) == {};
    }

    /** An exhausted iterator has yielded every entry exactly once, table
        by table in index order. */
    lemma ExhaustedYieldedAll()
      requires Valid() && Exhausted()
      ensures DrainOrder(Yielded(), parts, segments)
      ensures Enumerates(Yielded(), Flatten(segments))
      ensures Remaining() == map[]
    {
      DrainDone(segments, parts);
    }

    /** The flattening step of `next`: while the front table is used up,
        move on to the next table. Nothing is yielded. */
    method SkipUsedUp()
      requires Valid()
      modifies this
      ensures Valid() && Yielded() == old(Yielded())
      ensures front != map[] || Exhausted()
    {
      while front == map[] && started < |segments|
        invariant Valid() && Yielded() == old(Yielded())
        decreases |segments| - started
      {
        StartNextTable();
      }
    }

    /** One step of SkipUsedUp: the used-up front table is replaced by the
        next table, and nothing is yielded. */
    method StartNextTable()
      requires Valid() && front == map[] && started < |segments|
      modifies this
      ensures Valid() && Yielded() == old(Yielded())
      ensures started == old(started) + 1
    {
      DrainStart(segments, started, parts);
      front := segments[started];
      parts := parts + [[]];
      started := started + 1;
    }

    /** `next`: the next entry, or None once every table is used up. */
    method Next() returns (item: Option<(K, V)>)
      requires Valid()
      modifies this
      ensures Valid()
      ensures item.None? <==> old(Remaining()) == map[]
      ensures item.None? ==> Exhausted() && Yielded() == old(Yielded())
      ensures item.Some? ==> item.value.0 in old(Remaining()) && old(Remaining())[item.value.0] == item.value.1
      ensures item.Some? ==> Yielded() == old(Yielded()) + [item.value]
      ensures item.Some? ==> Remaining() == old(Remaining()) - {item.value.0}
    {
      SkipUsedUp();
      if front == map[] {
        item := None;
        DrainDone(segments, parts);
      } else {
        var k :| k in front;
        var v := front[k];
        DrainTake(segments, started, front, parts, k);
        parts := parts[started - 1 := parts[started - 1] + [(k, v)]];
        front := front - {k};
        item := Some((k, v));
      }
    }
  }

  /** Consume the map and run its iterator to the end: every entry of the
      map comes out exactly once, segment by segment in index order. */
  method Drain<K(==), V>(m: ConcurrentHashMap<K, V>) returns (entries: seq<(K, V)>, ghost parts: seq<seq<(K, V)>>)
    requires m.Valid()
    ensures Enumerates(entries, m.Contents())
    ensures DrainOrder(entries, parts, m.segments)
  {
    var it := m.IntoIter();
    entries := [];
    while true
      invariant fresh(it) && it.Valid() && it.segments == m.segments
      invariant entries == it.Yielded()
      decreases |it.Remaining()|
    {
      var item := it.Next();
      if item.None? {
        it.ExhaustedYieldedAll();
        parts := it.parts;
        return;
      }
      entries := entries + [item.value];
    }
  }
}

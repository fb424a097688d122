/**
 * `ConcurrentHashSet`: a ConcurrentHashMap whose values are all `()`.
 * Each set operation is the map operation on the key, with the map's
 * Option result turned into a bool.
 */
module ConcurrentSet {
  import opened Options
  import opened RustInts
  import opened Segments
  import opened ConcurrentMap

  /** The keys of a sequence of entries, in order. */
  function KeySeq<K, V>(s: seq<(K, V)>): (keys: seq<K>)
  {
    seq(|s|, i requires 0 <= i < |s| => s[i].0)
  }

  /** The keys of an enumeration of m are m's keys, each exactly once. */
  lemma EnumerationKeys<K, V>(s: seq<(K, V)>, m: map<K, V>)
    requires Enumerates(s, m)
    ensures forall i, j :: 0 <= i < j < |s| ==> KeySeq(s)[i] != KeySeq(s)[j]
    ensures forall k :: k in KeySeq(s) <==> k in m
  {
    var keys := KeySeq(s);
    forall k | k in m
      ensures k in keys
    {
      var i :| 0 <= i < |s| && s[i] == (k, m[k]);
      assert keys[i] == k;
    }
    forall k | k in keys
      ensures k in m
    {
      var i :| 0 <= i < |keys| && keys[i] == k;
      assert s[i] in s;
    }
  }

  class ConcurrentHashSet<K(==)> {
    /** The map holding the set's elements as keys. */
    const table: ConcurrentHashMap<K, ()>

    ghost predicate Valid()
      reads this, table
    {
      table.Valid()
    }

    /** The set the table stands for: the keys of its abstract map. */
    ghost function Elements(): set<K>
      reads this, table
    {
      table.Contents().Keys
    }

    /** `new`: a set over the default map. */
    constructor New(hashBuilder: K -> u64)
      ensures fresh(table) && Valid() && Elements() == {}
      ensures |table.segments| == DEFAULT_SEGMENT_COUNT && table.hashBuilder == hashBuilder
    {
      table := new ConcurrentHashMap.New(hashBuilder);
    }

    /** `with_capacity`: the default segment count and the given capacity. */
    constructor WithCapacity(capacity: usize, hashBuilder: K -> u64)
      ensures fresh(table) && Valid() && Elements() == {}
      ensures |table.segments| == DEFAULT_SEGMENT_COUNT && table.hashBuilder == hashBuilder
      ensures table.segmentCapacity == NextPowerOfTwo(Div(capacity, DEFAULT_SEGMENT_COUNT))
    {
      DefaultSizes();
      table := new ConcurrentHashMap.WithOptions(capacity, hashBuilder, DEFAULT_SEGMENT_COUNT);
    }

    /** `with_capacity_and_concurrency_level`. */
    constructor WithCapacityAndConcurrencyLevel(capacity: usize, concurrencyLevel: usize, hashBuilder: K -> u64)
      requires concurrencyLevel <= MAX_POWER_OF_TWO
      requires concurrencyLevel <= 1 ==> capacity <= MAX_POWER_OF_TWO
      ensures fresh(table) && Valid() && Elements() == {}
      ensures |table.segments| == NextPowerOfTwo(concurrencyLevel) && table.hashBuilder == hashBuilder
    {
      table := new ConcurrentHashMap.WithOptions(capacity, hashBuilder, concurrencyLevel);
    }

    /** `with_capacity_and_hasher`. */
    constructor WithCapacityAndHasher(capacity: usize, hashBuilder: K -> u64)
      ensures fresh(table) && Valid() && Elements() == {}
      ensures |table.segments| == DEFAULT_SEGMENT_COUNT && table.hashBuilder == hashBuilder
    {
      DefaultSizes();
      table := new ConcurrentHashMap.WithOptions(capacity, hashBuilder, DEFAULT_SEGMENT_COUNT);
    }

    /** `with_options`. */
    constructor WithOptions(capacity: usize, hashBuilder: K -> u64, concurrencyLevel: usize)
      requires concurrencyLevel <= MAX_POWER_OF_TWO
      requires concurrencyLevel <= 1 ==> capacity <= MAX_POWER_OF_TWO
      ensures fresh(table) && Valid() && Elements() == {}
      ensures |table.segments| == NextPowerOfTwo(concurrencyLevel) && table.hashBuilder == hashBuilder
    {
      table := new ConcurrentHashMap.WithOptions(capacity, hashBuilder, concurrencyLevel);
    }

    /** `default`: a set over the default map. */
    constructor Default(hashBuilder: K -> u64)
      ensures fresh(table) && Valid() && Elements() == {}
      ensures |table.segments| == DEFAULT_SEGMENT_COUNT && table.hashBuilder == hashBuilder
    {
      table := new ConcurrentHashMap.Default(hashBuilder);
    }

    /** `insert`: add key; true exactly when it was not already there. */
    method Insert(key: K) returns (added: bool)
      requires Valid()
      modifies table
      ensures Valid()
      ensures added <==> key !in old(Elements())
      ensures Elements() == old(Elements()) + {key}
    {
      var previous := table.Insert(key, ());
      added := previous.None?;
    }

    /** `contains`: whether key is in the set. */
    function Contains(key: K): (present: bool)
      reads this, table
      requires Valid()
      ensures present <==> key in Elements()
    {
      table.Contains(key)
    }

    /** `remove`: take key out; true exactly when it was there. */
    method Remove(key: K) returns (removed: bool)
      requires Valid()
      modifies table
      ensures Valid()
      ensures removed <==> key in old(Elements())
      ensures Elements() == old(Elements()) - {key}
    {
      var previous := table.Remove(key);
      removed := previous.Some?;
    }

    /** `into_iter`: the map's draining iterator, keeping only the keys. */
    method IntoIter() returns (it: ConcurrentHashSetIter<K>)
      requires Valid()
      ensures fresh(it) && fresh(it.inner) && it.Valid() && it.inner.segments == table.segments
      ensures it.Yielded() == [] && it.Remaining() == Elements()
    {
      var inner := table.IntoIter();
      it := new ConcurrentHashSetIter(inner);
    }
  }

  /** `ConcurrentHashSetIter`: the map iterator with each entry's value
      dropped. */
  class ConcurrentHashSetIter<K(==)> {
    const inner: ConcurrentHashMapIter<K, ()>

    ghost predicate Valid()
      reads this, inner
    {
      inner.Valid()
    }

    /** The keys yielded so far, in order. */
    ghost function Yielded(): seq<K>
      reads this, inner
    {
      KeySeq(inner.Yielded())
    }

    /** The keys still to come. */
    ghost function Remaining(): set<K>
      reads this, inner
    {
      inner.Remaining().Keys
    }

    constructor (inner: ConcurrentHashMapIter<K, ()>)
      ensures this.inner == inner
    {
      this.inner := inner;
    }

    /** `next`: the key of the map iterator's next entry. */
    method Next() returns (item: Option<K>)
      requires Valid()
      modifies inner
      ensures Valid()
      ensures item.None? <==> old(Remaining()) == {}
      ensures item.None? ==> inner.Exhausted() && Yielded() == old(Yielded())
      ensures item.Some? ==> item.value in old(Remaining())
      ensures item.Some? ==> Remaining() == old(Remaining()) - {item.value}
      ensures item.Some? ==> Yielded() == old(Yielded()) + [item.value]
    {
      var entry := inner.Next();
      item := if entry.Some? then Some(entry.value.0) else None;
      assert KeySeq(inner.Yielded()) == KeySeq(old(inner.Yielded())) + (if entry.Some? then [entry.value.0] else []);
    }
  }

  /** Run a set's iterator to the end: every element comes out exactly
      once. */
  method DrainKeys<K(==)>(s: ConcurrentHashSet<K>) returns (keys: seq<K>)
    requires s.Valid()
    ensures forall i, j :: 0 <= i < j < |keys| ==> keys[i] != keys[j]
    ensures forall k :: k in keys <==> k in s.Elements()
  {
    var it := s.IntoIter();
    keys := [];
    while true
      invariant fresh(it) && fresh(it.inner) && it.Valid()
      invariant keys == it.Yielded()
      invariant it.inner.segments == s.table.segments
      decreases |it.Remaining()|
    {
      var item := it.Next();
      if item.None? {
        it.inner.ExhaustedYieldedAll();
        EnumerationKeys(it.inner.Yielded(), s.table.Contents());
        return;
      }
      keys := keys + [item.value];
    }
  }
}

/**
 * The repository's single-threaded tests, as client code of the model.
 * Each method runs the test's steps on the model; its postcondition is
 * the check the test makes, proved for every input and every hash.
 */
module Scenarios {
  import opened Options
  import opened RustInts
  import opened ConcurrentMap
  import opened ConcurrentSet

  /** `qc_hashmap_insert`: inserting under the distinct keys 0, 1, 2, ...
      never finds an earlier value. */
  method InsertDistinctKeys(hash: usize -> u64, xs: seq<u64>) returns (allNone: bool)
    requires |xs| <= U64_LIMIT
    ensures allNone
  {
    var m := new ConcurrentHashMap<usize, u64>.New(hash);
    for k := 0 to |xs|
      invariant m.Valid()
      invariant forall j: usize :: j in m.Contents() ==> j < k
    {
      var previous := m.Insert(k, xs[k]);
      if previous.Some? {
        return false;
      }
    }
    return true;
  }

  /** `qc_hashmap_contains`: every inserted key is then contained. */
  method InsertThenContains(hash: u64 -> u64, xs: seq<u64>) returns (allContained: bool)
    ensures allContained
  {
    var m := new ConcurrentHashMap<u64, ()>.New(hash);
    for i := 0 to |xs|
      invariant m.Valid()
      invariant forall j :: 0 <= j < i ==> xs[j] in m.Contents()
    {
      var _ := m.Insert(xs[i], ());
    }
    for i := 0 to |xs|
      invariant forall j :: 0 <= j < i ==> m.Contains(xs[j])
    {
      if !m.Contains(xs[i]) {
        return false;
      }
    }
    return true;
  }

  /** `qc_hashmap_remove`: after removing every inserted key, none is
      contained. */
  method InsertThenRemove(hash: u64 -> u64, xs: seq<u64>) returns (noneContained: bool)
    ensures noneContained
  {
    var m := new ConcurrentHashMap<u64, u64>.New(hash);
    for i := 0 to |xs|
      invariant m.Valid()
    {
      var _ := m.Insert(xs[i], xs[i]);
    }
    for i := 0 to |xs|
      invariant m.Valid()
      invariant forall j :: 0 <= j < i ==> xs[j] !in m.Contents()
    {
      var _ := m.Remove(xs[i]);
    }
    for i := 0 to |xs|
      invariant m.Valid()
      invariant forall j :: 0 <= j < |xs| ==> xs[j] !in m.Contents()
      invariant forall j :: 0 <= j < i ==> !m.Contains(xs[j])
    {
      if m.Contains(xs[i]) {
        return false;
      }
    }
    return true;
  }

  /** The value held under key j after x of the 8 * 1024 increments of
      `hashmap_mutate`, which visit the keys 0..8 in turn. */
  function Increments(x: nat, j: nat): nat
  {
    x / 8 + (if j < x % 8 then 1 else 0)
  }

  /** The eight counters hold what x increments leave in them. */
  ghost predicate CountsAfter(counters: map<int, int>, x: nat)
  {
    forall j :: 0 <= j < 8 ==> j in counters && counters[j] == Increments(x, j)
  }

  /** One more increment adds 1 to key x % 8 and leaves the others. */
  lemma IncrementsStep(x: nat, j: nat)
    requires j < 8
    ensures Increments(x + 1, j) == Increments(x, j) + (if j == x % 8 then 1 else 0)
  {
    if x % 8 == 7 {
      assert (x + 1) / 8 == x / 8 + 1 && (x + 1) % 8 == 0;
    } else {
      assert (x + 1) / 8 == x / 8 && (x + 1) % 8 == x % 8 + 1;
    }
  }

  /** Incrementing counter x % 8 takes the counters from x increments to
      x + 1. */
  lemma IncrementKeepsCounts(counters: map<int, int>, x: nat)
    requires CountsAfter(counters, x)
    ensures x % 8 in counters
    ensures CountsAfter(counters[x % 8 := counters[x % 8] + 1], x + 1)
  {
    forall j | 0 <= j < 8
      ensures Increments(x + 1, j) == Increments(x, j) + (if j == x % 8 then 1 else 0)
    {
      IncrementsStep(x, j);
    }
  }

  /** After 8 * 1024 increments every counter is 1024. */
  lemma AllCountsReached(counters: map<int, int>)
    requires CountsAfter(counters, 8 * 1024)
    ensures forall j :: 0 <= j < 8 ==> j in counters && counters[j] == 1024
  {
  }

  /** The first loop of `hashmap_mutate`: insert 0 under the keys 0..8. */
  method InsertZeroCounters(m: ConcurrentHashMap<int, int>)
    requires m.Valid() && m.Contents() == map[]
    modifies m
    ensures m.Valid() && CountsAfter(m.Contents(), 0)
  {
    for x := 0 to 8
      invariant m.Valid()
      invariant forall j :: 0 <= j < x ==> j in m.Contents() && m.Contents()[j] == 0
    {
      var _ := m.Insert(x, 0);
    }
    assert forall j :: 0 <= j < 8 ==> Increments(0, j) == 0;
  }

  /** The second loop of `hashmap_mutate`: 8 * 1024 writes of `*entry += 1`
      through `get_mut(&(x % 8))`. */
  method IncrementCounters(m: ConcurrentHashMap<int, int>)
    requires m.Valid() && CountsAfter(m.Contents(), 0)
    modifies m
    ensures m.Valid() && CountsAfter(m.Contents(), 8 * 1024)
  {
    for x := 0 to 8 * 1024
      invariant m.Valid() && CountsAfter(m.Contents(), x)
    {
      IncrementKeepsCounts(m.Contents(), x);
      var found := m.GetMut(x % 8, v => v + 1);
      assert found;
    }
  }

  /** `hashmap_mutate`: eight keys start at 0; 8192 writes through
      `get_mut(x % 8)` add 1 each; every key then reads back 1024. */
  method MutateThroughGuards(hash: int -> u64) returns (readBack: seq<Option<int>>)
    ensures |readBack| == 8
    ensures forall x :: 0 <= x < 8 ==> readBack[x] == Some(1024)
  {
    var m := new ConcurrentHashMap<int, int>.New(hash);
    InsertZeroCounters(m);
    IncrementCounters(m);
    AllCountsReached(m.Contents());
    readBack := [];
    for x := 0 to 8
      invariant |readBack| == x
      invariant forall j :: 0 <= j < x ==> readBack[j] == Some(1024)
    {
      readBack := readBack + [m.Get(x)];
    }
  }

  /** `qc_poirot_single_thread_set_insert`: a set and a reference set built
      from the same inserts agree, both ways: every reference element is
      contained, and every element the set's iterator yields is in the
      reference set. */
  method SetAgreesWithReference(hash: u64 -> u64, xs: seq<u64>) returns (agree: bool)
    ensures agree
  {
    var s := new ConcurrentHashSet<u64>.New(hash);
    var reference: set<u64> := {};
    for i := 0 to |xs|
      invariant s.Valid() && s.Elements() == reference
    {
      var _ := s.Insert(xs[i]);
      reference := reference + {xs[i]};
    }
    var unchecked := reference;
    while unchecked != {}
      invariant unchecked <= reference
    {
      var k :| k in unchecked;
      if !s.Contains(k) {
        return false;
      }
      unchecked := unchecked - {k};
    }
    var it := s.IntoIter();
    while true
      invariant fresh(it) && fresh(it.inner) && it.Valid()
      invariant it.Remaining() <= reference
      decreases |it.Remaining()|
    {
      var item := it.Next();
      if item.None? {
        return true;
      }
      if item.value !in reference {
        return false;
      }
    }
  }
}

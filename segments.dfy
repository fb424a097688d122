/**
 * A sequence of per-segment tables read as the single map it stands for,
 * and the sequences of entries a drain of those tables produces.
 */
module Segments {

  /** The one map that a sequence of tables stands for. Where two tables
      share a key the later one wins; in a sharded map no key is shared. */
  function Flatten<K, V>(segs: seq<map<K, V>>): map<K, V>
  {
    if segs == [] then map[] else Flatten(segs[..|segs| - 1]) + segs[|segs| - 1]
  }

  /** No key is held by two different tables. */
  ghost predicate Disjoint<K, V>(segs: seq<map<K, V>>)
  {
    forall i, j, k :: 0 <= i < |segs| && 0 <= j < |segs| && k in segs[i] && k in segs[j] ==> i == j
  }

  /** Every entry of a is an entry of b. */
  ghost predicate SubMap<K, V>(a: map<K, V>, b: map<K, V>)
  {
    forall k :: k in a ==> k in b && a[k] == b[k]
  }

  /** The keys of a sequence of entries. */
  ghost function KeysOf<K, V>(s: seq<(K, V)>): set<K>
  {
    set p | p in s :: p.0
  }

  /** s lists every entry of m, and each key exactly once. */
  ghost predicate Enumerates<K, V>(s: seq<(K, V)>, m: map<K, V>)
  {
    && (forall p :: p in s ==> p.0 in m && m[p.0] == p.1)
    && (forall k :: k in m ==> (k, m[k]) in s)
    && (forall i, j :: 0 <= i < j < |s| ==> s[i].0 != s[j].0)
  }

  function Concat<T>(parts: seq<seq<T>>): seq<T>
  {
    if parts == [] then [] else Concat(parts[..|parts| - 1]) + parts[|parts| - 1]
  }

  /** s is parts[0], then parts[1], ..., where parts[i] lists segs[i]'s
      entries in some order: segs[0]'s entries come first, then segs[1]'s,
      and so on. */
  ghost predicate DrainOrder<K, V>(s: seq<(K, V)>, parts: seq<seq<(K, V)>>, segs: seq<map<K, V>>)
  {
    && |parts| == |segs|
    && Concat(parts) == s
    && forall i :: 0 <= i < |segs| ==> Enumerates(parts[i], segs[i])
  }

  // ---------------------------------------------------------------------

  /** Maps with the same keys and the same value under each key are equal. */
  lemma MapExtensionality<K, V>(a: map<K, V>, b: map<K, V>)
    requires forall k :: (k in a <==> k in b) && (k in a ==> a[k] == b[k])
    ensures a == b
  {
  }

  lemma {:induction false} FlattenMember<K, V>(segs: seq<map<K, V>>, k: K)
    ensures k in Flatten(segs) <==> exists j :: 0 <= j < |segs| && k in segs[j]
  {
    if segs != [] {
      var n := |segs| - 1;
      FlattenMember(segs[..n], k);
      assert forall j :: 0 <= j < n ==> segs[..n][j] == segs[j];
    }
  }

  lemma DisjointPrefix<K, V>(segs: seq<map<K, V>>, n: nat)
    requires Disjoint(segs) && n <= |segs|
    ensures Disjoint(segs[..n])
  {
    assert forall j :: 0 <= j < n ==> segs[..n][j] == segs[j];
  }

  /** In disjoint tables, the flattened map holds each table's entries. */
  lemma {:induction false} FlattenValue<K, V>(segs: seq<map<K, V>>, j: nat, k: K)
    requires Disjoint(segs) && j < |segs| && k in segs[j]
    ensures k in Flatten(segs) && Flatten(segs)[k] == segs[j][k]
  {
    var n := |segs| - 1;
    if j < n {
      assert k !in segs[n];
      DisjointPrefix(segs, n);
      assert segs[..n][j] == segs[j];
      FlattenValue(segs[..n], j, k);
    }
  }

  /** Tables that are all empty flatten to the empty map. */
  lemma FlattenOfEmpty<K, V>(segs: seq<map<K, V>>)
    requires forall i :: 0 <= i < |segs| ==> segs[i] == map[]
    ensures Flatten(segs) == map[]
  {
    forall k ensures k !in Flatten(segs) {
      FlattenMember(segs, k);
    }
  }

  lemma EnumeratesKeys<K, V>(s: seq<(K, V)>, m: map<K, V>)
    requires Enumerates(s, m)
    ensures KeysOf(s) == m.Keys
  {
    forall k | k in m ensures k in KeysOf(s) {
      assert (k, m[k]) in s;
    }
  }

  lemma KeysOfAppend<K, V>(s: seq<(K, V)>, p: (K, V))
    ensures KeysOf(s + [p]) == KeysOf(s) + {p.0}
  {
    assert p in s + [p];
    forall q | q in s ensures q in s + [p] { }
  }

  lemma {:induction false} ConcatMember<T>(parts: seq<seq<T>>, x: T)
    ensures x in Concat(parts) <==> exists i :: 0 <= i < |parts| && x in parts[i]
  {
    if parts != [] {
      var n := |parts| - 1;
      var init := parts[..n];
      ConcatMember(init, x);
      assert Concat(parts) == Concat(init) + parts[n];
      if x in Concat(init) {
        var i :| 0 <= i < n && x in init[i];
        assert x in parts[i];
      }
      if exists i :: 0 <= i < n && x in parts[i] {
        var i :| 0 <= i < n && x in parts[i];
        assert x in init[i];
      }
    }
  }

  lemma ConcatAppendEmpty<T>(parts: seq<seq<T>>)
    ensures Concat(parts + [[]]) == Concat(parts)
  {
    assert (parts + [[]])[..|parts|] == parts;
  }

  lemma ConcatExtendLast<T>(parts: seq<seq<T>>, x: T)
    requires parts != []
    ensures var n := |parts| - 1; Concat(parts[n := parts[n] + [x]]) == Concat(parts) + [x]
  {
    var n := |parts| - 1;
    assert parts[n := parts[n] + [x]][..n] == parts[..n];
  }

  /** Enumerations of maps with disjoint keys append to an enumeration of
      their union. */
  lemma EnumeratesAppend<K, V>(a: seq<(K, V)>, m1: map<K, V>, b: seq<(K, V)>, m2: map<K, V>)
    requires Enumerates(a, m1) && Enumerates(b, m2) && m1.Keys !! m2.Keys
    ensures Enumerates(a + b, m1 + m2)
  {
    var s := a + b;
    forall p | p in s ensures p.0 in m1 + m2 && (m1 + m2)[p.0] == p.1 {
      if p in a {
        assert p.0 !in m2;
      }
    }
    forall k | k in m1 + m2 ensures (k, (m1 + m2)[k]) in s {
      if k in m2 {
        assert (k, m2[k]) in b;
      } else {
        assert (k, m1[k]) in a;
      }
    }
    forall i, j | 0 <= i < j < |s| ensures s[i].0 != s[j].0 {
      if j < |a| {
        assert s[i] == a[i] && s[j] == a[j];
      } else if i >= |a| {
        assert s[i] == b[i - |a|] && s[j] == b[j - |a|];
      } else {
        assert s[i] == a[i] && a[i] in a;
        assert s[j] == b[j - |a|] && b[j - |a|] in b;
      }
    }
  }

  /** Draining disjoint tables one after another lists the flattened map
      exactly once. */
  lemma {:induction false} EnumeratesConcat<K, V>(parts: seq<seq<(K, V)>>, segs: seq<map<K, V>>)
    requires Disjoint(segs) && |parts| == |segs|
    requires forall i :: 0 <= i < |segs| ==> Enumerates(parts[i], segs[i])
    ensures Enumerates(Concat(parts), Flatten(segs))
  {
    if segs != [] {
      var n := |segs| - 1;
      DisjointPrefix(segs, n);
      assert forall i :: 0 <= i < n ==> parts[..n][i] == parts[i] && segs[..n][i] == segs[i];
      EnumeratesConcat(parts[..n], segs[..n]);
      forall k | k in Flatten(segs[..n]) ensures k !in segs[n] {
        FlattenMember(segs[..n], k);
        var j :| 0 <= j < n && k in segs[..n][j];
        assert k in segs[j];
      }
      EnumeratesAppend(Concat(parts[..n]), Flatten(segs[..n]), parts[n], segs[n]);
    }
  }
}

/** Types shared by both maps, and the key-to-value view of a list of `(key, value)` pairs. */
module Common {
  /** Keys are Python strings. */
  type Key = string

  datatype Option<T> = None | Some(value: T)

  /** The map obtained by putting `pairs` into an empty map one after another: a later pair
      for a key overrides an earlier one. */
  ghost function EntryMap<V>(pairs: seq<(Key, V)>): map<Key, V>
  {
    if pairs == [] then map[]
    else EntryMap(pairs[..|pairs| - 1])[pairs[|pairs| - 1].0 := pairs[|pairs| - 1].1]
  }

  /** No key occurs twice among `pairs`. */
  ghost predicate KeysUnique<V>(pairs: seq<(Key, V)>)
  {
    forall i, j :: 0 <= i < j < |pairs| ==> pairs[i].0 != pairs[j].0
  }

  /** A key is in the map exactly when some pair carries it. */
  lemma {:induction false} EntryMapKeys<V>(pairs: seq<(Key, V)>, k: Key)
    ensures k in EntryMap(pairs) <==> exists i :: 0 <= i < |pairs| && pairs[i].0 == k
  {
    if pairs != [] {
      var n := |pairs| - 1;
      EntryMapKeys(pairs[..n], k);
      if k in EntryMap(pairs[..n]) {
        var i :| 0 <= i < n && pairs[..n][i].0 == k;
        assert pairs[i].0 == k;
      }
      if i :| 0 <= i < |pairs| && pairs[i].0 == k {
        if i < n {
          assert pairs[..n][i].0 == k;
        }
      }
    }
  }

  /** The keys of a concatenation are the keys of its parts. */
  lemma EntryMapConcatKeys<V>(a: seq<(Key, V)>, b: seq<(Key, V)>, k: Key)
    ensures k in EntryMap(a + b) <==> k in EntryMap(a) || k in EntryMap(b)
  {
    EntryMapKeys(a + b, k);
    EntryMapKeys(a, k);
    EntryMapKeys(b, k);
    if i :| 0 <= i < |a + b| && (a + b)[i].0 == k {
      if i >= |a| {
        assert b[i - |a|].0 == k;
      }
    }
    if i :| 0 <= i < |a| && a[i].0 == k {
      assert (a + b)[i].0 == k;
    }
    if i :| 0 <= i < |b| && b[i].0 == k {
      assert (a + b)[|a| + i].0 == k;
    }
  }

  /** Putting `(k, v)` anywhere gives the same map as putting it last, when no later pair
      has key `k`. */
  lemma {:induction false} EntryMapInsert<V>(a: seq<(Key, V)>, k: Key, v: V, b: seq<(Key, V)>)
    requires forall i :: 0 <= i < |b| ==> b[i].0 != k
    ensures EntryMap(a + [(k, v)] + b) == EntryMap(a + b)[k := v]
    decreases |b|
  {
    if b == [] {
      assert a + [(k, v)] + b == a + [(k, v)];
      assert (a + [(k, v)])[..|a|] == a;
      assert a + b == a;
    } else {
      var n := |b| - 1;
      EntryMapInsert(a, k, v, b[..n]);
      assert (a + [(k, v)] + b)[..|a| + 1 + n] == a + [(k, v)] + b[..n];
      assert (a + b)[..|a| + n] == a + b[..n];
    }
  }

  /** Replacing the pair of a unique key replaces its value in the map. */
  lemma EntryMapReplace<V>(s: seq<(Key, V)>, p: nat, v: V)
    requires p < |s| && KeysUnique(s)
    ensures EntryMap(s[p := (s[p].0, v)]) == EntryMap(s)[s[p].0 := v]
  {
    var k, a, b := s[p].0, s[..p], s[p + 1..];
    assert s == a + [s[p]] + b;
    assert s[p := (k, v)] == a + [(k, v)] + b;
    EntryMapInsert(a, k, s[p].1, b);
    EntryMapInsert(a, k, v, b);
  }

  /** A unique key is gone once its pair is dropped. */
  lemma KeyDropped<V>(s: seq<(Key, V)>, p: nat)
    requires p < |s| && KeysUnique(s)
    ensures s[p].0 !in EntryMap(s[..p] + s[p + 1..])
  {
    var r := s[..p] + s[p + 1..];
    forall i | 0 <= i < |r|
      ensures r[i].0 != s[p].0
    {
      if i < p {
        assert r[i] == s[i];
      } else {
        assert r[i] == s[i + 1];
      }
    }
    EntryMapKeys(r, s[p].0);
  }

  /** Dropping the pair of a unique key removes the key from the map. */
  lemma EntryMapDelete<V>(s: seq<(Key, V)>, p: nat)
    requires p < |s| && KeysUnique(s)
    ensures EntryMap(s[..p] + s[p + 1..]) == EntryMap(s) - {s[p].0}
  {
    var k, v, a, b := s[p].0, s[p].1, s[..p], s[p + 1..];
    assert s == a + [(k, v)] + b;
    EntryMapInsert(a, k, v, b);
    KeyDropped(s, p);
    var m := EntryMap(a + b);
    assert EntryMap(s) == m[k := v];
    assert m[k := v] - {k} == m;
  }

  /** With unique keys, every pair is found in the map. */
  lemma {:induction false} EntryMapLookup<V>(s: seq<(Key, V)>, p: nat)
    requires p < |s| && KeysUnique(s)
    ensures s[p].0 in EntryMap(s) && EntryMap(s)[s[p].0] == s[p].1
  {
    var k, a, b := s[p].0, s[..p], s[p + 1..];
    assert s == a + [s[p]] + b;
    EntryMapInsert(a, k, s[p].1, b);
  }

  /** With unique keys, no pair's key is among those of the pairs before it. */
  lemma KeyNotYetSeen<V>(s: seq<(Key, V)>, i: nat)
    requires i < |s| && KeysUnique(s)
    ensures s[i].0 !in EntryMap(s[..i])
  {
    forall j | 0 <= j < i
      ensures s[..i][j].0 != s[i].0
    {
      assert s[..i][j] == s[j];
    }
    EntryMapKeys(s[..i], s[i].0);
  }

  /** With unique keys the map has one key per pair. */
  lemma {:induction false} EntryMapSize<V>(pairs: seq<(Key, V)>)
    requires KeysUnique(pairs)
    ensures |EntryMap(pairs)| == |pairs|
  {
    if pairs != [] {
      var n := |pairs| - 1;
      assert forall i, j :: 0 <= i < j < n ==> pairs[..n][i] == pairs[i] && pairs[..n][j] == pairs[j];
      EntryMapSize(pairs[..n]);
      KeyNotYetSeen(pairs, n);
    }
  }
}

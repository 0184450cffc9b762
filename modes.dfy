/** The pieces of hash_map_sc.py's `find_mode` that do not need the map: occurrence counts,
    and the scan over the `(key, count)` pairs that keeps the largest count and the keys
    that have it. */
module Modes {
  import opened Common

  /** How often each element of `s` occurs, for the elements that do. */
  ghost function Counts(s: seq<Key>): map<Key, nat>
  {
    map k | k in multiset(s) :: multiset(s)[k]
  }

  /** Counting one more element adds one to its count, starting from 0. */
  lemma CountsStep(s: seq<Key>, k: Key)
    ensures Counts(s + [k]) == Counts(s)[k := (if k in Counts(s) then Counts(s)[k] else 0) + 1]
  {
    assert multiset(s + [k]) == multiset(s) + multiset{k};
  }

  /** No element occurs twice. */
  ghost predicate Distinct(s: seq<Key>)
  {
    forall i, j :: 0 <= i < j < |s| ==> s[i] != s[j]
  }

  /** A non-empty sequence without repeats whose elements all equal `x` is `[x]`. */
  lemma DistinctSingleton(s: seq<Key>, x: Key)
    requires Distinct(s) && |s| > 0 && forall k :: k in s ==> k == x
    ensures s == [x]
  {
    DistinctCount(s, x);
    AllEqualCount(s, x);
    assert s[0] in s;
  }

  lemma {:induction false} DistinctCount(s: seq<Key>, x: Key)
    requires Distinct(s)
    ensures multiset(s)[x] <= 1
  {
    if s != [] {
      var n := |s| - 1;
      var p := s[..n];
      assert s == p + [s[n]];
      assert forall i, j :: 0 <= i < j < n ==> p[i] == s[i] && p[j] == s[j];
      DistinctCount(p, x);
      if s[n] == x {
        assert forall i :: 0 <= i < n ==> p[i] != x;
      }
    }
  }

  lemma {:induction false} AllEqualCount(s: seq<Key>, x: Key)
    requires forall k :: k in s ==> k == x
    ensures multiset(s)[x] == |s|
  {
    if s != [] {
      var n := |s| - 1;
      var p := s[..n];
      assert s == p + [s[n]];
      assert forall k :: k in p ==> k in s;
      AllEqualCount(p, x);
      assert s[n] in s;
    }
  }

  /** The largest value among the pairs, `None` when there are none: the first pair's value,
      replaced by every later value above it. */
  ghost function MaxOf(pairs: seq<(Key, nat)>): Option<nat>
  {
    if pairs == [] then None
    else
      var m, v := MaxOf(pairs[..|pairs| - 1]), pairs[|pairs| - 1].1;
      if m.None? || v > m.value then Some(v) else m
  }

  /** The keys of the pairs whose value is `v`, in order. */
  ghost function KeysWith(pairs: seq<(Key, nat)>, v: nat): seq<Key>
  {
    if pairs == [] then []
    else
      var n := |pairs| - 1;
      KeysWith(pairs[..n], v) + (if pairs[n].1 == v then [pairs[n].0] else [])
  }

  /** `MaxOf` is the maximum: there is none exactly for no pairs, and otherwise it bounds
      every value and is one of them. */
  lemma {:induction false} MaxOfBounds(pairs: seq<(Key, nat)>)
    ensures MaxOf(pairs).None? <==> pairs == []
    ensures MaxOf(pairs).Some? ==>
      (forall i :: 0 <= i < |pairs| ==> pairs[i].1 <= MaxOf(pairs).value)
      && exists i :: 0 <= i < |pairs| && pairs[i].1 == MaxOf(pairs).value
  {
    if pairs != [] {
      var n := |pairs| - 1;
      var p := pairs[..n];
      MaxOfBounds(p);
      var m := MaxOf(pairs).value;
      forall i | 0 <= i < |pairs|
        ensures pairs[i].1 <= m
      {
        if i < n {
          assert pairs[i] == p[i];
        }
      }
      if MaxOf(p).Some? && m == MaxOf(p).value {
        var i :| 0 <= i < n && p[i].1 == m;
        assert pairs[i] == p[i];
      } else {
        assert pairs[n].1 == m;
      }
    }
  }

  /** A key is listed exactly when some pair carries it with value `v`. */
  lemma {:induction false} KeysWithMembers(pairs: seq<(Key, nat)>, v: nat, k: Key)
    ensures k in KeysWith(pairs, v) <==> exists i :: 0 <= i < |pairs| && pairs[i] == (k, v)
  {
    if pairs != [] {
      var n := |pairs| - 1;
      var p := pairs[..n];
      KeysWithMembers(p, v, k);
      if k in KeysWith(p, v) {
        var i :| 0 <= i < n && p[i] == (k, v);
        assert pairs[i] == (k, v);
      }
      if i :| 0 <= i < |pairs| && pairs[i] == (k, v) {
        if i < n {
          assert p[i] == (k, v);
        }
      }
    }
  }

  /** With unique keys, no key is listed twice. */
  lemma {:induction false} KeysWithDistinct(pairs: seq<(Key, nat)>, v: nat)
    requires KeysUnique(pairs)
    ensures Distinct(KeysWith(pairs, v))
  {
    if pairs != [] {
      var n := |pairs| - 1;
      var p := pairs[..n];
      assert forall i, j :: 0 <= i < j < |p| ==> p[i] == pairs[i] && p[j] == pairs[j];
      KeysWithDistinct(p, v);
      if pairs[n].1 == v {
        var s := KeysWith(p, v);
        forall i | 0 <= i < |s|
          ensures s[i] != pairs[n].0
        {
          KeysWithMembers(p, v, s[i]);
          var q :| 0 <= q < n && p[q] == (s[i], v);
          assert pairs[q].0 == s[i];
        }
      }
    }
  }

  /** A value above every pair's value lists no key. */
  lemma {:induction false} KeysWithAbove(pairs: seq<(Key, nat)>, v: nat)
    requires forall i :: 0 <= i < |pairs| ==> pairs[i].1 < v
    ensures KeysWith(pairs, v) == []
  {
    if pairs != [] {
      var n := |pairs| - 1;
      assert forall i :: 0 <= i < n ==> pairs[..n][i] == pairs[i];
      KeysWithAbove(pairs[..n], v);
    }
  }

  /** The state of the scan after the first `i` pairs. */
  ghost predicate Scanned(pairs: seq<(Key, nat)>, i: nat, modes: seq<Key>, freq: Option<nat>)
  {
    i <= |pairs| && freq == MaxOf(pairs[..i])
    && modes == (if freq.Some? then KeysWith(pairs[..i], freq.value) else [])
  }

  /** The second loop of `find_mode`: the first pair sets the maximum, a pair at the maximum
      is listed, and a pair above it becomes the maximum and the only key listed. The result
      is the largest value and the keys that have it, in order. */
  method ScanModes(pairs: seq<(Key, nat)>) returns (modes: seq<Key>, freq: Option<nat>)
    ensures freq == MaxOf(pairs)
    ensures modes == if freq.Some? then KeysWith(pairs, freq.value) else []
  {
    modes, freq := [], None;
    for i := 0 to |pairs|
      invariant Scanned(pairs, i, modes, freq)
    {
      ScanStep(pairs, i, freq);
      var (key, count) := pairs[i];
      if freq.None? {
        freq := Some(count);
      }
      if count == freq.value {
        modes := modes + [key];
      }
      if count > freq.value {
        freq := Some(count);
        modes := [key];
      }
    }
    assert pairs[..|pairs|] == pairs;
  }

  /** What one step of the scan relies on: how the maximum and the listed keys of the first
      `i + 1` pairs follow from those of the first `i`. */
  lemma ScanStep(pairs: seq<(Key, nat)>, i: nat, freq: Option<nat>)
    requires i < |pairs| && freq == MaxOf(pairs[..i])
    ensures var p, x := pairs[..i], pairs[i];
      && pairs[..i + 1][..i] == p && pairs[..i + 1][i] == x
      && (freq.None? ==> i == 0 && KeysWith(pairs[..i + 1], x.1) == [x.0])
      && (freq.Some? && x.1 > freq.value ==> KeysWith(pairs[..i + 1], x.1) == [x.0])
  {
    var p, x := pairs[..i], pairs[i];
    assert pairs[..i + 1][..i] == p;
    MaxOfBounds(p);
    if freq.None? {
      assert KeysWith(p, x.1) == [];
    }
    if freq.Some? && x.1 > freq.value {
      KeysWithAbove(p, x.1);
    }
  }

  /** For unique keys, the scan's result read against the map of the pairs: no maximum
      exactly for the empty map; otherwise every value is at most the maximum, and the keys
      listed are exactly those mapped to it, at least one, none twice. */
  lemma ModesOfMap(pairs: seq<(Key, nat)>)
    requires KeysUnique(pairs)
    ensures MaxOf(pairs).None? <==> EntryMap(pairs) == map[]
    ensures MaxOf(pairs).Some? ==>
      var m, f := EntryMap(pairs), MaxOf(pairs).value;
      (forall k :: k in m ==> m[k] <= f)
      && (forall k :: k in KeysWith(pairs, f) <==> k in m && m[k] == f)
      && |KeysWith(pairs, f)| > 0
    ensures MaxOf(pairs).Some? ==> Distinct(KeysWith(pairs, MaxOf(pairs).value))
  {
    MaxOfBounds(pairs);
    var m := EntryMap(pairs);
    if pairs == [] {
      return;
    }
    EntryMapLookup(pairs, 0);
    var f := MaxOf(pairs).value;
    forall k | k in m
      ensures m[k] <= f
    {
      EntryMapKeys(pairs, k);
      var i :| 0 <= i < |pairs| && pairs[i].0 == k;
      EntryMapLookup(pairs, i);
    }
    forall k
      ensures k in KeysWith(pairs, f) <==> k in m && m[k] == f
    {
      KeysWithMembers(pairs, f, k);
      EntryMapKeys(pairs, k);
      if k in m {
        var i :| 0 <= i < |pairs| && pairs[i].0 == k;
        EntryMapLookup(pairs, i);
      }
    }
    var i :| 0 <= i < |pairs| && pairs[i].1 == f;
    KeysWithMembers(pairs, f, pairs[i].0);
    KeysWithDistinct(pairs, f);
  }
}

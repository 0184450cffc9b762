/** The chains of hash_map_sc.py and the key-to-value view of a table of chains. A chain is
    the `LinkedList` of one bucket, written as the sequence of its `(key, value)` nodes from
    head to tail; the list class itself is not part of this model, only the contract its
    callers rely on: `contains` finds the first node with the key, `insert` appends, and
    `remove` drops the first node with the key and says whether there was one. */
module Chaining {
  import opened Common

  type Chain<V> = seq<(Key, V)>

  /** `LinkedList.contains`: the position of the first node with the key, if any. */
  function Contains<V>(c: Chain<V>, key: Key): (r: Option<nat>)
    ensures r.Some? ==> r.value < |c| && c[r.value].0 == key
    ensures r.Some? ==> forall j :: 0 <= j < r.value ==> c[j].0 != key
    ensures r.None? ==> forall j :: 0 <= j < |c| ==> c[j].0 != key
    decreases |c|
  {
    if c == [] then None
    else if c[0].0 == key then Some(0)
    else
      match Contains(c[1..], key)
      case None => None
      case Some(i) => Some(i + 1)
  }

  /** The chain step of `put`: overwrite the value of the node `contains` finds, or append
      a node; the flag says whether a node was added. */
  function Assign<V>(c: Chain<V>, key: Key, value: V): (r: (Chain<V>, bool))
    ensures r.1 <==> forall j :: 0 <= j < |c| ==> c[j].0 != key
    ensures |r.0| == |c| + (if r.1 then 1 else 0)
    ensures (key, value) in r.0
    ensures forall j :: 0 <= j < |r.0| ==> r.0[j].0 == key || r.0[j] in c
    ensures KeysUnique(c) ==> KeysUnique(r.0)
  {
    match Contains(c, key)
    case Some(i) =>
      var r := c[i := (key, value)];
      assert r[i] == (key, value);
      assert forall j :: 0 <= j < |r| && j != i ==> r[j] == c[j];
      (r, false)
    case None =>
      var r := c + [(key, value)];
      assert r[|c|] == (key, value);
      assert forall j :: 0 <= j < |c| ==> r[j] == c[j];
      (r, true)
  }

  /** `LinkedList.remove`: drop the first node with the key; the flag says whether there
      was one. */
  function Remove<V>(c: Chain<V>, key: Key): (r: (Chain<V>, bool))
    ensures r.1 <==> exists j :: 0 <= j < |c| && c[j].0 == key
    ensures |r.0| == |c| - (if r.1 then 1 else 0)
    ensures forall j :: 0 <= j < |r.0| ==> r.0[j] in c
    ensures forall j :: 0 <= j < |c| && c[j].0 != key ==> c[j] in r.0
    ensures KeysUnique(c) ==> KeysUnique(r.0) && Avoids(r.0, key)
  {
    match Contains(c, key)
    case None => (c, false)
    case Some(i) =>
      DropFirst(c, key, i);
      (c[..i] + c[i + 1..], true)
  }

  /** What dropping the node at `i`, the first with the key, leaves. */
  lemma DropFirst<V>(c: Chain<V>, key: Key, i: nat)
    requires i < |c| && c[i].0 == key
    ensures var r := c[..i] + c[i + 1..];
      && (forall j :: 0 <= j < |r| ==> r[j] in c)
      && (forall j :: 0 <= j < |c| && c[j].0 != key ==> c[j] in r)
      && (KeysUnique(c) ==> KeysUnique(r) && Avoids(r, key))
  {
    var r := c[..i] + c[i + 1..];
    forall j | 0 <= j < |r|
      ensures r[j] == c[Skip(j, i)]
    {
    }
    forall j | 0 <= j < |c| && c[j].0 != key
      ensures c[j] in r
    {
      if j < i {
        assert r[j] == c[j];
      } else {
        assert r[j - 1] == c[j];
      }
    }
    if KeysUnique(c) {
      forall p, q | 0 <= p < q < |r|
        ensures r[p].0 != r[q].0
      {
        assert r[p] == c[Skip(p, i)] && r[q] == c[Skip(q, i)];
      }
      forall q | 0 <= q < |r|
        ensures r[q].0 != key
      {
        assert r[q] == c[Skip(q, i)];
      }
    }
  }

  /** The position in the original chain of position `j` after the node at `i` is dropped. */
  function Skip(j: nat, i: nat): nat
  {
    if j < i then j else j + 1
  }

  /** No pair of `s` has the key. */
  ghost predicate Avoids<V>(s: Chain<V>, key: Key)
  {
    forall q :: 0 <= q < |s| ==> s[q].0 != key
  }

  /** The pairs of a table, bucket by bucket and in chain order within a bucket: what
      `get_keys_and_values` collects. */
  ghost function Flatten<V>(t: seq<Chain<V>>): Chain<V>
  {
    if t == [] then [] else Flatten(t[..|t| - 1]) + t[|t| - 1]
  }

  /** The key-to-value view of a table. */
  ghost function MapOf<V>(t: seq<Chain<V>>): map<Key, V>
  {
    EntryMap(Flatten(t))
  }

  /** Every node of chain `b` holds a key that hashes to `b` modulo `m`. */
  ghost predicate Placed<V>(t: seq<Chain<V>>, hash: Key -> nat, m: nat)
    requires m > 0
  {
    forall b, j :: 0 <= b < |t| && 0 <= j < |t[b]| ==> hash(t[b][j].0) % m == b
  }

  /** No chain holds a key twice. */
  ghost predicate ChainsUnique<V>(t: seq<Chain<V>>)
  {
    forall b :: 0 <= b < |t| ==> KeysUnique(t[b])
  }

  /** What `put` and `remove` keep: every key sits in the chain it hashes to, once. */
  ghost predicate Wellformed<V>(t: seq<Chain<V>>, hash: Key -> nat)
  {
    |t| > 0 && Placed(t, hash, |t|) && ChainsUnique(t)
  }

  /** A table of empty chains is well formed and holds nothing. */
  lemma {:induction false} AllEmpty<V>(t: seq<Chain<V>>, hash: Key -> nat)
    requires |t| > 0 && forall b :: 0 <= b < |t| ==> t[b] == []
    ensures Wellformed(t, hash) && Flatten(t) == [] && MapOf(t) == map[]
  {
    FlattenEmpty(t);
  }

  lemma {:induction false} FlattenEmpty<V>(t: seq<Chain<V>>)
    requires forall b :: 0 <= b < |t| ==> t[b] == []
    ensures Flatten(t) == []
  {
    if t != [] {
      FlattenEmpty(t[..|t| - 1]);
    }
  }

  /** The pairs of a table split around chain `i`. */
  lemma {:induction false} FlattenAround<V>(t: seq<Chain<V>>, i: nat)
    requires i < |t|
    ensures Flatten(t) == Flatten(t[..i]) + t[i] + Flatten(t[i + 1..])
  {
    var n := |t| - 1;
    var u := t[..n];
    if i == n {
      assert u == t[..i] && t[i + 1..] == [];
    } else {
      FlattenAround(u, i);
      var b := t[i + 1..];
      assert u[..i] == t[..i] && u[i] == t[i];
      assert b[..|b| - 1] == u[i + 1..] && b[|b| - 1] == t[n];
      assert Flatten(b) == Flatten(u[i + 1..]) + t[n];
      assert Flatten(t) == Flatten(u) + t[n];
    }
  }

  /** A pair is collected exactly when some chain holds it. */
  lemma {:induction false} FlattenMember<V>(t: seq<Chain<V>>, e: (Key, V))
    ensures e in Flatten(t) <==> exists b :: 0 <= b < |t| && e in t[b]
  {
    if t != [] {
      var n := |t| - 1;
      var u := t[..n];
      FlattenMember(u, e);
      assert Flatten(t) == Flatten(u) + t[n];
      if b :| 0 <= b < |t| && e in t[b] {
        if b < n {
          assert e in u[b];
        }
      }
    }
  }

  /** With every key in its own chain once, no key is collected twice. */
  lemma {:induction false} FlattenUnique<V>(t: seq<Chain<V>>, hash: Key -> nat, m: nat)
    requires m > 0 && Placed(t, hash, m) && ChainsUnique(t)
    ensures KeysUnique(Flatten(t))
  {
    if t != [] {
      var n := |t| - 1;
      var u := t[..n];
      assert forall b :: 0 <= b < n ==> u[b] == t[b];
      FlattenUnique(u, hash, m);
      var a, c := Flatten(u), t[n];
      var s: Chain<V> := a + c;
      assert Flatten(t) == s;
      forall i, j | 0 <= i < j < |s|
        ensures s[i].0 != s[j].0
      {
        if j < |a| {
          assert s[i] == a[i] && s[j] == a[j];
        } else if i >= |a| {
          assert s[i] == c[i - |a|] && s[j] == c[j - |a|];
        } else {
          FlattenMember(u, a[i]);
          var b :| 0 <= b < n && a[i] in u[b];
          var q :| 0 <= q < |t[b]| && t[b][q] == a[i];
          assert hash(a[i].0) % m == b;
          assert hash(c[j - |a|].0) % m == n;
        }
      }
    }
  }

  /** The chains other than the one a key hashes to do not hold it. */
  lemma OthersAvoid<V>(t: seq<Chain<V>>, hash: Key -> nat, key: Key)
    requires Wellformed(t, hash)
    ensures var b := hash(key) % |t|;
      Avoids(Flatten(t[..b]), key) && Avoids(Flatten(t[b + 1..]), key)
  {
    var b := hash(key) % |t|;
    var a, z := t[..b], t[b + 1..];
    forall q | 0 <= q < |Flatten(a)|
      ensures Flatten(a)[q].0 != key
    {
      var e := Flatten(a)[q];
      FlattenMember(a, e);
      var b' :| 0 <= b' < |a| && e in a[b'];
      var j :| 0 <= j < |t[b']| && t[b'][j] == e;
      assert hash(e.0) % |t| == b';
    }
    forall q | 0 <= q < |Flatten(z)|
      ensures Flatten(z)[q].0 != key
    {
      var e := Flatten(z)[q];
      FlattenMember(z, e);
      var b' :| 0 <= b' < |z| && e in z[b'];
      var j :| 0 <= j < |t[b + 1 + b']| && t[b + 1 + b'][j] == e;
      assert hash(e.0) % |t| == b + 1 + b';
    }
  }

  /** `get` and `contains_key`: the chain a key hashes to holds it exactly when the map
      does, with the mapped value. */
  lemma LookupMap<V>(t: seq<Chain<V>>, hash: Key -> nat, key: Key)
    requires Wellformed(t, hash)
    ensures var c := t[hash(key) % |t|];
      (Contains(c, key).None? <==> key !in MapOf(t))
      && (Contains(c, key).Some? ==> MapOf(t)[key] == c[Contains(c, key).value].1)
  {
    var b := hash(key) % |t|;
    var c := t[b];
    var s := Flatten(t);
    var a, z := Flatten(t[..b]), Flatten(t[b + 1..]);
    FlattenAround(t, b);
    FlattenUnique(t, hash, |t|);
    OthersAvoid(t, hash, key);
    match Contains(c, key)
    case Some(i) =>
      assert s[|a| + i] == c[i];
      EntryMapLookup(s, |a| + i);
    case None =>
      forall q | 0 <= q < |s|
        ensures s[q].0 != key
      {
        if q < |a| {
          assert s[q] == a[q];
        } else if q < |a| + |c| {
          assert s[q] == c[q - |a|];
        } else {
          assert s[q] == z[q - |a| - |c|];
        }
      }
      EntryMapKeys(s, key);
  }

  /** The pairs of a table after chain `b` is replaced. */
  lemma FlattenUpdate<V>(t: seq<Chain<V>>, b: nat, c: Chain<V>)
    requires b < |t|
    ensures Flatten(t[b := c]) == Flatten(t[..b]) + c + Flatten(t[b + 1..])
  {
    var t' := t[b := c];
    assert t'[..b] == t[..b] && t'[b + 1..] == t[b + 1..];
    FlattenAround(t', b);
  }

  /** Replacing a chain by one whose keys hash to it, once each, keeps a table well formed. */
  lemma WellformedUpdate<V>(t: seq<Chain<V>>, hash: Key -> nat, b: nat, c: Chain<V>)
    requires Wellformed(t, hash) && b < |t| && KeysUnique(c)
    requires forall j :: 0 <= j < |c| ==> hash(c[j].0) % |t| == b
    ensures Wellformed(t[b := c], hash)
  {
  }

  /** The keys of a chain of a well-formed table hash to it. */
  lemma ChainPlaced<V>(t: seq<Chain<V>>, hash: Key -> nat, b: nat, e: (Key, V))
    requires Wellformed(t, hash) && b < |t| && e in t[b]
    ensures hash(e.0) % |t| == b
  {
    var j :| 0 <= j < |t[b]| && t[b][j] == e;
  }

  lemma SpliceUpdate<T>(a: seq<T>, c: seq<T>, z: seq<T>, i: nat, x: T)
    requires i < |c|
    ensures (a + c + z)[|a| + i := x] == a + c[i := x] + z
  {
  }

  lemma SpliceDrop<T>(a: seq<T>, c: seq<T>, z: seq<T>, i: nat)
    requires i < |c|
    ensures var s := a + c + z;
      s[..|a| + i] + s[|a| + i + 1..] == a + (c[..i] + c[i + 1..]) + z
  {
    var s := a + c + z;
    assert s[..|a| + i] == a + c[..i];
    assert s[|a| + i + 1..] == c[i + 1..] + z;
  }

  /** Overwriting the value of a node overwrites the value of its key in the map. */
  lemma ReplaceInTable<V>(t: seq<Chain<V>>, hash: Key -> nat, b: nat, i: nat, value: V)
    requires Wellformed(t, hash) && b < |t| && i < |t[b]|
    ensures MapOf(t[b := t[b][i := (t[b][i].0, value)]]) == MapOf(t)[t[b][i].0 := value]
  {
    var c := t[b];
    var a, z := Flatten(t[..b]), Flatten(t[b + 1..]);
    var s := Flatten(t);
    FlattenAround(t, b);
    FlattenUpdate(t, b, c[i := (c[i].0, value)]);
    FlattenUnique(t, hash, |t|);
    assert s[|a| + i] == c[i];
    SpliceUpdate(a, c, z, i, (c[i].0, value));
    EntryMapReplace(s, |a| + i, value);
  }

  /** Appending a node for a key no later chain holds maps the key to its value. */
  lemma AppendToTable<V>(t: seq<Chain<V>>, b: nat, key: Key, value: V)
    requires b < |t| && Avoids(Flatten(t[b + 1..]), key)
    ensures MapOf(t[b := t[b] + [(key, value)]]) == MapOf(t)[key := value]
  {
    var c := t[b];
    var a, z := Flatten(t[..b]), Flatten(t[b + 1..]);
    FlattenAround(t, b);
    FlattenUpdate(t, b, c + [(key, value)]);
    assert a + (c + [(key, value)]) + z == (a + c) + [(key, value)] + z;
    EntryMapInsert(a + c, key, value, z);
  }

  /** Dropping a node removes its key from the map. */
  lemma DropFromTable<V>(t: seq<Chain<V>>, hash: Key -> nat, b: nat, i: nat)
    requires Wellformed(t, hash) && b < |t| && i < |t[b]|
    ensures MapOf(t[b := t[b][..i] + t[b][i + 1..]]) == MapOf(t) - {t[b][i].0}
  {
    var c := t[b];
    var a, z := Flatten(t[..b]), Flatten(t[b + 1..]);
    var s := Flatten(t);
    FlattenAround(t, b);
    FlattenUpdate(t, b, c[..i] + c[i + 1..]);
    FlattenUnique(t, hash, |t|);
    assert s[|a| + i] == c[i];
    SpliceDrop(a, c, z, i);
    EntryMapDelete(s, |a| + i);
  }

  /** Replacing a chain changes the number of collected pairs by the change in its length. */
  lemma FlattenUpdateSize<V>(t: seq<Chain<V>>, b: nat, c: Chain<V>)
    requires b < |t|
    ensures |Flatten(t[b := c])| == |Flatten(t)| - |t[b]| + |c|
  {
    FlattenAround(t, b);
    FlattenUpdate(t, b, c);
  }

  /** `put` without a resize: the key is mapped to the value, the table stays well formed,
      and a node is added exactly when the key was absent. */
  lemma AssignMap<V>(t: seq<Chain<V>>, hash: Key -> nat, key: Key, value: V)
    requires Wellformed(t, hash)
    ensures var b := hash(key) % |t|;
      var r := Assign(t[b], key, value);
      Wellformed(t[b := r.0], hash) && MapOf(t[b := r.0]) == MapOf(t)[key := value]
      && (r.1 <==> key !in MapOf(t))
      && |Flatten(t[b := r.0])| == |Flatten(t)| + (if r.1 then 1 else 0)
  {
    var b := hash(key) % |t|;
    var c := t[b];
    var r := Assign(c, key, value);
    forall j | 0 <= j < |r.0|
      ensures hash(r.0[j].0) % |t| == b
    {
      if r.0[j].0 != key {
        ChainPlaced(t, hash, b, r.0[j]);
      }
    }
    WellformedUpdate(t, hash, b, r.0);
    FlattenUpdateSize(t, b, r.0);
    LookupMap(t, hash, key);
    match Contains(c, key)
    case Some(i) =>
      ReplaceInTable(t, hash, b, i, value);
    case None =>
      OthersAvoid(t, hash, key);
      AppendToTable(t, b, key, value);
  }

  lemma RemoveWellformed<V>(t: seq<Chain<V>>, hash: Key -> nat, key: Key)
    requires Wellformed(t, hash)
    ensures var b := hash(key) % |t|; Wellformed(t[b := Remove(t[b], key).0], hash)
  {
    var b := hash(key) % |t|;
    var r := Remove(t[b], key);
    forall j | 0 <= j < |r.0|
      ensures hash(r.0[j].0) % |t| == b
    {
      ChainPlaced(t, hash, b, r.0[j]);
    }
    WellformedUpdate(t, hash, b, r.0);
  }

  /** `remove`: the key leaves the map, the table stays well formed, and a node is dropped
      exactly when the key was present. */
  lemma RemoveMap<V>(t: seq<Chain<V>>, hash: Key -> nat, key: Key)
    requires Wellformed(t, hash)
    ensures var b := hash(key) % |t|;
      var r := Remove(t[b], key);
      Wellformed(t[b := r.0], hash) && MapOf(t[b := r.0]) == MapOf(t) - {key}
      && (r.1 <==> key in MapOf(t))
      && |Flatten(t[b := r.0])| == |Flatten(t)| - (if r.1 then 1 else 0)
  {
    var b := hash(key) % |t|;
    var c := t[b];
    var r := Remove(c, key);
    RemoveWellformed(t, hash, key);
    FlattenUpdateSize(t, b, r.0);
    LookupMap(t, hash, key);
    match Contains(c, key)
    case Some(i) =>
      DropFromTable(t, hash, b, i);
    case None =>
      assert t[b := r.0] == t;
      assert key !in MapOf(t);
  }

  /** Number of empty chains: what `empty_buckets` counts. */
  ghost function EmptyCount<V>(t: seq<Chain<V>>): nat
  {
    if t == [] then 0
    else EmptyCount(t[..|t| - 1]) + (if t[|t| - 1] == [] then 1 else 0)
  }

  /** Each non-empty chain holds at least one pair, so at least `capacity - size` chains are
      empty, and all of them when the table holds nothing. */
  lemma {:induction false} EmptyCountBounds<V>(t: seq<Chain<V>>)
    ensures |t| - |Flatten(t)| <= EmptyCount(t) <= |t|
    ensures Flatten(t) == [] ==> EmptyCount(t) == |t|
  {
    if t != [] {
      var n := |t| - 1;
      EmptyCountBounds(t[..n]);
      assert Flatten(t) == Flatten(t[..n]) + t[n];
    }
  }
}

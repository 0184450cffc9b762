/** The `HashMap` of hash_map_sc.py: every bucket holds a chain of `(key, value)` nodes,
    a key lives in the chain its hash selects, and `put` first resizes to twice the
    capacity (to a prime, and further until the pairs fit) once the load reaches 1. Also
    `find_mode`, which counts occurrences in such a map. */
module SeparateChaining {
  import opened Primes
  import opened Common
  import opened Chaining
  import opened Modes

  /** A bucket list of `c` empty chains. */
  method NewChains<V>(c: nat) returns (a: array<Chain<V>>)
    ensures fresh(a) && a.Length == c
    ensures forall b :: 0 <= b < c ==> a[b] == []
  {
    a := new Chain<V>[c](_ => []);
  }

  /** The capacity `resize_table`'s loop ends with when started from `c` for `size` pairs:
      `c` once the load `size / c` is at most 1, otherwise that of twice `c` made prime. */
  ghost function Grown(size: nat, c: nat): (r: nat)
    requires Prime(c)
    ensures Prime(r) && r >= size && r >= c
    ensures size <= c ==> r == c
    decreases size - c
  {
    if size > c then Grown(size, ResizeTarget(2 * c)) else c
  }

  /** The capacity steps of `resize_table(new_capacity)`: `new_capacity` made prime, then
      doubled and made prime again while the load would exceed 1. */
  method NewCapacity(n: nat, size: nat) returns (c: nat)
    ensures c == Grown(size, ResizeTarget(n))
  {
    c := PrimeCapacity(n);
    while size > c
      invariant Prime(c) && Grown(size, c) == Grown(size, ResizeTarget(n))
      decreases size - c
    {
      c := PrimeCapacity(2 * c);
    }
  }

  /** `pairs` followed by the nodes of a chain, in order: the inner loop of
      `get_keys_and_values`. */
  method AppendChain<V>(pairs: seq<(Key, V)>, c: Chain<V>) returns (r: seq<(Key, V)>)
    ensures r == pairs + c
  {
    r := pairs;
    for j := 0 to |c|
      invariant r == pairs + c[..j]
    {
      assert c[..j + 1] == c[..j] + [c[j]];
      r := r + [c[j]];
    }
    assert c[..|c|] == c;
  }

  class HashMap<V> {
    var buckets: array<Chain<V>>
    var capacity: nat
    var size: nat
    const hash: Key -> nat

    /** One chain per unit of a prime capacity, every key in the chain it hashes to and
        there once, the size counts the nodes, and the load `size / capacity` is at most 1. */
    ghost predicate Valid()
      reads this`buckets, this`capacity, this`size, buckets
    {
      buckets.Length == capacity && Prime(capacity) && Wellformed(buckets[..], hash)
      && size == |Flatten(buckets[..])| && size <= capacity
    }

    /** The chains. */
    ghost function Slots(): seq<Chain<V>>
      reads this`buckets, buckets
    {
      buckets[..]
    }

    /** The key-to-value view. */
    ghost function Map(): map<Key, V>
      reads this`buckets, buckets
    {
      MapOf(Slots())
    }

    /** `__init__`: the capacity is the next prime from the one asked for, every chain is
        empty, the size is 0. */
    constructor (capacity: nat, hash: Key -> nat)
      ensures Valid() && Map() == map[] && size == 0
      ensures IsNextPrime(capacity, this.capacity) && this.hash == hash
      ensures fresh(buckets)
    {
      var c := NextPrime(capacity);
      var a := NewChains<V>(c);
      buckets, this.capacity, this.hash, size := a, c, hash, 0;
      new;
      AllEmpty(buckets[..], hash);
    }

    /** `clear`: re-runs `__init__` with the current capacity, which keeps a prime capacity
        except 2, which becomes 3. */
    method Clear()
      requires Valid()
      modifies this`buckets, this`capacity, this`size
      ensures Valid() && Map() == map[] && size == 0
      ensures capacity == (if old(capacity) == 2 then 3 else old(capacity))
      ensures fresh(buckets)
    {
      var c := NextPrime(capacity);
      NextPrimeOfPrime(capacity);
      var a := NewChains<V>(c);
      buckets, capacity, size := a, c, 0;
      AllEmpty(buckets[..], hash);
    }

    /** The chain step of `put`: in the chain `hash(key) % len(buckets)`, overwrite the
        value of the node with the key, or append a node and count it. The load stays at
        most 1 when there is room for a new key or the key is already there. */
    method Place(key: Key, value: V)
      requires Valid() && (size < capacity || key in Map())
      modifies buckets, this`size
      ensures Valid() && Map() == old(Map())[key := value]
      ensures size == old(size) + (if key in old(Map()) then 0 else 1)
    {
      ghost var t := buckets[..];
      var index := hash(key) % buckets.Length;
      var chain := buckets[index];
      AssignMap(t, hash, key, value);
      match Contains(chain, key)
      case Some(i) =>
        buckets[index] := chain[i := (key, value)];
      case None =>
        buckets[index] := chain + [(key, value)];
        size := size + 1;
      assert buckets[..] == t[index := Assign(chain, key, value).0];
    }

    /** `put`: once the load `size / capacity` reaches 1, resize to twice the capacity; then
        the key is mapped to the value and the size grows exactly when the key is new. */
    method Put(key: Key, value: V)
      requires Valid()
      modifies this`buckets, this`capacity, this`size, buckets
      ensures Valid() && Map() == old(Map())[key := value]
      ensures size == old(size) + (if key in old(Map()) then 0 else 1)
      ensures capacity == if old(size) >= old(capacity)
                          then Grown(old(size), ResizeTarget(2 * old(capacity)))
                          else old(capacity)
      ensures old(size) < old(capacity) ==> buckets == old(buckets)
      ensures buckets == old(buckets) || fresh(buckets)
      decreases if size >= capacity then 1 else 0, 1
    {
      if size >= capacity {
        DoubledTarget(capacity);
        ResizeTable(2 * capacity);
      }
      Place(key, value);
    }

    /** `resize_table(new_capacity)`: ignored below 1; otherwise the capacity becomes the
        first of `new_capacity` made prime, then doubled and made prime, that the pairs fit
        in at load at most 1, the chains are rebuilt and every pair is put back. The map and
        the size do not change. */
    method ResizeTable(n: int)
      requires Valid()
      modifies this`buckets, this`capacity, this`size, buckets
      ensures Valid() && Map() == old(Map()) && size == old(size)
      ensures n < 1 ==> capacity == old(capacity) && buckets == old(buckets)
      ensures n >= 1 ==> capacity == Grown(old(size), ResizeTarget(n)) && fresh(buckets)
      decreases 0, 4
    {
      if n < 1 {
        return;
      }
      var pairs := GetKeysAndValues();
      var c := NewCapacity(n, size);
      Rebuild(c);
      Reput(pairs);
    }

    /** The middle of `resize_table`: the new capacity with a list of empty chains. */
    method Rebuild(c: nat)
      requires Prime(c)
      modifies this`buckets, this`capacity, this`size
      ensures Valid() && Map() == map[] && size == 0 && capacity == c && fresh(buckets)
    {
      var a := NewChains<V>(c);
      capacity, buckets, size := c, a, 0;
      AllEmpty(buckets[..], hash);
    }

    /** The last step of `resize_table`: put the saved pairs back, in order. They have
        unique keys and fit at load 1, so no `put` resizes and each adds a node. */
    method Reput(pairs: seq<(Key, V)>)
      requires Valid() && size == 0 && KeysUnique(pairs) && |pairs| <= capacity
      modifies this`buckets, this`capacity, this`size, buckets
      ensures Valid() && Map() == EntryMap(pairs) && size == |pairs|
      ensures capacity == old(capacity) && buckets == old(buckets)
      decreases 0, 3
    {
      assert pairs[..0] == [] && Flatten(buckets[..]) == [];
      for i := 0 to |pairs|
        invariant Refilled(pairs, i, old(capacity))
        invariant buckets == old(buckets)
      {
        PutBack(pairs, i, old(capacity));
      }
      assert pairs[..|pairs|] == pairs;
    }

    /** The state of `resize_table` after re-putting the first `i` saved pairs into chains
        of capacity `c0`. */
    ghost predicate Refilled(pairs: seq<(Key, V)>, i: nat, c0: nat)
      reads this`buckets, this`capacity, this`size, buckets
    {
      i <= |pairs| && Valid() && Map() == EntryMap(pairs[..i]) && size == i
      && capacity == c0 && |pairs| <= c0 && KeysUnique(pairs)
    }

    /** One `put` of the re-put loop: the `i`th pair's key is new and the load is below 1. */
    method PutBack(pairs: seq<(Key, V)>, i: nat, ghost c0: nat)
      requires i < |pairs| && Refilled(pairs, i, c0)
      modifies this`buckets, this`capacity, this`size, buckets
      ensures Refilled(pairs, i + 1, c0) && buckets == old(buckets)
      decreases 0, 2
    {
      assert pairs[..i + 1][..i] == pairs[..i];
      KeyNotYetSeen(pairs, i);
      Put(pairs[i].0, pairs[i].1);
    }

    /** `get`: `None` on an empty map, otherwise the value of the node the key's chain holds
        for it, if any: the mapped value exactly for the keys of the map. */
    method Get(key: Key) returns (r: Option<V>)
      requires Valid()
      ensures r == if key in Map() then Some(Map()[key]) else None
    {
      r := None;
      if size > 0 {
        var index := hash(key) % capacity;
        LookupMap(buckets[..], hash, key);
        match Contains(buckets[index], key)
        case Some(i) =>
          r := Some(buckets[index][i].1);
        case None =>
      } else {
        assert Flatten(buckets[..]) == [];
      }
    }

    /** `contains_key`: `False` on an empty map, otherwise whether the key's chain holds a
        node with the key: exactly the keys of the map. */
    method ContainsKey(key: Key) returns (r: bool)
      requires Valid()
      ensures r <==> key in Map()
    {
      r := false;
      if size > 0 {
        var index := hash(key) % capacity;
        LookupMap(buckets[..], hash, key);
        var node := Contains(buckets[index], key);
        if node.Some? && buckets[index][node.value].0 == key {
          r := true;
        }
      } else {
        assert Flatten(buckets[..]) == [];
      }
    }

    /** `remove`: drop the key's node from its chain and count it out if there was one; the
        key leaves the map and the size drops exactly when it was there. */
    method Remove(key: Key)
      requires Valid()
      modifies buckets, this`size
      ensures Valid() && Map() == old(Map()) - {key}
      ensures size == old(size) - (if key in old(Map()) then 1 else 0)
    {
      ghost var t := buckets[..];
      var index := hash(key) % capacity;
      RemoveMap(t, hash, key);
      var r := Chaining.Remove(buckets[index], key);
      buckets[index] := r.0;
      if r.1 {
        size := size - 1;
      }
      assert buckets[..] == t[index := r.0];
    }

    /** `get_keys_and_values`: the pairs chain by chain, in bucket order; they hold the map,
        one pair per key, as many as the size. */
    method GetKeysAndValues() returns (pairs: seq<(Key, V)>)
      requires Valid()
      ensures pairs == Flatten(Slots())
      ensures KeysUnique(pairs) && EntryMap(pairs) == Map() && |pairs| == size
    {
      pairs := [];
      for i := 0 to capacity
        invariant pairs == Flatten(buckets[..i])
      {
        assert buckets[..i + 1][..i] == buckets[..i];
        if |buckets[i]| > 0 {
          pairs := AppendChain(pairs, buckets[i]);
        }
      }
      assert buckets[..capacity] == buckets[..];
      FlattenUnique(buckets[..], hash, capacity);
    }

    /** `empty_buckets`: the number of empty chains, which is at least `capacity - size`
        and is the capacity when the map is empty. */
    method EmptyBuckets() returns (r: nat)
      requires Valid()
      ensures r == EmptyCount(Slots())
      ensures capacity - size <= r <= capacity && (size == 0 ==> r == capacity)
    {
      r := 0;
      for i := 0 to buckets.Length
        invariant r == EmptyCount(buckets[..i])
      {
        assert buckets[..i + 1][..i] == buckets[..i];
        if |buckets[i]| == 0 {
          r := r + 1;
        }
      }
      assert buckets[..buckets.Length] == buckets[..];
      EmptyCountBounds(buckets[..]);
    }
  }

  /** `find_mode`: count the occurrences of each element in a map created with the default
      capacity 11 (a count that Python reads as false, 0 or none, starts again at 1), then
      scan its pairs for the largest count. The result is `None` exactly for an empty
      input; otherwise it is the largest count, and the modes are exactly the elements
      occurring that often, each once, in the order of the map's `get_keys_and_values`
      (`pairs`, which holds each element once with its count and is the bucket-by-bucket,
      chain-by-chain listing of the final well-formed `table`). */
  method FindMode(da: seq<Key>, hash: Key -> nat)
    returns (modes: seq<Key>, freq: Option<nat>, ghost pairs: seq<(Key, nat)>,
             ghost table: seq<Chain<nat>>)
    ensures freq.None? <==> da == []
    ensures freq.Some? ==> forall k :: k in da ==> multiset(da)[k] <= freq.value
    ensures freq.Some? ==> |modes| > 0
    ensures forall k :: k in modes <==> k in da && freq.Some? && multiset(da)[k] == freq.value
    ensures Distinct(modes)
    ensures KeysUnique(pairs) && EntryMap(pairs) == Counts(da)
    ensures Wellformed(table, hash) && pairs == Flatten(table)
    ensures modes == if freq.Some? then KeysWith(pairs, freq.value) else []
  {
    var m := new HashMap<nat>(11, hash);
    for i := 0 to |da|
      invariant m.Valid() && m.Map() == Counts(da[..i]) && fresh(m.buckets)
    {
      var key := da[i];
      var cur := m.Get(key);
      assert da[..i + 1] == da[..i] + [key];
      CountsStep(da[..i], key);
      if cur.Some? && cur.value != 0 {
        m.Put(key, cur.value + 1);
      } else {
        m.Put(key, 1);
      }
    }
    assert da[..|da|] == da;
    var kv := m.GetKeysAndValues();
    modes, freq := ScanModes(kv);
    pairs, table := kv, m.Slots();
    ModesOfMap(kv);
    CountsMeaning(da);
  }

  /** `Counts` as seen from the sequence: its keys are the elements, its values their
      multiplicities, and it is empty only for the empty sequence. */
  lemma CountsMeaning(da: seq<Key>)
    ensures forall k :: k in Counts(da) <==> k in da
    ensures forall k :: k in Counts(da) ==> Counts(da)[k] == multiset(da)[k]
    ensures Counts(da) == map[] <==> da == []
  {
    if da != [] {
      assert da[0] in multiset(da);
    }
  }

  /** The resize example of the module's demo: a map created with capacity 23 holding
      `'key1' -> 10`, resized to 30, has capacity 31 and still maps `'key1'` to 10. */
  method ResizeExample(hash: Key -> nat) returns (capacity: nat, value: Option<int>)
    ensures capacity == 31 && value == Some(10)
  {
    PrimeBySmallFactors(23, 5);
    NextPrimeOfOddPrime(23);
    var m := new HashMap<int>(23, hash);
    m.Put("key1", 10);
    assert m.size == 1 && m.Map() == map["key1" := 10];
    assert 30 % 2 == 0;
    NextPrimeOfThirty();
    assert ResizeTarget(30) == 31;
    m.ResizeTable(30);
    capacity := m.capacity;
    value := m.Get("key1");
  }

  /** The first `contains_key` example of the module's demo: after putting `'key1'`,
      `'key2'` and `'key3'`, the first and third are found and `'key4'` is not; once
      `'key3'` is removed it is not found either. */
  method ContainsKeyExample(hash: Key -> nat) returns (r: seq<bool>)
    ensures r == [false, true, false, true, true, false]
  {
    var m, a := ThreeKeys(hash);
    var b := m.ContainsKey("key1");
    var c := m.ContainsKey("key4");
    var d := m.ContainsKey("key2");
    var e := m.ContainsKey("key3");
    m.Remove("key3");
    var f := m.ContainsKey("key3");
    assert "key4"[3] != "key1"[3] && "key4"[3] != "key2"[3] && "key4"[3] != "key3"[3];
    r := [a, b, c, d, e, f];
  }

  /** The set-up of that example: a query on the empty map, then three puts. */
  method ThreeKeys(hash: Key -> nat) returns (m: HashMap<int>, a: bool)
    ensures fresh(m) && fresh(m.buckets) && m.Valid()
    ensures m.Map() == map["key1" := 10, "key2" := 20, "key3" := 30] && !a
  {
    m := new HashMap<int>(53, hash);
    a := m.ContainsKey("key1");
    m.Put("key1", 10);
    m.Put("key2", 20);
    m.Put("key3", 30);
  }

  /** The first `find_mode` example of the module's demo: in `apple, apple, grape, melon,
      peach` the mode is `apple`, twice. */
  method FindModeExample(hash: Key -> nat) returns (modes: seq<Key>, freq: Option<nat>)
    ensures modes == ["apple"] && freq == Some(2)
  {
    var da := ["apple", "apple", "grape", "melon", "peach"];
    assert multiset(da) == multiset{"apple", "apple", "grape", "melon", "peach"};
    ghost var pairs, table;
    modes, freq, pairs, table := FindMode(da, hash);
    assert da != [] && "apple" in da && multiset(da)["apple"] == 2;
    assert multiset(da)["apple"] <= freq.value;
    assert forall k :: k in da && k != "apple" ==> multiset(da)[k] == 1;
    assert modes[0] in modes;
    assert modes[0] == "apple" && freq == Some(2);
    DistinctSingleton(modes, "apple");
  }
}

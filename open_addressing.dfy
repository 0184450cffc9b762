/** The `HashMap` of hash_map_oa.py: entries live in an array of buckets, collisions are
    resolved by quadratic probing, `remove` leaves a tombstone, and `put` first doubles the
    capacity (to the next prime) once the table is half full. */
module OpenAddressing {
  import opened Primes
  import opened Common
  import opened QuadraticProbing

  /** The probe loop shared by `put`, `get`, `contains_key` and `remove`: probe `j` looks
      at bucket `(hash(key) % capacity + j * j) % capacity` until one at which `goal`
      stops. The probes repeat after `capacity` steps, so when none of the first
      `capacity` stops the source loop runs forever; the result is then `Endless`. */
  method ProbeLoop<V>(a: array<Slot<V>>, c: nat, start: nat, goal: Goal, key: Key)
    returns (p: Probe)
    requires 0 < c <= a.Length
    ensures p == Scan(a[..c], start, goal, key, 0)
  {
    ghost var t := a[..c];
    var i := start % c;
    var j := 0;
    while j < c && !Halts(goal, a[i], key)
      invariant |t| == c && j <= c && i == ProbeAt(start, j, c)
      invariant forall j' :: 0 <= j' < j ==> !Halts(goal, t[ProbeAt(start, j', |t|)], key)
    {
      assert t[i] == a[i];
      j := j + 1;
      i := (start + j * j) % c;
    }
    if j == c {
      p := Endless;
      ScanEndless(t, start, goal, key);
    } else {
      assert t[i] == a[i];
      p := Stop(j);
      ScanIsFirst(t, start, goal, key, j);
    }
  }

  /** A list of `n` buckets that are all `None`; its first `c` form a sound table. */
  method NewBuckets<V>(n: nat, c: nat, hash: Key -> nat) returns (a: array<Slot<V>>)
    requires 0 < c <= n
    ensures fresh(a) && a.Length == n
    ensures SoundTable(a[..c], hash) && NoTombs(a[..c]) && LiveCount(a[..c]) == 0
  {
    a := new Slot<V>[n](_ => Empty);
    AllEmpty(a[..c], hash);
  }

  class HashMap<V> {
    var buckets: array<Slot<V>>
    var capacity: nat
    var size: nat
    /** Position of the iterator. */
    var index: nat
    const hash: Key -> nat

    /** The bucket array covers the capacity, the capacity is prime, and the size does not
        exceed the number of live entries (it can fall below it; see `SizeCanDrift`). */
    ghost predicate Valid()
      reads this`buckets, this`capacity, this`size, buckets
    {
      2 <= capacity <= buckets.Length && Prime(capacity)
      && size <= LiveCount(buckets[..capacity])
    }

    /** The buckets the probe loops range over. */
    ghost function Slots(): seq<Slot<V>>
      reads this`buckets, this`capacity, buckets
      requires capacity <= buckets.Length
    {
      buckets[..capacity]
    }

    /** The key-to-value view. */
    ghost function Map(): map<Key, V>
      reads this`buckets, this`capacity, buckets
      requires capacity <= buckets.Length
    {
      MapOf(Slots())
    }

    /** The table behaves as a map and its size is its number of live entries. */
    ghost predicate Sound()
      reads this`buckets, this`capacity, this`size, buckets
    {
      Valid() && SoundTable(Slots(), hash) && size == LiveCount(Slots())
    }

    /** `__init__`: the capacity is the next prime from the one asked for, every bucket is
        `None`, the size is 0. */
    constructor (capacity: nat, hash: Key -> nat)
      ensures Sound() && NoTombs(Slots()) && Map() == map[]
      ensures IsNextPrime(capacity, this.capacity) && this.hash == hash
      ensures fresh(buckets) && buckets.Length == this.capacity && size == 0 && index == 0
    {
      var c := NextPrime(capacity);
      buckets := new Slot<V>[c](_ => Empty);
      this.capacity := c;
      this.hash := hash;
      size := 0;
      index := 0;
      new;
      AllEmpty(buckets[..c], hash);
    }

    /** `clear`: re-runs `__init__` with the current capacity, which keeps a prime capacity
        except 2, which becomes 3. */
    method Clear()
      requires Valid()
      modifies this`buckets, this`capacity, this`size
      ensures Sound() && NoTombs(Slots()) && Map() == map[] && size == 0
      ensures capacity == (if old(capacity) == 2 then 3 else old(capacity))
      ensures fresh(buckets) && buckets.Length == capacity
    {
      var c := NextPrime(capacity);
      NextPrimeOfPrime(capacity);
      buckets := new Slot<V>[c](_ => Empty);
      capacity := c;
      size := 0;
      AllEmpty(buckets[..c], hash);
    }

    /** The probe-and-write half of `put`: the pair goes to the first bucket at which the
        insertion loop stops, overwriting a live entry with the key, reusing a tombstone or
        filling an empty bucket; only the last two grow the size. Returns `false`, with
        nothing changed, where the source loop never stops. */
    method Place(key: Key, value: V) returns (halts: bool)
      requires Valid()
      modifies buckets, this`size
      ensures Valid()
      ensures var r := Store(old(Slots()), old(size), hash(key) % capacity, key, value);
        halts == r.Some?
        && if halts then Slots() == r.value.0 && size == r.value.1
           else Slots() == old(Slots()) && size == old(size)
      ensures LiveCount(Slots()) <= old(LiveCount(Slots())) + 1
    {
      var start := hash(key) % capacity;
      ghost var t := Slots();
      var p := ProbeLoop(buckets, capacity, start, Insert, key);
      if p.Endless? {
        assert Store(t, size, start, key, value) == None;
        return false;
      }
      var i := ProbeAt(start, p.step, capacity);
      assert Store(t, size, start, key, value)
             == Some((t[i := Live(key, value)], if t[i].Live? then size else size + 1));
      StoreCounts(t, size, start, key, value);
      if buckets[i].Live? {
        // a live entry with the key: only its value changes
        buckets[i] := Live(key, value);
      } else {
        // a tombstone is replaced by a new entry; so is `None`, where the source's two
        // branches (writing at the initial index when that is `None`, else at the probed
        // bucket) name the same bucket, since the loop stops at the first `None`
        buckets[i] := Live(key, value);
        size := size + 1;
      }
      assert Slots() == t[i := Live(key, value)];
      return true;
    }

    /** `Place`, with what it means: lookup of the key then finds the value; a table that was
        sound and had no tombstones or lacked the key maps the key to the value, stays sound
        and grows by one entry exactly when the key was new; and a sound table less than half
        full always lets the loop stop. */
    method PlaceEntry(key: Key, value: V) returns (halts: bool)
      requires Valid()
      modifies buckets, this`size
      ensures Valid()
      ensures var r := Store(old(Slots()), old(size), hash(key) % capacity, key, value);
        halts == r.Some?
        && if halts then Slots() == r.value.0 && size == r.value.1
           else Slots() == old(Slots()) && size == old(size)
      ensures LiveCount(Slots()) <= old(LiveCount(Slots())) + 1
      ensures halts ==> Find(Slots(), hash(key) % capacity, key) == Done(Some(value))
      ensures old(Sound() && 2 * size < capacity) ==> halts
      ensures old(Sound() && (NoTombs(Slots()) || key !in Map())) && halts ==>
        Sound() && Map() == old(Map())[key := value]
        && size == old(size) + (if key in old(Map()) then 0 else 1)
    {
      ghost var t, sz, start := Slots(), size, hash(key) % capacity;
      if Sound() && 2 * size < capacity {
        StoreHalts(t, size, start, key, value);
      }
      if Sound() && (NoTombs(t) || key !in MapOf(t)) && Store(t, size, start, key, value).Some? {
        StoreSound(t, hash, size, key, value);
        StoreGrows(t, hash, size, key, value);
      }
      halts := Place(key, value);
      if halts {
        PutThenGet(t, sz, start, key, value);
      }
    }

    /** The first half of `put`: once the load reaches 0.5, resize to twice the capacity.
        The capacity then becomes an odd prime above twice the old one, and the table is
        sound, without tombstones, less than half full and holds the same map. */
    method GrowIfHalfFull()
      requires Valid()
      modifies this`buckets, this`capacity, this`size, buckets
      ensures Valid() && 2 * size < capacity
      ensures buckets == old(buckets) || fresh(buckets)
      ensures capacity >= old(capacity) && LiveCount(Slots()) <= old(LiveCount(Slots()))
      ensures old(2 * size < capacity) ==>
        capacity == old(capacity) && buckets == old(buckets) && Slots() == old(Slots())
        && size == old(size)
      ensures old(2 * size >= capacity) ==>
        capacity == ResizeTarget(2 * old(capacity)) && capacity > 2 * old(capacity)
        && Sound() && NoTombs(Slots()) && Map() == old(Map())
      ensures old(Sound()) ==> size == old(size)
      decreases if 2 * size >= capacity then 2 * LiveCount(buckets[..capacity]) + 1 - capacity
                else 0, 1
    {
      FreeSetSize(Slots());
      if 2 * size >= capacity {
        ghost var t0, sound0 := Slots(), Sound();
        DoubledTarget(capacity);
        ResizeTable(2 * capacity);
        if sound0 {
          SoundSize(t0, hash);
          SoundSize(Slots(), hash);
        }
      }
    }

    /** `put`: grows the table once it is half full, then places the pair. Whenever the
        placing loop stops, lookup of the key then finds the value. From a sound table that
        has no tombstones or lacks the key, the key is mapped to the value and the size grows
        exactly when the key is new; after a resize the map update holds whatever the table
        was. */
    method Put(key: Key, value: V) returns (halts: bool)
      requires Valid()
      modifies this`buckets, this`capacity, this`size, buckets
      ensures Valid()
      ensures buckets == old(buckets) || fresh(buckets)
      ensures capacity >= old(capacity) && 2 * size <= capacity + 1
      ensures LiveCount(Slots()) <= old(LiveCount(Slots())) + 1
      ensures old(2 * size < capacity) ==>
        var r := Store(old(Slots()), old(size), hash(key) % capacity, key, value);
        capacity == old(capacity) && buckets == old(buckets) && halts == r.Some?
        && if halts then Slots() == r.value.0 && size == r.value.1
           else Slots() == old(Slots()) && size == old(size)
      ensures old(2 * size >= capacity) ==>
        halts && Sound() && NoTombs(Slots()) && Map() == old(Map())[key := value]
        && capacity == ResizeTarget(2 * old(capacity))
      ensures old(Sound() && (NoTombs(Slots()) || key !in Map())) ==>
        halts && Sound() && Map() == old(Map())[key := value]
        && size == old(size) + (if key in old(Map()) then 0 else 1)
      ensures halts ==> Find(Slots(), hash(key) % capacity, key) == Done(Some(value))
      ensures old(NoTombs(Slots())) ==> NoTombs(Slots())
      decreases if 2 * size >= capacity then 2 * LiveCount(buckets[..capacity]) + 1 - capacity
                else 0, 2
    {
      GrowIfHalfFull();
      halts := PlaceEntry(key, value);
    }

    /** `resize_table(new_capacity)`: ignored when below the size; otherwise the map is
        cleared, the capacity becomes `new_capacity` or the next prime after it, and every
        pair is put back. The result is a sound table without tombstones holding the same
        map. When the pairs fit in half of the target capacity the table has exactly that
        capacity; otherwise the re-puts grow it as `put` does, which leaves it at most one
        pair over half full. */
    method ResizeTable(n: int)
      requires Valid() && (n != 0 || size != 0)
      modifies this`buckets, this`capacity, this`size, buckets
      ensures Valid()
      ensures buckets == old(buckets) || fresh(buckets)
      ensures n < old(size) ==>
        capacity == old(capacity) && buckets == old(buckets) && Slots() == old(Slots())
        && size == old(size)
      ensures n >= old(size) ==>
        Sound() && NoTombs(Slots()) && Map() == old(Map())
        && LiveCount(Slots()) <= old(LiveCount(Slots())) && capacity >= ResizeTarget(n)
        && (2 * old(LiveCount(Slots())) <= ResizeTarget(n) + 1 ==> capacity == ResizeTarget(n))
        && 2 * size <= capacity + 1
      decreases if 2 * LiveCount(buckets[..capacity]) + 1 - n > 0
                then 2 * LiveCount(buckets[..capacity]) + 1 - n else 0, 5
    {
      if n < size {
        return;
      }
      ghost var m0, l0 := Map(), LiveCount(Slots());
      var pairs := GetKeysAndValues();
      assert EntryMap(pairs) == m0 && |pairs| == l0;
      Rebuild(n);
      Reput(pairs);
    }

    /** The middle of `resize_table`: clear the table, then set the capacity to
        `new_capacity` or the next prime after it and grow or shrink the bucket list by the
        change from the capacity before the clear. */
    method Rebuild(n: nat)
      requires Valid()
      modifies this`buckets, this`capacity, this`size
      ensures Sound() && NoTombs(Slots()) && LiveCount(Slots()) == 0
      ensures capacity == ResizeTarget(n) && fresh(buckets)
    {
      var oldCapacity := capacity;
      Clear();
      // `clear` zeroed the size, so the source's loop that doubles the capacity while the
      // load exceeds 0.5 never runs.
      var target := PrimeCapacity(n);
      var b := NewBuckets(buckets.Length + target - oldCapacity, target, hash);
      capacity, buckets := target, b;
    }

    /** The last step of `resize_table`: put the saved pairs back, in order, into the
        cleared table. The table stays sound and without tombstones and ends up holding the
        pairs; its capacity only changes if the pairs do not fit in half of it. */
    method Reput(pairs: seq<(Key, V)>)
      requires Sound() && NoTombs(Slots()) && LiveCount(Slots()) == 0
      modifies this`buckets, this`capacity, this`size, buckets
      ensures Sound() && NoTombs(Slots()) && Map() == EntryMap(pairs)
      ensures LiveCount(Slots()) <= |pairs|
      ensures buckets == old(buckets) || fresh(buckets)
      ensures capacity >= old(capacity)
      ensures 2 * |pairs| <= old(capacity) + 1 ==> capacity == old(capacity)
      ensures 2 * size <= capacity + 1
      decreases if 2 * |pairs| + 1 - capacity > 0 then 2 * |pairs| + 1 - capacity else 0, 4
    {
      assert pairs[..0] == [] && Entries(Slots()) == [];
      for i := 0 to |pairs|
        invariant Refilled(pairs, i, old(capacity))
        invariant buckets == old(buckets) || fresh(buckets)
        invariant 2 * size <= capacity + 1
      {
        PutBack(pairs, i, old(capacity));
      }
      assert pairs[..|pairs|] == pairs;
    }

    /** The state of `resize_table` after re-putting the first `i` saved pairs into a table
        whose capacity was `c0`: the table is sound, has no tombstones and holds those pairs,
        and its capacity has only grown, and not at all if all the pairs fit in half of it. */
    ghost predicate Refilled(pairs: seq<(Key, V)>, i: nat, c0: nat)
      reads this`buckets, this`capacity, this`size, buckets
    {
      i <= |pairs| && Sound() && NoTombs(Slots())
      && Map() == EntryMap(pairs[..i]) && LiveCount(Slots()) <= i
      && capacity >= c0 && (2 * |pairs| <= c0 + 1 ==> capacity == c0)
    }

    /** One `put` of the re-put loop, of the `i`th saved pair into a sound table without
        tombstones that holds the earlier pairs: the table then holds one more pair, and
        the capacity only changes if all the pairs do not fit in half of it. */
    method PutBack(pairs: seq<(Key, V)>, i: nat, ghost c0: nat)
      requires i < |pairs| && Refilled(pairs, i, c0)
      modifies this`buckets, this`capacity, this`size, buckets
      ensures Refilled(pairs, i + 1, c0)
      ensures buckets == old(buckets) || fresh(buckets)
      ensures 2 * size <= capacity + 1
      decreases if 2 * |pairs| + 1 - capacity > 0 then 2 * |pairs| + 1 - capacity else 0, 3
    {
      assert pairs[..i + 1][..i] == pairs[..i];
      var _ := Put(pairs[i].0, pairs[i].1);
    }

    /** `get`: `None` on an empty map, otherwise the value the lookup loop finds. In a sound
        table this is the mapped value of a present key and never a value for an absent one,
        and without tombstones the loop stops. */
    method Get(key: Key) returns (r: Outcome<Option<V>>)
      requires Valid()
      ensures r == if size == 0 then Done(None) else Find(Slots(), hash(key) % capacity, key)
      ensures Sound() && key in Map() ==> r == Done(Some(Map()[key]))
      ensures Sound() && key !in Map() ==> r in {Done(None), Loops}
      ensures Sound() && NoTombs(Slots()) && 2 * size < capacity ==> r.Done?
    {
      if Sound() {
        FindSound(Slots(), hash, key);
        assert LiveCount(Slots()) == 0 ==> Entries(Slots()) == [];
      }
      if size == 0 {
        return Done(None);
      }
      if Sound() && NoTombs(Slots()) && 2 * size < capacity {
        FindHalts(Slots(), hash(key) % capacity, key);
      }
      var p := ProbeLoop(buckets, capacity, hash(key) % capacity, Lookup, key);
      match p
      case Endless =>
        r := Loops;
      case Stop(j) =>
        var s := buckets[ProbeAt(hash(key) % capacity, j, capacity)];
        r := if s.Live? then Done(Some(s.value)) else Done(None);
    }

    /** `contains_key`: `False` on an empty map, otherwise whether the lookup loop finds a live
        entry. In a sound table it reports exactly the keys of the map, whenever it stops. */
    method ContainsKey(key: Key) returns (r: Outcome<bool>)
      requires Valid()
      ensures r.Loops? <==> size != 0 && Find(Slots(), hash(key) % capacity, key).Loops?
      ensures r.Done? ==>
        r.result == (size != 0 && Find(Slots(), hash(key) % capacity, key).result.Some?)
      ensures Sound() && r.Done? ==> (r.result <==> key in Map())
      ensures Sound() && key in Map() ==> r == Done(true)
    {
      if Sound() {
        FindSound(Slots(), hash, key);
        assert LiveCount(Slots()) == 0 ==> Entries(Slots()) == [];
      }
      if size == 0 {
        return Done(false);
      }
      var p := ProbeLoop(buckets, capacity, hash(key) % capacity, Lookup, key);
      match p
      case Endless =>
        r := Loops;
      case Stop(j) =>
        r := Done(buckets[ProbeAt(hash(key) % capacity, j, capacity)].Live?);
    }

    /** `remove`: when `contains_key` reports the key, the removal loop tombstones the first
        entry with the key on its path and the size drops by one. In a sound table a present
        key leaves the map and the table stays sound; an absent key changes nothing. */
    method Remove(key: Key) returns (halts: bool)
      requires Valid()
      modifies buckets, this`size
      ensures Valid()
      ensures var r := Erase(old(Slots()), old(size), hash(key) % capacity, key);
        halts == r.Done?
        && if halts then Slots() == r.result.0 && size == r.result.1
           else Slots() == old(Slots()) && size == old(size)
      ensures old(Sound()) && key in old(Map()) ==>
        halts && Sound() && Map() == old(Map()) - {key}
      ensures old(Sound()) && key !in old(Map()) ==> Slots() == old(Slots()) && size == old(size)
    {
      ghost var t, sz := Slots(), size;
      var found := ContainsKey(key);
      if found.Loops? {
        return false;
      }
      if found.result {
        Tombstone(key);
      } else {
        assert Erase(t, sz, hash(key) % capacity, key) == Done((t, sz));
      }
      if old(Sound()) {
        EraseSound(t, hash, sz, key);
      }
      return true;
    }

    /** The removal loop of `remove`, once `contains_key` has reported the key: the first
        entry with the key on the probe path, tombstone or not, becomes a tombstone and the
        size drops by one. */
    method Tombstone(key: Key)
      requires Valid() && size > 0
      requires Find(Slots(), hash(key) % capacity, key).Done?
      requires Find(Slots(), hash(key) % capacity, key).result.Some?
      modifies buckets, this`size
      ensures Valid()
      ensures Erase(old(Slots()), old(size), hash(key) % capacity, key) == Done((Slots(), size))
    {
      ghost var t := Slots();
      var start := hash(key) % capacity;
      UnlinkBeforeLookup(t, start, key);
      var p := ProbeLoop(buckets, capacity, start, Unlink, key);
      var i := ProbeAt(start, p.step, capacity);
      LiveCountUpdate(t, i, Tomb(key, t[i].value));
      buckets[i] := Tomb(key, buckets[i].value);
      size := size - 1;
      assert Slots() == t[i := Tomb(key, t[i].value)];
    }

    /** `get_keys_and_values`: the live pairs in bucket order; in a sound table no key is
        listed twice. */
    method GetKeysAndValues() returns (pairs: seq<(Key, V)>)
      requires Valid()
      ensures pairs == Entries(Slots())
      ensures Sound() ==> KeysUnique(pairs)
    {
      pairs := [];
      for i := 0 to capacity
        invariant pairs == Entries(Slots()[..i])
      {
        assert Slots()[..i + 1][..i] == Slots()[..i];
        if buckets[i].Live? {
          pairs := pairs + [(buckets[i].key, buckets[i].value)];
        }
      }
      assert Slots()[..capacity] == Slots();
      if Sound() {
        DistinctKeysUnique(Slots());
      }
    }

    /** `empty_buckets`: capacity minus size. Tombstones count as empty; the result is the
        number of buckets without a live entry when the size is accurate, and never less. */
    function EmptyBuckets(): (r: int)
      reads this`buckets, this`capacity, this`size, buckets
      requires Valid()
      ensures size == LiveCount(Slots()) ==> r == |FreeSet(Slots())|
      ensures r >= |FreeSet(Slots())|
    {
      FreeSetSize(Slots());
      capacity - size
    }

    /** `__iter__`: restarts the iteration. */
    method Iter()
      modifies this`index
      ensures index == 0
    {
      index := 0;
    }

    /** `__next__`: the next live entry at or after the iterator position, or `None` once
        the position reaches the capacity. The pairs still to come are the returned one
        followed by those after the new position. */
    method Next() returns (r: Option<(Key, V)>)
      requires Valid() && index <= capacity
      modifies this`index
      ensures old(index) <= index <= capacity
      ensures Entries(Slots()[old(index)..]) ==
              (if r.Some? then [r.value] else []) + Entries(Slots()[index..])
      ensures r.None? ==> index == capacity
      ensures r.Some? ==> old(index) < index
    {
      ghost var t := Slots();
      index := SkipFree(buckets, capacity, index);
      if index == capacity {
        assert t[index..] == [];
        return None;
      }
      Unfold(t, index);
      r := Some((buckets[index].key, buckets[index].value));
      assert Entry(t[index]) == [r.value];
      index := index + 1;
    }
  }

  /** The loop of `__next__`: from bucket `i`, skip the buckets that hold no live entry. The
      pairs from `i` on are those from where it stops. */
  method SkipFree<V>(a: array<Slot<V>>, c: nat, i: nat) returns (j: nat)
    requires i <= c <= a.Length
    ensures i <= j <= c && (j < c ==> a[j].Live?)
    ensures Entries(a[..c][i..]) == Entries(a[..c][j..])
  {
    ghost var t := a[..c];
    j := i;
    while j < c && !a[j].Live?
      invariant i <= j <= c
      invariant Entries(t[i..]) == Entries(t[j..])
    {
      assert t[j] == a[j];
      Unfold(t, j);
      j := j + 1;
    }
  }

  /** The pairs of the slots from `i` on: those of slot `i`, then those after it. */
  lemma Unfold<V>(t: seq<Slot<V>>, i: nat)
    requires i < |t|
    ensures Entries(t[i..]) == Entry(t[i]) + Entries(t[i + 1..])
  {
    assert t[i..] == [t[i]] + t[i + 1..];
    EntriesCons(t[i], t[i + 1..]);
  }

  /** The resize example of the module's demo: a map created with capacity 23 holding
      `'key1' -> 10`, resized to 30, has capacity 31 and still maps `'key1'` to 10. */
  method ResizeExample(hash: Key -> nat) returns (capacity: nat, value: Outcome<Option<int>>)
    ensures capacity == 31 && value == Done(Some(10))
  {
    PrimeBySmallFactors(23, 5);
    NextPrimeOfOddPrime(23);
    var m := new HashMap<int>(23, hash);
    assert m.capacity == 23 && m.size == 0;
    var _ := m.Put("key1", 10);
    assert m.Sound() && m.Map() == map["key1" := 10] && LiveCount(m.Slots()) <= 1;
    assert 30 % 2 == 0;
    NextPrimeOfThirty();
    assert ResizeTarget(30) == 31;
    m.ResizeTable(30);
    assert m.Sound() && m.Map() == map["key1" := 10];
    capacity := m.capacity;
    value := m.Get("key1");
  }
}

/** The bucket-table logic of hash_map_oa.py, stated on `t`, the sequence of slots the bucket
    array holds below `_capacity` (so `|t|` is the capacity). `start` is
    `hash(key) % capacity`, the `initial_index` of every probe loop. */
module QuadraticProbing {
  import opened Arith
  import opened Primes
  import opened Common

  /** A bucket: `None`, a `HashEntry`, or a `HashEntry` whose `is_tombstone` flag is set. */
  datatype Slot<V> = Empty | Live(key: Key, value: V) | Tomb(key: Key, value: V)

  /** The three probe loops of the source differ only in where they stop. */
  datatype Goal =
    | Lookup  // `get` and `contains_key`: at `None` or a live entry with the key
    | Insert  // `put`: at `None`, at any tombstone, or at a live entry with the key
    | Unlink  // `remove`: at `None` or at any entry with the key, tombstoned or not

  /** Where a probe loop stops: at probe number `step`, or never. */
  datatype Probe = Stop(step: nat) | Endless

  /** The result of an operation whose probe loop may never stop. */
  datatype Outcome<T> = Done(result: T) | Loops

  predicate Halts<V>(goal: Goal, s: Slot<V>, key: Key)
  {
    match goal
    case Lookup => s.Empty? || (s.Live? && s.key == key)
    case Insert => !s.Live? || s.key == key
    case Unlink => s.Empty? || s.key == key
  }

  /** Bucket visited by probe `j`: `(initial_index + j ** 2) % capacity`. */
  function ProbeAt(start: nat, j: nat, c: nat): (i: nat)
    requires c > 0
    ensures i < c
  {
    (start + j * j) % c
  }

  /** The probe sequence repeats with period `capacity`. */
  lemma ProbePeriodic(start: nat, j: nat, c: nat)
    requires c > 0
    ensures ProbeAt(start, j, c) == ProbeAt(start, j % c, c)
  {
    var q, r := j / c, j % c;
    assert j == q * c + r;
    assert j * j == r * r + (q * (q * c + 2 * r)) * c;
    ModAddMultiple(start + r * r, q * (q * c + 2 * r), c);
  }

  /** The first of probes `j, j+1, ..., capacity-1` at which the loop for `goal` stops. */
  function Scan<V>(t: seq<Slot<V>>, start: nat, goal: Goal, key: Key, j: nat): (r: Probe)
    requires |t| > 0
    ensures r.Stop? ==> j <= r.step < |t| && Halts(goal, t[ProbeAt(start, r.step, |t|)], key)
    ensures r.Stop? ==>
      forall j' :: j <= j' < r.step ==> !Halts(goal, t[ProbeAt(start, j', |t|)], key)
    ensures r.Endless? ==>
      forall j' :: j <= j' < |t| ==> !Halts(goal, t[ProbeAt(start, j', |t|)], key)
    decreases |t| - j
  {
    if j >= |t| then Endless
    else if Halts(goal, t[ProbeAt(start, j, |t|)], key) then Stop(j)
    else Scan(t, start, goal, key, j + 1)
  }

  /** When no probe below the capacity stops the loop, no probe ever does: the source loop
      then runs forever, which is what `Endless` stands for. */
  lemma EndlessIsForever<V>(t: seq<Slot<V>>, start: nat, goal: Goal, key: Key, j: nat)
    requires |t| > 0 && Scan(t, start, goal, key, 0).Endless?
    ensures !Halts(goal, t[ProbeAt(start, j, |t|)], key)
  {
    ProbePeriodic(start, j, |t|);
  }

  /** The live entries in bucket order: what `get_keys_and_values` collects. */
  ghost function Entries<V>(t: seq<Slot<V>>): seq<(Key, V)>
  {
    if t == [] then []
    else Entries(t[..|t| - 1]) + Entry(t[|t| - 1])
  }

  ghost function Entry<V>(s: Slot<V>): seq<(Key, V)>
  {
    if s.Live? then [(s.key, s.value)] else []
  }

  /** Number of live slots. */
  ghost function LiveCount<V>(t: seq<Slot<V>>): nat
  {
    |Entries(t)|
  }

  lemma {:induction false} EntriesConcat<V>(a: seq<Slot<V>>, b: seq<Slot<V>>)
    ensures Entries(a + b) == Entries(a) + Entries(b)
    decreases |b|
  {
    if b == [] {
      assert a + b == a;
    } else {
      var n := |b| - 1;
      var ab := a + b;
      assert ab[..|ab| - 1] == a + b[..n];
      assert ab[|ab| - 1] == b[n];
      var e, f := Entries(b[..n]), Entry(b[n]);
      assert Entries(b) == e + f;
      assert Entries(ab) == Entries(a + b[..n]) + f;
      EntriesConcat(a, b[..n]);
      AppendAssoc(Entries(a), e, f);
    }
  }

  lemma AppendAssoc<T>(x: seq<T>, y: seq<T>, z: seq<T>)
    ensures x + y + z == x + (y + z)
  {
  }

  /** Entries of a table split around slot `i`. */
  lemma {:induction false} EntriesAround<V>(t: seq<Slot<V>>, i: nat)
    requires i < |t|
    ensures Entries(t) == Entries(t[..i]) + Entry(t[i]) + Entries(t[i + 1..])
  {
    var n := |t| - 1;
    var u := t[..n];
    if i == n {
      assert u == t[..i] && t[i + 1..] == [];
    } else {
      EntriesAround(u, i);
      var b := t[i + 1..];
      assert u[..i] == t[..i] && u[i] == t[i];
      assert b[..|b| - 1] == u[i + 1..] && b[|b| - 1] == t[n];
      assert Entries(b) == Entries(u[i + 1..]) + Entry(t[n]);
      assert Entries(t) == Entries(u) + Entry(t[n]);
    }
  }

  /** A pair is collected exactly when some slot holds it live. */
  lemma {:induction false} EntriesMember<V>(t: seq<Slot<V>>, k: Key, v: V)
    ensures (k, v) in Entries(t) <==> exists i :: 0 <= i < |t| && t[i] == Live(k, v)
  {
    if t != [] {
      var n := |t| - 1;
      EntriesMember(t[..n], k, v);
      if i :| 0 <= i < n && t[..n][i] == Live(k, v) {
        assert t[i] == Live(k, v);
      }
      if i :| 0 <= i < |t| && t[i] == Live(k, v) {
        if i < n {
          assert t[..n][i] == Live(k, v);
        }
      }
    }
  }

  /** The key-to-value view of a table: its live pairs in bucket order. */
  ghost function MapOf<V>(t: seq<Slot<V>>): map<Key, V>
  {
    EntryMap(Entries(t))
  }

  /** Entries of a table with slot `i` replaced. */
  lemma EntriesUpdate<V>(t: seq<Slot<V>>, i: nat, s: Slot<V>)
    requires i < |t|
    ensures Entries(t[i := s]) == Entries(t[..i]) + Entry(s) + Entries(t[i + 1..])
  {
    var t' := t[i := s];
    EntriesAround(t', i);
    assert t'[..i] == t[..i];
    assert t'[i + 1..] == t[i + 1..];
  }

  /** A table without live slots has no entries. */
  lemma NoLiveEntries<V>(t: seq<Slot<V>>)
    ensures (forall x :: 0 <= x < |t| ==> !t[x].Live?) ==> Entries(t) == []
  {
    if Entries(t) != [] {
      EntriesMember(t, Entries(t)[0].0, Entries(t)[0].1);
    }
  }

  /** No pair collected from a table whose live slots avoid `key` carries `key`. */
  lemma EntriesAvoid<V>(t: seq<Slot<V>>, key: Key)
    requires forall x :: 0 <= x < |t| && t[x].Live? ==> t[x].key != key
    ensures forall q :: 0 <= q < |Entries(t)| ==> Entries(t)[q].0 != key
  {
    forall q | 0 <= q < |Entries(t)|
      ensures Entries(t)[q].0 != key
    {
      EntriesMember(t, Entries(t)[q].0, Entries(t)[q].1);
    }
  }

  /** A key is in the view exactly when some slot holds it live. */
  lemma MapHasKey<V>(t: seq<Slot<V>>, key: Key)
    ensures key in MapOf(t) <==> exists x :: 0 <= x < |t| && t[x].Live? && t[x].key == key
  {
    EntryMapKeys(Entries(t), key);
    if key in MapOf(t) {
      var q :| 0 <= q < |Entries(t)| && Entries(t)[q].0 == key;
      EntriesMember(t, key, Entries(t)[q].1);
    }
    if x :| 0 <= x < |t| && t[x].Live? && t[x].key == key {
      EntriesMember(t, key, t[x].value);
      var q :| 0 <= q < |Entries(t)| && Entries(t)[q] == (key, t[x].value);
    }
  }

  /** A live slot whose key occurs live in no later slot gives that key its value in the view. */
  lemma MapAt<V>(t: seq<Slot<V>>, x: nat)
    requires x < |t| && t[x].Live?
    requires forall y :: x < y < |t| && t[y].Live? ==> t[y].key != t[x].key
    ensures t[x].key in MapOf(t) && MapOf(t)[t[x].key] == t[x].value
  {
    EntriesAround(t, x);
    var b := t[x + 1..];
    forall y | 0 <= y < |b| && b[y].Live?
      ensures b[y].key != t[x].key
    {
      assert b[y] == t[x + 1 + y];
    }
    EntriesAvoid(b, t[x].key);
    EntryMapInsert(Entries(t[..x]), t[x].key, t[x].value, Entries(b));
  }

  // ---------------------------------------------------------------------------------------
  // Termination of the probe loops

  /** The slots holding a live entry. */
  ghost function LiveSet<V>(t: seq<Slot<V>>): set<nat>
  {
    set x: nat | x < |t| && t[x].Live?
  }

  lemma {:induction false} LiveSetSize<V>(t: seq<Slot<V>>)
    ensures |LiveSet(t)| == LiveCount(t)
  {
    if t != [] {
      var n := |t| - 1;
      LiveSetSize(t[..n]);
      assert LiveSet(t) == LiveSet(t[..n]) + (if t[n].Live? then {n} else {});
    }
  }

  lemma {:induction false} SubsetSize<T>(a: set<T>, b: set<T>)
    ensures a <= b ==> |a| <= |b|
    decreases a
  {
    if a <= b && a != {} {
      var x :| x in a;
      SubsetSize(a - {x}, b - {x});
    }
  }

  /** The slots visited by probes `0 .. h-1`. */
  ghost function ProbeSet(start: nat, h: nat, c: nat): set<nat>
    requires c > 0
  {
    set j: nat | j < h :: ProbeAt(start, j, c)
  }

  /** With a prime capacity `c`, the probes `0 .. (c-1)/2` visit pairwise different slots. */
  lemma ProbesDistinct(start: nat, i: nat, j: nat, c: nat)
    requires Prime(c) && i < j && 2 * j < c
    ensures ProbeAt(start, i, c) != ProbeAt(start, j, c)
  {
    ModDiff(start + j * j, start + i * i, c);
    assert (start + j * j) - (start + i * i) == (j - i) * (j + i);
    NoZeroDivisors(c, j - i, j + i);
  }

  lemma {:induction false} ProbeSetSize(start: nat, h: nat, c: nat)
    requires Prime(c) && 2 * h <= c + 1
    ensures |ProbeSet(start, h, c)| == h
  {
    if h > 0 {
      ProbeSetSize(start, h - 1, c);
      var x := ProbeAt(start, h - 1, c);
      forall j: nat | j < h - 1
        ensures ProbeAt(start, j, c) != x
      {
        ProbesDistinct(start, j, h - 1, c);
      }
      assert ProbeSet(start, h, c) == ProbeSet(start, h - 1, c) + {x};
    }
  }

  /** No slot is a tombstone. The lookup and removal loops then stop at every slot that is not
      live, as the insertion loop always does. */
  ghost predicate NoTombs<V>(t: seq<Slot<V>>)
  {
    forall x :: 0 <= x < |t| ==> !t[x].Tomb?
  }

  lemma ProbesLive<V>(t: seq<Slot<V>>, start: nat, goal: Goal, key: Key, h: nat)
    requires |t| > 0 && h <= |t| && (goal == Insert || NoTombs(t))
    ensures Scan(t, start, goal, key, 0).Endless? ==> ProbeSet(start, h, |t|) <= LiveSet(t)
  {
    forall x | x in ProbeSet(start, h, |t|) && Scan(t, start, goal, key, 0).Endless?
      ensures x in LiveSet(t)
    {
      var j: nat :| j < h && ProbeAt(start, j, |t|) == x;
      assert !Halts(goal, t[x], key);
    }
  }

  /** Quadratic probing in a table of prime capacity that is less than half full stops: the
      first (c+1)/2 probes visit different slots, and not all of them can be live. For the
      lookup and removal loops this needs a table without tombstones. */
  lemma ScanStops<V>(t: seq<Slot<V>>, start: nat, goal: Goal, key: Key)
    requires Prime(|t|) && 2 * LiveCount(t) < |t|
    requires goal == Insert || NoTombs(t)
    ensures Scan(t, start, goal, key, 0).Stop?
  {
    var h := (|t| + 1) / 2;
    ProbesLive(t, start, goal, key, h);
    ProbeSetSize(start, h, |t|);
    LiveSetSize(t);
    SubsetSize(ProbeSet(start, h, |t|), LiveSet(t));
  }

  // ---------------------------------------------------------------------------------------
  // Sound tables

  /** `s` is the first probe at which the loop for `goal` stops. */
  ghost predicate FirstStop<V>(t: seq<Slot<V>>, start: nat, goal: Goal, key: Key, s: nat)
    requires |t| > 0
  {
    s < |t| && Halts(goal, t[ProbeAt(start, s, |t|)], key)
    && forall j :: 0 <= j < s ==> !Halts(goal, t[ProbeAt(start, j, |t|)], key)
  }

  lemma ScanIsFirst<V>(t: seq<Slot<V>>, start: nat, goal: Goal, key: Key, s: nat)
    requires |t| > 0
    ensures FirstStop(t, start, goal, key, s) <==> Scan(t, start, goal, key, 0) == Stop(s)
  {
  }

  /** When none of the first `|t|` probes stops the loop, `Scan` says so. */
  lemma ScanEndless<V>(t: seq<Slot<V>>, start: nat, goal: Goal, key: Key)
    requires |t| > 0
    requires forall j :: 0 <= j < |t| ==> !Halts(goal, t[ProbeAt(start, j, |t|)], key)
    ensures Scan(t, start, goal, key, 0) == Endless
  {
  }

  /** The loop for `goal` and `key` stops at slot `x`. */
  ghost predicate StopsAt<V>(t: seq<Slot<V>>, start: nat, goal: Goal, key: Key, x: nat)
    requires |t| > 0
  {
    var r := Scan(t, start, goal, key, 0);
    r.Stop? && ProbeAt(start, r.step, |t|) == x
  }

  /** No two live slots share a key. */
  ghost predicate DistinctLive<V>(t: seq<Slot<V>>)
  {
    forall x, y :: 0 <= x < |t| && 0 <= y < |t| && x != y && t[x].Live? && t[y].Live? ==>
      t[x].key != t[y].key
  }

  /** Both the lookup loop and the removal loop for the key of live slot `x` stop at `x`:
      on the way there they pass neither an empty slot nor a tombstone with that key. */
  ghost predicate Reached<V>(t: seq<Slot<V>>, hash: Key -> nat, x: nat)
    requires x < |t| && t[x].Live?
  {
    var start := hash(t[x].key) % |t|;
    StopsAt(t, start, Lookup, t[x].key, x) && StopsAt(t, start, Unlink, t[x].key, x)
  }

  /** The invariant under which the table behaves as a map: live keys are unique and each live
      entry is where lookup and removal look for it. */
  ghost predicate SoundTable<V>(t: seq<Slot<V>>, hash: Key -> nat)
  {
    |t| > 0 && DistinctLive(t) && forall x :: 0 <= x < |t| && t[x].Live? ==> Reached(t, hash, x)
  }

  /** A table of empty slots is sound and has no entries. */
  lemma AllEmpty<V>(t: seq<Slot<V>>, hash: Key -> nat)
    requires |t| > 0 && forall x :: 0 <= x < |t| ==> t[x].Empty?
    ensures SoundTable(t, hash) && NoTombs(t) && Entries(t) == [] && MapOf(t) == map[]
  {
    NoLiveEntries(t);
  }

  /** Replacing slot `i` by one at which the loop for `goal` and `key` does not stop leaves that
      loop stopping where it did, at any other slot. */
  lemma ReplaceKeepsStop<V>(t: seq<Slot<V>>, start: nat, goal: Goal, key: Key, x: nat, i: nat,
                            s: Slot<V>)
    requires |t| > 0 && i < |t| && x != i && !Halts(goal, s, key)
    requires StopsAt(t, start, goal, key, x)
    ensures StopsAt(t[i := s], start, goal, key, x)
  {
    var t' := t[i := s];
    var step := Scan(t, start, goal, key, 0).step;
    ScanIsFirst(t, start, goal, key, step);
    assert FirstStop(t', start, goal, key, step);
    ScanIsFirst(t', start, goal, key, step);
  }

  // ---------------------------------------------------------------------------------------
  // get / contains_key

  /** What the probe loop of `get` finds: the value of the first live entry with the key,
      `None` at an empty slot, or `Loops` when it never stops. */
  function Find<V>(t: seq<Slot<V>>, start: nat, key: Key): (r: Outcome<Option<V>>)
    requires |t| > 0
    ensures r.Done? && r.result.Some? ==> Live(key, r.result.value) in t
    ensures r.Loops? ==> forall j :: !Halts(Lookup, t[ProbeAt(start, j, |t|)], key)
  {
    match Scan(t, start, Lookup, key, 0)
    case Stop(j) =>
      var s := t[ProbeAt(start, j, |t|)];
      if s.Live? then Done(Some(s.value)) else Done(None)
    case Endless =>
      forall j: nat ensures !Halts(Lookup, t[ProbeAt(start, j, |t|)], key) {
        EndlessIsForever(t, start, Lookup, key, j);
      }
      Loops
  }

  /** In a sound table, lookup finds the mapped value of every present key and never a value
      for an absent one. */
  lemma FindSound<V>(t: seq<Slot<V>>, hash: Key -> nat, key: Key)
    requires SoundTable(t, hash)
    ensures key in MapOf(t) ==> Find(t, hash(key) % |t|, key) == Done(Some(MapOf(t)[key]))
    ensures key !in MapOf(t) ==> Find(t, hash(key) % |t|, key) in {Done(None), Loops}
  {
    MapHasKey(t, key);
    if key in MapOf(t) {
      var x :| 0 <= x < |t| && t[x].Live? && t[x].key == key;
      assert Reached(t, hash, x);
      MapAt(t, x);
    }
    var r := Find(t, hash(key) % |t|, key);
    if r.Done? && r.result.Some? {
      var x :| 0 <= x < |t| && t[x] == Live(key, r.result.value);
    }
  }

  /** In a sound table without tombstones and less than half full, lookup always stops. */
  lemma FindHalts<V>(t: seq<Slot<V>>, start: nat, key: Key)
    requires Prime(|t|) && 2 * LiveCount(t) < |t| && NoTombs(t)
    ensures Find(t, start, key).Done?
  {
    ScanStops(t, start, Lookup, key);
  }

  // ---------------------------------------------------------------------------------------
  // put

  /** The table and size after the probe-and-write half of `put`: the first slot at which the
      insertion loop stops receives the pair, and the size grows unless that slot held the key
      live. `None` when the loop never stops. */
  function Store<V>(t: seq<Slot<V>>, size: nat, start: nat, key: Key, value: V)
    : (r: Option<(seq<Slot<V>>, nat)>)
    requires |t| > 0
    ensures r.Some? ==> |r.value.0| == |t| && Live(key, value) in r.value.0
    ensures r.Some? ==> r.value.1 == size || r.value.1 == size + 1
    ensures r.Some? && NoTombs(t) ==> NoTombs(r.value.0)
    ensures r.None? ==> forall j :: !Halts(Insert, t[ProbeAt(start, j, |t|)], key)
  {
    match Scan(t, start, Insert, key, 0)
    case Stop(j) =>
      var i := ProbeAt(start, j, |t|);
      var t' := t[i := Live(key, value)];
      assert t'[i] == Live(key, value);
      Some((t', if t[i].Live? then size else size + 1))
    case Endless =>
      forall j: nat ensures !Halts(Insert, t[ProbeAt(start, j, |t|)], key) {
        EndlessIsForever(t, start, Insert, key, j);
      }
      None
  }

  /** The insertion loop stops in a table of prime capacity that is less than half full. */
  lemma StoreHalts<V>(t: seq<Slot<V>>, size: nat, start: nat, key: Key, value: V)
    requires Prime(|t|) && 2 * LiveCount(t) < |t|
    ensures Store(t, size, start, key, value).Some?
  {
    ScanStops(t, start, Insert, key);
  }

  /** Live entries after replacing slot `i`. */
  lemma LiveCountUpdate<V>(t: seq<Slot<V>>, i: nat, s: Slot<V>)
    requires i < |t|
    ensures LiveCount(t[i := s]) == LiveCount(t) - |Entry(t[i])| + |Entry(s)|
  {
    EntriesUpdate(t, i, s);
    EntriesAround(t, i);
  }

  /** `put` adds at most one live entry, and a size that does not exceed the live count keeps
      not exceeding it. */
  lemma StoreCounts<V>(t: seq<Slot<V>>, size: nat, start: nat, key: Key, value: V)
    requires |t| > 0 && Store(t, size, start, key, value).Some?
    ensures var (t', size') := Store(t, size, start, key, value).value;
      LiveCount(t') <= LiveCount(t) + 1 && (size <= LiveCount(t) ==> size' <= LiveCount(t'))
  {
    var i := ProbeAt(start, Scan(t, start, Insert, key, 0).step, |t|);
    LiveCountUpdate(t, i, Live(key, value));
  }

  /** The pairs collected from the slots after `i` avoid a key that is live at no slot but `i`. */
  lemma SuffixAvoids<V>(t: seq<Slot<V>>, i: nat, b: seq<Slot<V>>, key: Key)
    requires i < |t| && b == t[i + 1..]
    requires forall x :: 0 <= x < |t| && x != i && t[x].Live? ==> t[x].key != key
    ensures forall q :: 0 <= q < |Entries(b)| ==> Entries(b)[q].0 != key
  {
    forall y | 0 <= y < |b| && b[y].Live?
      ensures b[y].key != key
    {
      assert b[y] == t[i + 1 + y];
    }
    EntriesAvoid(b, key);
  }

  /** The view of a table in which `key` is live at no slot but `i`, from the slots around `i`. */
  lemma MapAround<V>(t: seq<Slot<V>>, i: nat, key: Key)
    requires i < |t| && (t[i].Live? ==> t[i].key == key)
    requires forall x :: 0 <= x < |t| && x != i && t[x].Live? ==> t[x].key != key
    ensures var m := EntryMap(Entries(t[..i]) + Entries(t[i + 1..]));
      MapOf(t) == if t[i].Live? then m[key := t[i].value] else m
  {
    var a, b := Entries(t[..i]), Entries(t[i + 1..]);
    EntriesAround(t, i);
    if t[i].Live? {
      SuffixAvoids(t, i, t[i + 1..], key);
      EntryMapInsert(a, key, t[i].value, b);
    } else {
      assert Entries(t) == a + b;
    }
  }

  /** The pair written by `put` replaces the only live copy of its key, if there is one. */
  lemma StoreEntries<V>(t: seq<Slot<V>>, i: nat, key: Key, value: V)
    requires i < |t| && (t[i].Live? ==> t[i].key == key)
    requires forall x :: 0 <= x < |t| && x != i && t[x].Live? ==> t[x].key != key
    ensures MapOf(t[i := Live(key, value)]) == MapOf(t)[key := value]
  {
    var t' := t[i := Live(key, value)];
    assert t'[..i] == t[..i] && t'[i + 1..] == t[i + 1..];
    forall x | 0 <= x < |t'| && x != i && t'[x].Live?
      ensures t'[x].key != key
    {
      assert t'[x] == t[x];
    }
    MapAround(t', i, key);
    var m := EntryMap(Entries(t[..i]) + Entries(t[i + 1..]));
    assert MapOf(t') == m[key := value];
    MapAround(t, i, key);
    if t[i].Live? {
      UpdateTwice(m, key, t[i].value, value);
    }
  }

  lemma UpdateTwice<K, W>(m: map<K, W>, k: K, v: W, w: W)
    ensures m[k := v][k := w] == m[k := w]
  {
  }

  /** Where the insertion loop stops in a sound table, the key is live nowhere else, unless the
      loop stopped at a tombstone. */
  lemma InsertSlotUnique<V>(t: seq<Slot<V>>, hash: Key -> nat, key: Key, x: nat)
    requires SoundTable(t, hash) && Scan(t, hash(key) % |t|, Insert, key, 0).Stop?
    requires x < |t| && t[x].Live? && t[x].key == key
    requires !t[ProbeAt(hash(key) % |t|, Scan(t, hash(key) % |t|, Insert, key, 0).step, |t|)].Tomb?
    ensures x == ProbeAt(hash(key) % |t|, Scan(t, hash(key) % |t|, Insert, key, 0).step, |t|)
  {
    var start := hash(key) % |t|;
    assert Reached(t, hash, x);
    var u := Scan(t, start, Unlink, key, 0).step;
    var s := Scan(t, start, Insert, key, 0).step;
    ScanIsFirst(t, start, Unlink, key, u);
    ScanIsFirst(t, start, Insert, key, s);
  }

  /** In a sound table that has no tombstones or lacks the key, `put` grows the size exactly
      when the key is new: the insertion loop stops at the key's live entry if there is one. */
  lemma StoreGrows<V>(t: seq<Slot<V>>, hash: Key -> nat, size: nat, key: Key, value: V)
    requires SoundTable(t, hash) && (NoTombs(t) || key !in MapOf(t))
    requires Store(t, size, hash(key) % |t|, key, value).Some?
    ensures Store(t, size, hash(key) % |t|, key, value).value.1
            == size + (if key in MapOf(t) then 0 else 1)
  {
    var start := hash(key) % |t|;
    var i := ProbeAt(start, Scan(t, start, Insert, key, 0).step, |t|);
    MapHasKey(t, key);
    if key in MapOf(t) {
      var x :| 0 <= x < |t| && t[x].Live? && t[x].key == key;
      InsertSlotUnique(t, hash, key, x);
    }
    if t[i].Live? {
      assert Halts(Insert, t[i], key);
    }
  }

  /** The new live slot written by `put` is where lookup and removal look for its key. */
  lemma StoredReached<V>(t: seq<Slot<V>>, start: nat, key: Key, value: V, goal: Goal)
    requires |t| > 0 && Scan(t, start, Insert, key, 0).Stop? && goal != Insert
    ensures var i := ProbeAt(start, Scan(t, start, Insert, key, 0).step, |t|);
      StopsAt(t[i := Live(key, value)], start, goal, key, i)
  {
    var s := Scan(t, start, Insert, key, 0).step;
    var i := ProbeAt(start, s, |t|);
    var t' := t[i := Live(key, value)];
    forall j | 0 <= j < s
      ensures !Halts(goal, t'[ProbeAt(start, j, |t|)], key)
    {
      assert !Halts(Insert, t[ProbeAt(start, j, |t|)], key);
    }
    ScanIsFirst(t', start, goal, key, s);
  }

  /** `put` into a sound table keeps it sound and maps the key to the value, provided the
      table has no tombstones or the key is new. */
  lemma StoreSound<V>(t: seq<Slot<V>>, hash: Key -> nat, size: nat, key: Key, value: V)
    requires SoundTable(t, hash) && (NoTombs(t) || key !in MapOf(t))
    requires Store(t, size, hash(key) % |t|, key, value).Some?
    ensures var (t', size') := Store(t, size, hash(key) % |t|, key, value).value;
      SoundTable(t', hash) && MapOf(t') == MapOf(t)[key := value]
      && (size == LiveCount(t) ==> size' == LiveCount(t')) && (NoTombs(t) ==> NoTombs(t'))
  {
    var start := hash(key) % |t|;
    var i := ProbeAt(start, Scan(t, start, Insert, key, 0).step, |t|);
    var t' := t[i := Live(key, value)];
    MapHasKey(t, key);
    forall x | 0 <= x < |t| && t[x].Live? && t[x].key == key
      ensures x == i
    {
      InsertSlotUnique(t, hash, key, x);
    }
    forall x | 0 <= x < |t'| && t'[x].Live?
      ensures Reached(t', hash, x)
    {
      if x == i {
        StoredReached(t, start, key, value, Lookup);
        StoredReached(t, start, key, value, Unlink);
      } else {
        assert Reached(t, hash, x);
        var k := t[x].key;
        ReplaceKeepsStop(t, hash(k) % |t|, Lookup, k, x, i, Live(key, value));
        ReplaceKeepsStop(t, hash(k) % |t|, Unlink, k, x, i, Live(key, value));
      }
    }
    StoreEntries(t, i, key, value);
    LiveCountUpdate(t, i, Live(key, value));
  }

  // ---------------------------------------------------------------------------------------
  // remove

  /** When `contains_key`'s loop finds the key live, the removal loop stops no later, at an
      entry (live or tombstone) with that key. */
  lemma UnlinkBeforeLookup<V>(t: seq<Slot<V>>, start: nat, key: Key)
    requires |t| > 0 && Find(t, start, key).Done? && Find(t, start, key).result.Some?
    ensures var r := Scan(t, start, Unlink, key, 0);
      r.Stop? && r.step <= Scan(t, start, Lookup, key, 0).step
      && !t[ProbeAt(start, r.step, |t|)].Empty? && t[ProbeAt(start, r.step, |t|)].key == key
  {
    var s := Scan(t, start, Lookup, key, 0).step;
    var r := Scan(t, start, Unlink, key, 0);
    assert Halts(Unlink, t[ProbeAt(start, s, |t|)], key);
    if r.Stop? && r.step < s {
      assert !Halts(Lookup, t[ProbeAt(start, r.step, |t|)], key);
    }
  }

  /** The table and size after `remove`: nothing happens on an empty map or when
      `contains_key` reports the key absent; otherwise the first entry with the key on the
      probe path becomes a tombstone and the size drops by one. `Loops` when `contains_key`'s
      loop never stops. */
  function Erase<V>(t: seq<Slot<V>>, size: nat, start: nat, key: Key)
    : (r: Outcome<(seq<Slot<V>>, nat)>)
    requires |t| > 0
    ensures r.Done? && r.result.1 == size ==> r.result.0 == t
    ensures r.Done? && r.result.1 != size ==>
      r.result.1 == size - 1
      && (exists i :: 0 <= i < |t| && !t[i].Empty? && t[i].key == key
                   && r.result.0 == t[i := Tomb(key, t[i].value)])
  {
    if size == 0 then Done((t, size))
    else
      match Find(t, start, key)
      case Loops => Loops
      case Done(None) => Done((t, size))
      case Done(Some(_)) =>
        UnlinkBeforeLookup(t, start, key);
        var i := ProbeAt(start, Scan(t, start, Unlink, key, 0).step, |t|);
        Done((t[i := Tomb(key, t[i].value)], size - 1))
  }

  /** The pairs collected from the slots before `i` avoid a key that is live at no slot but `i`. */
  lemma PrefixAvoids<V>(t: seq<Slot<V>>, i: nat, a: seq<Slot<V>>, key: Key)
    requires i < |t| && a == t[..i]
    requires forall x :: 0 <= x < |t| && x != i && t[x].Live? ==> t[x].key != key
    ensures key !in EntryMap(Entries(a))
  {
    forall y | 0 <= y < |a| && a[y].Live?
      ensures a[y].key != key
    {
      assert a[y] == t[y];
    }
    EntriesAvoid(a, key);
    EntryMapKeys(Entries(a), key);
  }

  /** Tombstoning the only live copy of a key removes the key from the view. */
  lemma EraseEntries<V>(t: seq<Slot<V>>, i: nat)
    requires i < |t| && t[i].Live?
    requires forall x :: 0 <= x < |t| && x != i && t[x].Live? ==> t[x].key != t[i].key
    ensures MapOf(t[i := Tomb(t[i].key, t[i].value)]) == MapOf(t) - {t[i].key}
  {
    var key := t[i].key;
    var t' := t[i := Tomb(key, t[i].value)];
    assert t'[..i] == t[..i] && t'[i + 1..] == t[i + 1..];
    MapAround(t, i, key);
    MapAround(t', i, key);
    var a, b := Entries(t[..i]), Entries(t[i + 1..]);
    PrefixAvoids(t, i, t[..i], key);
    SuffixAvoids(t, i, t[i + 1..], key);
    EntryMapKeys(b, key);
    EntryMapConcatKeys(a, b, key);
    var m := EntryMap(a + b);
    assert MapOf(t') == m;
    UpdateThenRemove(m, key, t[i].value);
  }

  lemma UpdateThenRemove<K, W>(m: map<K, W>, k: K, w: W)
    requires k !in m
    ensures m[k := w] - {k} == m
  {
  }

  /** `remove` in a sound table whose size is its live count: a present key is tombstoned and
      leaves the view, the table stays sound and the size stays the live count; an absent key
      changes nothing. */
  lemma EraseSound<V>(t: seq<Slot<V>>, hash: Key -> nat, size: nat, key: Key)
    requires SoundTable(t, hash) && size == LiveCount(t)
    ensures var r := Erase(t, size, hash(key) % |t|, key);
      key in MapOf(t) ==>
        r.Done? && SoundTable(r.result.0, hash) && MapOf(r.result.0) == MapOf(t) - {key}
        && r.result.1 == LiveCount(r.result.0)
    ensures key !in MapOf(t) ==> Erase(t, size, hash(key) % |t|, key) in {Done((t, size)), Loops}
  {
    var start := hash(key) % |t|;
    FindSound(t, hash, key);
    MapHasKey(t, key);
    if key in MapOf(t) {
      var x :| 0 <= x < |t| && t[x].Live? && t[x].key == key;
      assert Reached(t, hash, x);
      LiveCountUpdate(t, x, Tomb(key, t[x].value));
      var t' := t[x := Tomb(key, t[x].value)];
      var size': nat := size - 1;
      assert Erase(t, size, start, key) == Done((t', size'));
      forall y | 0 <= y < |t'| && t'[y].Live?
        ensures Reached(t', hash, y)
      {
        assert Reached(t, hash, y);
        var k := t[y].key;
        ReplaceKeepsStop(t, hash(k) % |t|, Lookup, k, y, x, Tomb(key, t[x].value));
        ReplaceKeepsStop(t, hash(k) % |t|, Unlink, k, y, x, Tomb(key, t[x].value));
      }
      EraseEntries(t, x);
    }
  }

  // ---------------------------------------------------------------------------------------
  // Round trips and views

  /** After `put`, lookup of the same key from the same start finds the new value, whatever
      the table held: the insertion loop passes only live entries with other keys before the
      slot it writes, and the lookup loop passes those too and stops at that slot. */
  lemma PutThenGet<V>(t: seq<Slot<V>>, size: nat, start: nat, key: Key, value: V)
    requires |t| > 0 && Store(t, size, start, key, value).Some?
    ensures Find(Store(t, size, start, key, value).value.0, start, key) == Done(Some(value))
  {
    StoredReached(t, start, key, value, Lookup);
    var i := ProbeAt(start, Scan(t, start, Insert, key, 0).step, |t|);
    assert t[i := Live(key, value)][i] == Live(key, value);
  }

  /** `put` followed by `remove` of the same key, from a sound table whose size is its live
      count: the removal goes through, the key leaves the view and lookup no longer finds a
      value for it. */
  lemma PutThenRemove<V>(t: seq<Slot<V>>, hash: Key -> nat, key: Key, value: V)
    requires SoundTable(t, hash) && (NoTombs(t) || key !in MapOf(t))
    requires Store(t, LiveCount(t), hash(key) % |t|, key, value).Some?
    ensures var (t', size') := Store(t, LiveCount(t), hash(key) % |t|, key, value).value;
      var r := Erase(t', size', hash(key) % |t|, key);
      r.Done? && MapOf(r.result.0) == MapOf(t) - {key}
      && Find(r.result.0, hash(key) % |t|, key) in {Done(None), Loops}
  {
    var (t', size') := Store(t, LiveCount(t), hash(key) % |t|, key, value).value;
    StoreSound(t, hash, LiveCount(t), key, value);
    EraseSound(t', hash, size', key);
    var t'' := Erase(t', size', hash(key) % |t|, key).result.0;
    FindSound(t'', hash, key);
    assert MapOf(t)[key := value] - {key} == MapOf(t) - {key};
  }

  /** With live keys distinct, the collected pairs carry distinct keys. */
  lemma {:induction false} DistinctKeysUnique<V>(t: seq<Slot<V>>)
    requires DistinctLive(t)
    ensures KeysUnique(Entries(t))
  {
    if t != [] {
      var n := |t| - 1;
      var p := t[..n];
      assert DistinctLive(p) by {
        forall x, y | 0 <= x < |p| && 0 <= y < |p| && x != y && p[x].Live? && p[y].Live?
          ensures p[x].key != p[y].key
        {
          assert p[x] == t[x] && p[y] == t[y];
        }
      }
      DistinctKeysUnique(p);
      if t[n].Live? {
        forall q | 0 <= q < |Entries(p)|
          ensures Entries(p)[q].0 != t[n].key
        {
          var e := Entries(p)[q];
          EntriesMember(p, e.0, e.1);
          var y :| 0 <= y < |p| && p[y] == Live(e.0, e.1);
          assert t[y] == p[y];
        }
      }
    }
  }

  /** In a sound table the map has one key per live entry. */
  lemma SoundSize<V>(t: seq<Slot<V>>, hash: Key -> nat)
    requires SoundTable(t, hash)
    ensures |MapOf(t)| == LiveCount(t)
  {
    DistinctKeysUnique(t);
    EntryMapSize(Entries(t));
  }

  /** The pairs of a slot followed by more slots. */
  lemma EntriesCons<V>(s: Slot<V>, t: seq<Slot<V>>)
    ensures Entries([s] + t) == Entry(s) + Entries(t)
  {
    EntriesConcat([s], t);
    assert [s][..0] == [];
  }

  /** The slots `put` may fill without growing the map: empty ones and tombstones. */
  ghost function FreeSet<V>(t: seq<Slot<V>>): set<nat>
  {
    set x: nat | x < |t| && !t[x].Live?
  }

  /** Every slot is either live or free. */
  lemma {:induction false} FreeSetSize<V>(t: seq<Slot<V>>)
    ensures LiveCount(t) <= |t| && |FreeSet(t)| == |t| - LiveCount(t)
  {
    if t != [] {
      var n := |t| - 1;
      var u := t[..n];
      FreeSetSize(u);
      assert Entries(t) == Entries(u) + Entry(t[n]);
      var extra: set<nat> := if t[n].Live? then {} else {n};
      forall x: nat
        ensures x in FreeSet(t) <==> x in FreeSet(u) + extra
      {
        if x < n {
          assert u[x] == t[x];
        }
      }
      assert FreeSet(t) == FreeSet(u) + extra;
      assert n !in FreeSet(u);
    }
  }

  // ---------------------------------------------------------------------------------------
  // Behaviours of the probing table as written

  /** Two `put`s into an empty table of capacity 3 that stay below the resize threshold (the
      size before each is 0 and then 1): keys `"a"` and `"b"` hashing to 1 and 2. */
  lemma TwoPuts()
    ensures var t0: seq<Slot<int>> := [Empty, Empty, Empty];
      var t1 := [Empty, Live("a", 1), Empty];
      var t2 := [Empty, Live("a", 1), Live("b", 2)];
      Store(t0, 0, 1, "a", 1) == Some((t1, 1)) && Store(t1, 1, 2, "b", 2) == Some((t2, 2))
  {
    var t0: seq<Slot<int>> := [Empty, Empty, Empty];
    var t1: seq<Slot<int>> := [Empty, Live("a", 1), Empty];
    var t2: seq<Slot<int>> := [Empty, Live("a", 1), Live("b", 2)];
    var u1, u2 := t0[1 := Live("a", 1)], t1[2 := Live("b", 2)];
    assert u1[0] == t1[0] && u1[1] == t1[1] && u1[2] == t1[2];
    assert u2[0] == t2[0] && u2[1] == t2[1] && u2[2] == t2[2];
    assert u1 == t1 && u2 == t2;
    assert ProbeAt(1, 0, 3) == 1 && ProbeAt(2, 0, 3) == 2;
    ScanIsFirst(t0, 1, Insert, "a", 0);
    ScanIsFirst(t1, 2, Insert, "b", 0);
  }

  /** In the table `TwoPuts` builds, `get` of a key `"c"` hashing to 1 loops forever: its probes
      visit slots 1, 2, 2, 1, 2, ... only, never the empty slot 0. */
  lemma LookupCanLoop()
    ensures Find([Empty, Live("a", 1), Live("b", 2)], 1, "c") == Loops
  {
    var t2: seq<Slot<int>> := [Empty, Live("a", 1), Live("b", 2)];
    assert !Halts(Lookup, t2[1], "c") && !Halts(Lookup, t2[2], "c");
    assert ProbeAt(1, 0, 3) == 1 && ProbeAt(1, 1, 3) == 2 && ProbeAt(1, 2, 3) == 2;
    assert Scan(t2, 1, Lookup, "c", 0) == Endless;
  }

  /** A tombstone can come to lie before a live entry on a key's probe path: capacity 3, keys
      `"x"` and `"k"` both hashing to 1; put `"x"`, put `"k"`, remove `"x"`. */
  lemma TombstoneBeforeKey()
    ensures var t0: seq<Slot<int>> := [Empty, Empty, Empty];
      var t1 := [Empty, Live("x", 0), Empty];
      var t2 := [Empty, Live("x", 0), Live("k", 1)];
      Store(t0, 0, 1, "x", 0) == Some((t1, 1)) && Store(t1, 1, 1, "k", 1) == Some((t2, 2))
      && Erase(t2, 2, 1, "x") == Done(([Empty, Tomb("x", 0), Live("k", 1)], 1))
  {
    var t0: seq<Slot<int>> := [Empty, Empty, Empty];
    var t1: seq<Slot<int>> := [Empty, Live("x", 0), Empty];
    var t2: seq<Slot<int>> := [Empty, Live("x", 0), Live("k", 1)];
    var t3: seq<Slot<int>> := [Empty, Tomb("x", 0), Live("k", 1)];
    var u1, u2, u3 := t0[1 := Live("x", 0)], t1[2 := Live("k", 1)], t2[1 := Tomb("x", 0)];
    assert u1[0] == t1[0] && u1[1] == t1[1] && u1[2] == t1[2];
    assert u2[0] == t2[0] && u2[1] == t2[1] && u2[2] == t2[2];
    assert u3[0] == t3[0] && u3[1] == t3[1] && u3[2] == t3[2];
    assert u1 == t1 && u2 == t2 && u3 == t3;
    assert ProbeAt(1, 0, 3) == 1 && ProbeAt(1, 1, 3) == 2;
    ScanIsFirst(t0, 1, Insert, "x", 0);
    ScanIsFirst(t1, 1, Insert, "k", 1);
    ScanIsFirst(t2, 1, Lookup, "x", 0);
    ScanIsFirst(t2, 1, Unlink, "x", 0);
  }

  /** `put` stops at the first tombstone on the probe path, so a key that is live further on
      gets a second live copy. */
  lemma PutCanDuplicate()
    ensures var t3: seq<Slot<int>> := [Empty, Tomb("x", 0), Live("k", 1)];
      var t4 := [Empty, Live("k", 2), Live("k", 1)];
      Store(t3, 1, 1, "k", 2) == Some((t4, 2)) && !DistinctLive(t4)
  {
    var t3: seq<Slot<int>> := [Empty, Tomb("x", 0), Live("k", 1)];
    var t4: seq<Slot<int>> := [Empty, Live("k", 2), Live("k", 1)];
    assert !DistinctLive(t4) by {
      assert t4[1].Live? && t4[2].Live? && t4[1].key == t4[2].key;
    }
    var u := t3[1 := Live("k", 2)];
    assert u[0] == t4[0] && u[1] == t4[1] && u[2] == t4[2];
    assert u == t4;
    assert ProbeAt(1, 0, 3) == 1;
    ScanIsFirst(t3, 1, Insert, "k", 0);
  }

  /** With two live copies, `remove` tombstones the first and `get` then returns the older
      value: the removed key comes back. */
  lemma RemoveCanResurrect()
    ensures var t4: seq<Slot<int>> := [Empty, Live("k", 2), Live("k", 1)];
      var t5 := [Empty, Tomb("k", 2), Live("k", 1)];
      Erase(t4, 2, 1, "k") == Done((t5, 1)) && Find(t5, 1, "k") == Done(Some(1))
  {
    var t4: seq<Slot<int>> := [Empty, Live("k", 2), Live("k", 1)];
    var t5: seq<Slot<int>> := [Empty, Tomb("k", 2), Live("k", 1)];
    var u := t4[1 := Tomb("k", 2)];
    assert u[0] == t5[0] && u[1] == t5[1] && u[2] == t5[2];
    assert u == t5;
    assert ProbeAt(1, 0, 3) == 1 && ProbeAt(1, 1, 3) == 2;
    ScanIsFirst(t4, 1, Lookup, "k", 0);
    ScanIsFirst(t4, 1, Unlink, "k", 0);
    ScanIsFirst(t5, 1, Lookup, "k", 1);
  }

  /** A second `remove` finds the live copy but tombstones the tombstone before it: the size
      drops to 0 while an entry is still live. */
  lemma SizeCanDrift()
    ensures var t5: seq<Slot<int>> := [Empty, Tomb("k", 2), Live("k", 1)];
      Erase(t5, 1, 1, "k") == Done((t5, 0))
    ensures LiveCount([Empty, Tomb("k", 2), Live("k", 1)]) == 1
  {
    var t5: seq<Slot<int>> := [Empty, Tomb("k", 2), Live("k", 1)];
    var u := t5[1 := Tomb("k", 2)];
    assert u[0] == t5[0] && u[1] == t5[1] && u[2] == t5[2];
    assert u == t5;
    assert t5[..2] == [Empty, Tomb("k", 2)] && t5[..2][..1] == [Empty];
    assert t5[..2][..1][..0] == [];
    assert Entries(t5[..2][..1]) == [];
    assert Entries(t5[..2]) == [];
    assert Entries(t5) == [("k", 1)];
    assert ProbeAt(1, 0, 3) == 1 && ProbeAt(1, 1, 3) == 2;
    ScanIsFirst(t5, 1, Lookup, "k", 1);
    ScanIsFirst(t5, 1, Unlink, "k", 0);
  }
}

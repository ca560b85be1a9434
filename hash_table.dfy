/**
 * `HashTable` of `hash_table.c`: Robin Hood open addressing over an array
 * of `HashEntry` slots, with backward-shift deletion.
 *
 * The loops work on the array in place. Each is proved against the slot
 * functions and invariants of `RobinHood`: the table stays well formed, and
 * the key/value map it holds changes exactly as the operation promises.
 */
module CHashTable {
  import opened Wrappers
  import opened Hashing
  import opened RobinHood

  /** `INITIAL_CAPACITY`. */
  const INITIAL_CAPACITY: nat := 16

  ghost predicate IsPowerOf2(n: nat)
    decreases n
  {
    n == 1 || (n > 1 && n % 2 == 0 && IsPowerOf2(n / 2))
  }

  /**
   * `next_power_of_2`: the least power of two that is at least `n` (1 for
   * 0). The C code smears the highest set bit of `n - 1` rightwards and adds
   * one; this is the number it computes.
   */
  function NextPowerOf2(n: nat): (r: nat)
    ensures IsPowerOf2(r) && n <= r
    ensures n <= 1 ==> r == 1
    ensures n > 1 ==> r < 2 * n
  {
    if n <= 1 then 1 else 2 * NextPowerOf2((n + 1) / 2)
  }

  /** Doubling keeps a power of two. */
  lemma DoublePowerOf2(n: nat)
    requires IsPowerOf2(n)
    ensures IsPowerOf2(2 * n)
  {
  }

  /**
   * The load test of `hash_table_insert`: `(size + tombstones + 1) /
   * capacity > 0.7`, cross-multiplied. For a power-of-two capacity the
   * quotient is never exactly 0.7, so rounding cannot change the outcome.
   */
  predicate Overloaded(size: nat, tombstones: nat, capacity: nat)
  {
    10 * (size + tombstones + 1) > 7 * capacity
  }

  class HashTable {
    /** `ht_hash`. Every table the constructor makes uses `KeyHashValue`; the proofs hold for any hash. */
    const hash: Hash
    var entries: array<Entry>
    var capacity: nat
    var mask: nat
    var size: nat
    var tombstones: nat
    var maxProbe: nat

    /** The slots and counters as a `Table` value. */
    ghost function State(): Table
      reads this, entries
    {
      Table(entries[..], size, maxProbe)
    }

    /** The key/value map the table holds. */
    ghost function Contents(): map<Int64, nat>
      reads this, entries
    {
      Content(entries[..])
    }

    /**
     * A power-of-two capacity of at least 16 with its mask, no tombstones,
     * a well-formed slot array and a `size` that counts its keys.
     */
    ghost predicate Valid()
      reads this, entries
    {
      && capacity == entries.Length && capacity >= INITIAL_CAPACITY && IsPowerOf2(capacity)
      && mask == capacity - 1 && tombstones == 0
      && WellFormed(hash, entries[..], maxProbe) && size == |KeySet(entries[..])|
    }

    /** The load never exceeds 0.7 between public calls. */
    ghost predicate Roomy()
      reads this
    {
      10 * size <= 7 * capacity
    }

    /** `hash_table_create`: `calloc`ed slots for `next_power_of_2(max(initial_capacity, 16))`. */
    constructor (initialCapacity: nat)
      ensures Valid() && Roomy() && fresh(entries) && hash == KeyHashValue
      ensures capacity == NextPowerOf2(if initialCapacity > INITIAL_CAPACITY then initialCapacity else INITIAL_CAPACITY)
      ensures Contents() == map[] && size == 0 && maxProbe == 0
    {
      hash := KeyHashValue;
      var cap := NextPowerOf2(if initialCapacity > INITIAL_CAPACITY then initialCapacity else INITIAL_CAPACITY);
      entries := new Entry[cap](_ => ZERO_ENTRY);
      capacity := cap;
      mask := cap - 1;
      size := 0;
      tombstones := 0;
      maxProbe := 0;
      new;
      ZeroedEmpty(hash, entries[..]);
    }

    /** `hash_table_size`. */
    function Size(): (n: nat)
      requires Valid()
      reads this, entries
      ensures n == |Contents().Keys|
    {
      size
    }

    /**
     * Writes `e` at distance `p` into slot `idx`, raises `max_probe` to `p`
     * and adds `grow` to the size: the landing step of `robin_hood_insert`
     * (`grow` 1) and its swap step (`grow` 0).
     */
    method Store(idx: nat, p: nat, e: Entry, grow: nat)
      requires idx < entries.Length
      modifies this, entries
      ensures entries == old(entries) && capacity == old(capacity) && mask == old(mask) && tombstones == old(tombstones)
      ensures grow == 1 ==> State() == Land(old(State()), idx, p, e)
      ensures grow == 0 ==> State() == SwapIn(old(State()), idx, p, e)
    {
      entries[idx] := e.(probeDist := p);
      size := size + grow;
      if p > maxProbe {
        maxProbe := p;
      }
    }

    /**
     * The landing step of `robin_hood_insert`: the carried entry takes the
     * free slot `idx`. The table then maps `k` to `v` and keeps every other
     * pair, and one more key is counted.
     */
    method Place(k: Int64, v: nat, idx: nat, p: nat, entry: Entry, ghost swapped: bool, ghost free: nat, ghost m: map<Int64, nat>, ghost t: Table)
      returns (ghost t': Table)
      requires capacity == entries.Length && t == State()
      requires InsertLoop(hash, t, k, v, idx, p, entry, swapped, free, m)
      requires entries[idx].state != Occupied
      modifies this, entries
      ensures entries == old(entries) && capacity == old(capacity) && mask == old(mask) && tombstones == old(tombstones)
      ensures State() == t' && Inserted(hash, t', capacity, m)
    {
      t' := Land(t, idx, p, entry);
      LoopLand(hash, t, k, v, idx, p, entry, swapped, free, m);
      Store(idx, p, entry, 1);
    }

    /**
     * The update step of `robin_hood_insert`: slot `idx` already holds `k`,
     * and only its value changes. The table then maps `k` to `v` and keeps
     * every other pair.
     */
    method Overwrite(k: Int64, v: nat, idx: nat, p: nat, entry: Entry, ghost swapped: bool, ghost free: nat, ghost m: map<Int64, nat>, ghost t: Table)
      returns (ghost t': Table)
      requires capacity == entries.Length && t == State()
      requires InsertLoop(hash, t, k, v, idx, p, entry, swapped, free, m)
      requires entries[idx].state == Occupied && entries[idx].key == k
      modifies entries
      ensures State() == t' && Inserted(hash, t', capacity, m)
    {
      var slot := entries[idx];
      t' := Table(t.slots[idx := slot.(value := v)], t.size, t.maxProbe);
      LoopUpdate(hash, t, k, v, idx, p, entry, swapped, free, m);
      entries[idx] := slot.(value := v);
      assert State() == t';
    }

    /**
     * The swap step of `robin_hood_insert`: the carried entry is further
     * from home than the one in slot `idx`, takes its place (raising
     * `max_probe`, which the C code omits) and the evicted entry is carried
     * on from the next slot, nearer the free slot.
     */
    method Evict(k: Int64, v: nat, idx: nat, p: nat, entry: Entry, ghost swapped: bool, ghost free: nat, ghost m: map<Int64, nat>, ghost t: Table)
      returns (idx': nat, p': nat, entry': Entry, ghost t': Table)
      requires capacity == entries.Length && t == State()
      requires InsertLoop(hash, t, k, v, idx, p, entry, swapped, free, m)
      requires entries[idx].state == Occupied && entries[idx].key != k && p > entries[idx].probeDist
      modifies this, entries
      ensures entries == old(entries) && capacity == old(capacity) && mask == old(mask) && tombstones == old(tombstones)
      ensures State() == t' && InsertLoop(hash, t', k, v, idx', p', entry', true, free, m)
      ensures Ahead(idx', free, capacity) < Ahead(idx, free, capacity)
    {
      var slot := entries[idx];
      assert slot == t.slots[idx] && capacity == |t.slots|;
      t' := SwapIn(t, idx, p, entry);
      LoopSwap(hash, t, k, v, idx, p, entry, swapped, free, m, t', slot);
      idx', p', entry' := Next(idx, capacity), slot.probeDist + 1, slot;
      Store(idx, p, entry, 0);
    }

    /**
     * The probe loop of `robin_hood_insert`, from the home slot `home` of
     * `k`: swap the carried entry with any entry nearer its own home, until
     * it lands or meets `k`. Every pass moves the probe one slot nearer the
     * free slot `free`.
     */
    method Probe(k: Int64, v: nat, home: nat, ghost free: nat, ghost m: map<Int64, nat>)
      returns (ghost t': Table)
      requires capacity == entries.Length
      requires InsertLoop(hash, State(), k, v, home, 0, NewEntry(k, v), false, free, m)
      modifies this, entries
      ensures entries == old(entries) && capacity == old(capacity) && mask == old(mask) && tombstones == old(tombstones)
      ensures State() == t' && Inserted(hash, t', capacity, m)
    {
      var idx: nat, probeDist: nat, entry := home, 0, NewEntry(k, v);
      ghost var swapped := false;
      while true
        invariant entries == old(entries) && capacity == old(capacity) && mask == old(mask) && tombstones == old(tombstones)
        invariant capacity == entries.Length
        invariant InsertLoop(hash, State(), k, v, idx, probeDist, entry, swapped, free, m)
        decreases Ahead(idx, free, entries.Length)
      {
        var slot := entries[idx];
        t' := State();
        if slot.state != Occupied {
          t' := Place(k, v, idx, probeDist, entry, swapped, free, m, t');
          return;
        }
        if slot.key == k {
          t' := Overwrite(k, v, idx, probeDist, entry, swapped, free, m, t');
          return;
        }
        if probeDist > slot.probeDist {
          idx, probeDist, entry, t' := Evict(k, v, idx, probeDist, entry, swapped, free, m, t');
          swapped := true;
        } else {
          LoopAdvance(hash, t', k, v, idx, probeDist, entry, swapped, free, m);
          idx := Next(idx, capacity);
          probeDist := probeDist + 1;
        }
      }
    }

    /**
     * `robin_hood_insert`: start at the home slot of `k` at distance 0 and
     * run the probe loop. Afterwards the table maps `k` to `v` and keeps
     * every other pair.
     */
    method RobinHoodInsert(k: Int64, v: nat) returns (ok: bool)
      requires Valid() && size < capacity
      modifies this, entries
      ensures ok && Valid()
      ensures entries == old(entries) && capacity == old(capacity)
      ensures Contents() == old(Contents())[k := v]
      ensures size == if k in old(Contents()) then old(size) else old(size) + 1
    {
      ghost var free := FreeSlot(entries[..]);
      ghost var m := Contents()[k := v];
      var idx := Home(hash, k, capacity);
      LoopStart(hash, State(), k, v, free);
      ghost var t' := Probe(k, v, idx, free, m);
      return true;
    }

    /**
     * `hash_table_insert`: when one more entry would push the load past 0.7,
     * double the capacity first; then insert. Afterwards the table maps `k`
     * to `v` and keeps every other pair.
     */
    method Insert(k: Int64, v: nat) returns (ok: bool)
      requires Valid() && Roomy()
      modifies this, entries
      ensures ok && Valid() && Roomy()
      ensures Contents() == old(Contents())[k := v]
      ensures capacity == if Overloaded(old(size), old(tombstones), old(capacity)) then 2 * old(capacity) else old(capacity)
      ensures entries == old(entries) || fresh(entries)
      decreases if Overloaded(size, tombstones, capacity) then 2 else 0
    {
      if Overloaded(size, tombstones, capacity) {
        Resize(capacity * 2);
      }
      ok := RobinHoodInsert(k, v);
    }

    /**
     * `hash_table_resize`: move to a zeroed array of `newCapacity` slots and
     * re-insert every occupied slot of the old array through
     * `hash_table_insert`. The table then holds the same pairs, with room
     * for one more below the load limit.
     */
    method Resize(newCapacity: nat)
      requires Valid() && Roomy() && newCapacity == 2 * capacity
      modifies this
      ensures Valid() && fresh(entries) && capacity == newCapacity
      ensures Contents() == old(Contents()) && !Overloaded(size, tombstones, capacity)
      decreases 1
    {
      var oldEntries := entries;
      var oldCapacity := capacity;
      ghost var s := oldEntries[..];
      DoublePowerOf2(capacity);
      entries := new Entry[newCapacity](_ => ZERO_ENTRY);
      capacity := newCapacity;
      mask := newCapacity - 1;
      size := 0;
      tombstones := 0;
      maxProbe := 0;
      ZeroedEmpty(hash, entries[..]);
      assert DistinctKeys(s);
      var i := 0;
      while i < oldCapacity
        invariant i <= oldCapacity == |s| && entries != oldEntries && oldEntries[..] == s
        invariant Valid() && fresh(entries) && capacity == newCapacity
        invariant Contents() == Content(s[..i]) && KeySet(s[..i]) <= KeySet(s)
      {
        PrefixKeys(s, i);
        PrefixContent(s, i);
        if oldEntries[i].state == Occupied {
          SubsetCount(KeySet(s[..i]), KeySet(s));
          var inserted := Insert(oldEntries[i].key, oldEntries[i].value);
        }
        i := i + 1;
      }
      assert s[..i] == s;
    }

    /**
     * The backward-shift loop of `hash_table_remove`, from the slot `idx`
     * that held the removed key: each entry after the hole that is not at
     * home moves back one slot, one step closer to home, until a free slot
     * or an entry at home follows; then the hole is marked empty. The slots
     * end up well formed and holding `m`.
     */
    method ShiftBack(idx: nat, ghost free: nat, ghost m: map<Int64, nat>)
      requires capacity == entries.Length
      requires Shifting(hash, entries[..], maxProbe, idx, free, m)
      modifies entries
      ensures WellFormed(hash, entries[..], maxProbe) && Content(entries[..]) == m
    {
      var curr: nat := idx;
      while true
        invariant curr < entries.Length
        invariant Shifting(hash, entries[..], maxProbe, curr, free, m)
        decreases Ahead(curr, free, entries.Length)
      {
        var next := Next(curr, capacity);
        var nextSlot := entries[next];
        ghost var s := entries[..];
        if nextSlot.state != Occupied || nextSlot.probeDist == 0 {
          ShiftStop(hash, s, maxProbe, curr, free, m);
          entries[curr] := entries[curr].(state := Empty);
          assert entries[..] == Vacate(s, curr);
          return;
        }
        entries[curr] := nextSlot.(probeDist := nextSlot.probeDist - 1);
        ShiftStep(hash, s, maxProbe, curr, free, m, entries[..]);
        curr := next;
      }
    }

    /**
     * The probe shared by `hash_table_lookup` and `hash_table_remove`: from
     * the home slot of `k`, at most `max_probe + 1` slots, stopping at an
     * empty slot or at an entry closer to its home than the probe. It stops
     * where `RobinHood.Lookup` does, and on a hit says in which slot.
     */
    method Locate(k: Int64) returns (at: Option<nat>)
      requires capacity == entries.Length && capacity > 0
      ensures at.Some? <==> RobinHood.Lookup(hash, State(), k).Some?
      ensures at.Some? ==> at.value < entries.Length && Occ(entries[at.value]) && entries[at.value].key == k
      ensures at.Some? ==> RobinHood.Lookup(hash, State(), k) == Some(entries[at.value].value)
    {
      var idx: nat := Home(hash, k, capacity);
      var probeDist: nat := 0;
      ghost var s := entries[..];
      while probeDist <= maxProbe
        invariant idx < capacity
        invariant LookupFrom(s, maxProbe, k, idx, probeDist) == RobinHood.Lookup(hash, State(), k)
        decreases maxProbe + 1 - probeDist
      {
        var slot := entries[idx];
        if slot.state == Empty {
          return None;
        }
        if slot.state == Occupied && slot.key == k {
          return Some(idx);
        }
        if slot.state == Occupied && probeDist > slot.probeDist {
          return None;
        }
        LookupNext(s, maxProbe, k, idx, probeDist);
        idx := Next(idx, capacity);
        probeDist := probeDist + 1;
      }
      return None;
    }

    /** `hash_table_lookup`: the value stored under `k`, if the table holds `k`. */
    method Lookup(k: Int64) returns (r: Option<nat>)
      requires Valid() && Roomy()
      ensures r.Some? <==> k in Contents()
      ensures r.Some? ==> r.value == Contents()[k]
    {
      LookupFinds(hash, State(), k, FreeSlot(entries[..]));
      var at := Locate(k);
      if at.None? {
        return None;
      }
      return Some(entries[at.value].value);
    }

    /**
     * The found branch of `hash_table_remove`: the backward shift closes
     * the gap left by `k` at `idx` and the size drops by one.
     */
    method Delete(idx: nat, k: Int64)
      requires Valid() && Roomy()
      requires idx < entries.Length && Occ(entries[idx]) && entries[idx].key == k
      modifies this, entries
      ensures Valid() && Roomy() && entries == old(entries)
      ensures Contents() == old(Contents()) - {k}
    {
      ghost var s := entries[..];
      ghost var free := FreeSlot(s);
      ShiftStart(hash, s, maxProbe, idx, k, free);
      ShiftBack(idx, free, Content(s) - {k});
      assert k in KeySet(s);
      RemovedCount(s, entries[..], k);
      size := size - 1;
    }

    /**
     * `hash_table_remove`: reports whether `k` was there; afterwards the
     * table holds every pair but `k`'s.
     */
    method Remove(k: Int64) returns (removed: bool)
      requires Valid() && Roomy()
      modifies this, entries
      ensures Valid() && Roomy() && entries == old(entries)
      ensures removed == (k in old(Contents()))
      ensures Contents() == old(Contents()) - {k}
    {
      LookupFinds(hash, State(), k, FreeSlot(entries[..]));
      var at := Locate(k);
      if at.None? {
        assert Contents() - {k} == Contents();
        return false;
      }
      Delete(at.value, k);
      return true;
    }

    /**
     * `hash_table_clear`: zero every slot and the counters; the array and
     * its capacity stay. The table is then empty.
     */
    method Clear()
      requires Valid()
      modifies this, entries
      ensures Valid() && Roomy() && entries == old(entries) && capacity == old(capacity)
      ensures Contents() == map[] && size == 0
    {
      forall i | 0 <= i < entries.Length {
        entries[i] := ZERO_ENTRY;
      }
      size := 0;
      tombstones := 0;
      maxProbe := 0;
      ZeroedEmpty(hash, entries[..]);
    }
  }

  /** `HashTableIterator`: a table and the next slot to look at. */
  class TableIterator {
    const table: HashTable
    var index: nat

    /** The pairs still to come: those of the occupied slots from `index` on. */
    ghost function Pending(): seq<(Int64, nat)>
      reads this, table, table.entries
    {
      Pairs(table.entries[..], index)
    }

    /** `hash_table_iterator`: start at the first slot, so every pair is still to come. */
    constructor (t: HashTable)
      ensures table == t && index == 0
      ensures Pending() == Pairs(t.entries[..], 0)
    {
      table := t;
      index := 0;
    }

    /**
     * `hash_table_next`: step over slots until one is occupied, and yield
     * its pair, or report the end once the index reaches the capacity. The
     * pair yielded is the first of those still to come, and at the end none
     * are left.
     */
    method Next() returns (r: Option<(Int64, nat)>)
      requires table.capacity == table.entries.Length
      modifies this
      ensures old(Pending()) == (if r.Some? then [r.value] else []) + Pending()
      ensures r.None? ==> Pending() == []
    {
      while index < table.capacity
        invariant old(Pending()) == Pending()
        decreases table.capacity - index
      {
        var e := table.entries[index];
        index := index + 1;
        if e.state == Occupied {
          return Some((e.key, e.value));
        }
      }
      return None;
    }
  }

  /** A subset has no more elements than its superset. */
  lemma SubsetCount<T>(a: set<T>, b: set<T>)
    requires a <= b
    ensures |a| <= |b|
  {
    assert b == a + (b - a);
  }
}

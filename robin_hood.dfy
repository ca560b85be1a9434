/**
 * The open-addressing table of `hash_table.c`, as a sequence of slots.
 *
 * A key's home slot is its fmix64 hash masked to the capacity. An entry
 * sits `probeDist` slots after its home, wrapping around the end. Robin Hood
 * insertion and backward-shift deletion keep every cluster "sorted". An
 * entry with a positive distance always has an occupied predecessor, and
 * that predecessor's distance is at most one smaller. Together with
 * `max_probe` bounding every distance, this is what lets a lookup stop early.
 *
 * The probing loops of `robin_hood_insert`, `hash_table_lookup` and
 * `hash_table_remove` are written here as recursive functions over the
 * slots. `InsertAsWritten` follows `robin_hood_insert` exactly and is shown
 * to lose a key. `InsertLoop` is the invariant of the corrected loop,
 * which also raises `max_probe` when it places an entry by a swap. The
 * class in `CHashTable` runs the loops over an array, keeping `InsertLoop`,
 * and its lookup is proved to compute `Lookup`.
 */
module RobinHood {
  import opened Wrappers
  import opened Hashing

  /** `HT_EMPTY`, `HT_OCCUPIED`, `HT_DELETED`. */
  datatype SlotState = Empty | Occupied | Deleted

  /** `HashEntry`. `probeDist` is an unbounded number here; the C field is a `uint8_t`. */
  datatype Entry = Entry(key: Int64, value: nat, state: SlotState, probeDist: nat)

  /** A slot as `calloc` leaves it. */
  const ZERO_ENTRY: Entry := Entry(0, 0, Empty, 0)

  predicate Occ(e: Entry)
  {
    e.state == Occupied
  }

  /** The table's state besides its slots: `size` and `max_probe`. */
  datatype Table = Table(slots: seq<Entry>, size: int, maxProbe: nat)

  // ---------------------------------------------------------------------------
  // Positions on the ring of slots
  // ---------------------------------------------------------------------------

  /**
   * A hash function on keys, its 64-bit result read as a number. The slot
   * logic holds for any of them; the C table always uses `ht_hash`, which
   * is `KeyHashValue`.
   */
  type Hash = Int64 -> nat

  /**
   * `ht_index(ht_hash(key), mask)`: the home slot of a key. For the
   * power-of-two capacities of the table, masking with `capacity - 1` keeps
   * the remainder by the capacity.
   */
  function Home(hash: Hash, k: Int64, cap: nat): (h: nat)
    requires cap > 0
    ensures h < cap
  {
    hash(k) % cap
  }

  /** `(idx + 1) & mask`: the following slot, wrapping to slot 0. */
  function Next(i: nat, cap: nat): (j: nat)
    requires i < cap
    ensures j < cap
  {
    if i + 1 == cap then 0 else i + 1
  }

  /** The preceding slot, wrapping to the last one. */
  function Prev(i: nat, cap: nat): (j: nat)
    requires i < cap
    ensures j < cap
    ensures Next(j, cap) == i
  {
    if i == 0 then cap - 1 else i - 1
  }

  /** The slot `p` steps after slot `h`, for `p` below the capacity. */
  function Pos(h: nat, p: nat, cap: nat): (i: nat)
    requires h < cap && p < cap
    ensures i < cap
  {
    if h + p < cap then h + p else h + p - cap
  }

  /** How many steps lead from slot `i` forward to slot `e`. */
  function Ahead(i: nat, e: nat, cap: nat): (n: nat)
    requires i < cap && e < cap
    ensures n < cap
    ensures n == 0 <==> i == e
  {
    if i <= e then e - i else e + cap - i
  }

  lemma PosNext(h: nat, p: nat, cap: nat)
    requires h < cap && p + 1 < cap
    ensures Pos(h, p + 1, cap) == Next(Pos(h, p, cap), cap)
  {
  }

  lemma PrevNext(i: nat, cap: nat)
    requires i < cap && cap > 1
    ensures Prev(Next(i, cap), cap) == i
    ensures Next(i, cap) != i
  {
  }

  lemma AheadNext(i: nat, e: nat, cap: nat)
    requires i < cap && e < cap && i != e
    ensures Ahead(Next(i, cap), e, cap) == Ahead(i, e, cap) - 1
  {
  }

  /** Every slot is some number of steps after any home slot. */
  function Steps(h: nat, i: nat, cap: nat): (p: nat)
    requires h < cap && i < cap
    ensures p < cap && Pos(h, p, cap) == i
  {
    if h <= i then i - h else i + cap - h
  }

  // ---------------------------------------------------------------------------
  // The table invariant
  // ---------------------------------------------------------------------------

  /** No path of the table ever writes `HT_DELETED`. */
  ghost predicate NoDeleted(s: seq<Entry>)
  {
    forall i :: 0 <= i < |s| ==> s[i].state != Deleted
  }

  /** Every entry lies `probeDist` slots after its home. */
  ghost predicate Placed(hash: Hash, s: seq<Entry>)
  {
    forall i :: 0 <= i < |s| && Occ(s[i]) ==>
      s[i].probeDist < |s| && Pos(Home(hash, s[i].key, |s|), s[i].probeDist, |s|) == i
  }

  /** The Robin Hood order at slot `i`: a displaced entry follows an entry at most one step closer to home. */
  ghost predicate LinkedAt(s: seq<Entry>, i: nat)
    requires i < |s|
  {
    Occ(s[i]) && s[i].probeDist > 0 ==>
      var j := Prev(i, |s|);
      Occ(s[j]) && s[i].probeDist <= s[j].probeDist + 1
  }

  ghost predicate Linked(s: seq<Entry>)
  {
    forall i :: 0 <= i < |s| ==> LinkedAt(s, i)
  }

  ghost predicate DistinctKeys(s: seq<Entry>)
  {
    forall i, j :: 0 <= i < |s| && 0 <= j < |s| && i != j && Occ(s[i]) && Occ(s[j]) ==> s[i].key != s[j].key
  }

  /** `max_probe` bounds every distance. */
  ghost predicate Bounded(s: seq<Entry>, maxProbe: nat)
  {
    forall i :: 0 <= i < |s| && Occ(s[i]) ==> s[i].probeDist <= maxProbe
  }

  /** The invariant of a table of at least three slots, except for the `max_probe` bound. */
  ghost predicate Shaped(hash: Hash, s: seq<Entry>)
  {
    |s| > 2 && NoDeleted(s) && Placed(hash, s) && Linked(s) && DistinctKeys(s)
  }

  ghost predicate WellFormed(hash: Hash, s: seq<Entry>, maxProbe: nat)
  {
    Shaped(hash, s) && Bounded(s, maxProbe)
  }

  /** What a `uint8_t` keeps of a distance: its low eight bits. */
  function Byte(d: nat): (b: nat)
    ensures b < 256
    ensures d < 256 ==> b == d
  {
    d % 256
  }

  /**
   * In a table of at most 256 slots every distance fits the C `uint8_t`
   * `probe_dist` field unchanged, and the insert loop's `probe_dist > 255`
   * guard, evaluated on an 8-bit counter, can never hold.
   */
  lemma DistancesFitInByte(hash: Hash, s: seq<Entry>, d: nat)
    requires Shaped(hash, s) && |s| <= 256
    ensures forall i :: 0 <= i < |s| && Occ(s[i]) ==> Byte(s[i].probeDist) == s[i].probeDist
    ensures !(Byte(d + 1) > 255)
  {
  }

  /** A slot no entry occupies. */
  ghost predicate Free(s: seq<Entry>, e: nat)
  {
    e < |s| && !Occ(s[e])
  }

  // ---------------------------------------------------------------------------
  // Clusters
  // ---------------------------------------------------------------------------

  /**
   * Every slot between an entry's home and the entry itself is occupied, by
   * an entry at least as far from its own home as the step count.
   */
  lemma {:induction false} Cluster(hash: Hash, s: seq<Entry>, i: nat, q: nat)
    requires Shaped(hash, s) && i < |s| && Occ(s[i]) && q <= s[i].probeDist
    ensures var j := Pos(Home(hash, s[i].key, |s|), q, |s|); Occ(s[j]) && s[j].probeDist >= q
    decreases s[i].probeDist - q
  {
    var h := Home(hash, s[i].key, |s|);
    if q < s[i].probeDist {
      Cluster(hash, s, i, q + 1);
      var j := Pos(h, q + 1, |s|);
      assert LinkedAt(s, j);
      PosNext(h, q, |s|);
      assert Prev(j, |s|) == Pos(h, q, |s|) by { PrevNext(Pos(h, q, |s|), |s|); }
    }
  }

  /** With a free slot somewhere, no entry is a whole lap from home. */
  lemma NoFullLap(hash: Hash, s: seq<Entry>, i: nat, e: nat)
    requires Shaped(hash, s) && i < |s| && Occ(s[i]) && Free(s, e)
    ensures s[i].probeDist < |s| - 1
  {
    if s[i].probeDist == |s| - 1 {
      var h := Home(hash, s[i].key, |s|);
      Cluster(hash, s, i, Steps(h, e, |s|));
      assert false;
    }
  }

  // ---------------------------------------------------------------------------
  // What the table stores
  // ---------------------------------------------------------------------------

  ghost function KeySet(s: seq<Entry>): set<Int64>
  {
    set i | 0 <= i < |s| && Occ(s[i]) :: s[i].key
  }

  /** The value in some occupied slot holding `k`. */
  ghost function ValueOf(s: seq<Entry>, k: Int64): nat
    requires k in KeySet(s)
  {
    var i :| 0 <= i < |s| && Occ(s[i]) && s[i].key == k;
    s[i].value
  }

  /** The key/value map the slots hold. */
  ghost function Content(s: seq<Entry>): (m: map<Int64, nat>)
    ensures m.Keys == KeySet(s)
  {
    map k | k in KeySet(s) :: ValueOf(s, k)
  }

  /** What a lookup of `k` should report. */
  ghost function Find(s: seq<Entry>, k: Int64): Option<nat>
  {
    if k in Content(s) then Some(Content(s)[k]) else None
  }

  /** With distinct keys, the map holds each occupied slot's pair. */
  lemma ContentAt(s: seq<Entry>, i: nat)
    requires DistinctKeys(s) && i < |s| && Occ(s[i])
    ensures s[i].key in Content(s) && Content(s)[s[i].key] == s[i].value
  {
    assert s[i].key in KeySet(s);
  }

  lemma DistinctWrite(s: seq<Entry>, i: nat, e: Entry)
    requires DistinctKeys(s) && i < |s|
    requires Occ(e) ==> forall j :: 0 <= j < |s| && j != i && Occ(s[j]) ==> s[j].key != e.key
    ensures DistinctKeys(s[i := e])
  {
  }

  /** The occupant's key leaves the key set and the new entry's key enters it. */
  lemma KeySetWrite(s: seq<Entry>, i: nat, e: Entry)
    requires DistinctKeys(s) && i < |s|
    requires Occ(e) ==> forall j :: 0 <= j < |s| && j != i && Occ(s[j]) ==> s[j].key != e.key
    ensures KeySet(s[i := e])
         == (if Occ(s[i]) then KeySet(s) - {s[i].key} else KeySet(s)) + (if Occ(e) then {e.key} else {})
  {
    var t := s[i := e];
    var want := (if Occ(s[i]) then KeySet(s) - {s[i].key} else KeySet(s)) + (if Occ(e) then {e.key} else {});
    forall k | k in KeySet(t)
      ensures k in want
    {
      var j :| 0 <= j < |t| && Occ(t[j]) && t[j].key == k;
      if j != i {
        assert s[j] == t[j];
      }
    }
    forall k | k in want
      ensures k in KeySet(t)
    {
      if Occ(e) && k == e.key {
        assert t[i] == e;
      } else {
        var j :| 0 <= j < |s| && Occ(s[j]) && s[j].key == k;
        assert t[j] == s[j];
      }
    }
  }

  /**
   * Writing one slot: the old occupant's pair (if any) leaves the map and the
   * new entry's pair (if occupied) enters it.
   */
  lemma ContentWrite(s: seq<Entry>, i: nat, e: Entry)
    requires DistinctKeys(s) && i < |s|
    requires Occ(e) ==> forall j :: 0 <= j < |s| && j != i && Occ(s[j]) ==> s[j].key != e.key
    ensures DistinctKeys(s[i := e])
    ensures var base := if Occ(s[i]) then Content(s) - {s[i].key} else Content(s);
      Content(s[i := e]) == if Occ(e) then base[e.key := e.value] else base
  {
    DistinctWrite(s, i, e);
    var base := if Occ(s[i]) then Content(s) - {s[i].key} else Content(s);
    var want := if Occ(e) then base[e.key := e.value] else base;
    var got := Content(s[i := e]);
    ContentWriteKeys(s, i, e, base, want);
    forall k | k in got
      ensures got[k] == want[k]
    {
      ContentWriteAt(s, i, e, k);
    }
    MapExt(got, want);
  }

  lemma MapExt(a: map<Int64, nat>, b: map<Int64, nat>)
    requires a.Keys == b.Keys && forall k | k in a :: a[k] == b[k]
    ensures a == b
  {
  }

  lemma ContentWriteKeys(s: seq<Entry>, i: nat, e: Entry, base: map<Int64, nat>, want: map<Int64, nat>)
    requires DistinctKeys(s) && i < |s|
    requires Occ(e) ==> forall j :: 0 <= j < |s| && j != i && Occ(s[j]) ==> s[j].key != e.key
    requires base == if Occ(s[i]) then Content(s) - {s[i].key} else Content(s)
    requires want == if Occ(e) then base[e.key := e.value] else base
    ensures Content(s[i := e]).Keys == want.Keys
  {
    KeySetWrite(s, i, e);
  }

  /** The value a key has after one slot is written. */
  lemma ContentWriteAt(s: seq<Entry>, i: nat, e: Entry, k: Int64)
    requires DistinctKeys(s) && i < |s|
    requires Occ(e) ==> forall j :: 0 <= j < |s| && j != i && Occ(s[j]) ==> s[j].key != e.key
    requires k in KeySet(s[i := e])
    ensures Occ(e) && k == e.key ==> Content(s[i := e])[k] == e.value
    ensures !(Occ(e) && k == e.key) ==> k in Content(s) && Content(s[i := e])[k] == Content(s)[k]
  {
    var t := s[i := e];
    DistinctWrite(s, i, e);
    var j :| 0 <= j < |t| && Occ(t[j]) && t[j].key == k;
    ContentAt(t, j);
    if j != i {
      ContentAt(s, j);
    }
  }

  // ---------------------------------------------------------------------------
  // Lookup
  // ---------------------------------------------------------------------------

  /** The probe loop of `hash_table_lookup`, at slot `idx`, `p` steps from the key's home. */
  function LookupFrom(s: seq<Entry>, maxProbe: nat, k: Int64, idx: nat, p: nat): Option<nat>
    requires idx < |s|
    decreases maxProbe + 1 - p
  {
    if p > maxProbe then None
    else if s[idx].state == Empty then None
    else if Occ(s[idx]) && s[idx].key == k then Some(s[idx].value)
    else if Occ(s[idx]) && p > s[idx].probeDist then None
    else LookupFrom(s, maxProbe, k, Next(idx, |s|), p + 1)
  }

  /** `hash_table_lookup`: probe from the key's home for at most `max_probe + 1` slots. */
  function Lookup(hash: Hash, t: Table, k: Int64): Option<nat>
    requires |t.slots| > 0
  {
    LookupFrom(t.slots, t.maxProbe, k, Home(hash, k, |t.slots|), 0)
  }

  /** No slot holding `k` is closer than `p` steps to `k`'s home. */
  ghost predicate NotPassed(s: seq<Entry>, k: Int64, p: nat)
  {
    forall i :: 0 <= i < |s| && Occ(s[i]) && s[i].key == k ==> p <= s[i].probeDist
  }

  /** Passing a slot that does not hold `k` moves the search one step on. */
  lemma PassStep(hash: Hash, s: seq<Entry>, k: Int64, idx: nat, p: nat)
    requires Shaped(hash, s) && p < |s| && idx == Pos(Home(hash, k, |s|), p, |s|)
    requires NotPassed(s, k, p) && !(Occ(s[idx]) && s[idx].key == k)
    ensures NotPassed(s, k, p + 1)
  {
  }

  /** A free slot, or an entry closer to home than the search, ends the search: `k` is absent. */
  lemma StopsAbsent(hash: Hash, s: seq<Entry>, k: Int64, idx: nat, p: nat)
    requires Shaped(hash, s) && p < |s| && idx == Pos(Home(hash, k, |s|), p, |s|)
    requires NotPassed(s, k, p) && (!Occ(s[idx]) || p > s[idx].probeDist)
    ensures k !in KeySet(s)
  {
    if k in KeySet(s) {
      var i :| 0 <= i < |s| && Occ(s[i]) && s[i].key == k;
      Cluster(hash, s, i, p);
    }
  }

  lemma {:induction false} LookupFromFinds(hash: Hash, s: seq<Entry>, maxProbe: nat, k: Int64, idx: nat, p: nat, free: nat)
    requires WellFormed(hash, s, maxProbe) && Free(s, free)
    requires p < |s| && idx == Pos(Home(hash, k, |s|), p, |s|)
    requires NotPassed(s, k, p)
    ensures LookupFrom(s, maxProbe, k, idx, p) == Find(s, k)
    decreases maxProbe + 1 - p
  {
    if p > maxProbe || s[idx].state == Empty || (Occ(s[idx]) && (s[idx].key == k || p > s[idx].probeDist)) {
      LookupStops(hash, s, maxProbe, k, idx, p);
    } else {
      LookupPass(hash, s, maxProbe, k, idx, p, free);
      LookupFromFinds(hash, s, maxProbe, k, Next(idx, |s|), p + 1, free);
    }
  }

  /** Where the lookup stops, it reports what the table stores. */
  lemma LookupStops(hash: Hash, s: seq<Entry>, maxProbe: nat, k: Int64, idx: nat, p: nat)
    requires WellFormed(hash, s, maxProbe) && p < |s| && idx == Pos(Home(hash, k, |s|), p, |s|)
    requires NotPassed(s, k, p)
    requires p > maxProbe || s[idx].state == Empty || (Occ(s[idx]) && (s[idx].key == k || p > s[idx].probeDist))
    ensures LookupFrom(s, maxProbe, k, idx, p) == Find(s, k)
  {
    if p > maxProbe {
      PastBound(s, maxProbe, k, p);
    } else if s[idx].state == Empty {
      StopsAbsent(hash, s, k, idx, p);
    } else if s[idx].key == k {
      ContentAt(s, idx);
    } else {
      StopsAbsent(hash, s, k, idx, p);
    }
  }

  /** Past a slot that neither stops the lookup nor holds `k`, it goes on from the next slot. */
  lemma LookupNext(s: seq<Entry>, maxProbe: nat, k: Int64, idx: nat, p: nat)
    requires idx < |s| && p <= maxProbe && s[idx].state != Empty
    requires !(Occ(s[idx]) && s[idx].key == k) && !(Occ(s[idx]) && p > s[idx].probeDist)
    ensures LookupFrom(s, maxProbe, k, idx, p) == LookupFrom(s, maxProbe, k, Next(idx, |s|), p + 1)
  {
  }

  /** A slot whose entry is neither `k` nor closer to home than the search moves the search on, short of a full lap. */
  lemma LookupPass(hash: Hash, s: seq<Entry>, maxProbe: nat, k: Int64, idx: nat, p: nat, free: nat)
    requires WellFormed(hash, s, maxProbe) && Free(s, free)
    requires p < |s| && idx == Pos(Home(hash, k, |s|), p, |s|) && NotPassed(s, k, p)
    requires s[idx].state != Empty && !(Occ(s[idx]) && s[idx].key == k) && !(Occ(s[idx]) && p > s[idx].probeDist)
    requires p <= maxProbe
    ensures p + 1 < |s| && Next(idx, |s|) == Pos(Home(hash, k, |s|), p + 1, |s|) && NotPassed(s, k, p + 1)
    ensures LookupFrom(s, maxProbe, k, idx, p) == LookupFrom(s, maxProbe, k, Next(idx, |s|), p + 1)
  {
    NoFullLap(hash, s, idx, free);
    PosNext(Home(hash, k, |s|), p, |s|);
    PassStep(hash, s, k, idx, p);
    LookupNext(s, maxProbe, k, idx, p);
  }

  /** A lookup on a well-formed table with a free slot reports exactly what the table stores. */
  lemma LookupFinds(hash: Hash, t: Table, k: Int64, free: nat)
    requires WellFormed(hash, t.slots, t.maxProbe) && Free(t.slots, free)
    ensures Lookup(hash, t, k) == Find(t.slots, k)
  {
    LookupFromFinds(hash, t.slots, t.maxProbe, k, Home(hash, k, |t.slots|), 0, free);
  }

  // ---------------------------------------------------------------------------
  // Insertion
  // ---------------------------------------------------------------------------

  /** The entry `robin_hood_insert` starts out carrying. */
  function NewEntry(k: Int64, v: nat): Entry
  {
    Entry(k, v, Occupied, 0)
  }

  /** The carried entry lands in the free slot `idx`, `p` steps from its home; `max_probe` is raised to cover it. */
  function Land(t: Table, idx: nat, p: nat, e: Entry): Table
    requires idx < |t.slots|
  {
    Table(t.slots[idx := e.(probeDist := p)], t.size + 1, if p > t.maxProbe then p else t.maxProbe)
  }

  /**
   * The carried entry takes slot `idx`, `p` steps from its home, and its
   * occupant is carried on. Here `max_probe` is raised to cover the placed
   * entry, as it is when an entry lands in a free slot.
   */
  function SwapIn(t: Table, idx: nat, p: nat, e: Entry): Table
    requires idx < |t.slots|
  {
    Table(t.slots[idx := e.(probeDist := p)], t.size, if p > t.maxProbe then p else t.maxProbe)
  }

  /**
   * The probe loop of `robin_hood_insert` exactly as written, at slot `idx`
   * carrying `e`, `p` steps from `e`'s home. `max_probe` is raised only when
   * an entry lands in a free slot, never when the carried entry is swapped
   * in. `free` names a slot no entry occupies: the loop stops there at the
   * latest, and it does not change the result.
   */
  function InsertAsWrittenFrom(hash: Hash, t: Table, k: Int64, v: nat, idx: nat, p: nat, e: Entry, ghost free: nat): Table
    requires idx < |t.slots| && Free(t.slots, free)
    decreases Ahead(idx, free, |t.slots|)
  {
    var s := t.slots;
    var slot := s[idx];
    if !Occ(slot) then
      Land(t, idx, p, e)
    else if slot.key == k then
      Table(s[idx := slot.(value := v)], t.size, t.maxProbe)
    else if p > slot.probeDist then
      InsertAsWrittenFrom(hash, Table(s[idx := e.(probeDist := p)], t.size, t.maxProbe), k, v, Next(idx, |s|), slot.probeDist + 1, slot, free)
    else
      InsertAsWrittenFrom(hash, t, k, v, Next(idx, |s|), p + 1, e, free)
  }

  /** `robin_hood_insert` as written, from the key's home slot. */
  function InsertAsWritten(hash: Hash, t: Table, k: Int64, v: nat, ghost free: nat): Table
    requires Free(t.slots, free)
  {
    InsertAsWrittenFrom(hash, t, k, v, Home(hash, k, |t.slots|), 0, NewEntry(k, v), free)
  }

  /** The homes in a 16-slot table of the four keys of the example below. */
  lemma ExampleHomes()
    ensures Home(KeyHashValue, 4, 16) == 5 && Home(KeyHashValue, 5, 16) == 5
    ensures Home(KeyHashValue, 2, 16) == 7 && Home(KeyHashValue, 12, 16) == 5
  {
  }

  /**
   * `robin_hood_insert` as written loses a key. Insert 4 (home 5), 5 (home
   * 5, so it lands one step on), 2 (home 7) and 12 (home 5) into an empty
   * 16-slot table. 12 reaches slot 7 two steps from home and displaces 2,
   * which lands in slot 8 one step from home. `max_probe` is raised only for
   * the landing entry and stays 1. A lookup of 12 gives up after two slots,
   * though the table holds it.
   */
  lemma InsertAsWrittenLosesKey()
    ensures var t0 := Table(seq(16, _ => ZERO_ENTRY), 0, 0);
            Free(t0.slots, 0) &&
            var t1 := InsertAsWritten(KeyHashValue, t0, 4, 40, 0);
            Free(t1.slots, 0) &&
            var t2 := InsertAsWritten(KeyHashValue, t1, 5, 50, 0);
            Free(t2.slots, 0) &&
            var t3 := InsertAsWritten(KeyHashValue, t2, 2, 20, 0);
            Free(t3.slots, 0) &&
            var t4 := InsertAsWritten(KeyHashValue, t3, 12, 120, 0);
            Find(t4.slots, 12) == Some(120) && Lookup(KeyHashValue, t4, 12) == None
  {
    ExampleHomes();
    var z := ZERO_ENTRY;
    var t0 := Table(seq(16, _ => ZERO_ENTRY), 0, 0);
    var a := Entry(4, 40, Occupied, 0);
    var b := Entry(5, 50, Occupied, 1);
    var c := Entry(2, 20, Occupied, 0);
    var d := Entry(12, 120, Occupied, 2);
    var c1 := Entry(2, 20, Occupied, 1);
    var t1 := InsertAsWritten(KeyHashValue, t0, 4, 40, 0);
    assert t1 == Table(t0.slots[5 := a], 1, 0);
    var t2 := InsertAsWritten(KeyHashValue, t1, 5, 50, 0);
    assert InsertAsWrittenFrom(KeyHashValue, t1, 5, 50, 6, 1, NewEntry(5, 50), 0) == Land(t1, 6, 1, NewEntry(5, 50));
    assert t2 == Table(t1.slots[6 := b], 2, 1);
    var t3 := InsertAsWritten(KeyHashValue, t2, 2, 20, 0);
    assert t3 == Table(t2.slots[7 := c], 3, 1);
    var t4 := InsertAsWritten(KeyHashValue, t3, 12, 120, 0);
    var swapped := Table(t3.slots[7 := d], 3, 1);
    assert InsertAsWrittenFrom(KeyHashValue, swapped, 12, 120, 8, 1, c, 0) == Land(swapped, 8, 1, c);
    assert InsertAsWrittenFrom(KeyHashValue, t3, 12, 120, 7, 2, NewEntry(12, 120), 0) == Land(swapped, 8, 1, c);
    assert InsertAsWrittenFrom(KeyHashValue, t3, 12, 120, 6, 1, NewEntry(12, 120), 0) == Land(swapped, 8, 1, c);
    assert t4 == Table(t3.slots[7 := d][8 := c1], 4, 1);
    assert t4.slots[7] == d;
    ContentAt(t4.slots, 7);
    assert Lookup(KeyHashValue, t4, 12) == None;
  }

  /** The carried entry may land at `idx`: its predecessor is at most one step closer to home. */
  ghost predicate Carried(s: seq<Entry>, idx: nat, p: nat)
    requires idx < |s|
  {
    p > 0 ==> var j := Prev(idx, |s|); Occ(s[j]) && p <= s[j].probeDist + 1
  }

  /** Writing an entry at `idx` keeps the order everywhere but at `idx` and the slot after it. */
  lemma LinkedElsewhere(s: seq<Entry>, idx: nat, x: Entry, j: nat)
    requires |s| > 2 && idx < |s| && j < |s| && j != idx && j != Next(idx, |s|)
    requires LinkedAt(s, j)
    ensures LinkedAt(s[idx := x], j)
  {
  }

  /** Writing an entry with distance `p` at `idx` keeps the order when it may land there and does not crowd the next slot. */
  lemma PlaceLinked(s: seq<Entry>, idx: nat, x: Entry)
    requires |s| > 2 && idx < |s| && Linked(s) && Occ(x) && Carried(s, idx, x.probeDist)
    requires var n := Next(idx, |s|); Occ(s[n]) && s[n].probeDist > 0 ==> s[n].probeDist <= x.probeDist + 1
    ensures Linked(s[idx := x])
  {
    var t := s[idx := x];
    PrevNext(idx, |s|);
    forall j | 0 <= j < |t|
      ensures LinkedAt(t, j)
    {
      assert LinkedAt(s, j);
      if j != idx && j != Next(idx, |s|) {
        LinkedElsewhere(s, idx, x, j);
      }
    }
  }

  /** An entry placed where it may land, in front of a slot it does not crowd, keeps the table shaped. */
  lemma PlaceKeepsShape(hash: Hash, s: seq<Entry>, idx: nat, p: nat, e: Entry)
    requires Shaped(hash, s) && idx < |s| && p < |s| && Occ(e)
    requires e.key !in KeySet(s) - (if Occ(s[idx]) then {s[idx].key} else {})
    requires Pos(Home(hash, e.key, |s|), p, |s|) == idx && Carried(s, idx, p)
    requires var n := Next(idx, |s|); Occ(s[n]) && s[n].probeDist > 0 ==> s[n].probeDist <= p + 1
    ensures Shaped(hash, s[idx := e.(probeDist := p)])
  {
    var x := e.(probeDist := p);
    forall j | 0 <= j < |s| && j != idx && Occ(s[j])
      ensures s[j].key != x.key
    {
      assert s[j].key in KeySet(s);
    }
    DistinctWrite(s, idx, x);
    PlaceLinked(s, idx, x);
  }

  /** A new key written into a free slot joins the map. */
  lemma LandContent(s: seq<Entry>, idx: nat, x: Entry)
    requires DistinctKeys(s) && idx < |s| && !Occ(s[idx]) && Occ(x) && x.key !in KeySet(s)
    ensures Content(s[idx := x]) == Content(s)[x.key := x.value]
    ensures KeySet(s[idx := x]) == KeySet(s) + {x.key}
  {
    forall j | 0 <= j < |s| && j != idx && Occ(s[j])
      ensures s[j].key != x.key
    {
      assert s[j].key in KeySet(s);
    }
    ContentWrite(s, idx, x);
    KeySetWrite(s, idx, x);
  }

  /** A new key written over an occupied slot: the pair it evicts is the one to carry on. */
  lemma SwapContent(s: seq<Entry>, idx: nat, x: Entry)
    requires DistinctKeys(s) && idx < |s| && Occ(s[idx]) && Occ(x) && x.key !in KeySet(s)
    ensures s[idx].key !in KeySet(s[idx := x])
    ensures Content(s[idx := x])[s[idx].key := s[idx].value] == Content(s)[x.key := x.value]
    ensures |KeySet(s[idx := x])| == |KeySet(s)|
  {
    forall j | 0 <= j < |s| && j != idx && Occ(s[j])
      ensures s[j].key != x.key
    {
      assert s[j].key in KeySet(s);
    }
    ContentWrite(s, idx, x);
    KeySetWrite(s, idx, x);
    ContentAt(s, idx);
    assert s[idx].key in KeySet(s);
    MapSwap(Content(s), s[idx].key, x.key, x.value);
  }

  /** A new value for the key in an occupied slot. */
  lemma UpdateContent(s: seq<Entry>, idx: nat, v: nat)
    requires DistinctKeys(s) && idx < |s| && Occ(s[idx])
    ensures Content(s[idx := s[idx].(value := v)]) == Content(s)[s[idx].key := v]
    ensures KeySet(s[idx := s[idx].(value := v)]) == KeySet(s)
  {
    assert s[idx].key in KeySet(s);
    ContentWrite(s, idx, s[idx].(value := v));
    KeySetWrite(s, idx, s[idx].(value := v));
    MapRemovePut(Content(s), s[idx].key, v);
  }

  lemma MapRemovePut(m: map<Int64, nat>, k: Int64, v: nat)
    ensures (m - {k})[k := v] == m[k := v]
  {
  }

  /** Evicting `a` for `b` and then putting `a` back gives the map with `b` added. */
  lemma MapSwap(m: map<Int64, nat>, a: Int64, b: Int64, v: nat)
    requires a in m && a != b
    ensures (m - {a})[b := v][a := m[a]] == m[b := v]
  {
  }

  /** The state at the head of the insertion loop, apart from what the carried entry is. */
  ghost predicate Probing(hash: Hash, t: Table, idx: nat, p: nat, home: nat, free: nat)
  {
    && WellFormed(hash, t.slots, t.maxProbe) && Free(t.slots, free)
    && t.size == |KeySet(t.slots)|
    && idx < |t.slots| && p < |t.slots| && home < |t.slots| && idx == Pos(home, p, |t.slots|)
    && Carried(t.slots, idx, p)
  }

  /** What an insertion leaves behind: a well-formed table holding `m`, with the right size. */
  ghost predicate Inserted(hash: Hash, r: Table, cap: nat, m: map<Int64, nat>)
  {
    && |r.slots| == cap && WellFormed(hash, r.slots, r.maxProbe)
    && Content(r.slots) == m && r.size == |KeySet(r.slots)|
  }

  /** Writing an entry keeps a bound that covers the entry's distance. */
  lemma BoundedWrite(s: seq<Entry>, m: nat, idx: nat, x: Entry)
    requires Bounded(s, m) && idx < |s|
    ensures Bounded(s[idx := x], if x.probeDist > m then x.probeDist else m)
  {
  }

  /** The carried entry lands in a free slot. */
  lemma LandStep(hash: Hash, t: Table, idx: nat, p: nat, e: Entry, free: nat)
    requires |t.slots| > 0 && Occ(e) && Probing(hash, t, idx, p, Home(hash, e.key, |t.slots|), free)
    requires !Occ(t.slots[idx]) && e.key !in KeySet(t.slots)
    ensures Inserted(hash, Land(t, idx, p, e), |t.slots|, Content(t.slots)[e.key := e.value])
  {
    var s := t.slots;
    var x := e.(probeDist := p);
    var r := Land(t, idx, p, e);
    assert r.slots == s[idx := x];
    assert Shaped(hash, r.slots) by {
      PrevNext(idx, |s|);
      assert LinkedAt(s, Next(idx, |s|));
      PlaceKeepsShape(hash, s, idx, p, e);
    }
    assert Bounded(r.slots, r.maxProbe) by {
      BoundedWrite(s, t.maxProbe, idx, x);
    }
    assert Content(r.slots) == Content(s)[e.key := e.value] && r.size == |KeySet(r.slots)| by {
      LandContent(s, idx, x);
    }
  }

  /** The probe passes an entry at least as far from home. */
  lemma AdvanceStep(hash: Hash, t: Table, idx: nat, p: nat, home: nat, free: nat)
    requires Probing(hash, t, idx, p, home, free)
    requires Occ(t.slots[idx]) && p <= t.slots[idx].probeDist
    ensures Probing(hash, t, Next(idx, |t.slots|), p + 1, home, free)
    ensures Ahead(Next(idx, |t.slots|), free, |t.slots|) < Ahead(idx, free, |t.slots|)
  {
    var s := t.slots;
    NoFullLap(hash, s, idx, free);
    AheadNext(idx, free, |s|);
    PrevNext(idx, |s|);
    PosNext(home, p, |s|);
  }

  /** The carried entry displaces an entry closer to its home, which is carried on. */
  lemma SwapStep(hash: Hash, t: Table, idx: nat, p: nat, e: Entry, free: nat, t': Table, slot: Entry)
    requires |t.slots| > 0 && Occ(e) && Probing(hash, t, idx, p, Home(hash, e.key, |t.slots|), free)
    requires slot == t.slots[idx] && Occ(slot) && p > slot.probeDist && e.key !in KeySet(t.slots)
    requires t' == SwapIn(t, idx, p, e)
    ensures |t'.slots| == |t.slots|
    ensures Probing(hash, t', Next(idx, |t.slots|), slot.probeDist + 1, Home(hash, slot.key, |t.slots|), free)
    ensures slot.key !in KeySet(t'.slots)
    ensures Content(t'.slots)[slot.key := slot.value] == Content(t.slots)[e.key := e.value]
    ensures Ahead(Next(idx, |t.slots|), free, |t.slots|) < Ahead(idx, free, |t.slots|)
    ensures t'.slots[idx] == e.(probeDist := p)
    ensures forall j :: 0 <= j < |t.slots| && j != idx ==> t'.slots[j] == t.slots[j]
  {
    SwapShape(hash, t, idx, p, e, free, t', slot);
    SwapContent(t.slots, idx, e.(probeDist := p));
    NoFullLap(hash, t.slots, idx, free);
    AheadNext(idx, free, |t.slots|);
  }

  /** The shape half of a swap: the table stays well formed and the evicted entry may go on from the next slot. */
  lemma SwapShape(hash: Hash, t: Table, idx: nat, p: nat, e: Entry, free: nat, t': Table, slot: Entry)
    requires |t.slots| > 0 && Occ(e) && Probing(hash, t, idx, p, Home(hash, e.key, |t.slots|), free)
    requires slot == t.slots[idx] && Occ(slot) && p > slot.probeDist && e.key !in KeySet(t.slots)
    requires t' == SwapIn(t, idx, p, e)
    ensures Probing(hash, t', Next(idx, |t.slots|), slot.probeDist + 1, Home(hash, slot.key, |t.slots|), free)
  {
    var s := t.slots;
    SwapWellFormed(hash, t, idx, p, e, t', slot);
    PrevNext(idx, |s|);
    PosNext(Home(hash, slot.key, |s|), slot.probeDist, |s|);
    assert t'.slots[idx] == e.(probeDist := p);
  }

  /** A swap keeps the table well formed and its size right. */
  lemma SwapWellFormed(hash: Hash, t: Table, idx: nat, p: nat, e: Entry, t': Table, slot: Entry)
    requires |t.slots| > 2 && Occ(e) && WellFormed(hash, t.slots, t.maxProbe) && t.size == |KeySet(t.slots)|
    requires idx < |t.slots| && p < |t.slots| && Pos(Home(hash, e.key, |t.slots|), p, |t.slots|) == idx && Carried(t.slots, idx, p)
    requires slot == t.slots[idx] && Occ(slot) && p > slot.probeDist && e.key !in KeySet(t.slots)
    requires t' == SwapIn(t, idx, p, e)
    ensures WellFormed(hash, t'.slots, t'.maxProbe) && t'.size == |KeySet(t'.slots)|
  {
    var s := t.slots;
    PrevNext(idx, |s|);
    assert LinkedAt(s, Next(idx, |s|));
    assert slot.key in KeySet(s);
    PlaceKeepsShape(hash, s, idx, p, e);
    SwapContent(s, idx, e.(probeDist := p));
    BoundedWrite(s, t.maxProbe, idx, e.(probeDist := p));
  }

  /** The probe meets the key: only its value changes. */
  lemma UpdateStep(hash: Hash, t: Table, idx: nat, v: nat)
    requires WellFormed(hash, t.slots, t.maxProbe) && idx < |t.slots| && Occ(t.slots[idx]) && t.size == |KeySet(t.slots)|
    ensures Inserted(hash, Table(t.slots[idx := t.slots[idx].(value := v)], t.size, t.maxProbe), |t.slots|,
               Content(t.slots)[t.slots[idx].key := v])
  {
    var s := t.slots;
    var slot := s[idx];
    PrevNext(idx, |s|);
    assert LinkedAt(s, idx);
    assert LinkedAt(s, Next(idx, |s|));
    assert slot.key in KeySet(s);
    PlaceKeepsShape(hash, s, idx, slot.probeDist, slot.(value := v));
    assert slot.(value := v).(probeDist := slot.probeDist) == slot.(value := v);
    UpdateContent(s, idx, v);
    BoundedWrite(s, t.maxProbe, idx, slot.(value := v));
  }

  /**
   * The state at the head of the loop of `robin_hood_insert`. Before any
   * swap the probe carries the new pair and has passed no slot holding `k`.
   * After a swap it carries an evicted entry, whose key is no longer in the
   * table, and any slot holding `k` lies behind the probe. Either way the
   * slots and the carried pair together hold `m`.
   */
  ghost predicate InsertLoop(hash: Hash, t: Table, k: Int64, v: nat, idx: nat, p: nat, e: Entry, swapped: bool, free: nat, m: map<Int64, nat>)
  {
    && |t.slots| > 0 && Occ(e) && Probing(hash, t, idx, p, Home(hash, e.key, |t.slots|), free)
    && (if swapped then
          && e.key !in KeySet(t.slots)
          && forall j :: 0 <= j < |t.slots| && Occ(t.slots[j]) && t.slots[j].key == k ==>
               Ahead(j, free, |t.slots|) > Ahead(idx, free, |t.slots|)
        else
          e == NewEntry(k, v) && NotPassed(t.slots, k, p))
    && Content(t.slots)[e.key := e.value] == m
  }

  /** Before the loop: a well-formed table with a free slot, probed from `k`'s home. */
  lemma LoopStart(hash: Hash, t: Table, k: Int64, v: nat, free: nat)
    requires WellFormed(hash, t.slots, t.maxProbe) && Free(t.slots, free) && t.size == |KeySet(t.slots)|
    ensures InsertLoop(hash, t, k, v, Home(hash, k, |t.slots|), 0, NewEntry(k, v), false, free, Content(t.slots)[k := v])
  {
  }

  /** The loop ends in a free slot: the carried pair joins the table. */
  lemma LoopLand(hash: Hash, t: Table, k: Int64, v: nat, idx: nat, p: nat, e: Entry, swapped: bool, free: nat, m: map<Int64, nat>)
    requires InsertLoop(hash, t, k, v, idx, p, e, swapped, free, m) && !Occ(t.slots[idx])
    ensures Inserted(hash, Land(t, idx, p, e), |t.slots|, m)
  {
    if !swapped {
      StopsAbsent(hash, t.slots, k, idx, p);
    }
    LandStep(hash, t, idx, p, e, free);
  }

  /** The loop meets `k`, which can only happen before any swap: the value is replaced. */
  lemma LoopUpdate(hash: Hash, t: Table, k: Int64, v: nat, idx: nat, p: nat, e: Entry, swapped: bool, free: nat, m: map<Int64, nat>)
    requires InsertLoop(hash, t, k, v, idx, p, e, swapped, free, m) && Occ(t.slots[idx]) && t.slots[idx].key == k
    ensures !swapped
    ensures Inserted(hash, Table(t.slots[idx := t.slots[idx].(value := v)], t.size, t.maxProbe), |t.slots|, m)
  {
    if swapped {
      assert false;
    }
    UpdateStep(hash, t, idx, v);
  }

  /** The loop swaps the carried entry in and carries the evicted one on from the next slot. */
  lemma LoopSwap(hash: Hash, t: Table, k: Int64, v: nat, idx: nat, p: nat, e: Entry, swapped: bool, free: nat, m: map<Int64, nat>, t': Table, slot: Entry)
    requires InsertLoop(hash, t, k, v, idx, p, e, swapped, free, m)
    requires slot == t.slots[idx] && Occ(slot) && slot.key != k && p > slot.probeDist
    requires t' == SwapIn(t, idx, p, e)
    ensures InsertLoop(hash, t', k, v, Next(idx, |t.slots|), slot.probeDist + 1, slot, true, free, m)
    ensures |t'.slots| == |t.slots|
    ensures Ahead(Next(idx, |t.slots|), free, |t.slots|) < Ahead(idx, free, |t.slots|)
  {
    if !swapped {
      StopsAbsent(hash, t.slots, k, idx, p);
    }
    SwapStep(hash, t, idx, p, e, free, t', slot);
    CarryBehind(t, t', k, idx, free);
  }

  /** The key still lies behind the probe once it has moved one slot on. */
  lemma CarryBehind(t: Table, t': Table, k: Int64, idx: nat, free: nat)
    requires |t.slots| > 0 && idx < |t.slots| && Free(t.slots, free) && |t'.slots| == |t.slots|
    requires forall j :: 0 <= j < |t.slots| && j != idx ==> t'.slots[j] == t.slots[j]
    requires forall j :: 0 <= j < |t.slots| && Occ(t.slots[j]) && t.slots[j].key == k ==>
         Ahead(j, free, |t.slots|) > Ahead(idx, free, |t.slots|)
    requires Ahead(Next(idx, |t.slots|), free, |t.slots|) < Ahead(idx, free, |t.slots|)
    ensures forall j :: 0 <= j < |t'.slots| && Occ(t'.slots[j]) && t'.slots[j].key == k ==>
         Ahead(j, free, |t'.slots|) > Ahead(Next(idx, |t.slots|), free, |t'.slots|)
  {
    var n := Next(idx, |t.slots|);
    forall j | 0 <= j < |t'.slots| && Occ(t'.slots[j]) && t'.slots[j].key == k
      ensures Ahead(j, free, |t'.slots|) > Ahead(n, free, |t'.slots|)
    {
      if j != idx {
        assert t'.slots[j] == t.slots[j];
      }
    }
  }

  /** The loop passes an entry at least as far from home as the carried one. */
  lemma LoopAdvance(hash: Hash, t: Table, k: Int64, v: nat, idx: nat, p: nat, e: Entry, swapped: bool, free: nat, m: map<Int64, nat>)
    requires InsertLoop(hash, t, k, v, idx, p, e, swapped, free, m)
    requires Occ(t.slots[idx]) && t.slots[idx].key != k && p <= t.slots[idx].probeDist
    ensures InsertLoop(hash, t, k, v, Next(idx, |t.slots|), p + 1, e, swapped, free, m)
    ensures Ahead(Next(idx, |t.slots|), free, |t.slots|) < Ahead(idx, free, |t.slots|)
  {
    AdvanceStep(hash, t, idx, p, Home(hash, e.key, |t.slots|), free);
    if !swapped {
      PassStep(hash, t.slots, k, idx, p);
    }
  }

  // ---------------------------------------------------------------------------
  // Removal
  // ---------------------------------------------------------------------------

  /** The slots with slot `curr` marked `HT_EMPTY`; its stale key, value and distance stay. */
  function Vacate(s: seq<Entry>, curr: nat): (r: seq<Entry>)
    requires curr < |s|
    ensures |r| == |s| && !Occ(r[curr])
    ensures forall j :: 0 <= j < |s| && j != curr ==> r[j] == s[j]
  {
    s[curr := s[curr].(state := Empty)]
  }

  /**
   * Across the hole at `curr` the order is loosened by one: the entry after
   * the hole may sit two steps further from home than the entry before it.
   */
  ghost predicate HoleGap(s: seq<Entry>, curr: nat)
    requires |s| > 2 && curr < |s|
  {
    var n := Next(curr, |s|);
    var b := Prev(curr, |s|);
    Occ(s[n]) && s[n].probeDist > 1 ==> Occ(s[b]) && s[n].probeDist <= s[b].probeDist + 2
  }

  /**
   * The state of the backward-shift loop of `hash_table_remove`. Slot `curr`
   * is the hole: with it vacated, the slots hold `m` and are well formed,
   * except that the entry after the hole may still wait to be moved back.
   */
  ghost predicate Shifting(hash: Hash, s: seq<Entry>, maxProbe: nat, curr: nat, free: nat, m: map<Int64, nat>)
  {
    && |s| > 2 && curr < |s| && Occ(s[curr]) && Free(s, free)
    && (var h := Vacate(s, curr);
        && NoDeleted(h) && Placed(hash, h) && DistinctKeys(h) && Bounded(h, maxProbe)
        && (forall i :: 0 <= i < |h| && i != Next(curr, |s|) ==> LinkedAt(h, i))
        && HoleGap(h, curr)
        && Content(h) == m)
  }

  lemma PosPrev(h: nat, p: nat, cap: nat)
    requires h < cap && 0 < p < cap && cap > 1
    ensures Pos(h, p - 1, cap) == Prev(Pos(h, p, cap), cap)
  {
    PosNext(h, p - 1, cap);
    PrevNext(Pos(h, p - 1, cap), cap);
  }

  /** Vacating the slot that holds `k` starts the shift with the map that lacks `k`. */
  lemma ShiftStart(hash: Hash, s: seq<Entry>, maxProbe: nat, idx: nat, k: Int64, free: nat)
    requires WellFormed(hash, s, maxProbe) && Free(s, free) && idx < |s| && Occ(s[idx]) && s[idx].key == k
    ensures Shifting(hash, s, maxProbe, idx, free, Content(s) - {k})
  {
    var h := Vacate(s, idx);
    ContentWrite(s, idx, h[idx]);
    VacateLinked(s, idx);
    VacateGap(s, idx);
  }

  /** Vacating a slot breaks the order at most at the slot after it. */
  lemma VacateLinked(s: seq<Entry>, idx: nat)
    requires |s| > 2 && Linked(s) && idx < |s|
    ensures forall i :: 0 <= i < |s| && i != Next(idx, |s|) ==> LinkedAt(Vacate(s, idx), i)
  {
    var h := Vacate(s, idx);
    var n := Next(idx, |s|);
    forall i | 0 <= i < |h| && i != n
      ensures LinkedAt(h, i)
    {
      assert LinkedAt(s, i);
      if i != idx {
        LinkedElsewhere(s, idx, h[idx], i);
      }
    }
  }

  /** Around a vacated entry the gap is at most two steps. */
  lemma VacateGap(s: seq<Entry>, idx: nat)
    requires |s| > 2 && Linked(s) && idx < |s| && Occ(s[idx])
    ensures HoleGap(Vacate(s, idx), idx)
  {
    PrevNext(idx, |s|);
    assert LinkedAt(s, idx);
    assert LinkedAt(s, Next(idx, |s|));
  }

  /** The shift stops before a free slot or an entry at home: vacating the hole leaves a well-formed table. */
  lemma ShiftStop(hash: Hash, s: seq<Entry>, maxProbe: nat, curr: nat, free: nat, m: map<Int64, nat>)
    requires Shifting(hash, s, maxProbe, curr, free, m)
    requires var n := Next(curr, |s|); !Occ(s[n]) || s[n].probeDist == 0
    ensures WellFormed(hash, Vacate(s, curr), maxProbe) && Content(Vacate(s, curr)) == m
  {
    var h := Vacate(s, curr);
    PrevNext(curr, |s|);
    assert h[Next(curr, |s|)] == s[Next(curr, |s|)];
    assert LinkedAt(h, Next(curr, |s|));
  }

  /** An entry moved one slot back, one step closer to home, keeps the map. */
  lemma MoveBackContent(h: seq<Entry>, curr: nat, n: nat, x: Entry)
    requires DistinctKeys(h) && curr < |h| && n < |h| && curr != n
    requires !Occ(h[curr]) && Occ(h[n]) && x == h[n].(probeDist := x.probeDist)
    ensures var h' := h[n := h[n].(state := Empty)][curr := x];
      DistinctKeys(h') && Content(h') == Content(h)
  {
    var h1 := h[n := h[n].(state := Empty)];
    ContentWrite(h, n, h1[n]);
    forall j | 0 <= j < |h1| && j != curr && Occ(h1[j])
      ensures h1[j].key != x.key
    {
      assert h1[j] == h[j];
    }
    ContentWrite(h1, curr, x);
    ContentAt(h, n);
    MapRemovePut(Content(h), x.key, x.value);
    assert Content(h)[x.key := x.value] == Content(h);
  }

  /** Moving the entry after the hole back into it moves the hole one slot on. */
  lemma ShiftStep(hash: Hash, s: seq<Entry>, maxProbe: nat, curr: nat, free: nat, m: map<Int64, nat>, s': seq<Entry>)
    requires Shifting(hash, s, maxProbe, curr, free, m)
    requires var n := Next(curr, |s|); Occ(s[n]) && s[n].probeDist > 0
    requires s' == s[curr := s[Next(curr, |s|)].(probeDist := s[Next(curr, |s|)].probeDist - 1)]
    ensures Shifting(hash, s', maxProbe, Next(curr, |s|), free, m) && |s'| == |s|
    ensures Ahead(Next(curr, |s|), free, |s|) < Ahead(curr, free, |s|)
  {
    var n := Next(curr, |s|);
    var x := s[n].(probeDist := s[n].probeDist - 1);
    var h := Vacate(s, curr);
    var h' := Vacate(s', n);
    assert h' == h[n := h[n].(state := Empty)][curr := x];
    MoveBackContent(h, curr, n, x);
    ShiftShape(hash, s, maxProbe, curr, free, s');
    AheadNext(curr, free, |s|);
  }

  /** The order half of a shift step. */
  lemma ShiftShape(hash: Hash, s: seq<Entry>, maxProbe: nat, curr: nat, free: nat, s': seq<Entry>)
    requires |s| > 2 && curr < |s| && Occ(s[curr]) && Free(s, free)
    requires var h := Vacate(s, curr);
      && NoDeleted(h) && Placed(hash, h) && Bounded(h, maxProbe)
      && (forall i :: 0 <= i < |h| && i != Next(curr, |s|) ==> LinkedAt(h, i))
      && HoleGap(h, curr)
    requires var n := Next(curr, |s|); Occ(s[n]) && s[n].probeDist > 0
    requires s' == s[curr := s[Next(curr, |s|)].(probeDist := s[Next(curr, |s|)].probeDist - 1)]
    ensures var n := Next(curr, |s|); var h' := Vacate(s', n);
      && Occ(s'[n]) && Free(s', free)
      && NoDeleted(h') && Placed(hash, h') && Bounded(h', maxProbe)
      && (forall i :: 0 <= i < |h'| && i != Next(n, |s|) ==> LinkedAt(h', i))
      && HoleGap(h', n)
  {
    var n := Next(curr, |s|);
    var h := Vacate(s, curr);
    var h' := Vacate(s', n);
    var x := s[n].(probeDist := s[n].probeDist - 1);
    PrevNext(curr, |s|);
    assert h' == h[n := h[n].(state := Empty)][curr := x];
    ShiftPlaced(hash, h, curr, maxProbe, x);
    ShiftLinked(h, curr, x);
  }

  /** The moved entry sits one step closer to its home, and no further than the bound. */
  lemma ShiftPlaced(hash: Hash, h: seq<Entry>, curr: nat, maxProbe: nat, x: Entry)
    requires |h| > 2 && curr < |h| && !Occ(h[curr])
    requires NoDeleted(h) && Placed(hash, h) && Bounded(h, maxProbe)
    requires var n := Next(curr, |h|); Occ(h[n]) && h[n].probeDist > 0 && x == h[n].(probeDist := h[n].probeDist - 1)
    ensures var n := Next(curr, |h|); var h' := h[n := h[n].(state := Empty)][curr := x];
      NoDeleted(h') && Placed(hash, h') && Bounded(h', maxProbe)
  {
    var n := Next(curr, |h|);
    PrevNext(curr, |h|);
    PosPrev(Home(hash, x.key, |h|), h[n].probeDist, |h|);
  }

  /** Moving the entry back keeps the order, with the looser gap now after the new hole. */
  lemma ShiftLinked(h: seq<Entry>, curr: nat, x: Entry)
    requires |h| > 2 && curr < |h| && !Occ(h[curr])
    requires forall i :: 0 <= i < |h| && i != Next(curr, |h|) ==> LinkedAt(h, i)
    requires HoleGap(h, curr)
    requires var n := Next(curr, |h|); Occ(h[n]) && h[n].probeDist > 0 && x == h[n].(probeDist := h[n].probeDist - 1)
    ensures var n := Next(curr, |h|); var h' := h[n := h[n].(state := Empty)][curr := x];
      && (forall i :: 0 <= i < |h'| && i != Next(n, |h|) ==> LinkedAt(h', i))
      && HoleGap(h', n)
  {
    var n := Next(curr, |h|);
    var nn := Next(n, |h|);
    var b := Prev(curr, |h|);
    var h' := h[n := h[n].(state := Empty)][curr := x];
    PrevNext(curr, |h|);
    PrevNext(n, |h|);
    assert nn != curr && b != n && b != curr;
    assert LinkedAt(h', curr) by {
      assert h'[b] == h[b];
    }
    forall i | 0 <= i < |h'| && i != nn
      ensures LinkedAt(h', i)
    {
      if i != curr && i != n {
        assert LinkedAt(h, i);
      }
    }
    assert HoleGap(h', n) by {
      assert LinkedAt(h, nn);
      assert h'[nn] == h[nn];
    }
  }

  /** A table of zeroed slots, as `calloc` leaves it: well formed and empty. */
  lemma ZeroedEmpty(hash: Hash, s: seq<Entry>)
    requires |s| > 2 && forall i :: 0 <= i < |s| ==> s[i] == ZERO_ENTRY
    ensures WellFormed(hash, s, 0) && KeySet(s) == {} && Content(s) == map[]
  {
  }

  // ---------------------------------------------------------------------------
  // Counting
  // ---------------------------------------------------------------------------

  /** The keys of the occupied slots below `n`. */
  ghost function KeysBelow(s: seq<Entry>, n: nat): set<Int64>
    requires n <= |s|
  {
    set i | 0 <= i < n && Occ(s[i]) :: s[i].key
  }

  lemma {:induction false} KeysBelowFull(s: seq<Entry>, n: nat)
    requires DistinctKeys(s) && n <= |s|
    requires forall i :: 0 <= i < |s| ==> Occ(s[i])
    ensures |KeysBelow(s, n)| == n
  {
    if n > 0 {
      KeysBelowFull(s, n - 1);
      assert KeysBelow(s, n) == KeysBelow(s, n - 1) + {s[n - 1].key};
      assert s[n - 1].key !in KeysBelow(s, n - 1);
    } else {
      assert KeysBelow(s, 0) == {};
    }
  }

  /** Fewer keys than slots leaves some slot free. */
  lemma FreeExists(s: seq<Entry>)
    requires DistinctKeys(s) && |KeySet(s)| < |s|
    ensures exists e :: Free(s, e)
  {
    if forall i :: 0 <= i < |s| ==> Occ(s[i]) {
      KeysBelowFull(s, |s|);
    } else {
      var i :| 0 <= i < |s| && !Occ(s[i]);
      assert Free(s, i);
    }
  }

  /** Some free slot of a table with fewer keys than slots. */
  ghost function FreeSlot(s: seq<Entry>): (e: nat)
    requires DistinctKeys(s) && |KeySet(s)| < |s|
    ensures Free(s, e)
  {
    FreeExists(s);
    var e :| Free(s, e); e
  }

  /** A probe that has passed `max_probe` without meeting `k` can stop: `k` is absent. */
  lemma PastBound(s: seq<Entry>, maxProbe: nat, k: Int64, p: nat)
    requires Bounded(s, maxProbe) && NotPassed(s, k, p) && p > maxProbe
    ensures k !in KeySet(s)
  {
  }

  /** Vacating the slot of `k` takes exactly one key away. */
  lemma RemovedCount(s: seq<Entry>, h: seq<Entry>, k: Int64)
    requires k in KeySet(s) && Content(h) == Content(s) - {k}
    ensures |KeySet(h)| == |KeySet(s)| - 1
  {
    assert KeySet(h) == KeySet(s) - {k};
  }

  /** The keys of the slots below `i + 1`: those below `i` and the key at `i`, which is new. */
  lemma PrefixKeys(s: seq<Entry>, i: nat)
    requires DistinctKeys(s) && i < |s|
    ensures DistinctKeys(s[..i]) && DistinctKeys(s[..i + 1])
    ensures KeySet(s[..i + 1]) == KeySet(s[..i]) + (if Occ(s[i]) then {s[i].key} else {})
    ensures KeySet(s[..i]) <= KeySet(s)
    ensures Occ(s[i]) ==> s[i].key !in KeySet(s[..i])
  {
    var a := s[..i];
    var b := s[..i + 1];
    forall k | k in KeySet(a)
      ensures k in KeySet(s) && k in KeySet(b) && (Occ(s[i]) ==> k != s[i].key)
    {
      var j :| 0 <= j < |a| && Occ(a[j]) && a[j].key == k;
      assert s[j] == a[j] && b[j] == a[j];
    }
    forall k | k in KeySet(b)
      ensures k in KeySet(a) + (if Occ(s[i]) then {s[i].key} else {})
    {
      var j :| 0 <= j < |b| && Occ(b[j]) && b[j].key == k;
      if j < i {
        assert a[j] == b[j];
      }
    }
    if Occ(s[i]) {
      assert b[i] == s[i];
    }
  }

  /** The pairs of the slots below `i + 1`: those below `i` and the pair at `i`. */
  lemma PrefixContent(s: seq<Entry>, i: nat)
    requires DistinctKeys(s) && i < |s|
    ensures Content(s[..i + 1]) == if Occ(s[i]) then Content(s[..i])[s[i].key := s[i].value] else Content(s[..i])
  {
    var a := s[..i];
    var b := s[..i + 1];
    PrefixKeys(s, i);
    var want := if Occ(s[i]) then Content(a)[s[i].key := s[i].value] else Content(a);
    forall k | k in KeySet(b)
      ensures Content(b)[k] == want[k]
    {
      var j :| 0 <= j < |b| && Occ(b[j]) && b[j].key == k;
      ContentAt(b, j);
      if j < i {
        assert a[j] == b[j];
        ContentAt(a, j);
      }
    }
  }

  // ---------------------------------------------------------------------------
  // Iteration
  // ---------------------------------------------------------------------------

  /** The pairs of the occupied slots from slot `i` on, in slot order. */
  ghost function Pairs(s: seq<Entry>, i: nat): seq<(Int64, nat)>
    decreases |s| - i
  {
    if i >= |s| then [] else (if Occ(s[i]) then [(s[i].key, s[i].value)] else []) + Pairs(s, i + 1)
  }

  /** No key appears twice. */
  ghost predicate UniqueKeys(ps: seq<(Int64, nat)>)
  {
    forall a, b :: 0 <= a < b < |ps| ==> ps[a].0 != ps[b].0
  }

  /** A pair is among those from slot `i` on exactly when an occupied slot at or after `i` holds it. */
  lemma {:induction false} PairsFrom(s: seq<Entry>, i: nat, k: Int64, v: nat)
    ensures (k, v) in Pairs(s, i) <==> exists j :: i <= j < |s| && Occ(s[j]) && s[j].key == k && s[j].value == v
    decreases |s| - i
  {
    if i < |s| {
      PairsFrom(s, i + 1, k, v);
      if Occ(s[i]) && s[i].key == k && s[i].value == v {
        assert (k, v) == Pairs(s, i)[0];
      }
    }
  }

  /** With distinct keys, the pairs from slot `i` on repeat no key. */
  lemma {:induction false} PairsUnique(s: seq<Entry>, i: nat)
    requires DistinctKeys(s)
    ensures UniqueKeys(Pairs(s, i))
    decreases |s| - i
  {
    if i < |s| {
      PairsUnique(s, i + 1);
      if Occ(s[i]) {
        var rest := Pairs(s, i + 1);
        forall b | 0 <= b < |rest|
          ensures rest[b].0 != s[i].key
        {
          PairsFrom(s, i + 1, rest[b].0, rest[b].1);
        }
        assert Pairs(s, i) == [(s[i].key, s[i].value)] + rest;
      }
    }
  }

  /**
   * A walk over every slot from the first yields each pair the table holds
   * exactly once and nothing else.
   */
  lemma IterationYieldsContent(s: seq<Entry>)
    requires DistinctKeys(s)
    ensures forall k: Int64, v: nat :: (k, v) in Pairs(s, 0) <==> k in Content(s) && Content(s)[k] == v
    ensures UniqueKeys(Pairs(s, 0))
  {
    PairsUnique(s, 0);
    forall k: Int64, v: nat
      ensures (k, v) in Pairs(s, 0) <==> k in Content(s) && Content(s)[k] == v
    {
      PairsFrom(s, 0, k, v);
      if (k, v) in Pairs(s, 0) {
        var j :| 0 <= j < |s| && Occ(s[j]) && s[j].key == k && s[j].value == v;
        ContentAt(s, j);
      }
    }
  }
}

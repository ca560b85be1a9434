/**
 * What the C and C++ redirect indexes have in common: a map from a key to
 * the shard it was placed in when that differs from its natural shard, and
 * counters of redirects recorded, lookups and hits.
 *
 * `gc` drops the entries the current router no longer needs: those whose
 * key the router would now send to the very shard it sits in.
 */
module Redirects {

  /** The entries the router `current` now routes to where they already are. */
  function Expired<K>(m: map<K, nat>, current: K -> nat): (e: set<K>)
    ensures e <= m.Keys
  {
    set k | k in m && current(k) == m[k]
  }

  /** The entries a garbage collection keeps: every other one, unchanged. */
  function Kept<K>(m: map<K, nat>, current: K -> nat): (r: map<K, nat>)
    ensures r.Keys == m.Keys - Expired(m, current)
    ensures forall k :: k in r ==> r[k] == m[k]
  {
    map k | k in m && current(k) != m[k] :: m[k]
  }

  /** A collection part-way through: the entries still to visit, and those visited that are not expired. */
  function Visiting<K>(m: map<K, nat>, current: K -> nat, pending: set<K>): map<K, nat>
  {
    map k | k in m && (k in pending || current(k) != m[k]) :: m[k]
  }

  /** Visiting one more key drops it exactly when it is expired. */
  lemma VisitStep<K>(m: map<K, nat>, current: K -> nat, pending: set<K>, key: K)
    requires key in pending && pending <= m.Keys
    ensures key in Visiting(m, current, pending)
    ensures Visiting(m, current, pending - {key})
         == if current(key) == m[key] then Visiting(m, current, pending) - {key} else Visiting(m, current, pending)
    ensures |Expired(m, current) - (pending - {key})|
         == |Expired(m, current) - pending| + (if current(key) == m[key] then 1 else 0)
  {
    var a := Visiting(m, current, pending - {key});
    var b := if current(key) == m[key] then Visiting(m, current, pending) - {key} else Visiting(m, current, pending);
    assert a.Keys == b.Keys;
    var done := Expired(m, current) - pending;
    if current(key) == m[key] {
      assert Expired(m, current) - (pending - {key}) == done + {key};
    } else {
      assert Expired(m, current) - (pending - {key}) == done;
    }
  }

  /** Before the first visit nothing is dropped; after the last, exactly the expired entries are. */
  lemma VisitEnds<K>(m: map<K, nat>, current: K -> nat)
    ensures Visiting(m, current, m.Keys) == m
    ensures Visiting(m, current, {}) == Kept(m, current)
  {
  }

  /** After a collection no kept entry is expired, and collecting again removes nothing. */
  lemma KeptIsFinal<K>(m: map<K, nat>, current: K -> nat)
    ensures Expired(Kept(m, current), current) == {}
    ensures Kept(Kept(m, current), current) == Kept(m, current)
  {
    var r := Kept(m, current);
    assert forall k :: k in r ==> current(k) != r[k];
  }

  /**
   * `hit_rate`: `hits * 100.0 / lookups`, or 0 with no lookups. Computed
   * exactly here; the C and C++ code round it to a `double`.
   */
  function HitRate(hits: nat, lookups: nat): (r: real)
    ensures hits <= lookups ==> 0.0 <= r <= 100.0
    ensures lookups > 0 && hits == lookups ==> r == 100.0
    ensures hits == 0 ==> r == 0.0
  {
    if lookups > 0 then hits as real * 100.0 / lookups as real else 0.0
  }

  /** `RedirectIndexStats` / `RedirectIndex::Stats`. */
  datatype Stats = Stats(totalRedirects: nat, lookups: nat, hits: nat, hitRate: real, indexSize: nat)

  /** Bytes charged per entry besides the key: a `size_t` shard and 16 bytes of table overhead. */
  const ENTRY_OVERHEAD: nat := 8 + 16

  /** `memory_bytes`: entries times key size plus the per-entry overhead. */
  function MemoryBytes(entries: nat, keySize: nat): (b: nat)
    ensures entries == 0 ==> b == 0
    ensures b >= entries * ENTRY_OVERHEAD
  {
    entries * (keySize + ENTRY_OVERHEAD)
  }
}

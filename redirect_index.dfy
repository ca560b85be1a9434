/**
 * `RedirectIndex` of `redirect_index.c`: a `HashTable` from key to shard
 * and three counters, behind a read-write lock (not modelled).
 */
module CRedirectIndex {
  import opened Wrappers
  import opened Hashing
  import opened RobinHood
  import opened CHashTable
  import opened Redirects

  class RedirectIndex {
    const redirects: HashTable
    var totalRedirects: nat
    var lookups: nat
    var hits: nat

    /** The key-to-shard map the table holds. */
    ghost function Contents(): map<Int64, nat>
      reads this, redirects, redirects.entries
    {
      redirects.Contents()
    }

    /** A valid table within its load limit, and no more hits than lookups. */
    ghost predicate Valid()
      reads this, redirects, redirects.entries
    {
      redirects.Valid() && redirects.Roomy() && hits <= lookups
    }

    /** `redirect_index_create`: a 64-slot table and zeroed counters. */
    constructor ()
      ensures Valid() && fresh(redirects) && fresh(redirects.entries)
      ensures Contents() == map[] && totalRedirects == 0 && lookups == 0 && hits == 0
    {
      redirects := new HashTable(64);
      totalRedirects := 0;
      lookups := 0;
      hits := 0;
    }

    /**
     * `redirect_index_record`: nothing happens when the key stayed in its
     * natural shard. Otherwise the key now maps to `actual`, replacing any
     * older entry, and one more redirect is counted.
     */
    method Record(key: Int64, natural: nat, actual: nat)
      requires Valid()
      modifies this, redirects, redirects.entries
      ensures Valid() && lookups == old(lookups) && hits == old(hits)
      ensures natural == actual ==> Contents() == old(Contents()) && totalRedirects == old(totalRedirects)
      ensures natural != actual ==> Contents() == old(Contents())[key := actual] && totalRedirects == old(totalRedirects) + 1
    {
      if natural == actual {
        return;
      }
      var ok := redirects.Insert(key, actual);
      totalRedirects := totalRedirects + 1;
    }

    /**
     * `redirect_index_lookup`: the shard recorded for `key`, if any. Every
     * call counts a lookup, and a call that finds an entry also a hit.
     */
    method Lookup(key: Int64) returns (r: Option<nat>)
      requires Valid()
      modifies this
      ensures Valid() && totalRedirects == old(totalRedirects)
      ensures r.Some? <==> key in Contents()
      ensures r.Some? ==> r.value == Contents()[key]
      ensures lookups == old(lookups) + 1 && hits == old(hits) + (if r.Some? then 1 else 0)
    {
      lookups := lookups + 1;
      r := redirects.Lookup(key);
      if r.Some? {
        hits := hits + 1;
      }
    }

    /** `redirect_index_remove`: the key's entry is gone; the counters stay. */
    method Remove(key: Int64)
      requires Valid()
      modifies redirects, redirects.entries
      ensures Valid() && Contents() == old(Contents()) - {key}
    {
      var removed := redirects.Remove(key);
    }

    /** `redirect_index_clear`: no entries and zeroed counters; the table keeps its capacity. */
    method Clear()
      requires Valid()
      modifies this, redirects, redirects.entries
      ensures Valid() && Contents() == map[] && totalRedirects == 0 && lookups == 0 && hits == 0
    {
      redirects.Clear();
      totalRedirects := 0;
      lookups := 0;
      hits := 0;
    }

    /** `redirect_index_get_stats`: the counters, the hit rate and the number of entries. */
    function GetStats(): (s: Stats)
      requires Valid()
      reads this, redirects, redirects.entries
      ensures s.indexSize == |Contents()| && s.hits == hits && s.lookups == lookups
      ensures s.totalRedirects == totalRedirects && s.hitRate == HitRate(hits, lookups)
      ensures 0.0 <= s.hitRate <= 100.0
    {
      Stats(totalRedirects, lookups, hits, HitRate(hits, lookups), redirects.Size())
    }

    /** `redirect_index_memory_bytes`: 8-byte keys, 8-byte shards and 16 bytes of overhead per entry. */
    function MemoryUse(): (b: nat)
      requires Valid()
      reads this, redirects, redirects.entries
      ensures b == |Contents()| * 32
    {
      MemoryBytes(redirects.Size(), 8)
    }

    /**
     * `redirect_index_gc`: collect the keys of the entries that
     * `get_current_shard` (here `current`) routes to the shard they name,
     * then remove them one by one. Exactly the expired entries go, and their
     * number is returned.
     */
    method Gc(current: Int64 -> nat) returns (removed: nat)
      requires Valid()
      modifies redirects, redirects.entries
      ensures Valid() && Contents() == Kept(old(Contents()), current)
      ensures removed == |Expired(old(Contents()), current)|
    {
      ghost var m := Contents();
      if redirects.Size() == 0 {
        assert Expired(m, current) == {};
        return 0;
      }
      ghost var s := redirects.entries[..];
      var keys := CollectExpired(redirects, current);
      ExpiredCollected(s, current, keys);
      removed := 0;
      while removed < |keys|
        invariant removed <= |keys| && redirects.Valid() && redirects.Roomy()
        invariant Contents() == Without(m, keys[..removed])
        invariant redirects.entries == old(redirects.entries)
        decreases |keys| - removed
      {
        var gone := redirects.Remove(keys[removed]);
        WithoutStep(m, keys, removed);
        removed := removed + 1;
      }
      assert keys[..removed] == keys;
    }
  }

  /** The pairs whose key `current` routes to the shard the pair names, keys only, in order. */
  function ExpiredKeys(ps: seq<(Int64, nat)>, current: Int64 -> nat): seq<Int64>
  {
    if ps == [] then []
    else (if current(ps[0].0) == ps[0].1 then [ps[0].0] else []) + ExpiredKeys(ps[1..], current)
  }

  /** `m` without the keys in `ks`. */
  ghost function Without(m: map<Int64, nat>, ks: seq<Int64>): map<Int64, nat>
  {
    map k | k in m && k !in ks :: m[k]
  }

  lemma WithoutStep(m: map<Int64, nat>, ks: seq<Int64>, i: nat)
    requires i < |ks|
    ensures Without(m, ks[..i + 1]) == Without(m, ks[..i]) - {ks[i]}
  {
    assert ks[..i + 1] == ks[..i] + [ks[i]];
  }

  /**
   * The first pass of `redirect_index_gc`: walk the table with its
   * iterator and keep, in a buffer, the key of every pair that `current`
   * routes to the shard it names. The table does not change.
   */
  method CollectExpired(t: HashTable, current: Int64 -> nat) returns (keys: seq<Int64>)
    requires t.capacity == t.entries.Length
    ensures keys == ExpiredKeys(Pairs(t.entries[..], 0), current)
  {
    keys := [];
    var it := new TableIterator(t);
    ghost var ps := Pairs(t.entries[..], 0);
    ghost var done: seq<(Int64, nat)> := [];
    while true
      invariant it.table == t && t.capacity == t.entries.Length
      invariant ps == done + it.Pending()
      invariant keys == ExpiredKeys(done, current)
      decreases |it.Pending()|
    {
      ghost var before := it.Pending();
      var r := it.Next();
      if r.None? {
        assert done + [] == done;
        break;
      }
      assert before == [r.value] + it.Pending();
      assert ps == (done + [r.value]) + it.Pending();
      ExpiredKeysAppend(done, r.value, current);
      done := done + [r.value];
      if current(r.value.0) == r.value.1 {
        keys := keys + [r.value.0];
      }
    }
  }

  lemma {:induction false} ExpiredKeysAppend(ps: seq<(Int64, nat)>, p: (Int64, nat), current: Int64 -> nat)
    ensures ExpiredKeys(ps + [p], current) == ExpiredKeys(ps, current) + (if current(p.0) == p.1 then [p.0] else [])
  {
    if ps != [] {
      assert (ps + [p])[1..] == ps[1..] + [p];
      ExpiredKeysAppend(ps[1..], p, current);
    } else {
      assert [p][1..] == [];
    }
  }

  /**
   * The keys the first pass collects from a table holding `m` are the
   * expired entries of `m`, each once; so removing them leaves what a
   * collection keeps, and their number is the number of expired entries.
   */
  lemma ExpiredCollected(s: seq<Entry>, current: Int64 -> nat, keys: seq<Int64>)
    requires DistinctKeys(s) && keys == ExpiredKeys(Pairs(s, 0), current)
    ensures Without(Content(s), keys) == Kept(Content(s), current)
    ensures |keys| == |Expired(Content(s), current)|
  {
    var m := Content(s);
    IterationYieldsContent(s);
    var ps := Pairs(s, 0);
    ExpiredKeysOf(ps, current);
    forall k ensures k in keys <==> k in Expired(m, current) {
      if k in Expired(m, current) {
        assert (k, m[k]) in ps;
      }
      if k in keys {
        var v :| (k, v) in ps && current(k) == v;
      }
    }
    assert (set k | k in keys) == Expired(m, current);
    DistinctCount(keys);
  }

  /** What `ExpiredKeys` keeps: the keys of the pairs that are expired, each as often as its pair. */
  lemma {:induction false} ExpiredKeysOf(ps: seq<(Int64, nat)>, current: Int64 -> nat)
    requires UniqueKeys(ps)
    ensures forall k :: k in ExpiredKeys(ps, current) <==> exists v :: (k, v) in ps && current(k) == v
    ensures forall i, j :: 0 <= i < j < |ExpiredKeys(ps, current)| ==> ExpiredKeys(ps, current)[i] != ExpiredKeys(ps, current)[j]
  {
    if ps != [] {
      ExpiredKeysOf(ps[1..], current);
      assert forall p :: p in ps[1..] ==> p.0 != ps[0].0;
    }
  }

  /** A sequence without repeats has as many elements as its set. */
  lemma {:induction false} DistinctCount(ks: seq<Int64>)
    requires forall i, j :: 0 <= i < j < |ks| ==> ks[i] != ks[j]
    ensures |set k | k in ks| == |ks|
  {
    if ks != [] {
      DistinctCount(ks[1..]);
      assert (set k | k in ks) == (set k | k in ks[1..]) + {ks[0]};
      assert ks[0] !in ks[1..];
    }
  }
}

/**
 * `RedirectIndex<Key>` of `redirect_index.hpp`: an `unordered_map` from key
 * to shard and three counters, behind a shared mutex (not modelled).
 */
module CppRedirectIndex {
  import opened Wrappers
  import opened Redirects

  class RedirectIndex<K(==)> {
    var redirects: map<K, nat>
    var totalRedirects: nat
    var lookups: nat
    var hits: nat

    /** Only a lookup counts a hit, and every lookup is counted. */
    ghost predicate Valid()
      reads this
    {
      hits <= lookups
    }

    /** An empty index with zeroed counters. */
    constructor ()
      ensures Valid() && redirects == map[] && totalRedirects == 0 && lookups == 0 && hits == 0
    {
      redirects := map[];
      totalRedirects := 0;
      lookups := 0;
      hits := 0;
    }

    /**
     * `record_redirect`: nothing happens when the key stayed in its natural
     * shard. Otherwise the key now maps to `actual`, replacing any older
     * entry, and one more redirect is counted.
     */
    method RecordRedirect(key: K, natural: nat, actual: nat)
      requires Valid()
      modifies this
      ensures Valid() && lookups == old(lookups) && hits == old(hits)
      ensures natural == actual ==> redirects == old(redirects) && totalRedirects == old(totalRedirects)
      ensures natural != actual ==> redirects == old(redirects)[key := actual] && totalRedirects == old(totalRedirects) + 1
    {
      if natural == actual {
        return;
      }
      redirects := redirects[key := actual];
      totalRedirects := totalRedirects + 1;
    }

    /**
     * `lookup`: the shard recorded for `key`, if any. Every call counts a
     * lookup, and a call that finds an entry also counts a hit.
     */
    method Lookup(key: K) returns (r: Option<nat>)
      requires Valid()
      modifies this
      ensures Valid() && redirects == old(redirects) && totalRedirects == old(totalRedirects)
      ensures r.Some? <==> key in redirects
      ensures r.Some? ==> r.value == redirects[key]
      ensures lookups == old(lookups) + 1 && hits == old(hits) + (if r.Some? then 1 else 0)
    {
      lookups := lookups + 1;
      if key in redirects {
        hits := hits + 1;
        return Some(redirects[key]);
      }
      return None;
    }

    /** `remove`: the key's entry is gone; the counters stay. */
    method Remove(key: K)
      modifies this
      ensures redirects == old(redirects) - {key}
      ensures totalRedirects == old(totalRedirects) && lookups == old(lookups) && hits == old(hits)
    {
      redirects := redirects - {key};
    }

    /**
     * `gc_expired`: visit every entry and erase it when `current` routes
     * its key to the shard it names. The visiting order of the
     * `unordered_map` is unspecified, and any order gives the same result:
     * exactly the expired entries go, and their number is returned. The
     * erasures are made on a copy of the map that replaces it at the end,
     * which no other thread can tell apart from erasing in place.
     */
    method GcExpired(current: K -> nat) returns (removed: nat)
      modifies this
      ensures redirects == Kept(old(redirects), current)
      ensures removed == |Expired(old(redirects), current)|
      ensures totalRedirects == old(totalRedirects) && lookups == old(lookups) && hits == old(hits)
    {
      ghost var m := redirects;
      var kept := redirects;
      var pending := kept.Keys;
      removed := 0;
      VisitEnds(m, current);
      while pending != {}
        invariant pending <= m.Keys && kept == Visiting(m, current, pending)
        invariant removed == |Expired(m, current) - pending|
        invariant unchanged(this)
        decreases |pending|
      {
        var key :| key in pending;
        VisitStep(m, current, pending, key);
        if current(key) == kept[key] {
          kept := kept - {key};
          removed := removed + 1;
        }
        pending := pending - {key};
      }
      assert Expired(m, current) - pending == Expired(m, current);
      redirects := kept;
    }

    /** `clear`: no entries and zeroed counters. */
    method Clear()
      modifies this
      ensures Valid() && redirects == map[] && totalRedirects == 0 && lookups == 0 && hits == 0
    {
      redirects := map[];
      totalRedirects := 0;
      lookups := 0;
      hits := 0;
    }

    /** `get_stats`: the counters, the hit rate and the number of entries. */
    function GetStats(): (s: Stats)
      reads this
      ensures s.indexSize == |redirects| && s.hits == hits && s.lookups == lookups
      ensures s.totalRedirects == totalRedirects && s.hitRate == HitRate(hits, lookups)
      ensures Valid() ==> 0.0 <= s.hitRate <= 100.0
    {
      Stats(totalRedirects, lookups, hits, HitRate(hits, lookups), |redirects|)
    }
  }

  /** A recorded redirect is found by the next lookup, and counts as a hit. */
  method RecordThenLookup<K(==)>(index: RedirectIndex<K>, key: K, natural: nat, actual: nat) returns (r: Option<nat>)
    requires index.Valid() && natural != actual
    modifies index
    ensures r == Some(actual) && index.hits == old(index.hits) + 1
  {
    index.RecordRedirect(key, natural, actual);
    r := index.Lookup(key);
  }
}

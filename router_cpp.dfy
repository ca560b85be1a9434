/**
 * `AdversaryResistantRouter` (`router.hpp`): the C++ router of `ParallelAVL`.
 * It routes like the C router, except that `hash1` is `std::hash<Key>` and
 * the ring is seeded with `hash2`. On top of that it keeps a per-key
 * redirect history: within a 100 ms cooldown every further redirect of a
 * key is counted, and past three in a row the redirect is refused and the
 * key goes to its natural shard.
 *
 * `std::hash<Key>` is implementation-defined, so the router carries it as
 * two functions: `keyHash` for the keys and `seedHash` for the seed
 * `shard * 16 + vnode` that `init_virtual_nodes` converts to a `Key`.
 * `steady_clock::now()` is the parameter `now`, a count of milliseconds;
 * the `mt19937` draw of the load-aware fallback is the parameter `draw`.
 */
module CppRouter {
  import opened Hashing
  import opened Routing

  const MAX_CONSECUTIVE_REDIRECTS: nat := 3
  const REDIRECT_COOLDOWN_MS: int := 100
  /** History entries older than this many whole seconds are dropped when the window resets. */
  const HISTORY_TTL_S: int := 60

  /** `hash2`: the 32-bit Murmur finalizer's shifts and constants on a `size_t`, as a number. */
  function Hash2(h: bv64): nat
  {
    WordValue(Mix32On64(h))
  }

  /** The hash a ring node gets from its seed: `hash2` of `std::hash` of the seed. */
  function VnodeHash(seedHash: nat -> bv64): nat -> nat
  {
    seed => Hash2(seedHash(seed))
  }

  // ---------------------------------------------------------------------------
  // The redirect history of one key
  // ---------------------------------------------------------------------------

  /** `RedirectHistory`: the consecutive redirects and the time of the last accepted one. */
  datatype History = History(consecutive: nat, last: int)

  /** What `operator[]` inserts for a key without history: no redirects, the clock's epoch. */
  const FRESH: History := History(0, 0)

  /** The key's history, or the entry `operator[]` would create. */
  function EntryOf<K>(history: map<K, History>, key: K): History
  {
    if key in history then history[key] else FRESH
  }

  /** The outcome of judging one redirect: the key's new history and whether the redirect is refused. */
  datatype Verdict = Verdict(history: History, blocked: bool)

  /**
   * `is_redirect_suspicious` on a real redirect. A refused redirect raises
   * the count past three and keeps the old time; an accepted one stamps
   * the current time and leaves the count at most three; a first redirect,
   * or one after the cooldown, starts a new run at one.
   */
  function Judge(h: History, now: int): (v: Verdict)
    ensures v.blocked ==> v.history == History(h.consecutive + 1, h.last) && v.history.consecutive > MAX_CONSECUTIVE_REDIRECTS
    ensures !v.blocked ==> v.history.last == now && 1 <= v.history.consecutive <= MAX_CONSECUTIVE_REDIRECTS
    ensures h.consecutive == 0 || now - h.last >= REDIRECT_COOLDOWN_MS ==> v == Verdict(History(1, now), false)
    ensures v.blocked <==> h.consecutive >= MAX_CONSECUTIVE_REDIRECTS && now - h.last < REDIRECT_COOLDOWN_MS
  {
    if h.consecutive > 0 && now - h.last < REDIRECT_COOLDOWN_MS then
      var count := h.consecutive + 1;
      if count > MAX_CONSECUTIVE_REDIRECTS then Verdict(History(count, h.last), true)
      else Verdict(History(count, now), false)
    else Verdict(History(1, now), false)
  }

  /**
   * A refused redirect does not restart the cooldown: every later redirect
   * of the key before 100 ms have passed since the last accepted one is
   * refused as well.
   */
  lemma StaysBlocked(h: History, now: int, later: int)
    requires Judge(h, now).blocked && later - h.last < REDIRECT_COOLDOWN_MS
    ensures Judge(Judge(h, now).history, later).blocked
    ensures Judge(Judge(h, now).history, later).history.last == h.last
  {
  }

  /**
   * At most three redirects of one key are accepted within any 100 ms: of
   * four redirects at non-decreasing times spanning less than 100 ms, at
   * least one is refused, whatever the key's history was.
   */
  lemma FourInCooldown(h: History, t1: int, t2: int, t3: int, t4: int)
    requires t1 <= t2 <= t3 <= t4 < t1 + REDIRECT_COOLDOWN_MS
    ensures var v1 := Judge(h, t1);
            var v2 := Judge(v1.history, t2);
            var v3 := Judge(v2.history, t3);
            v1.blocked || v2.blocked || v3.blocked || Judge(v3.history, t4).blocked
  {
    var v1 := Judge(h, t1);
    var v2 := Judge(v1.history, t2);
    var v3 := Judge(v2.history, t3);
    if !v1.blocked && !v2.blocked && !v3.blocked {
      assert v2.history.consecutive >= 2;
      assert v3.history.consecutive >= 3 && v3.history.last == t3;
    }
  }

  /** A history entry `record_insertion` drops: more than 60 whole seconds since its last redirect. */
  predicate Stale(h: History, now: int)
  {
    (now - h.last) / 1000 > HISTORY_TTL_S
  }

  /** The history without its stale entries. */
  function Pruned<K(!new)>(history: map<K, History>, now: int): (r: map<K, History>)
    ensures forall k :: k in r <==> k in history && !Stale(history[k], now)
  {
    map k | k in history && !Stale(history[k], now) :: history[k]
  }

  // ---------------------------------------------------------------------------
  // The router
  // ---------------------------------------------------------------------------

  class AdversaryResistantRouter<K(==,!new)> {
    const numShards: nat
    const strategy: Strategy
    const keyHash: K -> bv64
    const seedHash: nat -> bv64
    const loads: array<nat>
    const recent: array<nat>
    const virtualNodes: seq<VirtualNode>
    var history: map<K, History>
    var suspiciousPatterns: nat
    var blockedRedirects: nat

    /**
     * One load and one recent count per shard, the sorted ring for the
     * ring strategies, every remembered key with at least one redirect,
     * the two attack counters in step, and the recent window below its
     * reset threshold.
     */
    ghost predicate Valid()
      reads this, recent
    {
      && loads.Length == numShards && recent.Length == numShards && loads != recent
      && (strategy.UsesRing() ==>
            && |virtualNodes| == numShards * VNODES_PER_SHARD && Sorted(virtualNodes)
            && multiset(virtualNodes) == multiset(Seeded(numShards, VnodeHash(seedHash))))
      && (!strategy.UsesRing() ==> virtualNodes == [])
      && (forall k :: k in history ==> history[k].consecutive >= 1)
      && suspiciousPatterns == blockedRedirects
      && (numShards > 0 ==> Sum(recent[..]) < WINDOW_SIZE * numShards)
    }

    /** The constructor: zero loads, an empty history, and the ring for the ring strategies. */
    constructor (numShards: nat, strategy: Strategy, keyHash: K -> bv64, seedHash: nat -> bv64)
      ensures Valid() && fresh(loads) && fresh(recent)
      ensures this.numShards == numShards && this.strategy == strategy
      ensures this.keyHash == keyHash && this.seedHash == seedHash
      ensures loads[..] == seq(numShards, _ => 0) && recent[..] == seq(numShards, _ => 0)
      ensures history == map[] && suspiciousPatterns == 0 && blockedRedirects == 0
    {
      this.numShards := numShards;
      this.strategy := strategy;
      this.keyHash := keyHash;
      this.seedHash := seedHash;
      loads := new nat[numShards](_ => 0);
      recent := new nat[numShards](_ => 0);
      var nodes := [];
      if strategy.UsesRing() {
        nodes := InitVirtualNodes(numShards, VnodeHash(seedHash));
      }
      virtualNodes := nodes;
      history := map[];
      suspiciousPatterns := 0;
      blockedRedirects := 0;
      new;
      SumZeros(recent[..]);
    }

    /** `route_static_hash`: `hash1(key) % num_shards`. */
    function NaturalShard(key: K): (s: nat)
      requires numShards > 0
      reads this
      ensures s < numShards
    {
      WordValue(keyHash(key)) % numShards
    }

    /**
     * The shard the strategy proposes before the redirect check: the
     * natural shard, the load-aware rule, the ring, or, for the intelligent
     * strategy, the load-aware rule or the ring as `useLoadAware` says.
     */
    function Target(key: K, useLoadAware: bool, draw: nat): (s: nat)
      requires Valid() && numShards > 0
      reads this, loads, recent
    {
      var natural := NaturalShard(key);
      match strategy
      case StaticHash => natural
      case LoadAwareRouting => LoadAware(loads[..], natural, draw)
      case ConsistentHash => virtualNodes[RingPosition(virtualNodes, WordValue(keyHash(key)))].shardId
      case Intelligent =>
        if useLoadAware then LoadAware(loads[..], natural, draw)
        else virtualNodes[RingPosition(virtualNodes, WordValue(keyHash(key)))].shardId
    }

    /** Every node of the ring names a shard of the router. */
    lemma RingShardsInRange()
      requires Valid()
      ensures forall i :: 0 <= i < |virtualNodes| ==> virtualNodes[i].shardId < numShards
    {
      if strategy.UsesRing() {
        RingShards(numShards, VnodeHash(seedHash), virtualNodes);
      }
    }

    /** Every strategy proposes a shard of the router. */
    lemma TargetInRange(key: K, useLoadAware: bool, draw: nat)
      requires Valid() && numShards > 0
      ensures Target(key, useLoadAware, draw) < numShards
    {
      RingShardsInRange();
    }

    /** `route_consistent_hash`: the first node at or after `hash1(key)`, wrapping to the first. */
    method RouteConsistentHash(key: K) returns (shard: nat)
      requires Valid() && numShards > 0 && strategy.UsesRing()
      ensures shard == virtualNodes[RingPosition(virtualNodes, WordValue(keyHash(key)))].shardId
      ensures shard < numShards
    {
      RingShardsInRange();
      shard := RingShard(virtualNodes, WordValue(keyHash(key)));
    }

    /**
     * `is_redirect_suspicious`: no redirect and no change when the target is
     * the natural shard; otherwise the key's entry is judged and replaced,
     * and a refusal raises both attack counters.
     */
    method IsRedirectSuspicious(key: K, natural: nat, target: nat, now: int) returns (suspicious: bool)
      requires Valid()
      modifies this
      ensures Valid()
      ensures natural == target ==>
        !suspicious && history == old(history)
        && suspiciousPatterns == old(suspiciousPatterns) && blockedRedirects == old(blockedRedirects)
      ensures natural != target ==>
        var v := Judge(EntryOf(old(history), key), now);
        && suspicious == v.blocked && history == old(history)[key := v.history]
        && suspiciousPatterns == old(suspiciousPatterns) + (if v.blocked then 1 else 0)
        && blockedRedirects == old(blockedRedirects) + (if v.blocked then 1 else 0)
    {
      if natural == target {
        return false;
      }
      var h := if key in history then history[key] else FRESH;
      if h.consecutive > 0 {
        if now - h.last < REDIRECT_COOLDOWN_MS {
          h := h.(consecutive := h.consecutive + 1);
          if h.consecutive > MAX_CONSECUTIVE_REDIRECTS {
            history := history[key := h];
            suspiciousPatterns := suspiciousPatterns + 1;
            blockedRedirects := blockedRedirects + 1;
            return true;
          }
        } else {
          h := h.(consecutive := 1);
        }
      } else {
        h := h.(consecutive := 1);
      }
      h := h.(last := now);
      history := history[key := h];
      suspicious := false;
    }

    /** The `switch` of `route`: the target the strategy proposes, a shard of the router. */
    method Propose(key: K, useLoadAware: bool, draw: nat) returns (target: nat)
      requires Valid() && numShards > 0
      ensures target == Target(key, useLoadAware, draw) && target < numShards
    {
      TargetInRange(key, useLoadAware, draw);
      var natural := NaturalShard(key);
      match strategy {
        case StaticHash =>
          target := natural;
        case LoadAwareRouting =>
          target := RouteLoadAware(loads, natural, draw);
        case ConsistentHash =>
          target := RouteConsistentHash(key);
        case Intelligent =>
          if useLoadAware {
            target := RouteLoadAware(loads, natural, draw);
          } else {
            target := RouteConsistentHash(key);
          }
      }
    }

    /**
     * `route`: the strategy's target, unless it is a redirect the history
     * refuses, in which case the natural shard. Only a real redirect
     * touches the history. Every answer is a shard of the router.
     */
    method Route(key: K, useLoadAware: bool, draw: nat, now: int) returns (shard: nat)
      requires Valid() && numShards > 0
      modifies this
      ensures Valid() && shard < numShards
      ensures var natural, target := NaturalShard(key), Target(key, useLoadAware, draw);
        if target == natural then
          shard == natural && history == old(history) && suspiciousPatterns == old(suspiciousPatterns)
        else
          var v := Judge(EntryOf(old(history), key), now);
          && shard == (if v.blocked then natural else target)
          && history == old(history)[key := v.history]
          && suspiciousPatterns == old(suspiciousPatterns) + (if v.blocked then 1 else 0)
    {
      var natural := NaturalShard(key);
      if strategy == StaticHash {
        return natural;
      }
      var target := Propose(key, useLoadAware, draw);
      shard := target;
      if target != natural {
        var suspicious := IsRedirectSuspicious(key, natural, target, now);
        if suspicious {
          shard := natural;
        }
      }
    }

    /**
     * The cleanup loop of `record_insertion`: erase every entry whose last
     * redirect is more than 60 seconds old, keep the others.
     */
    method PruneHistory(now: int)
      requires Valid()
      modifies this
      ensures Valid() && history == Pruned(old(history), now)
      ensures suspiciousPatterns == old(suspiciousPatterns) && blockedRedirects == old(blockedRedirects)
    {
      var kept := history;
      var pending := history.Keys;
      while pending != {}
        invariant pending <= history.Keys
        invariant forall k :: k in kept <==> k in history && (k in pending || !Stale(history[k], now))
        invariant forall k :: k in kept ==> kept[k] == history[k]
        decreases |pending|
      {
        var k :| k in pending;
        if Stale(history[k], now) {
          kept := kept - {k};
        }
        pending := pending - {k};
      }
      assert kept.Keys == Pruned(history, now).Keys;
      history := kept;
    }

    /**
     * `record_insertion` on a shard of the router (the source does not
     * check the index): one more load, one more recent insert, and once the
     * window holds 50 inserts per shard, the window zeroed and the stale
     * history dropped.
     */
    method RecordInsertion(idx: nat, now: int)
      requires Valid() && idx < numShards
      modifies this, loads, recent
      ensures Valid()
      ensures loads[..] == old(loads[..])[idx := old(loads[idx]) + 1]
      ensures Sum(loads[..]) == old(Sum(loads[..])) + 1
      ensures var full := Sum(old(recent[..])) + 1 >= WINDOW_SIZE * numShards;
        && (full ==> recent[..] == seq(numShards, _ => 0) && history == Pruned(old(history), now))
        && (!full ==> recent[..] == old(recent[..])[idx := old(recent[idx]) + 1] && history == old(history))
      ensures suspiciousPatterns == old(suspiciousPatterns) && blockedRedirects == old(blockedRedirects)
    {
      SumUpdate(loads[..], idx, loads[idx] + 1);
      loads[idx] := loads[idx] + 1;
      var reset := BumpWindow(recent, idx);
      if reset {
        assert recent[..] == seq(numShards, _ => 0);
        PruneHistory(now);
      }
    }

    /** `record_removal` on a shard of the router: one load less, never below zero. */
    method RecordRemoval(idx: nat)
      requires Valid() && idx < numShards
      modifies loads
      ensures Valid()
      ensures loads[..] == if old(loads[idx]) > 0 then old(loads[..])[idx := old(loads[idx]) - 1] else old(loads[..])
      ensures Sum(loads[..]) == old(Sum(loads[..])) - (if old(loads[idx]) > 0 then 1 else 0)
    {
      if loads[idx] > 0 {
        SumUpdate(loads[..], idx, loads[idx] - 1);
        loads[idx] := loads[idx] - 1;
      }
    }

    /**
     * `get_stats`: the total, the minimum (from `SIZE_MAX`) and the maximum
     * of the loads, a hotspot when the maximum exceeds 1.5 times the
     * average, and the two attack counters, which are equal.
     */
    method GetStats() returns (stats: RouterStats)
      requires Valid()
      ensures stats.totalLoad == Sum(loads[..])
      ensures stats.minLoad == MinFrom(SIZE_MAX, loads[..]) && stats.maxLoad == MaxFrom(0, loads[..])
      ensures stats.hasHotspot == Overloaded(stats.maxLoad, stats.totalLoad, numShards)
      ensures stats.suspiciousPatterns == suspiciousPatterns == stats.blockedRedirects
    {
      var total, min, max := ScanLoads(loads);
      stats := RouterStats(total, min, max, Overloaded(max, total, numShards), suspiciousPatterns, blockedRedirects);
    }
  }
}

/**
 * `AdaptiveRouter` (`AdaptiveRouter.h`): the earlier C++ router. It has the
 * same four strategies (the ring strategy is called `VIRTUAL_NODES`) and
 * the same load vector and recent-insert window as `router.hpp`, but no
 * redirect history. Its load-aware rule also reacts to an emerging
 * hotspot: a primary shard taking more than 1.5 times the average of the
 * recent window, when that average exceeds 5, sends the key to `hash2`.
 *
 * `std::hash<Key>` is carried as `keyHash` and `seedHash` as in
 * `CppRouter`; the `mt19937` draw is the parameter `draw`; the intelligent
 * strategy's floating-point balance test is the free choice `useLoadAware`.
 */
module AdaptiveRouting {
  import opened Hashing
  import opened Routing
  import opened CppRouter

  /** `recent_load > 1.5 * recent_avg && recent_avg > 5`, with `recent_avg = sum / n`, cross-multiplied. */
  predicate EmergingHotspot(recentLoad: nat, recentSum: nat, n: nat)
  {
    Overloaded(recentLoad, recentSum, n) && recentSum > 5 * n
  }

  /**
   * `routeLoadAware`: an overloaded primary is handled as in the other
   * routers; otherwise an emerging hotspot on the primary sends the key to
   * its secondary hash modulo the shard count; otherwise the primary.
   */
  function AdaptiveLoadAware(loads: seq<nat>, recent: seq<nat>, primary: nat, random: nat, secondary: nat): (shard: nat)
    requires primary < |loads| == |recent|
    ensures shard < |loads|
  {
    if Overloaded(loads[primary], Sum(loads), |loads|) then LoadAware(loads, primary, random)
    else if EmergingHotspot(recent[primary], Sum(recent), |recent|) then secondary % |loads|
    else primary
  }

  /**
   * With at most 5 recent inserts per shard on average, in particular right
   * after the window is zeroed, the rule is the load-aware rule of the
   * other two routers.
   */
  lemma QuietWindowIsLoadAware(loads: seq<nat>, recent: seq<nat>, primary: nat, random: nat, secondary: nat)
    requires primary < |loads| == |recent| && Sum(recent) <= 5 * |recent|
    ensures AdaptiveLoadAware(loads, recent, primary, random, secondary) == LoadAware(loads, primary, random)
  {
  }

  /**
   * The rule leaves the primary only for the least-loaded shard below the
   * average, the random draw, or the secondary hash, and it moves a key for
   * an emerging hotspot only while the primary itself is not overloaded.
   */
  lemma AdaptiveLoadAwareCases(loads: seq<nat>, recent: seq<nat>, primary: nat, random: nat, secondary: nat)
    requires primary < |loads| == |recent|
    ensures var s := AdaptiveLoadAware(loads, recent, primary, random, secondary);
      s == primary || s == ArgMin(loads) || s == random % |loads| || s == secondary % |loads|
    ensures var s := AdaptiveLoadAware(loads, recent, primary, random, secondary);
      s != primary && !Overloaded(loads[primary], Sum(loads), |loads|) ==>
        EmergingHotspot(recent[primary], Sum(recent), |recent|) && s == secondary % |loads|
  {
  }

  class AdaptiveRouter<K> {
    const numShards: nat
    const strategy: Strategy
    const keyHash: K -> bv64
    const seedHash: nat -> bv64
    const loads: array<nat>
    const recent: array<nat>
    const virtualNodes: seq<VirtualNode>

    /** One load and one recent count per shard, the sorted ring for the ring strategies, the window below its threshold. */
    ghost predicate Valid()
      reads this, recent
    {
      && loads.Length == numShards && recent.Length == numShards && loads != recent
      && (strategy.UsesRing() ==>
            && |virtualNodes| == numShards * VNODES_PER_SHARD && Sorted(virtualNodes)
            && multiset(virtualNodes) == multiset(Seeded(numShards, VnodeHash(seedHash))))
      && (!strategy.UsesRing() ==> virtualNodes == [])
      && (numShards > 0 ==> Sum(recent[..]) < WINDOW_SIZE * numShards)
    }

    /** The constructor: zero loads and recent counts, and the ring for the ring strategies. */
    constructor (numShards: nat, strategy: Strategy, keyHash: K -> bv64, seedHash: nat -> bv64)
      ensures Valid() && fresh(loads) && fresh(recent)
      ensures this.numShards == numShards && this.strategy == strategy
      ensures this.keyHash == keyHash && this.seedHash == seedHash
      ensures loads[..] == seq(numShards, _ => 0) && recent[..] == seq(numShards, _ => 0)
    {
      this.numShards := numShards;
      this.strategy := strategy;
      this.keyHash := keyHash;
      this.seedHash := seedHash;
      loads := new nat[numShards](_ => 0);
      recent := new nat[numShards](_ => 0);
      var nodes := [];
      if strategy.UsesRing() {
        nodes := InitVirtualNodes(numShards, VnodeHash(seedHash));
      }
      virtualNodes := nodes;
      new;
      SumZeros(recent[..]);
    }

    /** `routeStaticHash`: `hash1(key) % num_shards`. */
    function StaticShard(key: K): (s: nat)
      requires numShards > 0
      reads this
      ensures s < numShards
    {
      WordValue(keyHash(key)) % numShards
    }

    /** Every node of the ring names a shard of the router. */
    lemma RingShardsInRange()
      requires Valid()
      ensures forall i :: 0 <= i < |virtualNodes| ==> virtualNodes[i].shardId < numShards
    {
      if strategy.UsesRing() {
        RingShards(numShards, VnodeHash(seedHash), virtualNodes);
      }
    }

    /** `routeVirtualNodes`: the first node at or after `hash1(key)`, wrapping to the first. */
    method RouteVirtualNodes(key: K) returns (shard: nat)
      requires Valid() && numShards > 0 && strategy.UsesRing()
      ensures shard == virtualNodes[RingPosition(virtualNodes, WordValue(keyHash(key)))].shardId
      ensures shard < numShards
    {
      RingShardsInRange();
      shard := RingShard(virtualNodes, WordValue(keyHash(key)));
    }

    /** `routeLoadAware`: the load scans, then the recent-window scan. */
    method RouteLoadAware(key: K, draw: nat) returns (shard: nat)
      requires Valid() && numShards > 0
      ensures shard == AdaptiveLoadAware(loads[..], recent[..], StaticShard(key), draw, Hash2(keyHash(key)))
    {
      var primary := StaticShard(key);
      var primaryLoad := loads[primary];
      var total := TotalLoad(loads);
      if Overloaded(primaryLoad, total, numShards) {
        var best, min := LeastLoaded(loads);
        if BelowAverage(min, total, numShards) {
          return best;
        }
        return draw % numShards;
      }
      var recentLoad := recent[primary];
      var recentSum := TotalLoad(recent);
      if EmergingHotspot(recentLoad, recentSum, numShards) {
        return Hash2(keyHash(key)) % numShards;
      }
      shard := primary;
    }

    /**
     * `route`: by strategy; the intelligent strategy takes the load-aware
     * rule or the ring. Every answer is a shard of the router.
     */
    method Route(key: K, useLoadAware: bool, draw: nat) returns (shard: nat)
      requires Valid() && numShards > 0
      ensures shard < numShards
      ensures strategy == StaticHash ==> shard == StaticShard(key)
      ensures strategy == LoadAwareRouting ==>
        shard == AdaptiveLoadAware(loads[..], recent[..], StaticShard(key), draw, Hash2(keyHash(key)))
      ensures strategy == ConsistentHash ==>
        shard == virtualNodes[RingPosition(virtualNodes, WordValue(keyHash(key)))].shardId
      ensures strategy == Intelligent ==>
        shard == if useLoadAware then AdaptiveLoadAware(loads[..], recent[..], StaticShard(key), draw, Hash2(keyHash(key)))
                 else virtualNodes[RingPosition(virtualNodes, WordValue(keyHash(key)))].shardId
    {
      match strategy {
        case StaticHash =>
          shard := StaticShard(key);
        case LoadAwareRouting =>
          shard := RouteLoadAware(key, draw);
        case ConsistentHash =>
          shard := RouteVirtualNodes(key);
        case Intelligent =>
          if useLoadAware {
            shard := RouteLoadAware(key, draw);
          } else {
            shard := RouteVirtualNodes(key);
          }
      }
    }

    /**
     * `recordInsertion` on a shard of the router (the source does not check
     * the index): one more load, one more recent insert, and the window
     * zeroed once it holds 50 inserts per shard.
     */
    method RecordInsertion(idx: nat)
      requires Valid() && idx < numShards
      modifies loads, recent
      ensures Valid()
      ensures loads[..] == old(loads[..])[idx := old(loads[idx]) + 1]
      ensures Sum(loads[..]) == old(Sum(loads[..])) + 1
      ensures if Sum(old(recent[..])) + 1 >= WINDOW_SIZE * numShards then recent[..] == seq(numShards, _ => 0)
              else recent[..] == old(recent[..])[idx := old(recent[idx]) + 1]
    {
      SumUpdate(loads[..], idx, loads[idx] + 1);
      loads[idx] := loads[idx] + 1;
      var reset := BumpWindow(recent, idx);
      if reset {
        assert recent[..] == seq(numShards, _ => 0);
      }
    }

    /** `recordRemoval` on a shard of the router: one load less, never below zero. */
    method RecordRemoval(idx: nat)
      requires Valid() && idx < numShards
      modifies loads
      ensures Valid()
      ensures loads[..] == if old(loads[idx]) > 0 then old(loads[..])[idx := old(loads[idx]) - 1] else old(loads[..])
      ensures Sum(loads[..]) == old(Sum(loads[..])) - (if old(loads[idx]) > 0 then 1 else 0)
    {
      if loads[idx] > 0 {
        SumUpdate(loads[..], idx, loads[idx] - 1);
        loads[idx] := loads[idx] - 1;
      }
    }

    /**
     * `getStats`: the total, the minimum (from `SIZE_MAX`) and the maximum of
     * the loads, and a hotspot when the maximum exceeds 1.5 times the
     * average. This router has no attack counters; they are reported as 0.
     */
    method GetStats() returns (stats: RouterStats)
      requires Valid()
      ensures stats.totalLoad == Sum(loads[..])
      ensures stats.minLoad == MinFrom(SIZE_MAX, loads[..]) && stats.maxLoad == MaxFrom(0, loads[..])
      ensures stats.hasHotspot == Overloaded(stats.maxLoad, stats.totalLoad, numShards)
      ensures stats.suspiciousPatterns == 0 && stats.blockedRedirects == 0
    {
      var total, min, max := ScanLoads(loads);
      stats := RouterStats(total, min, max, Overloaded(max, total, numShards), 0, 0);
    }
  }
}

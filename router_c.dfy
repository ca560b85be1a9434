/**
 * The C router (`router.h`, `router.c`): the natural shard of a key is its
 * `router_hash` reduced to the shard count, by a mask when the count is a
 * power of two; the strategies keep it, redirect away from an overloaded
 * shard, or follow a ring of virtual nodes.
 *
 * The intelligent strategy consults a floating-point balance score cached
 * every few operations; here it is a free choice (`useLoadAware`) between
 * the natural shard and the load-aware rule. The xorshift64 draw of the
 * load-aware fallback is the parameter `draw`.
 *
 * The router keeps the two hashes it uses as constant fields: `hash`, the
 * key hash (`router_hash`, `KeyHashValue`), which its creator passes in,
 * and `ringHash`, the hash that seeds the ring (`SeedHash`). Proofs about
 * routing then name the hash instead of unfolding fmix64.
 */
module CRouter {
  import opened Hashing
  import opened Routing

  // ---------------------------------------------------------------------------
  // router.h: the natural shard
  // ---------------------------------------------------------------------------

  /** `a & b` on unsigned words, bit by bit from the lowest. */
  function BitAnd(a: nat, b: nat): nat
  {
    if a == 0 || b == 0 then 0 else 2 * BitAnd(a / 2, b / 2) + (a % 2) * (b % 2)
  }

  /** 1, 2, 4, 8, ... */
  predicate PowerOfTwo(n: nat)
  {
    n == 1 || (n >= 2 && n % 2 == 0 && PowerOfTwo(n / 2))
  }

  lemma {:induction false} BitAndSelf(a: nat)
    ensures BitAnd(a, a) == a
  {
    if a != 0 {
      BitAndSelf(a / 2);
    }
  }

  /** `n & (n - 1)` clears the lowest set bit, so it is 0 exactly for the powers of two. */
  lemma {:induction false} PowerOfTwoTest(n: nat)
    requires n > 0
    ensures BitAnd(n, n - 1) == 0 <==> PowerOfTwo(n)
  {
    if n >= 2 {
      if n % 2 == 0 {
        assert (n - 1) / 2 == n / 2 - 1 && (n - 1) % 2 == 1;
        PowerOfTwoTest(n / 2);
      } else {
        assert (n - 1) / 2 == n / 2 && (n - 1) % 2 == 0;
        BitAndSelf(n / 2);
      }
    }
  }

  /** Masking with n - 1 keeps the remainder modulo a power of two n. */
  lemma {:induction false} MaskIsMod(h: nat, n: nat)
    requires PowerOfTwo(n)
    ensures BitAnd(h, n - 1) == h % n
  {
    if n >= 2 && h != 0 {
      var m := n / 2;
      assert (n - 1) / 2 == m - 1 && (n - 1) % 2 == 1;
      MaskIsMod(h / 2, m);
      DoubleMod(h / 2, h % 2, m);
    }
  }

  lemma DoubleMod(q: nat, r: nat, m: nat)
    requires r < 2 && m > 0
    ensures (2 * q + r) % (2 * m) == 2 * (q % m) + r
  {
    var a, b := q / m, q % m;
    assert q == a * m + b;
    assert 2 * q + r == a * (2 * m) + (2 * b + r);
    ModUnique(2 * q + r, 2 * m, a, 2 * b + r);
  }

  /** The remainder is the only one below the divisor. */
  lemma ModUnique(x: nat, d: nat, a: nat, rem: nat)
    requires d > 0 && rem < d && x == a * d + rem
    ensures x % d == rem
  {
    var q, r := x / d, x % d;
    assert x == q * d + r;
    if q > a {
      MulMono(a + 1, q, d);
    } else if q < a {
      MulMono(q + 1, a, d);
    }
  }

  /** The `mask` `router_create` stores: n - 1 for a power of two, otherwise 0. */
  function RouterMask(n: nat): nat
  {
    if n != 0 && BitAnd(n, n - 1) == 0 then n - 1 else 0
  }

  /** `router_fast_shard`: `hash & mask` when there is a mask, `hash % num_shards` otherwise. */
  function FastShard(hash: nat, n: nat, mask: nat): nat
    requires mask != 0 || n > 0
  {
    if mask != 0 then BitAnd(hash, mask) else hash % n
  }

  /** With the mask of `router_create`, both ways reduce the hash modulo the shard count. */
  lemma FastShardIsMod(hash: nat, n: nat)
    requires n > 0
    ensures FastShard(hash, n, RouterMask(n)) == hash % n
    ensures RouterMask(n) != 0 <==> PowerOfTwo(n) && n > 1
  {
    PowerOfTwoTest(n);
    if RouterMask(n) != 0 {
      MaskIsMod(hash, n);
    }
  }

  /** The hash the ring gives the seed of a virtual node: `router_hash((int64_t)seed)`. */
  function SeedHash(seed: nat): nat
  {
    WordValue(Fmix64((seed % TWO_TO_64) as bv64))
  }

  // ---------------------------------------------------------------------------
  // router.c
  // ---------------------------------------------------------------------------

  class Router {
    const numShards: nat
    const mask: nat
    const strategy: Strategy
    const loads: array<nat>
    const virtualNodes: seq<VirtualNode>
    const hash: Int64 -> nat
    const ringHash: nat -> nat
    var suspiciousPatterns: nat
    var blockedRedirects: nat

    /**
     * One load per shard, the mask of `router_create`, the sorted ring for
     * the strategies that use one, and the two attack counters, which no
     * function of `router.c` ever increments.
     */
    ghost predicate Valid()
      reads this
    {
      && loads.Length == numShards && mask == RouterMask(numShards)
      && (strategy.UsesRing() ==>
            && |virtualNodes| == numShards * VNODES_PER_SHARD && Sorted(virtualNodes)
            && multiset(virtualNodes) == multiset(Seeded(numShards, ringHash)))
      && (!strategy.UsesRing() ==> virtualNodes == [])
      && suspiciousPatterns == 0 && blockedRedirects == 0
    }

    /**
     * `router_create`: zero loads, the mask, and the ring for the ring
     * strategies. Every creator passes `router_hash` (`KeyHashValue`) as
     * the key hash.
     */
    constructor (numShards: nat, strategy: Strategy, hash: Int64 -> nat)
      ensures Valid() && fresh(loads)
      ensures this.numShards == numShards && this.strategy == strategy
      ensures this.hash == hash && ringHash == SeedHash
      ensures forall i :: 0 <= i < loads.Length ==> loads[i] == 0
      ensures strategy.UsesRing() ==> |virtualNodes| == numShards * VNODES_PER_SHARD
    {
      this.numShards := numShards;
      this.strategy := strategy;
      mask := RouterMask(numShards);
      loads := new nat[numShards](_ => 0);
      var nodes := [];
      if strategy.UsesRing() {
        nodes := InitVirtualNodes(numShards, SeedHash);
      }
      virtualNodes := nodes;
      this.hash := hash;
      ringHash := SeedHash;
      suspiciousPatterns := 0;
      blockedRedirects := 0;
    }

    /** `router_natural_shard`: the key's `router_hash` modulo the shard count. */
    function NaturalShard(key: Int64): (s: nat)
      requires Valid() && numShards > 0
      reads this
      ensures s < numShards && s == hash(key) % numShards
    {
      FastShardIsMod(hash(key), numShards);
      FastShard(hash(key), numShards, mask)
    }

    /** Every node of the ring names a shard of the router. */
    lemma RingShardsInRange()
      requires Valid()
      ensures forall i :: 0 <= i < |virtualNodes| ==> virtualNodes[i].shardId < numShards
    {
      if strategy.UsesRing() {
        RingShards(numShards, ringHash, virtualNodes);
      }
    }

    /**
     * `route_consistent_hash`: the natural shard without a ring; otherwise
     * the binary search for the first node whose hash is at least the
     * key's, wrapping to the first node.
     */
    method RouteConsistentHash(key: Int64) returns (shard: nat)
      requires Valid() && numShards > 0
      ensures shard < numShards
      ensures |virtualNodes| == 0 ==> shard == NaturalShard(key)
      ensures |virtualNodes| > 0 ==> shard == virtualNodes[RingPosition(virtualNodes, hash(key))].shardId
    {
      if |virtualNodes| == 0 {
        return NaturalShard(key);
      }
      RingShardsInRange();
      shard := RingShard(virtualNodes, hash(key));
    }

    /**
     * `router_route`: the natural shard, the load-aware rule, or the ring,
     * by strategy; the intelligent strategy takes the load-aware rule or
     * the natural shard. Every answer is a shard of the router.
     */
    method Route(key: Int64, useLoadAware: bool, draw: nat) returns (shard: nat)
      requires Valid() && numShards > 0
      ensures shard < numShards
      ensures strategy == StaticHash ==> shard == NaturalShard(key)
      ensures strategy == LoadAwareRouting ==> shard == LoadAware(loads[..], NaturalShard(key), draw)
      ensures strategy == ConsistentHash ==> shard == virtualNodes[RingPosition(virtualNodes, hash(key))].shardId
      ensures strategy == Intelligent ==>
        shard == if useLoadAware then LoadAware(loads[..], NaturalShard(key), draw) else NaturalShard(key)
    {
      var natural := NaturalShard(key);
      match strategy
      case StaticHash =>
        shard := natural;
      case LoadAwareRouting =>
        shard := RouteLoadAware(loads, natural, draw);
      case ConsistentHash =>
        shard := RouteConsistentHash(key);
      case Intelligent =>
        if useLoadAware {
          shard := RouteLoadAware(loads, natural, draw);
        } else {
          shard := natural;
        }
    }

    /** `router_record_insertion`: one more load on a shard of the router; other indices are ignored. */
    method RecordInsertion(idx: nat)
      requires Valid()
      modifies loads
      ensures Valid()
      ensures loads[..] == if idx < numShards then old(loads[..][idx := loads[idx] + 1]) else old(loads[..])
      ensures Sum(loads[..]) == old(Sum(loads[..])) + (if idx < numShards then 1 else 0)
    {
      if idx >= numShards {
        return;
      }
      SumUpdate(loads[..], idx, loads[idx] + 1);
      loads[idx] := loads[idx] + 1;
    }

    /** `router_record_removal`: one load less, never below zero; other indices are ignored. */
    method RecordRemoval(idx: nat)
      requires Valid()
      modifies loads
      ensures Valid()
      ensures loads[..] == if idx < numShards && old(loads[idx]) > 0 then old(loads[..][idx := loads[idx] - 1]) else old(loads[..])
      ensures Sum(loads[..]) == old(Sum(loads[..])) - (if idx < numShards && old(loads[idx]) > 0 then 1 else 0)
    {
      if idx >= numShards {
        return;
      }
      if loads[idx] > 0 {
        SumUpdate(loads[..], idx, loads[idx] - 1);
        loads[idx] := loads[idx] - 1;
      }
    }

    /**
     * `router_get_stats`: the total, the minimum (from `SIZE_MAX`) and the
     * maximum of the loads; a hotspot when the maximum exceeds 1.5 times
     * the average; and the two attack counters, which are always 0.
     */
    method GetStats() returns (stats: RouterStats)
      requires Valid()
      ensures stats.totalLoad == Sum(loads[..])
      ensures stats.minLoad == MinFrom(SIZE_MAX, loads[..]) && stats.maxLoad == MaxFrom(0, loads[..])
      ensures stats.hasHotspot == Overloaded(stats.maxLoad, stats.totalLoad, numShards)
      ensures stats.suspiciousPatterns == 0 && stats.blockedRedirects == 0
    {
      var total, min, max := ScanLoads(loads);
      stats := RouterStats(total, min, max, Overloaded(max, total, numShards), suspiciousPatterns, blockedRedirects);
    }
  }
}

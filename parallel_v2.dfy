/**
 * `AVLTreeParallelV2` (`include/AVLTreeParallelV2.h`): a vector of AVL
 * shards routed by a `DynamicShardManager`, with `DistributedHooks` for a
 * multi-node deployment.
 *
 * The manager keeps a consistent-hash ring of 32 points per shard, sorted
 * by hash, and a redirect map from key to shard that `route` consults
 * before the ring. `add_shard` pushes the new shard's points and re-sorts.
 * The tree creates its manager in its constructor, so `getShardIndex`
 * always asks the manager; the strategy matters only for PREDICTIVE
 * `insert`, which may place a key on the shard the hotspot predictor names.
 *
 * Each shard keeps a `local_size` counter that moves only when its tree's
 * size does, so it stays equal to the tree's size, and read and write
 * counters. `std::hash` is a parameter; `hash_key` (fmix64 of it) is the
 * manager's `hashKey`. The hotspot predictor is not modelled: its verdict is
 * an argument of `Insert`.
 */
module ParallelV2 {
  import opened Wrappers
  import opened AvlCore
  import opened AvlSearch
  import opened Routing
  import opened ShardTrees
  import DynamicSharded
  import AvlParallel

  /** `VNODES_PER_SHARD` of `DynamicShardManager`. */
  const RING_POINTS: nat := 32

  // ---------------------------------------------------------------------------
  // The ring
  // ---------------------------------------------------------------------------

  /** The points `add_shard_to_ring` pushes for shard s: point v is the hash of the key s * 32 + v. */
  function ShardPoints(s: nat, hashKey: int -> nat): seq<VirtualNode>
  {
    seq(RING_POINTS, v requires 0 <= v < RING_POINTS => VirtualNode(s, hashKey(s * RING_POINTS + v)))
  }

  /** The points of shards 0 to n - 1, shard after shard. */
  function RingPoints(n: nat, hashKey: int -> nat): seq<VirtualNode>
  {
    if n == 0 then [] else RingPoints(n - 1, hashKey) + ShardPoints(n - 1, hashKey)
  }

  /** The points of n shards: 32 for each shard below n, none for any other. */
  lemma {:induction false} RingPointsOwned(n: nat, hashKey: int -> nat, shard: nat)
    ensures |RingPoints(n, hashKey)| == n * RING_POINTS
    ensures Owned(RingPoints(n, hashKey), shard) == if shard < n then RING_POINTS else 0
  {
    if n > 0 {
      RingPointsOwned(n - 1, hashKey, shard);
      OwnedAppend(RingPoints(n - 1, hashKey), ShardPoints(n - 1, hashKey), shard);
      BlockOwned(ShardPoints(n - 1, hashKey), n - 1, shard);
    }
  }

  /** Every point of n shards names a shard below n. */
  lemma {:induction false} RingPointsShards(n: nat, hashKey: int -> nat)
    ensures forall i :: 0 <= i < |RingPoints(n, hashKey)| ==> RingPoints(n, hashKey)[i].shardId < n
  {
    if n > 0 {
      RingPointsShards(n - 1, hashKey);
      var front: seq<VirtualNode>, block: seq<VirtualNode> := RingPoints(n - 1, hashKey), ShardPoints(n - 1, hashKey);
      forall i | 0 <= i < |front| + |block| ensures (front + block)[i].shardId < n {
        if i < |front| {
          assert (front + block)[i] == front[i];
        } else {
          assert (front + block)[i] == block[i - |front|];
        }
      }
    }
  }

  /** Taking the first element of `a` and a matching element of `b` from two permutations leaves two permutations. */
  lemma RemoveMatched(a: seq<VirtualNode>, b: seq<VirtualNode>, j: nat)
    requires multiset(a) == multiset(b) && a != [] && j < |b| && b[j] == a[0]
    ensures multiset(a[1..]) == multiset(b[..j] + b[j + 1..])
  {
    assert a == [a[0]] + a[1..];
    assert b == b[..j] + [b[j]] + b[j + 1..];
    calc {
      multiset(a[1..]);
      multiset(a) - multiset{a[0]};
      multiset(b) - multiset{b[j]};
      multiset(b[..j]) + multiset(b[j + 1..]);
      multiset(b[..j] + b[j + 1..]);
    }
  }

  /** Counting a shard's points depends only on which points there are, not on their order. */
  lemma {:induction false} OwnedPerm(a: seq<VirtualNode>, b: seq<VirtualNode>, shard: nat)
    requires multiset(a) == multiset(b)
    ensures Owned(a, shard) == Owned(b, shard)
    decreases |a|
  {
    if a == [] {
      assert |b| == |multiset(b)| == 0;
    } else {
      assert a[0] in multiset(b);
      var j :| 0 <= j < |b| && b[j] == a[0];
      var before, after := b[..j], b[j + 1..];
      RemoveMatched(a, b, j);
      OwnedPerm(a[1..], before + after, shard);
      OwnedAppend(before, after, shard);
      assert b == before + ([b[j]] + after);
      OwnedAppend(before, [b[j]] + after, shard);
      assert ([b[j]] + after)[1..] == after;
    }
  }

  /** The ring of n shards in any order: 32 · n points, 32 per shard below n, each naming a shard below n. */
  lemma RingFacts(ring: seq<VirtualNode>, n: nat, hashKey: int -> nat, shard: nat)
    requires multiset(ring) == multiset(RingPoints(n, hashKey))
    ensures |ring| == n * RING_POINTS
    ensures Owned(ring, shard) == if shard < n then RING_POINTS else 0
    ensures forall i :: 0 <= i < |ring| ==> ring[i].shardId < n
  {
    RingPointsOwned(n, hashKey, shard);
    OwnedPerm(ring, RingPoints(n, hashKey), shard);
    assert |ring| == |multiset(ring)| == |RingPoints(n, hashKey)|;
    RingPointsShards(n, hashKey);
    forall i | 0 <= i < |ring| ensures ring[i].shardId < n {
      assert ring[i] in multiset(RingPoints(n, hashKey));
    }
  }

  /** `route_via_ring` on the ring of n > 0 shards answers one of them. */
  lemma RingRouteBound(ring: seq<VirtualNode>, n: nat, hashKey: int -> nat, h: nat)
    requires n > 0 && multiset(ring) == multiset(RingPoints(n, hashKey))
    ensures DynamicSharded.FindShard(ring, h) < n
  {
    RingFacts(ring, n, hashKey, 0);
    DynamicSharded.FindShardIn(ring, n, h);
  }

  /** The ring of n shards: the points of shards 0 to n - 1, sorted by hash. */
  ghost predicate IsRing(ring: seq<VirtualNode>, n: nat, hashKey: int -> nat)
  {
    Sorted(ring) && multiset(ring) == multiset(RingPoints(n, hashKey))
  }

  /** `add_shard_to_ring`: the ring with the shard's 32 points pushed at its end. */
  method AddShardToRing(ring: seq<VirtualNode>, s: nat, hashKey: int -> nat) returns (r: seq<VirtualNode>)
    ensures r == ring + ShardPoints(s, hashKey)
  {
    r := ring;
    var v := 0;
    while v < RING_POINTS
      invariant v <= RING_POINTS && r == ring + ShardPoints(s, hashKey)[..v]
    {
      assert ShardPoints(s, hashKey)[..v + 1] == ShardPoints(s, hashKey)[..v] + [VirtualNode(s, hashKey(s * RING_POINTS + v))];
      r := r + [VirtualNode(s, hashKey(s * RING_POINTS + v))];
      v := v + 1;
    }
    assert ShardPoints(s, hashKey)[..RING_POINTS] == ShardPoints(s, hashKey);
  }

  /**
   * `rebuild_hash_ring`: the points of shards 0 to n - 1, sorted by hash.
   * `std::sort` leaves points with equal hashes in an unspecified order, so
   * the result is stated as a sorted permutation.
   */
  method RebuildHashRing(n: nat, hashKey: int -> nat) returns (ring: seq<VirtualNode>)
    ensures IsRing(ring, n, hashKey)
  {
    var points := [];
    var s := 0;
    while s < n
      invariant s <= n && points == RingPoints(s, hashKey)
    {
      points := AddShardToRing(points, s, hashKey);
      s := s + 1;
    }
    ring := SortByHash(points);
    SortByHashSpec(points);
  }

  // ---------------------------------------------------------------------------
  // DynamicShardManager
  // ---------------------------------------------------------------------------

  /** `MigrationCheck`. */
  datatype MigrationCheck = MigrationCheck(needsMigration: bool, currentShard: nat, targetShard: nat)

  class DynamicShardManager {
    /** `hash_key`: fmix64 of `std::hash`, as a number. */
    const hashKey: int -> nat
    /** `num_shards_`. */
    var numShards: nat
    /** `schema_version_`. */
    var schemaVersion: nat
    /** `redirect_index_`. */
    var redirects: map<int, nat>
    /** `hash_ring_`. */
    var ring: seq<VirtualNode>

    /** The ring holds the points of shards 0 to `numShards` - 1, sorted by hash. */
    ghost predicate Valid()
      reads this
    {
      IsRing(ring, numShards, hashKey)
    }

    /** The shard `route` answers for a key: its redirect, else its ring shard. */
    ghost function RouteOf(key: int): nat
      reads this
    {
      if key in redirects then redirects[key] else DynamicSharded.FindShard(ring, hashKey(key))
    }

    /** The constructor: `initial_shards` shards on a freshly built ring, no redirects, schema version 0. */
    constructor(initialShards: nat, stdHash: int -> bv64)
      ensures Valid() && numShards == initialShards && schemaVersion == 0 && redirects == map[]
      ensures forall k :: hashKey(k) == DynamicSharded.HashKey(stdHash, k)
    {
      var hk := (k: int) => DynamicSharded.HashKey(stdHash, k);
      hashKey := hk;
      numShards := initialShards;
      schemaVersion := 0;
      redirects := map[];
      var built := RebuildHashRing(initialShards, hk);
      ring := built;
    }

    /**
     * `route`: a redirected key goes to its redirect shard, any other key
     * to the shard of the first ring point at or after its hash (wrapping;
     * 0 on an empty ring), which is one of the manager's shards.
     */
    method Route(key: int) returns (s: nat)
      requires Valid()
      ensures s == RouteOf(key)
      ensures key in redirects ==> s == redirects[key]
      ensures key !in redirects && numShards > 0 ==> s < numShards
    {
      if key in redirects {
        return redirects[key];
      }
      s := DynamicSharded.LocateShard(ring, hashKey(key));
      if numShards > 0 {
        RingRouteBound(ring, numShards, hashKey, hashKey(key));
      }
    }

    /** `record_migration`: from now on the key routes to `shard`; other keys route as before. */
    method RecordMigration(key: int, shard: nat)
      modifies this
      ensures redirects == old(redirects)[key := shard]
      ensures numShards == old(numShards) && schemaVersion == old(schemaVersion) && ring == old(ring)
      ensures RouteOf(key) == shard
      ensures forall k :: k != key ==> RouteOf(k) == old(RouteOf(k))
    {
      redirects := redirects[key := shard];
    }

    /** `clear_redirect`: the key routes by the ring again; other keys route as before. */
    method ClearRedirect(key: int)
      modifies this
      ensures redirects == old(redirects) - {key}
      ensures numShards == old(numShards) && schemaVersion == old(schemaVersion) && ring == old(ring)
      ensures RouteOf(key) == DynamicSharded.FindShard(ring, hashKey(key))
      ensures forall k :: k != key ==> RouteOf(k) == old(RouteOf(k))
    {
      redirects := redirects - {key};
    }

    /**
     * `add_shard`: the shard count and the schema version go up by one, and
     * the new shard's 32 points join the ring, which is sorted again.
     */
    method AddShard()
      requires Valid()
      modifies this
      ensures Valid()
      ensures numShards == old(numShards) + 1 && schemaVersion == old(schemaVersion) + 1
      ensures redirects == old(redirects)
    {
      var grown := GrowRing(ring, numShards, hashKey);
      numShards, schemaVersion, ring := numShards + 1, schemaVersion + 1, grown;
    }

    /**
     * `check_migration`: the target is the key's ring shard, whatever its
     * redirect says, and a migration is needed exactly when that differs
     * from the current shard.
     */
    method CheckMigration(key: int, current: nat) returns (c: MigrationCheck)
      requires Valid()
      ensures c.currentShard == current
      ensures c.targetShard == DynamicSharded.FindShard(ring, hashKey(key))
      ensures c.needsMigration <==> c.targetShard != current
    {
      c := MigrationCheck(false, current, current);
      var ideal := DynamicSharded.LocateShard(ring, hashKey(key));
      if ideal != current {
        c := c.(needsMigration := true, targetShard := ideal);
      }
    }
  }

  /** The ring work of `add_shard`: shard n's points pushed with `add_shard_to_ring`, then `std::sort`. */
  method GrowRing(ring: seq<VirtualNode>, n: nat, hashKey: int -> nat) returns (r: seq<VirtualNode>)
    requires IsRing(ring, n, hashKey)
    ensures IsRing(r, n + 1, hashKey)
    ensures multiset(r) == multiset(ring) + multiset(ShardPoints(n, hashKey))
  {
    var grown := AddShardToRing(ring, n, hashKey);
    r := SortByHash(grown);
    GrownRing(ring, n, hashKey);
  }

  /** Sorting the ring of n shards with the points of shard n pushed gives the ring of n + 1 shards. */
  lemma GrownRing(before: seq<VirtualNode>, n: nat, hashKey: int -> nat)
    requires IsRing(before, n, hashKey)
    ensures IsRing(SortByHash(before + ShardPoints(n, hashKey)), n + 1, hashKey)
    ensures multiset(SortByHash(before + ShardPoints(n, hashKey))) == multiset(before) + multiset(ShardPoints(n, hashKey))
  {
    SortByHashSpec(before + ShardPoints(n, hashKey));
    assert RingPoints(n + 1, hashKey) == RingPoints(n, hashKey) + ShardPoints(n, hashKey);
  }

  // ---------------------------------------------------------------------------
  // DistributedHooks
  // ---------------------------------------------------------------------------

  /**
   * `(total_shards + total_nodes - 1) / total_nodes`: the fewest shards
   * per node that cover every shard.
   */
  function ShardsPerNode(totalShards: nat, totalNodes: nat): (per: nat)
    requires totalNodes > 0
    ensures per * totalNodes >= totalShards
    ensures per == 0 || (per - 1) * totalNodes < totalShards
  {
    var per := (totalShards + totalNodes - 1) / totalNodes;
    var rest := (totalShards + totalNodes - 1) % totalNodes;
    assert per * totalNodes + rest == totalShards + totalNodes - 1;
    assert per == 0 || (per - 1) * totalNodes == per * totalNodes - totalNodes;
    per
  }

  /** The shard lies in the block of `per` consecutive shards that starts at node · per. */
  predicate InBlock(node: nat, per: nat, shard: nat)
  {
    node * per <= shard < node * per + per
  }

  lemma MulMono(a: nat, b: nat, c: nat)
    requires a <= b
    ensures a * c <= b * c
  {
  }

  lemma MulLess(a: nat, b: nat, c: nat)
    requires a * c < b * c
    ensures a < b
  {
    if a >= b {
      MulMono(b, a, c);
    }
  }

  /** `shard / per` is the node whose block holds the shard, and it is below the node count for a shard below the total. */
  lemma NodeBlock(shard: nat, per: nat, totalShards: nat, totalNodes: nat)
    requires per > 0 && per * totalNodes >= totalShards
    ensures InBlock(shard / per, per, shard)
    ensures shard < totalShards ==> shard / per < totalNodes
  {
    var q := shard / per;
    assert q * per + shard % per == shard;
    if shard < totalShards {
      MulLess(q, totalNodes, per);
    }
  }

  /** The blocks do not overlap: only one node's block holds a given shard. */
  lemma BlocksApart(a: nat, b: nat, per: nat, shard: nat)
    requires InBlock(a, per, shard)
    ensures b == a <==> InBlock(b, per, shard)
  {
    if b < a {
      MulMono(b + 1, a, per);
    } else if b > a {
      MulMono(a + 1, b, per);
    }
  }

  class DistributedHooks<V> {
    var localNodeId: nat
    var totalNodes: nat
    var distributedMode: bool
    var remoteInsert: Option<(nat, int, V) -> bool>
    var remoteGet: Option<(nat, int) -> Option<V>>
    var remoteRemove: Option<(nat, int) -> bool>
    var nodeHealth: Option<nat -> bool>

    /** The default hooks: node 0 of 1, not distributed, no callbacks. */
    constructor()
      ensures localNodeId == 0 && totalNodes == 1 && !distributedMode
      ensures remoteInsert.None? && remoteGet.None? && remoteRemove.None? && nodeHealth.None?
    {
      localNodeId := 0;
      totalNodes := 1;
      distributedMode := false;
      remoteInsert := None;
      remoteGet := None;
      remoteRemove := None;
      nodeHealth := None;
    }

    /** `enable_distributed_mode`. */
    method EnableDistributedMode(nodeId: nat, total: nat)
      modifies this
      ensures localNodeId == nodeId && totalNodes == total && distributedMode
      ensures remoteInsert == old(remoteInsert) && remoteGet == old(remoteGet)
      ensures remoteRemove == old(remoteRemove) && nodeHealth == old(nodeHealth)
    {
      localNodeId := nodeId;
      totalNodes := total;
      distributedMode := true;
    }

    /** The four setters `set_remote_insert`, `set_remote_get`, `set_remote_remove`, `set_node_health_check`. */
    method SetRemoteInsert(fn: (nat, int, V) -> bool)
      modifies this
      ensures remoteInsert == Some(fn)
      ensures localNodeId == old(localNodeId) && totalNodes == old(totalNodes) && distributedMode == old(distributedMode)
      ensures remoteGet == old(remoteGet) && remoteRemove == old(remoteRemove) && nodeHealth == old(nodeHealth)
    {
      remoteInsert := Some(fn);
    }

    method SetRemoteGet(fn: (nat, int) -> Option<V>)
      modifies this
      ensures remoteGet == Some(fn)
      ensures localNodeId == old(localNodeId) && totalNodes == old(totalNodes) && distributedMode == old(distributedMode)
      ensures remoteInsert == old(remoteInsert) && remoteRemove == old(remoteRemove) && nodeHealth == old(nodeHealth)
    {
      remoteGet := Some(fn);
    }

    method SetRemoteRemove(fn: (nat, int) -> bool)
      modifies this
      ensures remoteRemove == Some(fn)
      ensures localNodeId == old(localNodeId) && totalNodes == old(totalNodes) && distributedMode == old(distributedMode)
      ensures remoteInsert == old(remoteInsert) && remoteGet == old(remoteGet) && nodeHealth == old(nodeHealth)
    {
      remoteRemove := Some(fn);
    }

    method SetNodeHealthCheck(fn: nat -> bool)
      modifies this
      ensures nodeHealth == Some(fn)
      ensures localNodeId == old(localNodeId) && totalNodes == old(totalNodes) && distributedMode == old(distributedMode)
      ensures remoteInsert == old(remoteInsert) && remoteGet == old(remoteGet) && remoteRemove == old(remoteRemove)
    {
      nodeHealth := Some(fn);
    }

    /**
     * `get_node_for_shard`: the local node when not distributed; otherwise
     * the shards are cut into blocks of `ShardsPerNode` consecutive shards,
     * one block per node, and every shard below `totalShards` lands on a
     * node below `totalNodes`. The division needs at least one node and one
     * shard.
     */
    function NodeForShard(shard: nat, totalShards: nat): (node: nat)
      reads this
      requires distributedMode ==> totalNodes > 0 && totalShards > 0
      ensures !distributedMode ==> node == localNodeId
      ensures distributedMode ==> InBlock(node, ShardsPerNode(totalShards, totalNodes), shard)
      ensures distributedMode && shard < totalShards ==> node < totalNodes
    {
      if !distributedMode then localNodeId
      else
        var per := ShardsPerNode(totalShards, totalNodes);
        NodeBlock(shard, per, totalShards, totalNodes);
        shard / per
    }

    /** `is_local_shard`: always when not distributed; otherwise exactly the shards of the local node's block. */
    function IsLocalShard(shard: nat, totalShards: nat): (b: bool)
      reads this
      requires distributedMode ==> totalNodes > 0 && totalShards > 0
      ensures !distributedMode ==> b
      ensures distributedMode ==> (b <==> InBlock(localNodeId, ShardsPerNode(totalShards, totalNodes), shard))
    {
      var node := NodeForShard(shard, totalShards);
      if distributedMode then
        BlocksApart(node, localNodeId, ShardsPerNode(totalShards, totalNodes), shard);
        node == localNodeId
      else
        node == localNodeId
    }

    /** `remote_insert`: the callback's answer, or false without one. */
    method RemoteInsert(node: nat, key: int, value: V) returns (ok: bool)
      ensures remoteInsert.None? ==> !ok
      ensures remoteInsert.Some? ==> ok == remoteInsert.value(node, key, value)
    {
      ok := if remoteInsert.Some? then remoteInsert.value(node, key, value) else false;
    }

    /** `remote_get`: the callback's answer, or nothing without one. */
    method RemoteGet(node: nat, key: int) returns (r: Option<V>)
      ensures remoteGet.None? ==> r.None?
      ensures remoteGet.Some? ==> r == remoteGet.value(node, key)
    {
      r := if remoteGet.Some? then remoteGet.value(node, key) else None;
    }

    /** `remote_remove`: the callback's answer, or false without one. */
    method RemoteRemove(node: nat, key: int) returns (ok: bool)
      ensures remoteRemove.None? ==> !ok
      ensures remoteRemove.Some? ==> ok == remoteRemove.value(node, key)
    {
      ok := if remoteRemove.Some? then remoteRemove.value(node, key) else false;
    }

    /** `is_node_healthy`: the callback's answer; without one only the local node is healthy. */
    method IsNodeHealthy(node: nat) returns (ok: bool)
      ensures nodeHealth.None? ==> (ok <==> node == localNodeId)
      ensures nodeHealth.Some? ==> ok == nodeHealth.value(node)
    {
      ok := if nodeHealth.Some? then nodeHealth.value(node) else node == localNodeId;
    }
  }

  // ---------------------------------------------------------------------------
  // AVLTreeParallelV2
  // ---------------------------------------------------------------------------

  /** The shard vector: each shard's tree with its `local_size`, `read_count` and `write_count`. */
  datatype Shards<V> = Shards(trees: seq<Tree<V>>, localSize: seq<nat>, readCount: seq<nat>, writeCount: seq<nat>)
  {
    /** The four sequences have one entry per shard. */
    predicate Shaped()
    {
      |localSize| == |trees| && |readCount| == |trees| && |writeCount| == |trees|
    }
  }

  /** Every tree is a search tree and every `local_size` is its tree's size. */
  ghost predicate Exact<V>(v: Shards<V>)
  {
    v.Shaped() && AllBst(v.trees) && v.localSize == Sizes(v.trees)
  }

  /** n empty shards with zeroed counters. */
  function EmptyShards<V>(n: nat): Shards<V>
  {
    Shards(seq(n, _ => Leaf), seq(n, _ => 0), seq(n, _ => 0), seq(n, _ => 0))
  }

  /**
   * `insert` on shard i: the tree takes the pair, `local_size` goes up when
   * the tree's size went up, and `write_count` goes up on every call.
   */
  function Inserted<V>(v: Shards<V>, i: nat, key: int, value: V): Shards<V>
    requires v.Shaped() && i < |v.trees|
  {
    var t := AvlCore.Insert(v.trees[i], key, value, true);
    Shards(v.trees[i := t],
           if |Keys(t)| > |Keys(v.trees[i])| then Bumped(v.localSize, i) else v.localSize,
           v.readCount, Bumped(v.writeCount, i))
  }

  /**
   * `remove` on shard i: the tree drops the key, `local_size` goes down when
   * the tree's size went down, and `write_count` goes up on every call.
   */
  function Removed<V>(v: Shards<V>, i: nat, key: int): Shards<V>
    requires v.Shaped() && i < |v.trees|
  {
    var t := AvlCore.Remove(v.trees[i], key, true);
    Shards(v.trees[i := t],
           if |Keys(t)| < |Keys(v.trees[i])| && v.localSize[i] > 0 then v.localSize[i := v.localSize[i] - 1] else v.localSize,
           v.readCount, Bumped(v.writeCount, i))
  }

  /** `clear`: every tree emptied and every counter zeroed. */
  function Cleared<V>(v: Shards<V>): Shards<V>
  {
    EmptyShards(|v.trees|)
  }

  /** `add_shard`: an empty shard with zeroed counters at the end. */
  function Appended<V>(v: Shards<V>): Shards<V>
  {
    Shards(v.trees + [Leaf], v.localSize + [0], v.readCount + [0], v.writeCount + [0])
  }

  /** Empty shards are exact and hold nothing. */
  lemma EmptyFacts<V>(n: nat)
    ensures Exact(EmptyShards<V>(n)) && |EmptyShards<V>(n).trees| == n
    ensures TotalSize(EmptyShards<V>(n).trees) == 0
  {
    var v := EmptyShards<V>(n);
    assert v.localSize == Sizes(v.trees);
    TotalSizeEmpty(v.trees);
  }

  /**
   * `insert` on exact shards: they stay exact; `local_size` of shard i goes
   * up exactly when the key is new to it, so the total grows by one exactly
   * then; the shard maps the key to the value; the other shards, and every
   * read counter, are unchanged.
   */
  lemma InsertedFacts<V>(v: Shards<V>, i: nat, key: int, value: V)
    requires Exact(v) && i < |v.trees|
    ensures Exact(Inserted(v, i, key, value))
    ensures Inserted(v, i, key, value).localSize == if key in Keys(v.trees[i]) then v.localSize else Bumped(v.localSize, i)
    ensures TotalSize(Inserted(v, i, key, value).trees) == TotalSize(v.trees) + if key in Keys(v.trees[i]) then 0 else 1
    ensures Lookup(Inserted(v, i, key, value).trees[i], key) == Some(value)
    ensures forall j :: 0 <= j < |v.trees| && j != i ==> Inserted(v, i, key, value).trees[j] == v.trees[j]
    ensures Inserted(v, i, key, value).writeCount[i] == v.writeCount[i] + 1
  {
    var t := AvlCore.Insert(v.trees[i], key, value, true);
    AvlParallel.InsertCount(v.trees[i], key, value);
    InsertSpec(v.trees[i], key, value, true);
    assert Sizes(v.trees[i := t]) == Sizes(v.trees)[i := |Keys(t)|];
    TotalSizeUpdate(v.trees, i, t);
  }

  /**
   * `remove` on exact shards: they stay exact; `local_size` of shard i goes
   * down exactly when it held the key, so the total shrinks by one exactly
   * then; the shard no longer holds the key; the other shards are unchanged.
   */
  lemma RemovedFacts<V>(v: Shards<V>, i: nat, key: int)
    requires Exact(v) && i < |v.trees|
    ensures Exact(Removed(v, i, key))
    ensures Removed(v, i, key).localSize == if key in Keys(v.trees[i]) then v.localSize[i := v.localSize[i] - 1] else v.localSize
    ensures TotalSize(Removed(v, i, key).trees) + (if key in Keys(v.trees[i]) then 1 else 0) == TotalSize(v.trees)
    ensures key !in Keys(Removed(v, i, key).trees[i])
    ensures forall j :: 0 <= j < |v.trees| && j != i ==> Removed(v, i, key).trees[j] == v.trees[j]
    ensures Removed(v, i, key).writeCount[i] == v.writeCount[i] + 1
  {
    var t := AvlCore.Remove(v.trees[i], key, true);
    RemovedTree(v.trees[i], key);
    var sizes := if key in Keys(v.trees[i]) then v.localSize[i := v.localSize[i] - 1] else v.localSize;
    assert Removed(v, i, key) == Shards(v.trees[i := t], sizes, v.readCount, Bumped(v.writeCount, i));
    RemovedSizes(v.trees, i, t, key);
  }

  /** The tree `remove` leaves: a search tree without the key, one smaller exactly when it held the key. */
  lemma RemovedTree<V>(t: Tree<V>, key: int)
    requires Bst(t)
    ensures Bst(AvlCore.Remove(t, key, true)) && key !in Keys(AvlCore.Remove(t, key, true))
    ensures |Keys(AvlCore.Remove(t, key, true))| + (if key in Keys(t) then 1 else 0) == |Keys(t)|
  {
    AvlParallel.RemoveCount(t, key);
    RemoveSpec(t, key, true);
  }

  /** Replacing tree i by one that lost the key: the size list and the total drop by one exactly when tree i held it. */
  lemma RemovedSizes<V>(trees: seq<Tree<V>>, i: nat, t: Tree<V>, key: int)
    requires i < |trees| && |Keys(t)| + (if key in Keys(trees[i]) then 1 else 0) == |Keys(trees[i])|
    ensures Sizes(trees[i := t]) == if key in Keys(trees[i]) then Sizes(trees)[i := Sizes(trees)[i] - 1] else Sizes(trees)
    ensures TotalSize(trees[i := t]) + (if key in Keys(trees[i]) then 1 else 0) == TotalSize(trees)
  {
    assert Sizes(trees[i := t]) == Sizes(trees)[i := |Keys(t)|];
    TotalSizeUpdate(trees, i, t);
  }

  /** `add_shard` on exact shards: they stay exact, one more shard, and the total is unchanged. */
  lemma AppendedFacts<V>(v: Shards<V>)
    requires Exact(v)
    ensures Exact(Appended(v)) && |Appended(v).trees| == |v.trees| + 1
    ensures TotalSize(Appended(v).trees) == TotalSize(v.trees)
  {
    TotalSizeAppend(v.trees, Leaf);
    assert Sizes(v.trees + [Leaf]) == Sizes(v.trees) + [0];
  }

  datatype RoutingStrategy = Hash | Range | ConsistentHash | Predictive

  class AvlTreeParallelV2<V> {
    /** `shard_manager_`, created by the constructor and never replaced. */
    const manager: DynamicShardManager
    const routing: RoutingStrategy
    /** `Value{}`, what `get` answers for a missing key. */
    const zero: V
    /** `use_prediction_`. */
    var usePrediction: bool
    /** `shards_`. */
    var shards: Shards<V>

    /**
     * The manager's shard count is the vector's length (at least one), every
     * redirect names a shard of the vector, and the shards are exact.
     */
    ghost predicate Valid()
      reads this, manager
    {
      && manager.Valid()
      && manager.numShards == |shards.trees| > 0
      && Exact(shards)
      && forall k :: k in manager.redirects ==> manager.redirects[k] < |shards.trees|
    }

    /** `getShardIndex`: the manager's route for the key, a shard of the vector. */
    ghost function Home(key: int): (s: nat)
      requires Valid()
      reads this, manager
      ensures s == manager.RouteOf(key) && s < |shards.trees|
    {
      if key in manager.redirects then manager.redirects[key]
      else
        RingRouteBound(manager.ring, manager.numShards, manager.hashKey, manager.hashKey(key));
        DynamicSharded.FindShard(manager.ring, manager.hashKey(key))
    }

    /** Where `insert` puts a key: the predictor's shard under PREDICTIVE routing when it names one, else the routed shard. */
    ghost function InsertShard(key: int, coolest: Option<nat>): (s: nat)
      requires Valid() && (coolest.Some? ==> coolest.value < |shards.trees|)
      reads this, manager
      ensures s < |shards.trees|
      ensures !(routing == Predictive && usePrediction) ==> s == Home(key)
    {
      if routing == Predictive && usePrediction && coolest.Some? then coolest.value else Home(key)
    }

    /** The constructor: n empty shards with zeroed counters, and a manager over n shards. */
    constructor(n: nat, routing: RoutingStrategy, enablePredictions: bool, stdHash: int -> bv64, zero: V)
      requires n > 0
      ensures Valid() && fresh(manager)
      ensures this.routing == routing && this.zero == zero && usePrediction == enablePredictions
      ensures shards == EmptyShards(n) && TotalSize(shards.trees) == 0
      ensures manager.redirects == map[] && manager.schemaVersion == 0
      ensures forall k :: manager.hashKey(k) == DynamicSharded.HashKey(stdHash, k)
    {
      this.routing := routing;
      this.zero := zero;
      usePrediction := enablePredictions;
      shards := EmptyShards(n);
      manager := new DynamicShardManager(n, stdHash);
      new;
      EmptyFacts<V>(n);
    }

    /**
     * `insert`: the shard `InsertShard` names takes the pair (see
     * `Inserted` and `InsertedFacts`). `coolest` is the predictor's verdict:
     * the shard it names when it flags the key's routed shard as a coming
     * hotspot.
     */
    method Insert(key: int, value: V, coolest: Option<nat>)
      requires Valid()
      requires coolest.Some? ==> coolest.value < |shards.trees|
      modifies this
      ensures Valid() && unchanged(manager) && usePrediction == old(usePrediction)
      ensures shards == Inserted(old(shards), old(InsertShard(key, coolest)), key, value)
    {
      var i := manager.Route(key);
      if routing == Predictive && usePrediction && coolest.Some? {
        i := coolest.value;
      }
      InsertedFacts(shards, i, key, value);
      shards := Inserted(shards, i, key, value);
    }

    /** `remove`: the routed shard drops the key (see `Removed` and `RemovedFacts`). */
    method Remove(key: int)
      requires Valid()
      modifies this
      ensures Valid() && unchanged(manager) && usePrediction == old(usePrediction)
      ensures shards == Removed(old(shards), old(Home(key)), key)
    {
      var i := manager.Route(key);
      RemovedFacts(shards, i, key);
      shards := Removed(shards, i, key);
    }

    /** `contains`: whether the routed shard holds the key; that shard's `read_count` goes up. */
    method Contains(key: int) returns (b: bool)
      requires Valid()
      modifies this
      ensures Valid() && unchanged(manager) && usePrediction == old(usePrediction)
      ensures b <==> key in Keys(shards.trees[Home(key)])
      ensures shards == old(shards).(readCount := Bumped(old(shards).readCount, Home(key)))
    {
      var i := manager.Route(key);
      var found := FindNode(shards.trees[i], key);
      b := found.Some?;
      shards := shards.(readCount := Bumped(shards.readCount, i));
    }

    /** `get`: the routed shard's value for the key, or `Value{}`; that shard's `read_count` goes up. */
    method Get(key: int) returns (value: V)
      requires Valid()
      modifies this
      ensures Valid() && unchanged(manager) && usePrediction == old(usePrediction)
      ensures Lookup(shards.trees[Home(key)], key).Some? ==> value == Lookup(shards.trees[Home(key)], key).value
      ensures key !in Keys(shards.trees[Home(key)]) ==> value == zero
      ensures shards == old(shards).(readCount := Bumped(old(shards).readCount, Home(key)))
    {
      var i := manager.Route(key);
      var found := FindNode(shards.trees[i], key);
      value := if found.Some? then found.value else zero;
      shards := shards.(readCount := Bumped(shards.readCount, i));
    }

    /** `size`: the sum of the `local_size` counters, which is the sum of the shards' sizes. */
    method Size() returns (total: nat)
      requires Valid()
      ensures total == TotalSize(shards.trees)
    {
      var sizes := shards.localSize;
      total := 0;
      var i := 0;
      while i < |sizes|
        invariant i <= |sizes| && total == Sum(sizes[..i])
      {
        assert sizes[..i + 1][..i] == sizes[..i];
        total := total + sizes[i];
        i := i + 1;
      }
      assert sizes[..i] == sizes;
    }

    /** `clear`: every tree emptied and every counter zeroed; the manager keeps its ring and redirects. */
    method Clear()
      requires Valid()
      modifies this
      ensures Valid() && unchanged(manager) && usePrediction == old(usePrediction)
      ensures shards == Cleared(old(shards)) && TotalSize(shards.trees) == 0
    {
      EmptyFacts<V>(|shards.trees|);
      shards := Cleared(shards);
    }

    /**
     * `add_shard`: an empty shard joins the end of the vector and the
     * manager adds it to the ring. No key moves, although keys whose ring
     * point now belongs to the new shard route there from now on.
     */
    method AddShard()
      requires Valid()
      modifies this, manager
      ensures Valid() && usePrediction == old(usePrediction)
      ensures shards == Appended(old(shards)) && TotalSize(shards.trees) == old(TotalSize(shards.trees))
      ensures manager.numShards == old(manager.numShards) + 1 && manager.schemaVersion == old(manager.schemaVersion) + 1
      ensures manager.redirects == old(manager.redirects)
    {
      AppendedFacts(shards);
      shards := Appended(shards);
      manager.AddShard();
    }
  }

  /**
   * Under PREDICTIVE routing a key placed on the predictor's shard is not
   * found by `contains` when its routed shard is another one that does not
   * hold it: `contains` and `get` ask the routed shard only.
   */
  lemma PredictedKeyUnseen<V>(trees: seq<Tree<V>>, routed: nat, coolest: nat, key: int, value: V)
    requires routed < |trees| && coolest < |trees| && routed != coolest
    requires key !in Keys(trees[routed])
    ensures key !in Keys(trees[coolest := AvlCore.Insert(trees[coolest], key, value, true)][routed])
    ensures key in Keys(trees[coolest := AvlCore.Insert(trees[coolest], key, value, true)][coolest])
  {
    InsertSpec(trees[coolest], key, value, true);
  }
}

/**
 * The `DistributedCoordinator` of `include/DistributedAVL.hpp`: the map from
 * shard to nodes (a primary and its replicas), the health record of every
 * node, failover, and the version counters used for causal consistency.
 *
 * The constructor lays the shards out in blocks: shard s belongs to node
 * `s / shards_per_node`, and its r-th replica (r from 1 to
 * `replication_factor - 1`) is node `(primary + r) % num_nodes`. Node ids
 * are `uint32_t` (`NodeId`), so both are cast to 32 bits; versions are
 * `uint64_t` and wrap. `std::hash` is a parameter and the clock reading a
 * heartbeat takes is an argument. The transport, the pending-request table
 * and the locks are not modelled.
 */
module DistributedAvl {
  import opened Hashing
  import ParallelV2

  /** `NodeId` is `uint32_t`: one more than its largest value. */
  const NODE_ID_RANGE: nat := 0x1_0000_0000

  /** `Version` is `uint64_t`: one more than its largest value. */
  const VERSION_RANGE: nat := 0x1_0000_0000_0000_0000

  datatype ConsistencyLevel = Strong | Eventual | Causal

  datatype ReplicationMode = Unreplicated | Sync | Async | SemiSync

  /** `ClusterConfig`; the timeouts are in milliseconds. */
  datatype ClusterConfig = ClusterConfig(
    numNodes: nat,
    shardsPerNode: nat,
    replicationFactor: nat,
    consistency: ConsistencyLevel,
    replication: ReplicationMode,
    writeTimeoutMs: nat,
    readTimeoutMs: nat)

  /** The default member initialisers of `ClusterConfig`. */
  const DefaultConfig := ClusterConfig(1, 8, 1, Strong, Unreplicated, 1000, 500)

  datatype NodeStatus = Healthy | Degraded | Unhealthy | Offline

  /** `NodeHealth`; the heartbeat is a reading of the steady clock. */
  datatype NodeHealth = NodeHealth(
    id: nat,
    status: NodeStatus,
    lastHeartbeat: nat,
    loadFactor: real,
    pendingOps: nat,
    failedOps: nat,
    address: string,
    port: nat)

  /** `NodeHealth{}`: every field zero, so the status is the first enumerator. */
  const DefaultHealth := NodeHealth(0, Healthy, 0, 0.0, 0, 0, "", 0)

  /** `ShardAssignment`: the primary node of a shard and its replicas. */
  datatype ShardAssignment = ShardAssignment(primary: nat, replicas: seq<nat>)

  /** `static_cast<NodeId>`: the low 32 bits. */
  function NodeIdOf(x: nat): (id: nat)
    ensures id <= x && id < NODE_ID_RANGE
    ensures x < NODE_ID_RANGE ==> id == x
  {
    x % NODE_ID_RANGE
  }

  // ---------------------------------------------------------------------------
  // The initial shard map
  // ---------------------------------------------------------------------------

  /** Every node the assignment names is below n. */
  predicate Within(a: ShardAssignment, n: nat)
  {
    a.primary < n && forall q :: 0 <= q < |a.replicas| ==> a.replicas[q] < n
  }

  /** The primary is not among the replicas and no replica is listed twice. */
  predicate Separate(a: ShardAssignment)
  {
    a.primary !in a.replicas
    && forall i, j :: 0 <= i < j < |a.replicas| ==> a.replicas[i] != a.replicas[j]
  }

  /** A factor of 1 (or 0) means no replication. */
  function ReplicaCount(factor: nat): (c: nat)
    ensures factor > 1 ==> c + 1 == factor
    ensures factor <= 1 ==> c == 0
  {
    if factor > 1 then factor - 1 else 0
  }

  /** The r-th replica of a shard with the given primary: node `(primary + r) % numNodes`, cast to a node id. */
  function ReplicaNode(primary: nat, r: nat, numNodes: nat): (id: nat)
    requires numNodes > 0
    ensures id < numNodes
  {
    NodeIdOf((primary + r) % numNodes)
  }

  /** The replicas of a shard with the given primary: replicas 1 to `factor - 1`, in order. */
  function Replicas(primary: nat, factor: nat, numNodes: nat): (reps: seq<nat>)
    requires numNodes > 0
    ensures |reps| == ReplicaCount(factor)
    ensures forall q :: 0 <= q < |reps| ==> reps[q] < numNodes
  {
    seq(ReplicaCount(factor), q requires 0 <= q => ReplicaNode(primary, q + 1, numNodes))
  }

  /** What the constructor assigns to shard s: primary `s / shards_per_node`, then its replicas. */
  function Assignment(config: ClusterConfig, s: nat): (a: ShardAssignment)
    requires s < config.numNodes * config.shardsPerNode
    ensures Within(a, config.numNodes)
    ensures |a.replicas| == ReplicaCount(config.replicationFactor)
  {
    ParallelV2.NodeBlock(s, config.shardsPerNode, config.numNodes * config.shardsPerNode, config.numNodes);
    var primary := NodeIdOf(s / config.shardsPerNode);
    ShardAssignment(primary, Replicas(primary, config.replicationFactor, config.numNodes))
  }

  /** The shard map the constructor builds: `num_nodes * shards_per_node` shards. */
  function InitialMap(config: ClusterConfig): (m: seq<ShardAssignment>)
    ensures |m| == config.numNodes * config.shardsPerNode
    ensures forall s :: 0 <= s < |m| ==> Within(m[s], config.numNodes)
  {
    var total := config.numNodes * config.shardsPerNode;
    seq(total, s requires 0 <= s < total => Assignment(config, s))
  }

  /** The node records the constructor builds: node i has id i, is healthy and idle, and was heard from now. */
  function InitialNodes(numNodes: nat, now: nat): (ns: seq<NodeHealth>)
    ensures |ns| == numNodes
    ensures forall i :: 0 <= i < numNodes ==> ns[i].id == NodeIdOf(i) && ns[i].status == Healthy
  {
    seq(numNodes, i requires 0 <= i < numNodes => NodeHealth(NodeIdOf(i), Healthy, now, 0.0, 0, 0, "", 0))
  }

  /**
   * While node ids fit in 32 bits, shard s has primary `s / shards_per_node`,
   * and node n is the primary of exactly the shards
   * `n * shards_per_node` to `n * shards_per_node + shards_per_node - 1`.
   */
  lemma InitialPrimary(config: ClusterConfig, s: nat, n: nat)
    requires s < config.numNodes * config.shardsPerNode
    requires config.numNodes <= NODE_ID_RANGE
    ensures Assignment(config, s).primary == s / config.shardsPerNode
    ensures Assignment(config, s).primary == n <==> ParallelV2.InBlock(n, config.shardsPerNode, s)
  {
    var spn := config.shardsPerNode;
    ParallelV2.NodeBlock(s, spn, config.numNodes * spn, config.numNodes);
    ParallelV2.BlocksApart(s / spn, n, spn, s);
  }

  /** `x % n` for x in [0, 2n) is x or x - n. */
  lemma ModOnce(x: nat, n: nat)
    requires 0 < n && x < 2 * n
    ensures x % n == if x < n then x else x - n
  {
    var q := x / n;
    assert n * q + x % n == x;
    if q >= 2 {
      ParallelV2.MulMono(2, q, n);
    }
  }

  /** Without wrap-around of the cast, replica d of a primary is `primary + d`, wrapped once around the nodes. */
  lemma ReplicaAt(primary: nat, d: nat, numNodes: nat)
    requires primary < numNodes <= NODE_ID_RANGE
    requires 0 < d < numNodes
    ensures ReplicaNode(primary, d, numNodes) ==
      if primary + d < numNodes then primary + d else primary + d - numNodes
  {
    ModOnce(primary + d, numNodes);
  }

  /**
   * With a replication factor of at most the number of nodes (and node ids
   * that fit in 32 bits) the constructor never names a node twice for one
   * shard: the replicas are distinct and none is the primary.
   */
  lemma InitialSeparate(config: ClusterConfig, s: nat)
    requires s < config.numNodes * config.shardsPerNode
    requires config.numNodes <= NODE_ID_RANGE
    requires config.replicationFactor <= config.numNodes
    ensures Separate(Assignment(config, s))
  {
    var a := Assignment(config, s);
    var n := config.numNodes;
    forall i | 0 <= i < |a.replicas|
      ensures a.replicas[i] != a.primary
    {
      ReplicaAt(a.primary, i + 1, n);
    }
    forall i, j | 0 <= i < j < |a.replicas|
      ensures a.replicas[i] != a.replicas[j]
    {
      ReplicaAt(a.primary, i + 1, n);
      ReplicaAt(a.primary, j + 1, n);
    }
  }

  // ---------------------------------------------------------------------------
  // Failover
  // ---------------------------------------------------------------------------

  /** One shard's step of `handle_node_failure`. */
  function Promote(a: ShardAssignment, failed: nat): (b: ShardAssignment)
    ensures a.primary == failed && |a.replicas| > 0 ==>
      b.primary == a.replicas[0] && b.replicas == a.replicas[1..]
    ensures a.primary != failed || |a.replicas| == 0 ==> b == a
  {
    if a.primary == failed && |a.replicas| > 0 then ShardAssignment(a.replicas[0], a.replicas[1..]) else a
  }

  /** The shard map after `handle_node_failure(failed)`. */
  function Promoted(m: seq<ShardAssignment>, failed: nat): (p: seq<ShardAssignment>)
    ensures |p| == |m|
  {
    seq(|m|, s requires 0 <= s < |m| => Promote(m[s], failed))
  }

  /** Promotion names no new node: a map whose nodes are below n stays so. */
  lemma PromotedWithin(m: seq<ShardAssignment>, failed: nat, n: nat)
    requires forall s :: 0 <= s < |m| ==> Within(m[s], n)
    ensures forall s :: 0 <= s < |m| ==> Within(Promoted(m, failed)[s], n)
  {
    forall s | 0 <= s < |m|
      ensures Within(Promoted(m, failed)[s], n)
    {
      var a := m[s];
      if a.primary == failed && |a.replicas| > 0 {
        assert forall q :: 0 <= q < |a.replicas| - 1 ==> a.replicas[1..][q] == a.replicas[q + 1];
      }
    }
  }

  /**
   * On a map where no shard names a node twice, failover keeps that so, and
   * afterwards the failed node is the primary only of shards it was the
   * primary of and that had no replica to promote.
   */
  lemma PromotedSeparate(m: seq<ShardAssignment>, failed: nat, s: nat)
    requires s < |m| && Separate(m[s])
    ensures Separate(Promoted(m, failed)[s])
    ensures Promoted(m, failed)[s].primary == failed ==> m[s].primary == failed && m[s].replicas == []
  {
    var a := m[s];
    if a.primary == failed && |a.replicas| > 0 {
      var b := Promote(a, failed);
      forall i, j | 0 <= i < j < |b.replicas|
        ensures b.replicas[i] != b.replicas[j]
      {
        assert b.replicas[i] == a.replicas[i + 1] && b.replicas[j] == a.replicas[j + 1];
      }
      forall r | r in b.replicas
        ensures r != b.primary
      {
        var k :| 0 <= k < |b.replicas| && b.replicas[k] == r;
        assert a.replicas[k + 1] == r;
      }
    }
  }

  /** Handling the same failure twice changes nothing more, on a map where no shard names a node twice. */
  lemma PromotedIdempotent(m: seq<ShardAssignment>, failed: nat)
    requires forall s :: 0 <= s < |m| ==> Separate(m[s])
    ensures Promoted(Promoted(m, failed), failed) == Promoted(m, failed)
  {
    var p := Promoted(m, failed);
    forall s | 0 <= s < |m|
      ensures Promoted(p, failed)[s] == p[s]
    {
      PromotedSeparate(m, failed, s);
    }
  }

  // ---------------------------------------------------------------------------
  // Node health and versions
  // ---------------------------------------------------------------------------

  /** The node records after `update_node_health(id, status, load)` at time now. */
  function HealthUpdated(ns: seq<NodeHealth>, id: nat, status: NodeStatus, load: real, now: nat): (r: seq<NodeHealth>)
    ensures |r| == |ns|
    ensures id >= |ns| ==> r == ns
    ensures forall i :: 0 <= i < |ns| && i != id ==> r[i] == ns[i]
    ensures id < |ns| ==> r[id] == ns[id].(status := status, loadFactor := load, lastHeartbeat := now)
  {
    if id < |ns| then ns[id := ns[id].(status := status, loadFactor := load, lastHeartbeat := now)] else ns
  }

  /** The value `increment_version` returns and stores: one more, modulo 2^64. */
  function NextVersion(v: nat): (r: nat)
    requires v < VERSION_RANGE
    ensures r < VERSION_RANGE
    ensures v + 1 < VERSION_RANGE ==> r == v + 1
    ensures v + 1 == VERSION_RANGE ==> r == 0
  {
    (v + 1) % VERSION_RANGE
  }

  /** `version_vector_[node]` reads an absent entry as 0. */
  function VersionOf(vv: map<nat, nat>, node: nat): nat
  {
    if node in vv then vv[node] else 0
  }

  /** The version vector after `update_version_vector(node, v)`. */
  function Merged(vv: map<nat, nat>, node: nat, v: nat): (r: map<nat, nat>)
    ensures r.Keys == vv.Keys + {node}
    ensures VersionOf(r, node) >= v && VersionOf(r, node) >= VersionOf(vv, node)
    ensures VersionOf(r, node) == v || VersionOf(r, node) == VersionOf(vv, node)
    ensures forall n :: n != node ==> VersionOf(r, n) == VersionOf(vv, n)
  {
    var stored := VersionOf(vv, node);
    vv[node := if stored >= v then stored else v]
  }

  /** No entry of the version vector ever decreases, and merging the same version again changes nothing. */
  lemma MergedMonotone(vv: map<nat, nat>, node: nat, v: nat, n: nat)
    ensures VersionOf(Merged(vv, node, v), n) >= VersionOf(vv, n)
    ensures Merged(Merged(vv, node, v), node, v) == Merged(vv, node, v)
  {
  }

  /** Two merges into the same entry keep the larger version, in either order. */
  lemma MergedCommute(vv: map<nat, nat>, node: nat, v: nat, w: nat)
    ensures Merged(Merged(vv, node, v), node, w) == Merged(Merged(vv, node, w), node, v)
  {
  }

  // ---------------------------------------------------------------------------
  // The coordinator
  // ---------------------------------------------------------------------------

  /** The replicas the constructor pushes for one shard. */
  method BuildReplicas(primary: nat, config: ClusterConfig) returns (reps: seq<nat>)
    requires config.numNodes > 0
    ensures reps == Replicas(primary, config.replicationFactor, config.numNodes)
  {
    reps := [];
    if config.replicationFactor > 1 {
      var r: nat := 1;
      while r < config.replicationFactor
        invariant 1 <= r <= config.replicationFactor
        invariant |reps| == r - 1
        invariant forall q :: 0 <= q < |reps| ==> reps[q] == NodeIdOf((primary + q + 1) % config.numNodes)
      {
        reps := reps + [NodeIdOf((primary + r) % config.numNodes)];
        r := r + 1;
      }
    }
  }

  class DistributedCoordinator {
    const config: ClusterConfig
    const localNodeId: nat
    /** `get_shard`'s mix of a key's `std::hash`: the first half of fmix64. */
    const shardHash: int -> nat
    var nodes: seq<NodeHealth>
    var shardMap: seq<ShardAssignment>
    var versionVector: map<nat, nat>
    var localVersion: nat

    /**
     * One record per node, each carrying its own index as id; the shard
     * count fixed by the configuration; every node the map names exists;
     * versions fit in 64 bits.
     */
    ghost predicate Valid()
      reads this
    {
      |nodes| == config.numNodes
      && (forall i :: 0 <= i < |nodes| ==> nodes[i].id == NodeIdOf(i))
      && |shardMap| == config.numNodes * config.shardsPerNode
      && (forall s :: 0 <= s < |shardMap| ==> Within(shardMap[s], |nodes|))
      && localVersion < VERSION_RANGE
      && (forall n :: n in versionVector ==> versionVector[n] < VERSION_RANGE)
    }

    constructor(config: ClusterConfig, localId: nat, stdHash: int -> bv64, now: nat)
      ensures Valid()
      ensures this.config == config && localNodeId == localId
      ensures forall k :: shardHash(k) == WordValue(HalfFmix64(stdHash(k)))
      ensures shardMap == InitialMap(config)
      ensures nodes == InitialNodes(config.numNodes, now)
      ensures versionVector == map[] && localVersion == 0
    {
      var total := config.numNodes * config.shardsPerNode;
      var m: seq<ShardAssignment> := [];
      var s: nat := 0;
      while s < total
        invariant s <= total && |m| == s
        invariant forall j :: 0 <= j < s ==> m[j] == Assignment(config, j)
      {
        var primary := NodeIdOf(s / config.shardsPerNode);
        var reps := BuildReplicas(primary, config);
        m := m + [ShardAssignment(primary, reps)];
        s := s + 1;
      }
      var ns: seq<NodeHealth> := [];
      var i: nat := 0;
      while i < config.numNodes
        invariant i <= config.numNodes && |ns| == i
        invariant forall j :: 0 <= j < i ==> ns[j] == NodeHealth(NodeIdOf(j), Healthy, now, 0.0, 0, 0, "", 0)
      {
        ns := ns + [NodeHealth(NodeIdOf(i), Healthy, now, 0.0, 0, 0, "", 0)];
        i := i + 1;
      }
      this.config := config;
      localNodeId := localId;
      shardHash := (k: int) => WordValue(HalfFmix64(stdHash(k)));
      shardMap := m;
      nodes := ns;
      versionVector := map[];
      localVersion := 0;
    }

    /** `get_shard`: the mixed hash modulo the shard count (which must not be zero). */
    function ShardOf(key: int): (s: nat)
      reads this
      requires |shardMap| > 0
      ensures s < |shardMap|
    {
      shardHash(key) % |shardMap|
    }

    /** `get_primary_node`: the primary of the key's shard, always an existing node. */
    function PrimaryNode(key: int): (n: nat)
      reads this
      requires Valid() && |shardMap| > 0
      ensures n < |nodes|
      ensures Within(shardMap[ShardOf(key)], |nodes|)
    {
      shardMap[ShardOf(key)].primary
    }

    /** `get_replica_nodes`: the replicas of the key's shard, all existing nodes. */
    function ReplicaNodes(key: int): (reps: seq<nat>)
      reads this
      requires Valid() && |shardMap| > 0
      ensures forall r :: r in reps ==> r < |nodes|
      ensures Separate(shardMap[ShardOf(key)]) ==> PrimaryNode(key) !in reps
    {
      shardMap[ShardOf(key)].replicas
    }

    /** `is_local`: this node is the key's primary, so the local id is an existing node. */
    function IsLocal(key: int): (b: bool)
      reads this
      requires Valid() && |shardMap| > 0
      ensures b <==> PrimaryNode(key) == localNodeId
      ensures b ==> localNodeId < config.numNodes
    {
      PrimaryNode(key) == localNodeId
    }

    /** `get_cluster_state`: one record per node, in id order. */
    function ClusterState(): (ns: seq<NodeHealth>)
      reads this
      requires Valid()
      ensures |ns| == config.numNodes
      ensures forall i :: 0 <= i < |ns| ==> ns[i].id == NodeIdOf(i)
    {
      nodes
    }

    /** `get_node_health`: the node's record, or the default record for an id with no node. */
    function NodeHealthOf(id: nat): (h: NodeHealth)
      reads this
      requires Valid()
      ensures id < config.numNodes ==> h == nodes[id] && h.id == NodeIdOf(id)
      ensures id >= config.numNodes ==> h == DefaultHealth
    {
      if id < |nodes| then nodes[id] else DefaultHealth
    }

    /** `update_node_health`: sets status, load and heartbeat of an existing node; ignores any other id. */
    method UpdateNodeHealth(id: nat, status: NodeStatus, load: real, now: nat)
      requires Valid()
      modifies this
      ensures Valid()
      ensures nodes == HealthUpdated(old(nodes), id, status, load, now)
      ensures shardMap == old(shardMap) && versionVector == old(versionVector) && localVersion == old(localVersion)
    {
      nodes := HealthUpdated(nodes, id, status, load, now);
    }

    /**
     * `handle_node_failure`: marks the node offline and, for every shard it
     * is the primary of and that has a replica, promotes the first replica.
     * The source indexes the node vector without a check, so the id must
     * name a node.
     */
    method HandleNodeFailure(failed: nat)
      requires Valid() && failed < |nodes|
      modifies this
      ensures Valid()
      ensures nodes == old(nodes)[failed := old(nodes)[failed].(status := Offline)]
      ensures shardMap == Promoted(old(shardMap), failed)
      ensures versionVector == old(versionVector) && localVersion == old(localVersion)
    {
      nodes := nodes[failed := nodes[failed].(status := Offline)];
      var m := shardMap;
      var s: nat := 0;
      while s < |m|
        invariant s <= |m| && |m| == |shardMap|
        invariant forall j :: 0 <= j < s ==> m[j] == Promote(shardMap[j], failed)
        invariant forall j :: s <= j < |m| ==> m[j] == shardMap[j]
      {
        if m[s].primary == failed && |m[s].replicas| > 0 {
          var a := m[s];
          m := m[s := ShardAssignment(a.replicas[0], a.replicas[1..])];
        }
        s := s + 1;
      }
      PromotedWithin(shardMap, failed, |nodes|);
      assert m == Promoted(shardMap, failed);
      shardMap := m;
    }

    /** `get_local_version`. */
    function LocalVersion(): (v: nat)
      reads this
      requires Valid()
      ensures v < VERSION_RANGE
    {
      localVersion
    }

    /** `increment_version`: stores and returns the next version (0, then 1, then 2, ...). */
    method IncrementVersion() returns (v: nat)
      requires Valid()
      modifies this
      ensures Valid()
      ensures v == NextVersion(old(localVersion)) && localVersion == v
      ensures nodes == old(nodes) && shardMap == old(shardMap) && versionVector == old(versionVector)
    {
      localVersion := NextVersion(localVersion);
      v := localVersion;
    }

    /** `update_version_vector`: keeps the larger of the stored and the given version. */
    method UpdateVersionVector(node: nat, v: nat)
      requires Valid() && v < VERSION_RANGE
      modifies this
      ensures Valid()
      ensures versionVector == Merged(old(versionVector), node, v)
      ensures nodes == old(nodes) && shardMap == old(shardMap) && localVersion == old(localVersion)
    {
      versionVector := Merged(versionVector, node, v);
    }

    /** `get_total_shards`: the configured nodes times shards per node. */
    function TotalShards(): (t: nat)
      reads this
      requires Valid()
      ensures t == config.numNodes * config.shardsPerNode
    {
      |shardMap|
    }
  }
}

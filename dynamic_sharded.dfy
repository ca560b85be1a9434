/**
 * `DynamicShardedTree` (`include/DynamicShardedTree.hpp`): AVL shards placed
 * on a consistent-hash ring of `vnodes_per_shard` points per shard, with
 * lazy migration.
 *
 * A key belongs to the shard of the first ring point at or after its hash
 * (its expected shard). `insert` writes to the expected shard only.
 * `contains` and `get` look there first; a key found in another shard is
 * moved to the expected shard on the way. `remove` deletes the key from
 * the lowest-index shard holding it. `add_shard` and `remove_shard` change
 * the ring; `remove_shard` and `force_rebalance` re-insert pairs at their
 * ring shard.
 *
 * Each shard is a tree value with its own element counter (`Shard::size`),
 * kept apart from the tree because the source updates it apart: the
 * counter is at least the tree's size in every state (`Counted`), and equal
 * to it while no key is held twice (`Coherent`).
 *
 * As written, `insert` never looks at the other shards. After a topology
 * change a key can therefore be stored twice, and a later `remove` deletes
 * only the copy in the lowest shard: the key stays visible
 * (`RemoveKeepsCopyAsWritten`). `Insert` is the corrected operation,
 * which first evicts the key from any other shard, as `contains` and `get`
 * already do; every operation keeps `Coherent` with it.
 */
module DynamicSharded {
  import opened Wrappers
  import opened Hashing
  import opened AvlCore
  import opened AvlOrder
  import opened Routing
  import opened ShardTrees

  /** `Config`: the shards to start with and the ring points per shard. */
  datatype Config = Config(initialShards: nat, vnodesPerShard: nat)

  /** The default `Config{}`: 4 shards of 64 points. */
  const DEFAULT_CONFIG: Config := Config(4, 64)

  /** `Stats` without the floating-point balance score. */
  datatype Stats = Stats(numShards: nat, totalElements: nat, elementsPerShard: seq<nat>)

  // ---------------------------------------------------------------------------
  // Hashes and the ring
  // ---------------------------------------------------------------------------

  /** `hash_key`: fmix64 of `std::hash<Key>`, read as a `size_t`. */
  function HashKey(stdHash: int -> bv64, key: int): nat
  {
    WordValue(Fmix64(stdHash(key)))
  }

  /** `hash_vnode`: fmix64 of `(shard_id << 16) ^ vnode_idx` in 64-bit words. */
  function HashVnode(shard: nat, vnode: nat): nat
  {
    var s := (shard % 0x1_0000_0000_0000_0000) as bv64;
    var v := (vnode % 0x1_0000_0000_0000_0000) as bv64;
    WordValue(Fmix64((s << 16) ^ v))
  }

  /** The points `rebuild_ring_locked` pushes for shard s: its points 0 to per - 1, in order. */
  function Block(s: nat, per: nat, pointOf: (nat, nat) -> nat): seq<VirtualNode>
  {
    seq(per, v requires 0 <= v => VirtualNode(s, pointOf(s, v)))
  }

  /** All the points the loops of `rebuild_ring_locked` push, shard after shard. */
  function Points(n: nat, per: nat, pointOf: (nat, nat) -> nat): seq<VirtualNode>
  {
    if n == 0 then [] else Points(n - 1, per, pointOf) + Block(n - 1, per, pointOf)
  }

  /** There are n * per points, and every point belongs to one of the n shards. */
  lemma {:induction false} PointsShards(n: nat, per: nat, pointOf: (nat, nat) -> nat)
    ensures |Points(n, per, pointOf)| == n * per
    ensures forall i :: 0 <= i < |Points(n, per, pointOf)| ==> Points(n, per, pointOf)[i].shardId < n
  {
    if n > 0 {
      PointsShards(n - 1, per, pointOf);
      var front: seq<VirtualNode>, block: seq<VirtualNode> := Points(n - 1, per, pointOf), Block(n - 1, per, pointOf);
      assert (n - 1) * per + per == n * per;
      forall i | 0 <= i < |front| + |block| ensures (front + block)[i].shardId < n {
        if i < |front| {
          assert (front + block)[i] == front[i];
        } else {
          assert (front + block)[i] == block[i - |front|];
        }
      }
    }
  }

  /** The nested loops of `rebuild_ring_locked`, before the sort. */
  method FillRing(n: nat, per: nat, pointOf: (nat, nat) -> nat) returns (points: seq<VirtualNode>)
    ensures points == Points(n, per, pointOf)
  {
    points := [];
    var s := 0;
    while s < n
      invariant s <= n && points == Points(s, per, pointOf)
    {
      var v := 0;
      ghost var front := points;
      while v < per
        invariant v <= per && points == front + Block(s, per, pointOf)[..v]
      {
        assert Block(s, per, pointOf)[..v + 1] == Block(s, per, pointOf)[..v] + [VirtualNode(s, pointOf(s, v))];
        points := points + [VirtualNode(s, pointOf(s, v))];
        v := v + 1;
      }
      assert Block(s, per, pointOf)[..per] == Block(s, per, pointOf);
      s := s + 1;
    }
  }

  /** The ring's points all name one of n shards, and n is at least 1. */
  ghost predicate InRing(ring: seq<VirtualNode>, n: nat)
  {
    n > 0 && forall i :: 0 <= i < |ring| ==> ring[i].shardId < n
  }

  /**
   * `rebuild_ring_locked`: the n * per points sorted by hash. The sort is
   * specified as a sorted permutation; points with equal hashes may come in
   * any order.
   */
  method BuildRing(n: nat, per: nat, pointOf: (nat, nat) -> nat) returns (ring: seq<VirtualNode>)
    requires n > 0
    ensures |ring| == n * per && Sorted(ring)
    ensures multiset(ring) == multiset(Points(n, per, pointOf)) && InRing(ring, n)
  {
    var points := FillRing(n, per, pointOf);
    ring := SortByHash(points);
    SortByHashSpec(points);
    PointsShards(n, per, pointOf);
    forall i | 0 <= i < |ring| ensures ring[i].shardId < n {
      assert ring[i] in multiset(points);
      var j :| 0 <= j < |points| && points[j] == ring[i];
    }
  }

  /**
   * Point i is the first clockwise from h: on a sorted ring it has the least
   * hash at or after h, and it is the first point when no hash reaches h.
   */
  ghost predicate Clockwise(ring: seq<VirtualNode>, h: nat, i: nat)
    requires i < |ring|
  {
    && (Sorted(ring) && (exists j :: 0 <= j < |ring| && h <= ring[j].hashValue) ==>
          h <= ring[i].hashValue && forall j :: 0 <= j < |ring| && h <= ring[j].hashValue ==> ring[i].hashValue <= ring[j].hashValue)
    && ((forall j :: 0 <= j < |ring| ==> ring[j].hashValue < h) ==> i == 0)
  }

  /**
   * `find_shard_locked`: the shard of the first point whose hash is at least
   * h, wrapping to the first point; 0 on an empty ring.
   */
  function FindShard(ring: seq<VirtualNode>, h: nat): (s: nat)
    ensures ring == [] ==> s == 0
    ensures ring != [] ==> exists i :: 0 <= i < |ring| && ring[i].shardId == s && Clockwise(ring, h, i)
  {
    if ring == [] then 0 else ring[RingPosition(ring, h)].shardId
  }

  /** The ring answers a shard that exists. */
  lemma FindShardIn(ring: seq<VirtualNode>, n: nat, h: nat)
    requires InRing(ring, n)
    ensures FindShard(ring, h) < n
  {
  }

  /** The lookup by binary search (`std::lower_bound`). */
  method LocateShard(ring: seq<VirtualNode>, h: nat) returns (s: nat)
    requires Sorted(ring)
    ensures s == FindShard(ring, h)
  {
    if ring == [] {
      return 0;
    }
    s := RingShard(ring, h);
  }

  // ---------------------------------------------------------------------------
  // The shard vector and what it holds
  // ---------------------------------------------------------------------------

  /** `shards_`: shard i is the tree `trees[i]` with its counter `sizes[i]`. */
  datatype Shards<V> = Shards(trees: seq<Tree<V>>, sizes: seq<nat>)

  /** Every tree is a search tree and every counter is at least its tree's size. */
  ghost predicate Counted<V>(v: Shards<V>)
  {
    |v.sizes| == |v.trees| && AllBst(v.trees) && forall i :: 0 <= i < |v.trees| ==> |Keys(v.trees[i])| <= v.sizes[i]
  }

  /** No key is held twice, and every counter is its tree's size. */
  ghost predicate Coherent<V>(v: Shards<V>)
  {
    Disjoint(v.trees) && v.sizes == Sizes(v.trees)
  }

  /** The lowest-index shard other than `skip` that holds k. */
  function Scan<V>(trees: seq<Tree<V>>, k: int, skip: nat): (r: Option<nat>)
    ensures r.Some? ==> r.value < |trees| && r.value != skip && k in Keys(trees[r.value])
    ensures r.Some? ==> forall j :: 0 <= j < r.value && j != skip ==> k !in Keys(trees[j])
    ensures r.None? <==> forall j :: 0 <= j < |trees| && j != skip ==> k !in Keys(trees[j])
  {
    FirstHolder(trees, k, skip, 0)
  }

  // ---------------------------------------------------------------------------
  // Steps on one shard
  // ---------------------------------------------------------------------------

  /** `insert` into shard t: the tree takes the pair, and the counter goes up only if the tree grew. */
  function Put<V>(v: Shards<V>, t: nat, key: int, value: V): Shards<V>
    requires t < |v.trees| && |v.sizes| == |v.trees|
  {
    Shards(Placed(v.trees, t, key, value), if key in Keys(v.trees[t]) then v.sizes else Bumped(v.sizes, t))
  }

  /** A re-insertion into shard t (migration, `remove_shard`, `force_rebalance`): the counter goes up unconditionally. */
  function Push<V>(v: Shards<V>, t: nat, key: int, value: V): Shards<V>
    requires t < |v.trees| && |v.sizes| == |v.trees|
  {
    Shards(Placed(v.trees, t, key, value), Bumped(v.sizes, t))
  }

  /**
   * `tree.remove(key)` on shard i with the counter's `fetch_sub(1)`. The
   * model never takes a counter below zero; on a shard that holds the key
   * the counter is at least 1 (`Counted`), so this is exact.
   */
  function Take<V>(v: Shards<V>, i: nat, key: int): Shards<V>
    requires i < |v.trees| && |v.sizes| == |v.trees|
  {
    Shards(v.trees[i := Remove(v.trees[i], key, true)], Dropped(v.sizes, i))
  }

  /** Replacing one shard by a search tree and a counter at least its size keeps `Counted`; a counter equal to its size keeps exact counters exact. */
  lemma ReplaceFacts<V>(v: Shards<V>, i: nat, t: Tree<V>, size: nat)
    requires Counted(v) && i < |v.trees| && Bst(t) && |Keys(t)| <= size
    ensures Counted(Shards(v.trees[i := t], v.sizes[i := size]))
    ensures v.sizes == Sizes(v.trees) && size == |Keys(t)| ==> v.sizes[i := size] == Sizes(v.trees[i := t])
  {
    var w := Shards(v.trees[i := t], v.sizes[i := size]);
    forall j | 0 <= j < |w.trees| ensures Bst(w.trees[j]) && |Keys(w.trees[j])| <= w.sizes[j] {
      if j != i {
        assert w.trees[j] == v.trees[j] && w.sizes[j] == v.sizes[j];
      }
    }
    SizesUpdate(v.trees, i, t);
  }

  /** `Put` keeps `Counted`, keeps exact counters exact, and adds the key to the shard. */
  lemma PutFacts<V>(v: Shards<V>, t: nat, key: int, value: V)
    requires Counted(v) && t < |v.trees|
    ensures var w := Put(v, t, key, value);
      && Counted(w) && |w.trees| == |v.trees| && Keys(w.trees[t]) == Keys(v.trees[t]) + {key}
      && (v.sizes == Sizes(v.trees) ==> w.sizes == Sizes(w.trees))
  {
    var tree := Insert(v.trees[t], key, value, true);
    InsertSpec(v.trees[t], key, value, true);
    if key in Keys(v.trees[t]) {
      assert Keys(tree) == Keys(v.trees[t]);
      assert v.sizes == v.sizes[t := v.sizes[t]];
      ReplaceFacts(v, t, tree, v.sizes[t]);
    } else {
      assert |Keys(tree)| == |Keys(v.trees[t])| + 1;
      ReplaceFacts(v, t, tree, v.sizes[t] + 1);
    }
  }

  /** `Push` keeps `Counted`, and keeps exact counters exact when the key is new to the shard. */
  lemma PushFacts<V>(v: Shards<V>, t: nat, key: int, value: V)
    requires Counted(v) && t < |v.trees|
    ensures var w := Push(v, t, key, value);
      && Counted(w) && |w.trees| == |v.trees| && Keys(w.trees[t]) == Keys(v.trees[t]) + {key}
      && (v.sizes == Sizes(v.trees) && key !in Keys(v.trees[t]) ==> w.sizes == Sizes(w.trees))
  {
    var tree := Insert(v.trees[t], key, value, true);
    InsertSpec(v.trees[t], key, value, true);
    if key !in Keys(v.trees[t]) {
      assert |Keys(tree)| == |Keys(v.trees[t])| + 1;
    } else {
      assert Keys(tree) == Keys(v.trees[t]);
    }
    ReplaceFacts(v, t, tree, v.sizes[t] + 1);
  }

  /** `Take` on a shard holding the key keeps `Counted`, keeps exact counters exact, and drops the key. */
  lemma TakeFacts<V>(v: Shards<V>, i: nat, key: int)
    requires Counted(v) && i < |v.trees| && key in Keys(v.trees[i])
    ensures var w := Take(v, i, key);
      && Counted(w) && |w.trees| == |v.trees| && Keys(w.trees[i]) == Keys(v.trees[i]) - {key}
      && (v.sizes == Sizes(v.trees) ==> w.sizes == Sizes(w.trees))
  {
    var tree := Remove(v.trees[i], key, true);
    RemoveSpec(v.trees[i], key, true);
    assert |Keys(tree)| + 1 == |Keys(v.trees[i])|;
    ReplaceFacts(v, i, tree, v.sizes[i] - 1);
  }

  /** The counters of a vector with one tree replaced. */
  lemma SizesUpdate<V>(trees: seq<Tree<V>>, i: nat, t: Tree<V>)
    requires i < |trees|
    ensures Sizes(trees[i := t]) == Sizes(trees)[i := |Keys(t)|]
  {
  }

  // ---------------------------------------------------------------------------
  // contains / get
  // ---------------------------------------------------------------------------

  /** What `contains` and `get` find, and the vector after their lazy migration. */
  datatype Access<V> = Access(found: Option<V>, after: Shards<V>)

  /**
   * `contains` / `get` with expected shard e: the expected shard's value if
   * it holds the key; otherwise the lowest other shard holding the key hands
   * the pair over to the expected shard (a removal there, a re-insertion
   * here); nothing when no shard holds it.
   */
  function Accessed<V>(v: Shards<V>, e: nat, key: int): Access<V>
    requires Counted(v) && e < |v.trees|
  {
    if Lookup(v.trees[e], key).Some? then Access(Lookup(v.trees[e], key), v)
    else match Scan(v.trees, key, e)
      case None => Access(None, v)
      case Some(i) =>
        LookupKeys(v.trees[i], key);
        var x := Lookup(v.trees[i], key).value;
        Access(Some(x), Push(Take(v, i, key), e, key, x))
  }

  /**
   * Whatever the vector, an access finds a value some shard holds, finds
   * nothing only for a key no shard holds, leaves the key in the expected
   * shard when found, keeps `Counted`, and changes no pair any shard holds:
   * the migration moves a pair, it does not lose or invent one.
   */
  lemma AccessedFacts<V>(v: Shards<V>, e: nat, key: int)
    requires Counted(v) && e < |v.trees|
    ensures var r := Accessed(v, e, key);
      && Counted(r.after) && |r.after.trees| == |v.trees|
      && (r.found.None? <==> key !in KeySet(v.trees))
      && (forall x :: r.found == Some(x) ==> Holds(v.trees, key, x))
      && (r.found.Some? ==> key in Keys(r.after.trees[e]))
      && (forall k, x :: Holds(r.after.trees, k, x) <==> Holds(v.trees, k, x))
  {
    var r := Accessed(v, e, key);
    LookupKeys(v.trees[e], key);
    if Lookup(v.trees[e], key).None? {
      match Scan(v.trees, key, e)
      case None =>
      case Some(i) =>
        LookupKeys(v.trees[i], key);
        var x := Lookup(v.trees[i], key).value;
        MigrateFacts(v, i, e, key, x);
        MigrateHolds(v, i, e, key, x);
    }
  }

  /** Moving the pair (key, x) from shard i, which holds it, to shard e, which does not, keeps `Counted` and `Coherent`. */
  lemma MigrateFacts<V>(v: Shards<V>, i: nat, e: nat, key: int, x: V)
    requires Counted(v) && i < |v.trees| && e < |v.trees| && i != e
    requires Lookup(v.trees[i], key) == Some(x) && Lookup(v.trees[e], key).None?
    ensures var w := Push(Take(v, i, key), e, key, x);
      && Counted(w) && |w.trees| == |v.trees| && key in Keys(w.trees[e])
      && (Coherent(v) ==> Coherent(w))
  {
    LookupKeys(v.trees[i], key);
    LookupKeys(v.trees[e], key);
    var u := Take(v, i, key);
    TakeFacts(v, i, key);
    PushFacts(u, e, key, x);
    var w := Push(u, e, key, x);
    if Coherent(v) {
      assert Disjoint(w.trees) by {
        forall a, b, k | 0 <= a < |w.trees| && 0 <= b < |w.trees| && k in Keys(w.trees[a]) && k in Keys(w.trees[b]) ensures a == b {
          if k == key {
            assert a == e && b == e;
          } else {
            assert k in Keys(v.trees[a]) && k in Keys(v.trees[b]);
          }
        }
      }
    }
  }

  /** Moving the pair (key, x) from shard i to shard e changes no pair any shard holds. */
  lemma MigrateHolds<V>(v: Shards<V>, i: nat, e: nat, key: int, x: V)
    requires Counted(v) && i < |v.trees| && e < |v.trees| && i != e
    requires Lookup(v.trees[i], key) == Some(x) && Lookup(v.trees[e], key).None?
    ensures var w := Push(Take(v, i, key), e, key, x);
      forall k, y :: Holds(w.trees, k, y) <==> Holds(v.trees, k, y)
  {
    var w := Push(Take(v, i, key), e, key, x);
    assert w.trees == v.trees[i := Remove(v.trees[i], key, true)][e := Insert(v.trees[i := Remove(v.trees[i], key, true)][e], key, x, true)];
    MoveHolds(v.trees, i, e, key, x);
  }

  /** The tree half of `MigrateHolds`. */
  lemma MoveHolds<V>(trees: seq<Tree<V>>, i: nat, e: nat, key: int, x: V)
    requires AllBst(trees) && i < |trees| && e < |trees| && i != e
    requires Lookup(trees[i], key) == Some(x) && Lookup(trees[e], key).None?
    ensures var t := trees[i := Remove(trees[i], key, true)];
      var w := t[e := Insert(t[e], key, x, true)];
      forall k, y :: Holds(w, k, y) <==> Holds(trees, k, y)
  {
    var t := trees[i := Remove(trees[i], key, true)];
    var w := t[e := Insert(t[e], key, x, true)];
    RemoveSpec(trees[i], key, true);
    InsertSpec(trees[e], key, x, true);
    assert t[e] == trees[e];
    forall j, k | 0 <= j < |trees| && k != key ensures Lookup(w[j], k) == Lookup(trees[j], k) {
      if j != i && j != e {
        assert w[j] == trees[j];
      }
    }
    HoldsElsewhere(trees, w, key);
    forall y | Holds(w, key, y) ensures Holds(trees, key, y) {
      var j :| 0 <= j < |w| && Lookup(w[j], key) == Some(y);
      if j != e {
        assert j != i && w[j] == trees[j];
      }
    }
    forall y | Holds(trees, key, y) ensures Holds(w, key, y) {
      var j :| 0 <= j < |trees| && Lookup(trees[j], key) == Some(y);
      if j == i {
        assert Lookup(w[e], key) == Some(y);
      } else {
        assert j != e && w[j] == trees[j];
      }
    }
  }

  /** With no key held twice, an access finds exactly the value the vector holds, and keeps `Coherent`. */
  lemma AccessedCoherent<V>(v: Shards<V>, e: nat, key: int)
    requires Counted(v) && Coherent(v) && e < |v.trees|
    ensures var r := Accessed(v, e, key);
      && Coherent(r.after)
      && forall x :: r.found == Some(x) <==> Holds(v.trees, key, x)
  {
    var r := Accessed(v, e, key);
    AccessedFacts(v, e, key);
    LookupKeys(v.trees[e], key);
    if Lookup(v.trees[e], key).None? {
      match Scan(v.trees, key, e)
      case None =>
      case Some(i) =>
        LookupKeys(v.trees[i], key);
        MigrateFacts(v, i, e, key, Lookup(v.trees[i], key).value);
    }
    forall x | Holds(v.trees, key, x) ensures r.found == Some(x) {
      var j :| 0 <= j < |v.trees| && Lookup(v.trees[j], key) == Some(x);
      LookupKeys(v.trees[j], key);
      OnlyHolder(v.trees, key, j);
      if j != e {
        LookupKeys(v.trees[e], key);
      }
    }
  }

  // ---------------------------------------------------------------------------
  // remove and insert
  // ---------------------------------------------------------------------------

  /** `remove`: the lowest-index shard holding the key loses it; nothing changes when none holds it. */
  function Removed<V>(v: Shards<V>, key: int): Shards<V>
    requires |v.sizes| == |v.trees|
  {
    match Scan(v.trees, key, |v.trees|)
    case None => v
    case Some(i) => Take(v, i, key)
  }

  /** `remove` keeps `Counted`; with no key held twice it deletes exactly the key's pair and keeps `Coherent`. */
  lemma RemovedFacts<V>(v: Shards<V>, key: int)
    requires Counted(v)
    ensures var w := Removed(v, key);
      && Counted(w) && |w.trees| == |v.trees|
      && (Coherent(v) ==> (
            && Coherent(w) && KeySet(w.trees) == KeySet(v.trees) - {key}
            && forall k, y :: Holds(w.trees, k, y) <==> k != key && Holds(v.trees, k, y)))
  {
    match Scan(v.trees, key, |v.trees|)
    case None =>
      if Coherent(v) {
        assert key !in KeySet(v.trees);
        forall y | Holds(v.trees, key, y) ensures false {
          var j :| 0 <= j < |v.trees| && Lookup(v.trees[j], key) == Some(y);
          LookupKeys(v.trees[j], key);
        }
      }
    case Some(i) =>
      TakeFacts(v, i, key);
      if Coherent(v) {
        DropHolds(v.trees, i, key);
      }
  }

  /** The eviction step of the corrected insert: the lowest shard other than e holding the key loses it. */
  function Evicted<V>(v: Shards<V>, e: nat, key: int): Shards<V>
    requires |v.sizes| == |v.trees|
  {
    match Scan(v.trees, key, e)
    case None => v
    case Some(i) => Take(v, i, key)
  }

  /**
   * `insert` with expected shard e, corrected: any copy of the key in
   * another shard is evicted first, then shard e takes the pair.
   */
  function Inserted<V>(v: Shards<V>, e: nat, key: int, value: V): Shards<V>
    requires |v.sizes| == |v.trees| && e < |v.trees|
  {
    Put(Evicted(v, e, key), e, key, value)
  }

  /** The eviction step keeps `Counted`. */
  lemma EvictedFacts<V>(v: Shards<V>, e: nat, key: int)
    requires Counted(v) && e < |v.trees|
    ensures var u := Evicted(v, e, key); Counted(u) && |u.trees| == |v.trees|
  {
    match Scan(v.trees, key, e)
    case None =>
    case Some(i) => TakeFacts(v, i, key);
  }

  /** With no key held twice, the eviction step leaves the key in no shard but e and every other pair where it was. */
  lemma EvictedCoherent<V>(v: Shards<V>, e: nat, key: int)
    requires Counted(v) && Coherent(v) && e < |v.trees|
    ensures var u := Evicted(v, e, key);
      && Coherent(u) && KeySet(u.trees) + {key} == KeySet(v.trees) + {key}
      && (forall j :: 0 <= j < |u.trees| && j != e ==> key !in Keys(u.trees[j]))
      && forall k, y :: k != key ==> (Holds(u.trees, k, y) <==> Holds(v.trees, k, y))
  {
    match Scan(v.trees, key, e)
    case None =>
    case Some(i) =>
      TakeFacts(v, i, key);
      DropHolds(v.trees, i, key);
  }

  /** The corrected insert keeps `Counted` and leaves the key in shard e. */
  lemma InsertedFacts<V>(v: Shards<V>, e: nat, key: int, value: V)
    requires Counted(v) && e < |v.trees|
    ensures var w := Inserted(v, e, key, value);
      Counted(w) && |w.trees| == |v.trees| && key in Keys(w.trees[e])
  {
    EvictedFacts(v, e, key);
    PutFacts(Evicted(v, e, key), e, key, value);
  }

  /**
   * With no key held twice, the corrected insert keeps it so and stores
   * exactly the new pair in place of any old one.
   */
  lemma InsertedCoherent<V>(v: Shards<V>, e: nat, key: int, value: V)
    requires Counted(v) && Coherent(v) && e < |v.trees|
    ensures var w := Inserted(v, e, key, value);
      && Coherent(w) && KeySet(w.trees) == KeySet(v.trees) + {key}
      && forall k, y :: Holds(w.trees, k, y) <==> if k == key then y == value else Holds(v.trees, k, y)
  {
    var u := Evicted(v, e, key);
    EvictedFacts(v, e, key);
    EvictedCoherent(v, e, key);
    PutFacts(u, e, key, value);
    PlaceHolds(u.trees, e, key, value);
  }

  /** With no key held twice, a key removed after the corrected insert is gone from every shard. */
  lemma RemoveAfterInsert<V>(v: Shards<V>, e: nat, key: int, value: V)
    requires Counted(v) && Coherent(v) && e < |v.trees|
    ensures var w := Removed(Inserted(v, e, key, value), key);
      && Counted(w) && e < |w.trees|
      && key !in KeySet(w.trees) && Accessed(w, e, key).found.None?
  {
    InsertedFacts(v, e, key, value);
    InsertedCoherent(v, e, key, value);
    var u := Inserted(v, e, key, value);
    RemovedFacts(u, key);
    AccessedFacts(Removed(u, key), e, key);
  }

  /**
   * As written, `insert` writes to shard e only. When another shard i
   * already holds the key, both copies stay, the counters count the key
   * twice, and `remove` then deletes only the copy in the lower of the two
   * shards: the key is still stored and still found.
   */
  lemma RemoveKeepsCopyAsWritten<V>(v: Shards<V>, e: nat, i: nat, key: int, value: V)
    requires Counted(v) && e < |v.trees| && i < |v.trees| && i != e && key in Keys(v.trees[i])
    ensures var u := Put(v, e, key, value);
      var w := Removed(u, key);
      && !Disjoint(u.trees) && Counted(w) && e < |w.trees|
      && key in KeySet(w.trees) && Accessed(w, e, key).found.Some?
  {
    var u := Put(v, e, key, value);
    PutFacts(v, e, key, value);
    assert u.trees[i] == v.trees[i];
    var w := Removed(u, key);
    RemovedFacts(u, key);
    var h := Scan(u.trees, key, |u.trees|).value;
    RemoveSpec(u.trees[h], key, true);
    var other := if h == e then i else e;
    assert other != h && key in Keys(u.trees[other]);
    assert w.trees[other] == u.trees[other];
    AccessedFacts(w, e, key);
  }

  /** As written, the second copy raises the counters' sum while the set of stored keys stays the same. */
  lemma InsertCountsTwiceAsWritten<V>(v: Shards<V>, e: nat, i: nat, key: int, value: V)
    requires |v.sizes| == |v.trees| && e < |v.trees| && i < |v.trees| && i != e && key in Keys(v.trees[i])
    requires key !in Keys(v.trees[e])
    ensures var u := Put(v, e, key, value);
      KeySet(u.trees) == KeySet(v.trees) && Sum(u.sizes) == Sum(v.sizes) + 1
  {
    var u := Put(v, e, key, value);
    KeySetPlaced(v.trees, e, key, value);
    assert key in KeySet(v.trees) by {
      assert key in Keys(v.trees[i]);
    }
    assert u.sizes == v.sizes[e := v.sizes[e] + 1];
    SumUpdate(v.sizes, e, v.sizes[e] + 1);
  }

  // ---------------------------------------------------------------------------
  // Re-insertion after a topology change (remove_shard, force_rebalance)
  // ---------------------------------------------------------------------------

  /**
   * The re-insertion loop of `remove_shard` and `force_rebalance`: the
   * pairs, in order, each go to the shard `home` names for the key (the
   * ring lookup of its hash), and that shard's counter goes up whether or
   * not the tree grew.
   */
  function Refilled<V>(v: Shards<V>, home: int -> nat, pairs: seq<Pair<V>>): (r: Shards<V>)
    requires |v.sizes| == |v.trees| && forall k :: home(k) < |v.trees|
    ensures |r.sizes| == |r.trees| == |v.trees|
    decreases |pairs|
  {
    if pairs == [] then v
    else
      var p := pairs[|pairs| - 1];
      Push(Refilled(v, home, pairs[..|pairs| - 1]), home(p.key), p.key, p.value)
  }

  /** A key is at home when the shard the ring names for it (`home`) holds it. */
  ghost predicate AtHome<V>(trees: seq<Tree<V>>, home: int -> nat, k: int)
  {
    home(k) < |trees| && k in Keys(trees[home(k)])
  }

  /** A re-insertion only adds keys: every shard keeps what it held, and shard t gains the key. */
  lemma PushGrows<V>(v: Shards<V>, t: nat, key: int, value: V)
    requires t < |v.trees| && |v.sizes| == |v.trees|
    ensures var w := Push(v, t, key, value);
      && key in Keys(w.trees[t])
      && forall j :: 0 <= j < |v.trees| ==> Keys(v.trees[j]) <= Keys(w.trees[j])
  {
    var w := Push(v, t, key, value);
    InsertSpec(v.trees[t], key, value, true);
    forall j | 0 <= j < |v.trees| ensures Keys(v.trees[j]) <= Keys(w.trees[j]) {
      if j != t {
        assert w.trees[j] == v.trees[j];
      }
    }
  }

  /** The re-insertion loop takes no key from any shard. */
  lemma {:induction false} RefilledGrows<V>(v: Shards<V>, home: int -> nat, pairs: seq<Pair<V>>)
    requires |v.sizes| == |v.trees| && forall k :: home(k) < |v.trees|
    ensures var w := Refilled(v, home, pairs);
      forall j :: 0 <= j < |v.trees| ==> Keys(v.trees[j]) <= Keys(w.trees[j])
    decreases |pairs|
  {
    if pairs != [] {
      var front, p := pairs[..|pairs| - 1], pairs[|pairs| - 1];
      RefilledGrows(v, home, front);
      var u := Refilled(v, home, front);
      PushGrows(u, home(p.key), p.key, p.value);
    }
  }

  /** After the re-insertion loop every re-inserted key is at home. */
  lemma {:induction false} RefilledHome<V>(v: Shards<V>, home: int -> nat, pairs: seq<Pair<V>>)
    requires |v.sizes| == |v.trees| && forall k :: home(k) < |v.trees|
    ensures var w := Refilled(v, home, pairs);
      forall i :: 0 <= i < |pairs| ==> AtHome(w.trees, home, pairs[i].key)
    decreases |pairs|
  {
    if pairs != [] {
      var front, p := pairs[..|pairs| - 1], pairs[|pairs| - 1];
      RefilledHome(v, home, front);
      var u := Refilled(v, home, front);
      var t := home(p.key);
      var w := Push(u, t, p.key, p.value);
      PushGrows(u, t, p.key, p.value);
      assert w == Refilled(v, home, pairs);
      forall i | 0 <= i < |pairs| ensures AtHome(w.trees, home, pairs[i].key) {
        if i < |front| {
          var q := front[i];
          assert q == pairs[i];
          assert AtHome(u.trees, home, q.key);
          var s := home(q.key);
          assert Keys(u.trees[s]) <= Keys(w.trees[s]);
        }
      }
    }
  }

  /** A re-inserted key no shard holds: the pair is stored and nothing else changes, so `Coherent` is kept. */
  lemma PushFresh<V>(v: Shards<V>, t: nat, key: int, value: V)
    requires Counted(v) && Coherent(v) && t < |v.trees| && key !in KeySet(v.trees)
    ensures var w := Push(v, t, key, value);
      && Counted(w) && Coherent(w) && KeySet(w.trees) == KeySet(v.trees) + {key}
      && forall k, y :: Holds(w.trees, k, y) <==> Holds(v.trees, k, y) || (k == key && y == value)
  {
    PushFacts(v, t, key, value);
    PlaceFresh(v.trees, t, key, value);
  }

  /**
   * Re-inserting pairs with distinct keys no shard holds keeps `Counted`
   * and `Coherent`, and the shards then hold exactly the old pairs and the
   * re-inserted ones.
   */
  lemma {:induction false} RefilledFacts<V>(v: Shards<V>, home: int -> nat, pairs: seq<Pair<V>>)
    requires Counted(v) && Coherent(v) && forall k :: home(k) < |v.trees|
    requires UniqueKeys(pairs) && PairKeys(pairs) !! KeySet(v.trees)
    ensures var w := Refilled(v, home, pairs);
      && Counted(w) && Coherent(w) && KeySet(w.trees) == KeySet(v.trees) + PairKeys(pairs)
      && forall k, y :: Holds(w.trees, k, y) <==> Holds(v.trees, k, y) || Pair(k, y) in pairs
    decreases |pairs|
  {
    if pairs == [] {
      assert PairKeys(pairs) == {};
    } else {
      var n := |pairs| - 1;
      var front, p := pairs[..n], pairs[n];
      assert pairs == front + [p];
      PairKeysStep(pairs, n);
      assert pairs[..n + 1] == pairs;
      assert PairKeys(front) <= PairKeys(pairs);
      RefilledFacts(v, home, front);
      assert p.key !in PairKeys(front);
      var u := Refilled(v, home, front);
      var w := Push(u, home(p.key), p.key, p.value);
      assert w == Refilled(v, home, pairs);
      PushFresh(u, home(p.key), p.key, p.value);
      RefillStep(v.trees, u.trees, w.trees, front, p);
    }
  }

  // ---------------------------------------------------------------------------
  // remove_shard and force_rebalance
  // ---------------------------------------------------------------------------

  /** `remove_shard` before re-insertion: the last shard and its counter are dropped. */
  function Popped<V>(v: Shards<V>): (r: Shards<V>)
    requires 0 < |v.trees| == |v.sizes|
    ensures |r.trees| == |r.sizes| == |v.trees| - 1
  {
    Shards(v.trees[..|v.trees| - 1], v.sizes[..|v.sizes| - 1])
  }

  /**
   * `remove_shard` with two or more shards: the last shard is dropped and
   * its pairs, in ascending key order, are re-inserted where `home` (the
   * ring rebuilt over the remaining shards) sends them.
   */
  function ShardRemoved<V>(v: Shards<V>, home: int -> nat): Shards<V>
    requires 2 <= |v.trees| == |v.sizes| && forall k :: home(k) < |v.trees| - 1
  {
    Refilled(Popped(v), home, InOrder(v.trees[|v.trees| - 1]))
  }

  /** Dropping the last shard of a vector that holds no key twice: what stays and what goes. */
  lemma PoppedFacts<V>(v: Shards<V>)
    requires Counted(v) && Coherent(v) && 0 < |v.trees|
    ensures var base, last := Popped(v), v.trees[|v.trees| - 1];
      && Counted(base) && Coherent(base) && Bst(last)
      && KeySet(v.trees) == KeySet(base.trees) + Keys(last) && Keys(last) !! KeySet(base.trees)
      && forall k, y :: Holds(v.trees, k, y) <==> Holds(base.trees, k, y) || Lookup(last, k) == Some(y)
  {
    var n := |v.trees| - 1;
    var base := Popped(v);
    assert Counted(base);
    assert Disjoint(base.trees);
    assert base.sizes == Sizes(base.trees);
    KeySetDrop(v.trees);
    HoldsDrop(v.trees);
    forall i, k | 0 <= i < n && k in Keys(v.trees[n]) ensures k !in Keys(base.trees[i]) {
      assert base.trees[i] == v.trees[i];
    }
  }

  /** With no key held twice, `remove_shard` keeps every stored pair and `Coherent`. */
  lemma ShardRemovedFacts<V>(v: Shards<V>, home: int -> nat)
    requires Counted(v) && Coherent(v) && 2 <= |v.trees| && forall k :: home(k) < |v.trees| - 1
    ensures var w := ShardRemoved(v, home);
      && Counted(w) && Coherent(w) && |w.trees| == |v.trees| - 1
      && KeySet(w.trees) == KeySet(v.trees)
      && forall k, y :: Holds(w.trees, k, y) <==> Holds(v.trees, k, y)
  {
    var last := v.trees[|v.trees| - 1];
    var pairs := InOrder(last);
    var base := Popped(v);
    var w := ShardRemoved(v, home);
    assert w == Refilled(base, home, pairs);
    PoppedFacts(v);
    PairKeysInOrder(last);
    InOrderAscending(last);
    InOrderPairs(last);
    RefilledFacts(base, home, pairs);
    assert KeySet(w.trees) == KeySet(base.trees) + Keys(last);
    forall k, y ensures Holds(w.trees, k, y) <==> Holds(v.trees, k, y) {
      assert Holds(w.trees, k, y) <==> Holds(base.trees, k, y) || Pair(k, y) in pairs;
      assert Pair(k, y) in pairs <==> Lookup(last, k) == Some(y);
    }
  }

  /** After `remove_shard` every key of the dropped shard is at home. */
  lemma ShardRemovedHome<V>(v: Shards<V>, home: int -> nat)
    requires 2 <= |v.trees| == |v.sizes| && forall k :: home(k) < |v.trees| - 1
    ensures var w := ShardRemoved(v, home);
      forall k :: k in Keys(v.trees[|v.trees| - 1]) ==> AtHome(w.trees, home, k)
  {
    var last := v.trees[|v.trees| - 1];
    var pairs := InOrder(last);
    var w := Refilled(Popped(v), home, pairs);
    assert w == ShardRemoved(v, home);
    PairKeysInOrder(last);
    RefilledHome(Popped(v), home, pairs);
    forall k | k in Keys(last) ensures AtHome(w.trees, home, k) {
      var i :| 0 <= i < |pairs| && pairs[i].key == k;
    }
  }

  /** `force_rebalance`'s fresh vector: n empty shards with zero counters. */
  function Emptied<V>(n: nat): (r: Shards<V>)
    ensures |r.trees| == |r.sizes| == n
  {
    Shards(seq(n, _ => Leaf), seq(n, _ => 0))
  }

  /**
   * `force_rebalance`: every pair, gathered shard by shard in ascending key
   * order, is re-inserted into fresh empty shards where `home` sends it.
   */
  function Rebalanced<V>(v: Shards<V>, home: int -> nat): Shards<V>
    requires forall k :: home(k) < |v.trees|
  {
    Refilled(Emptied(|v.trees|), home, AllPairs(v.trees))
  }

  /** Fresh empty shards hold nothing and count nothing. */
  lemma EmptiedFacts<V>(n: nat)
    ensures var base: Shards<V> := Emptied(n);
      && Counted(base) && Coherent(base) && KeySet(base.trees) == {}
      && forall k, y :: !Holds(base.trees, k, y)
  {
    var base: Shards<V> := Emptied(n);
    assert forall i :: 0 <= i < n ==> Keys(base.trees[i]) == {};
    assert KeySet(base.trees) == {};
  }

  /** With no key held twice, `force_rebalance` keeps every stored pair, the shard count and `Coherent`. */
  lemma RebalancedFacts<V>(v: Shards<V>, home: int -> nat)
    requires Counted(v) && Coherent(v) && forall k :: home(k) < |v.trees|
    ensures var w := Rebalanced(v, home);
      && Counted(w) && Coherent(w) && |w.trees| == |v.trees|
      && KeySet(w.trees) == KeySet(v.trees)
      && forall k, y :: Holds(w.trees, k, y) <==> Holds(v.trees, k, y)
  {
    EmptiedFacts<V>(|v.trees|);
    AllPairsUnique(v.trees);
    AllPairsKeys(v.trees);
    AllPairsHolds(v.trees);
    RefilledFacts(Emptied(|v.trees|), home, AllPairs(v.trees));
  }

  /** After `force_rebalance` every stored key is at home. */
  lemma RebalancedHome<V>(v: Shards<V>, home: int -> nat)
    requires AllBst(v.trees) && forall k :: home(k) < |v.trees|
    ensures var w := Rebalanced(v, home);
      forall k :: k in KeySet(v.trees) ==> AtHome(w.trees, home, k)
  {
    var pairs := AllPairs(v.trees);
    AllPairsKeys(v.trees);
    RefilledHome(Emptied(|v.trees|), home, pairs);
    var w := Rebalanced(v, home);
    forall k | k in KeySet(v.trees) ensures AtHome(w.trees, home, k) {
      assert k in PairKeys(pairs);
      var i :| 0 <= i < |pairs| && pairs[i].key == k;
      assert AtHome(w.trees, home, pairs[i].key);
    }
  }

  /** With no key held twice, the counters add up to the number of stored keys: what `size()` reports. */
  lemma SizeCounts<V>(v: Shards<V>)
    requires Coherent(v)
    ensures Sum(v.sizes) == |KeySet(v.trees)|
  {
    DisjointSize(v.trees);
  }

  // ---------------------------------------------------------------------------
  // add_shard
  // ---------------------------------------------------------------------------

  /** `add_shard`'s new vector: one more empty shard with a zero counter, at the end. */
  function Grown<V>(v: Shards<V>): (r: Shards<V>)
    ensures |r.trees| == |v.trees| + 1 && |r.sizes| == |v.sizes| + 1
  {
    Shards(v.trees + [Leaf], v.sizes + [0])
  }

  /** `add_shard` keeps `Counted`. */
  lemma GrownCounted<V>(v: Shards<V>)
    requires Counted(v)
    ensures Counted(Grown(v))
  {
    var w := Grown(v);
    forall i | 0 <= i < |w.trees| ensures Bst(w.trees[i]) && |Keys(w.trees[i])| <= w.sizes[i] {
      if i < |v.trees| {
        assert w.trees[i] == v.trees[i] && w.sizes[i] == v.sizes[i];
      }
    }
  }

  /** `add_shard` moves no pair: `Coherent` and every stored pair are kept. */
  lemma GrownFacts<V>(v: Shards<V>)
    ensures var w := Grown(v);
      && (Coherent(v) ==> Coherent(w))
      && KeySet(w.trees) == KeySet(v.trees)
      && forall k, y :: Holds(w.trees, k, y) <==> Holds(v.trees, k, y)
  {
    var w := Grown(v);
    assert w.trees[..|v.trees|] == v.trees;
    KeySetDrop(w.trees);
    HoldsDrop(w.trees);
    assert Keys(w.trees[|v.trees|]) == {};
    if Coherent(v) {
      assert Sizes(w.trees) == Sizes(v.trees) + [0];
    }
  }

  /** The shard the ring names for each key: what `find_shard_locked(hash_key(key))` answers. */
  function HomeOf(ring: seq<VirtualNode>, keyHash: int -> nat): (home: int -> nat)
    ensures forall n :: InRing(ring, n) ==> forall k :: home(k) < n
  {
    HomeIn(ring, keyHash);
    k => FindShard(ring, keyHash(k))
  }

  /** Whatever the key hash, a ring over n shards names one of them. */
  lemma HomeIn(ring: seq<VirtualNode>, keyHash: int -> nat)
    ensures forall n, k :: InRing(ring, n) ==> FindShard(ring, keyHash(k)) < n
  {
    forall n, k | InRing(ring, n) ensures FindShard(ring, keyHash(k)) < n {
      FindShardIn(ring, n, keyHash(k));
    }
  }

  /** What `rebuild_ring_locked` leaves for n shards: their points, sorted by hash. */
  ghost predicate RingOf(ring: seq<VirtualNode>, n: nat, per: nat, pointOf: (nat, nat) -> nat)
  {
    InRing(ring, n) && Sorted(ring) && multiset(ring) == multiset(Points(n, per, pointOf))
  }

  // ---------------------------------------------------------------------------
  // The tree object
  // ---------------------------------------------------------------------------

  /**
   * `DynamicShardedTree`. The key hash and the ring point hash are kept as
   * function fields set by the constructor (`hash_key` over the given
   * `std::hash`, and `hash_vnode`); `zero` is `Value{}`, what `get`
   * answers for a missing key.
   */
  class DynamicShardedTree<V> {
    const vnodesPerShard: nat
    const keyHash: int -> nat
    const pointOf: (nat, nat) -> nat
    const zero: V
    var shards: Shards<V>
    var ring: seq<VirtualNode>
    var topologyVersion: nat

    /** Every shard is counted, and the ring holds the points of exactly the current shards. */
    ghost predicate Valid()
      reads this
    {
      Counted(shards) && RingOf(ring, |shards.trees|, vnodesPerShard, pointOf)
    }

    /** The constructor: `initial_shards` empty shards and their ring. */
    constructor(config: Config, stdHash: int -> bv64, zero: V)
      requires config.initialShards > 0
      ensures Valid() && Coherent(shards) && KeySet(shards.trees) == {}
      ensures |shards.trees| == config.initialShards && vnodesPerShard == config.vnodesPerShard
      ensures topologyVersion == 0 && this.zero == zero
      ensures forall k :: keyHash(k) == HashKey(stdHash, k)
      ensures forall s, v :: pointOf(s, v) == HashVnode(s, v)
    {
      var r := BuildRing(config.initialShards, config.vnodesPerShard, HashVnode);
      EmptiedFacts<V>(config.initialShards);
      vnodesPerShard := config.vnodesPerShard;
      keyHash := k => HashKey(stdHash, k);
      pointOf := HashVnode;
      this.zero := zero;
      shards := Emptied(config.initialShards);
      ring := r;
      topologyVersion := 0;
    }

    /** `find_shard_locked(hash_key(key))`: the key's expected shard. */
    method Locate(key: int) returns (e: nat)
      requires Valid()
      ensures e == FindShard(ring, keyHash(key)) && e < |shards.trees|
    {
      e := LocateShard(ring, keyHash(key));
      FindShardIn(ring, |shards.trees|, keyHash(key));
    }

    /**
     * `insert`, corrected: a copy of the key in any shard but the expected
     * one is evicted first, then the expected shard takes the pair and its
     * counter goes up if its tree grew.
     */
    method Insert(key: int, value: V)
      requires Valid()
      modifies this
      ensures Valid() && ring == old(ring) && topologyVersion == old(topologyVersion)
      ensures shards == Inserted(old(shards), FindShard(ring, keyHash(key)), key, value)
    {
      var e := Locate(key);
      InsertedFacts(shards, e, key, value);
      Evict(key, e);
      shards := Put(shards, e, key, value);
    }

    /** The eviction step of the corrected `insert`: the key leaves the lowest shard but e that holds it. */
    method Evict(key: int, e: nat)
      requires Valid() && e < |shards.trees|
      modifies this
      ensures Valid() && ring == old(ring) && topologyVersion == old(topologyVersion)
      ensures shards == Evicted(old(shards), e, key)
    {
      EvictedFacts(shards, e, key);
      var i := ScanShards(shards.trees, key, e);
      if i.Some? {
        shards := Take(shards, i.value, key);
      }
    }

    /** `insert` as written: only the expected shard is touched. */
    method InsertAsWritten(key: int, value: V)
      requires Valid()
      modifies this
      ensures Valid() && ring == old(ring) && topologyVersion == old(topologyVersion)
      ensures shards == Put(old(shards), FindShard(ring, keyHash(key)), key, value)
    {
      var e := Locate(key);
      PutFacts(shards, e, key, value);
      shards := Put(shards, e, key, value);
    }

    /**
     * The search shared by `contains` and `get`: the expected shard first,
     * then the other shards in index order, migrating a pair found there.
     */
    method Access(key: int) returns (found: Option<V>)
      requires Valid()
      modifies this
      ensures Valid() && ring == old(ring) && topologyVersion == old(topologyVersion)
      ensures var r := Accessed(old(shards), FindShard(ring, keyHash(key)), key);
        found == r.found && shards == r.after
    {
      var e := Locate(key);
      AccessedFacts(shards, e, key);
      found := Lookup(shards.trees[e], key);
      if found.None? {
        found := Migrate(key, e);
      }
    }

    /**
     * The second half of the search: the lowest shard other than e holding
     * the key hands its pair over to shard e.
     */
    method Migrate(key: int, e: nat) returns (found: Option<V>)
      requires Valid() && e < |shards.trees| && Lookup(shards.trees[e], key).None?
      modifies this
      ensures Valid() && ring == old(ring) && topologyVersion == old(topologyVersion)
      ensures var r := Accessed(old(shards), e, key); found == r.found && shards == r.after
    {
      AccessedFacts(shards, e, key);
      var i := ScanShards(shards.trees, key, e);
      if i.None? {
        return None;
      }
      LookupKeys(shards.trees[i.value], key);
      var x := Lookup(shards.trees[i.value], key).value;
      shards := Push(Take(shards, i.value, key), e, key, x);
      found := Some(x);
    }

    /** `contains`: whether some shard holds the key, migrating it home if found elsewhere. */
    method Contains(key: int) returns (b: bool)
      requires Valid()
      modifies this
      ensures Valid() && ring == old(ring) && topologyVersion == old(topologyVersion)
      ensures b <==> key in KeySet(old(shards.trees))
      ensures shards == Accessed(old(shards), FindShard(ring, keyHash(key)), key).after
    {
      ghost var e := FindShard(ring, keyHash(key));
      FindShardIn(ring, |shards.trees|, keyHash(key));
      AccessedFacts(shards, e, key);
      var found := Access(key);
      b := found.Some?;
    }

    /** `get`: the value some shard holds for the key, or `Value{}` when none does. */
    method Get(key: int) returns (value: V)
      requires Valid()
      modifies this
      ensures Valid() && ring == old(ring) && topologyVersion == old(topologyVersion)
      ensures var r := Accessed(old(shards), FindShard(ring, keyHash(key)), key);
        && shards == r.after
        && value == if r.found.Some? then r.found.value else zero
    {
      var found := Access(key);
      value := if found.Some? then found.value else zero;
    }

    /** `remove`: the lowest-index shard holding the key loses it. */
    method Remove(key: int)
      requires Valid()
      modifies this
      ensures Valid() && ring == old(ring) && topologyVersion == old(topologyVersion)
      ensures shards == Removed(old(shards), key)
    {
      RemovedFacts(shards, key);
      var i := ScanShards(shards.trees, key, |shards.trees|);
      if i.Some? {
        shards := Take(shards, i.value, key);
      }
    }

    /** `size`: the sum of the shard counters; the number of stored keys while no key is held twice. */
    method Size() returns (total: nat)
      requires Valid()
      ensures total == Sum(shards.sizes)
      ensures Coherent(shards) ==> total == |KeySet(shards.trees)|
    {
      var sizes := shards.sizes;
      total := 0;
      var i := 0;
      while i < |sizes|
        invariant i <= |sizes| && total == Sum(sizes[..i])
      {
        assert sizes[..i + 1][..i] == sizes[..i];
        total := total + sizes[i];
        i := i + 1;
      }
      assert sizes[..i] == sizes;
      if Coherent(shards) {
        SizeCounts(shards);
      }
    }

    /** `add_shard`: an empty shard at the end, the ring rebuilt, the version bumped; no pair moves. */
    method AddShard()
      requires Valid()
      modifies this
      ensures Valid() && topologyVersion == old(topologyVersion) + 1
      ensures shards == Grown(old(shards))
    {
      GrownCounted(shards);
      shards := Grown(shards);
      ring := BuildRing(|shards.trees|, vnodesPerShard, pointOf);
      topologyVersion := topologyVersion + 1;
    }

    /** The re-insertion loop: each pair goes to the shard the current ring names for it. */
    method Reinsert(pairs: seq<Pair<V>>)
      requires Valid()
      modifies this
      ensures Valid() && ring == old(ring) && topologyVersion == old(topologyVersion)
      ensures shards == Refilled(old(shards), HomeOf(ring, keyHash), pairs)
    {
      ghost var base := shards;
      ghost var home := HomeOf(ring, keyHash);
      var j := 0;
      while j < |pairs|
        invariant j <= |pairs| && Valid() && ring == old(ring) && topologyVersion == old(topologyVersion)
        invariant |shards.trees| == |base.trees| && shards == Refilled(base, home, pairs[..j])
      {
        assert pairs[..j + 1][..j] == pairs[..j];
        PushPair(pairs[j]);
        j := j + 1;
      }
      assert pairs[..j] == pairs;
    }

    /** One re-insertion: the pair goes to its expected shard, whose counter goes up unconditionally. */
    method PushPair(p: Pair<V>)
      requires Valid()
      modifies this
      ensures Valid() && ring == old(ring) && topologyVersion == old(topologyVersion)
      ensures shards == Push(old(shards), FindShard(ring, keyHash(p.key)), p.key, p.value)
    {
      var t := Locate(p.key);
      PushFacts(shards, t, p.key, p.value);
      shards := Push(shards, t, p.key, p.value);
    }

    /**
     * `remove_shard`: nothing with one shard; otherwise the last shard is
     * dropped, the ring rebuilt, the version bumped, and the dropped
     * shard's pairs re-inserted over the new ring.
     */
    method RemoveShard()
      requires Valid()
      modifies this
      ensures Valid()
      ensures old(|shards.trees|) <= 1 ==> shards == old(shards) && ring == old(ring) && topologyVersion == old(topologyVersion)
      ensures old(|shards.trees|) > 1 ==>
        && topologyVersion == old(topologyVersion) + 1
        && |shards.trees| == old(|shards.trees|) - 1
        && shards == ShardRemoved(old(shards), HomeOf(ring, keyHash))
    {
      if |shards.trees| > 1 {
        RemoveLast();
      }
    }

    /** `remove_shard` with two or more shards. */
    method RemoveLast()
      requires Valid() && |shards.trees| > 1
      modifies this
      ensures Valid() && |shards.trees| == old(|shards.trees|) - 1 && topologyVersion == old(topologyVersion) + 1
      ensures shards == ShardRemoved(old(shards), HomeOf(ring, keyHash))
    {
      var pairs := DropLast();
      ghost var base := shards;
      Reinsert(pairs);
      ghost var home := HomeOf(ring, keyHash);
      assert InRing(ring, |base.trees|);
      assert forall k :: home(k) < |base.trees|;
      assert shards == Refilled(base, home, pairs);
    }

    /**
     * The first half of `remove_shard`: the last shard's pairs are taken
     * out in ascending key order, the shard is dropped, the ring rebuilt
     * and the version bumped.
     */
    method DropLast() returns (pairs: seq<Pair<V>>)
      requires Valid() && |shards.trees| > 1
      modifies this
      ensures Valid() && topologyVersion == old(topologyVersion) + 1
      ensures pairs == InOrder(old(shards.trees[|shards.trees| - 1])) && shards == Popped(old(shards))
    {
      var n := |shards.trees| - 1;
      pairs := InOrder(shards.trees[n]);
      shards := Popped(shards);
      ring := BuildRing(n, vnodesPerShard, pointOf);
      topologyVersion := topologyVersion + 1;
    }

    /**
     * `force_rebalance`: every pair is gathered, shard by shard, the shards
     * are replaced by empty ones, and the pairs are re-inserted over the
     * unchanged ring; the version is not bumped.
     */
    method ForceRebalance()
      requires Valid()
      modifies this
      ensures Valid() && ring == old(ring) && topologyVersion == old(topologyVersion)
      ensures shards == Rebalanced(old(shards), HomeOf(ring, keyHash))
    {
      var trees := shards.trees;
      var all: seq<Pair<V>> := [];
      var i := 0;
      while i < |trees|
        invariant i <= |trees| && all == AllPairs(trees[..i])
      {
        assert trees[..i + 1][..i] == trees[..i];
        all := all + InOrder(trees[i]);
        i := i + 1;
      }
      assert trees[..i] == trees;
      EmptiedFacts<V>(|trees|);
      shards := Emptied(|trees|);
      Reinsert(all);
    }

    /** `get_stats` without the balance score: the shard count, the counters and their sum. */
    method GetStats() returns (stats: Stats)
      requires Valid()
      ensures stats.numShards == |shards.trees| && stats.elementsPerShard == shards.sizes
      ensures stats.totalElements == Sum(shards.sizes)
      ensures Coherent(shards) ==> stats.totalElements == |KeySet(shards.trees)| && stats.elementsPerShard == Sizes(shards.trees)
    {
      var per: seq<nat> := [];
      var total := 0;
      var i := 0;
      while i < |shards.sizes|
        invariant i <= |shards.sizes| && per == shards.sizes[..i] && total == Sum(per)
      {
        assert shards.sizes[..i + 1] == per + [shards.sizes[i]];
        per := per + [shards.sizes[i]];
        total := total + shards.sizes[i];
        i := i + 1;
      }
      assert per == shards.sizes;
      if Coherent(shards) {
        SizeCounts(shards);
      }
      stats := Stats(|shards.trees|, total, per);
    }
  }
}

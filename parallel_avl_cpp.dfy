/**
 * `ParallelAVL` (`include/parallel_avl.hpp`): the C++ sharded tree.
 *
 * A key's natural shard is `std::hash(key) % num_shards`; `insert` asks the
 * adversary-resistant router for a target shard, stores the pair there and,
 * when the target is not the natural shard, records key -> target in the
 * redirect index. `contains` and `get` look in the natural shard first and
 * consult the index only on a miss; `remove` does the same and erases the
 * index entry on success.
 *
 * The shards are owned through `unique_ptr`, so no two of them alias: the
 * model keeps them as a sequence of tree values, with each shard's insert
 * and lookup counters alongside. The router and the index are objects of
 * their own classes. `std::hash<Key>` is the function `keyHash`, shared
 * with the router.
 *
 * As written, `insert` never removes an earlier copy of the key: when the
 * router sends a key that is already stored to another shard, both copies
 * stay, and `get` keeps answering the old value from the natural shard.
 * `InsertAsWritten` models that code; `Insert` is the corrected operation,
 * which first evicts the key from the shard it lives in. `Tidy` (every
 * stored key is held by its home shard only) is the invariant the corrected
 * operations keep and under which `contains`, `get`, `range_query` and
 * `size` agree with one another.
 */
module CppParallel {
  import opened Wrappers
  import opened Hashing
  import opened Routing
  import opened AvlCore
  import opened AvlOrder
  import opened ShardTrees
  import opened CppRouter
  import opened CppRedirectIndex
  import Redirects

  /** The constructor's default shard count and strategy. */
  const DEFAULT_SHARDS: nat := 8
  const DEFAULT_STRATEGY: Strategy := Intelligent

  // ---------------------------------------------------------------------------
  // Where a key is looked for
  // ---------------------------------------------------------------------------

  /** `std::hash<Key>{}(key) % num_shards_`. */
  function NaturalOf(keyHash: int -> bv64, n: nat, key: int): (s: nat)
    requires n > 0
    ensures s < n
  {
    WordValue(keyHash(key)) % n
  }

  /** Index entries never name their key's natural shard: only a real redirect is recorded. */
  ghost predicate NoSelf(m: map<int, nat>, keyHash: int -> bv64, n: nat)
    requires n > 0
  {
    forall k :: k in m ==> m[k] != NaturalOf(keyHash, n, k)
  }

  /**
   * What `get` answers: the natural shard's value when it has the key,
   * otherwise the value in the shard the index names, otherwise nothing.
   */
  function Found<V>(shards: seq<Tree<V>>, m: map<int, nat>, keyHash: int -> bv64, key: int): Option<V>
    requires |shards| > 0 && Bounded(m, |shards|)
  {
    var natural := NaturalOf(keyHash, |shards|, key);
    var r := Lookup(shards[natural], key);
    if r.Some? then r
    else if key in m then Lookup(shards[m[key]], key)
    else None
  }

  /** The shard a key belongs in: the one its index entry names, else its natural shard. */
  function Home(m: map<int, nat>, keyHash: int -> bv64, n: nat, key: int): (s: nat)
    requires n > 0 && Bounded(m, n)
    ensures s < n
  {
    if key in m then m[key] else NaturalOf(keyHash, n, key)
  }

  /** Every stored key is held by its home shard and by no other. */
  ghost predicate Tidy<V>(shards: seq<Tree<V>>, m: map<int, nat>, keyHash: int -> bv64)
    requires |shards| > 0 && Bounded(m, |shards|)
  {
    forall i, k :: 0 <= i < |shards| && k in Keys(shards[i]) ==> i == Home(m, keyHash, |shards|, k)
  }

  /**
   * With every key at home, the two-step search of `get` answers exactly
   * what the key's home shard holds, and finds exactly the stored keys.
   */
  lemma TidyFound<V>(shards: seq<Tree<V>>, m: map<int, nat>, keyHash: int -> bv64, key: int)
    requires |shards| > 0 && Bounded(m, |shards|) && AllBst(shards) && Tidy(shards, m, keyHash)
    ensures Found(shards, m, keyHash, key) == Lookup(shards[Home(m, keyHash, |shards|, key)], key)
    ensures Found(shards, m, keyHash, key).Some? <==> key in KeySet(shards)
  {
    var n := |shards|;
    var natural, home := NaturalOf(keyHash, n, key), Home(m, keyHash, n, key);
    LookupKeys(shards[home], key);
    if home != natural {
      LookupKeys(shards[natural], key);
      assert key !in Keys(shards[natural]);
    }
    if key in KeySet(shards) {
      var i :| 0 <= i < n && key in Keys(shards[i]);
      assert i == home;
    }
  }

  /** Keys at home are held once. */
  lemma TidyDisjoint<V>(shards: seq<Tree<V>>, m: map<int, nat>, keyHash: int -> bv64)
    requires |shards| > 0 && Bounded(m, |shards|) && Tidy(shards, m, keyHash)
    ensures Disjoint(shards)
  {
    forall i, j, k | 0 <= i < |shards| && 0 <= j < |shards| && k in Keys(shards[i]) && k in Keys(shards[j]) ensures i == j {
      assert i == Home(m, keyHash, |shards|, k) == j;
    }
  }

  /** `size()` of a tidy vector counts each stored key once. */
  lemma TidySize<V>(shards: seq<Tree<V>>, m: map<int, nat>, keyHash: int -> bv64)
    requires |shards| > 0 && Bounded(m, |shards|) && Tidy(shards, m, keyHash)
    ensures TotalSize(shards) == |KeySet(shards)|
  {
    TidyDisjoint(shards, m, keyHash);
    DisjointSize(shards);
  }

  /**
   * With every key at home, a range query gathers exactly the pairs of the
   * range that `get` finds.
   */
  lemma RangeVisible<V>(shards: seq<Tree<V>>, m: map<int, nat>, keyHash: int -> bv64, lo: int, hi: int, p: Pair<V>)
    requires |shards| > 0 && Bounded(m, |shards|) && AllBst(shards) && Tidy(shards, m, keyHash)
    ensures p in AllInRange(shards, lo, hi) <==> lo <= p.key <= hi && Found(shards, m, keyHash, p.key) == Some(p.value)
  {
    TidyFound(shards, m, keyHash, p.key);
    var home := Home(m, keyHash, |shards|, p.key);
    if p in AllInRange(shards, lo, hi) {
      AllInRangeFrom(shards, lo, hi);
      var i :| 0 <= i < |shards| && Lookup(shards[i], p.key) == Some(p.value);
      LookupKeys(shards[i], p.key);
      assert i == home;
    }
    if lo <= p.key <= hi && Found(shards, m, keyHash, p.key) == Some(p.value) {
      AllInRangeCovers(shards, lo, hi, home, p.key, p.value);
    }
  }

  // ---------------------------------------------------------------------------
  // insert, as written and corrected
  // ---------------------------------------------------------------------------

  /** The index after `insert` as written: key -> target recorded when target is not the natural shard. */
  function Recorded(m: map<int, nat>, keyHash: int -> bv64, n: nat, key: int, target: nat): map<int, nat>
    requires n > 0
  {
    if target != NaturalOf(keyHash, n, key) then m[key := target] else m
  }

  /** The corrected index update: key -> target for a redirect, no entry otherwise. */
  function Rerouted(m: map<int, nat>, keyHash: int -> bv64, n: nat, key: int, target: nat): map<int, nat>
    requires n > 0
  {
    if target != NaturalOf(keyHash, n, key) then m[key := target] else m - {key}
  }

  /** The corrected insert's first step: the key leaves its home shard when it is sent elsewhere. */
  function Evicted<V>(shards: seq<Tree<V>>, m: map<int, nat>, keyHash: int -> bv64, key: int, target: nat): seq<Tree<V>>
    requires |shards| > 0 && Bounded(m, |shards|)
  {
    var home := Home(m, keyHash, |shards|, key);
    if home != target then shards[home := Remove(shards[home], key, true)] else shards
  }

  /**
   * As written, an insert redirected away from a natural shard that already
   * holds the key leaves that copy in place, and `get` keeps answering it.
   */
  lemma InsertAsWrittenHidesValue<V>(shards: seq<Tree<V>>, m: map<int, nat>, keyHash: int -> bv64, key: int, value: V, target: nat)
    requires |shards| > 0 && Bounded(m, |shards|) && target < |shards|
    requires target != NaturalOf(keyHash, |shards|, key) && Lookup(shards[NaturalOf(keyHash, |shards|, key)], key).Some?
    ensures Bounded(Recorded(m, keyHash, |shards|, key, target), |shards|)
    ensures Found(Placed(shards, target, key, value), Recorded(m, keyHash, |shards|, key, target), keyHash, key)
         == Lookup(shards[NaturalOf(keyHash, |shards|, key)], key)
  {
    var natural := NaturalOf(keyHash, |shards|, key);
    assert Placed(shards, target, key, value)[natural] == shards[natural];
  }

  /**
   * One input that shows it: every key hashes to shard 0 of two, key 7 is
   * stored there with value 1, and a second insert of 7 with value 2 is
   * redirected to shard 1. `get(7)` still answers 1.
   */
  lemma StaleReadAsWritten()
    ensures var keyHash: int -> bv64 := k => 0;
      var shards: seq<Tree<int>> := [Node(Leaf, 7, 1, 1, Leaf), Leaf];
      var m' := Recorded(map[], keyHash, 2, 7, 1);
      var s' := Placed(shards, 1, 7, 2);
      && Tidy(shards, map[], keyHash)
      && Bounded(m', 2) && Found(s', m', keyHash, 7) == Some(1)
  {
    var keyHash: int -> bv64 := k => 0;
    var shards: seq<Tree<int>> := [Node(Leaf, 7, 1, 1, Leaf), Leaf];
    var m' := Recorded(map[], keyHash, 2, 7, 1);
    var s' := Placed(shards, 1, 7, 2);
    assert NaturalOf(keyHash, 2, 7) == 0;
    assert m' == map[7 := 1];
    assert Tidy(shards, map[], keyHash) by {
      forall i, k | 0 <= i < 2 && k in Keys(shards[i]) ensures i == Home(map[], keyHash, 2, k) {
        assert i == 0 && k == 7;
      }
    }
    assert s'[0] == shards[0];
  }

  /** After the same two inserts, `size()` counts two pairs for the one stored key. */
  lemma StaleCountAsWritten()
    ensures var s' := Placed([Node(Leaf, 7, 1, 1, Leaf), Leaf], 1, 7, 2);
      TotalSize(s') == 2 && KeySet(s') == {7}
  {
    var shards: seq<Tree<int>> := [Node(Leaf, 7, 1, 1, Leaf), Leaf];
    var s' := Placed(shards, 1, 7, 2);
    InsertSpec(shards[1], 7, 2, true);
    assert s'[0] == shards[0];
    assert Keys(s'[0]) == {7} && Keys(s'[1]) == {7};
    assert Sizes(s') == [1, 1];
    assert Sum([1, 1]) == Sum([1]) + 1 == 2 by {
      assert [1, 1][..1] == [1];
      assert [1][..0] == [];
    }
    assert KeySet(s') == {7} by {
      forall k | k in KeySet(s') ensures k == 7 {
        var i :| 0 <= i < 2 && k in Keys(s'[i]);
      }
      assert 7 in Keys(s'[0]);
    }
  }

  /** Facts about the evicted vector: only the key's home shard changed, and only at the key. */
  lemma EvictedFacts<V>(shards: seq<Tree<V>>, m: map<int, nat>, keyHash: int -> bv64, key: int, target: nat)
    requires |shards| > 0 && Bounded(m, |shards|) && AllBst(shards) && Tidy(shards, m, keyHash) && target < |shards|
    ensures var e := Evicted(shards, m, keyHash, key, target);
      && |e| == |shards| && AllBst(e)
      && (forall i :: 0 <= i < |e| && i != target ==> key !in Keys(e[i]))
      && (forall i, j :: 0 <= i < |e| && j != key ==> Lookup(e[i], j) == Lookup(shards[i], j))
      && (forall i, j :: 0 <= i < |e| && j != key ==> (j in Keys(e[i]) <==> j in Keys(shards[i])))
  {
    var home := Home(m, keyHash, |shards|, key);
    RemoveSpec(shards[home], key, true);
  }

  /**
   * A step that changes only what one key is stored as keeps every key at
   * home when the key itself ends up only in its new home.
   */
  lemma TidyAfter<V>(s: seq<Tree<V>>, m: map<int, nat>, s': seq<Tree<V>>, m': map<int, nat>, keyHash: int -> bv64, key: int)
    requires |s| > 0 && |s'| == |s| && Bounded(m, |s|) && Bounded(m', |s|) && Tidy(s, m, keyHash)
    requires forall j :: j != key ==> Home(m', keyHash, |s|, j) == Home(m, keyHash, |s|, j)
    requires forall i, j :: 0 <= i < |s| && j != key ==> (j in Keys(s'[i]) <==> j in Keys(s[i]))
    requires forall i :: 0 <= i < |s| && key in Keys(s'[i]) ==> i == Home(m', keyHash, |s|, key)
    ensures Tidy(s', m', keyHash)
  {
    forall i, k | 0 <= i < |s| && k in Keys(s'[i]) ensures i == Home(m', keyHash, |s|, k) {
      if k != key {
        assert k in Keys(s[i]);
      }
    }
  }

  /** Such a step changes what `get` finds for no other key. */
  lemma OthersUnchanged<V>(s: seq<Tree<V>>, m: map<int, nat>, s': seq<Tree<V>>, m': map<int, nat>, keyHash: int -> bv64, key: int)
    requires |s| > 0 && |s'| == |s| && Bounded(m, |s|) && Bounded(m', |s|) && AllBst(s) && AllBst(s')
    requires Tidy(s, m, keyHash) && Tidy(s', m', keyHash)
    requires forall j :: j != key ==> Home(m', keyHash, |s|, j) == Home(m, keyHash, |s|, j)
    requires forall i, j :: 0 <= i < |s| && j != key ==> Lookup(s'[i], j) == Lookup(s[i], j)
    ensures forall j :: j != key ==> Found(s', m', keyHash, j) == Found(s, m, keyHash, j)
    ensures forall j :: j != key ==> (j in KeySet(s') <==> j in KeySet(s))
  {
    forall j | j != key
      ensures Found(s', m', keyHash, j) == Found(s, m, keyHash, j)
      ensures j in KeySet(s') <==> j in KeySet(s)
    {
      TidyFound(s', m', keyHash, j);
      TidyFound(s, m, keyHash, j);
    }
  }

  /**
   * The corrected insert keeps every key at home, makes the new value the
   * one `get` finds, and changes what `get` finds for no other key.
   */
  lemma TidyInsertStep<V>(shards: seq<Tree<V>>, m: map<int, nat>, keyHash: int -> bv64, key: int, value: V, target: nat)
    requires |shards| > 0 && Bounded(m, |shards|) && AllBst(shards) && Tidy(shards, m, keyHash) && target < |shards|
    ensures var s' := Placed(Evicted(shards, m, keyHash, key, target), target, key, value);
      var m' := Rerouted(m, keyHash, |shards|, key, target);
      && |s'| == |shards| && AllBst(s') && Bounded(m', |shards|) && Tidy(s', m', keyHash)
      && Found(s', m', keyHash, key) == Some(value)
      && (forall j :: j != key ==> Found(s', m', keyHash, j) == Found(shards, m, keyHash, j))
      && KeySet(s') == KeySet(shards) + {key}
  {
    var n := |shards|;
    var e := Evicted(shards, m, keyHash, key, target);
    var s' := Placed(e, target, key, value);
    var m' := Rerouted(m, keyHash, n, key, target);
    EvictedFacts(shards, m, keyHash, key, target);
    InsertSpec(e[target], key, value, true);
    assert Home(m', keyHash, n, key) == target;
    assert forall j :: j != key ==> Home(m', keyHash, n, j) == Home(m, keyHash, n, j);
    assert forall i :: 0 <= i < n && i != target ==> s'[i] == e[i];
    TidyAfter(shards, m, s', m', keyHash, key);
    OthersUnchanged(shards, m, s', m', keyHash, key);
    TidyFound(s', m', keyHash, key);
    assert KeySet(s') == KeySet(shards) + {key};
  }

  /**
   * Where the router sends a key to the shard it already lives in, the code
   * as written and the corrected insert agree.
   */
  lemma InsertAtHome<V>(shards: seq<Tree<V>>, m: map<int, nat>, keyHash: int -> bv64, key: int, target: nat)
    requires |shards| > 0 && Bounded(m, |shards|) && NoSelf(m, keyHash, |shards|)
    requires target == Home(m, keyHash, |shards|, key)
    ensures Evicted(shards, m, keyHash, key, target) == shards
    ensures Recorded(m, keyHash, |shards|, key, target) == Rerouted(m, keyHash, |shards|, key, target)
  {
    if target == NaturalOf(keyHash, |shards|, key) {
      assert key !in m;
      assert m - {key} == m;
    }
  }

  // ---------------------------------------------------------------------------
  // remove
  // ---------------------------------------------------------------------------

  /**
   * The shard `remove` takes the key from: the natural shard when it holds
   * the key, else the shard the index names when that one holds it.
   */
  function RemoveFrom<V>(shards: seq<Tree<V>>, m: map<int, nat>, keyHash: int -> bv64, key: int): (r: Option<nat>)
    requires |shards| > 0 && Bounded(m, |shards|)
    ensures r.Some? ==> r.value < |shards| && Lookup(shards[r.value], key).Some?
    ensures r.Some? <==> Found(shards, m, keyHash, key).Some?
  {
    var natural := NaturalOf(keyHash, |shards|, key);
    if Lookup(shards[natural], key).Some? then Some(natural)
    else if key in m && Lookup(shards[m[key]], key).Some? then Some(m[key])
    else None
  }

  /** Facts about the vector after a removal at home: the key is nowhere, the rest as before. */
  lemma TakenFacts<V>(shards: seq<Tree<V>>, m: map<int, nat>, keyHash: int -> bv64, key: int, r: nat)
    requires |shards| > 0 && Bounded(m, |shards|) && AllBst(shards) && Tidy(shards, m, keyHash)
    requires RemoveFrom(shards, m, keyHash, key) == Some(r)
    ensures var s' := shards[r := Remove(shards[r], key, true)];
      && r == Home(m, keyHash, |shards|, key) && AllBst(s')
      && (forall i :: 0 <= i < |s'| ==> key !in Keys(s'[i]))
      && (forall i, j :: 0 <= i < |s'| && j != key ==> Lookup(s'[i], j) == Lookup(shards[i], j))
      && (forall i, j :: 0 <= i < |s'| && j != key ==> (j in Keys(s'[i]) <==> j in Keys(shards[i])))
      && |Keys(s'[r])| + 1 == |Keys(shards[r])|
  {
    RemoveSpec(shards[r], key, true);
    LookupKeys(shards[r], key);
  }

  /**
   * Removing a key that lives at home takes it out of the map altogether:
   * every key stays at home, `get` finds nothing for it and the same as
   * before for every other key, and one pair fewer is stored.
   */
  lemma TidyRemoveStep<V>(shards: seq<Tree<V>>, m: map<int, nat>, keyHash: int -> bv64, key: int, r: nat)
    requires |shards| > 0 && Bounded(m, |shards|) && AllBst(shards) && Tidy(shards, m, keyHash)
    requires RemoveFrom(shards, m, keyHash, key) == Some(r)
    ensures var s' := shards[r := Remove(shards[r], key, true)];
      && AllBst(s') && Bounded(m - {key}, |shards|) && Tidy(s', m - {key}, keyHash)
      && Found(s', m - {key}, keyHash, key) == None && KeySet(s') == KeySet(shards) - {key}
      && (forall j :: j != key ==> Found(s', m - {key}, keyHash, j) == Found(shards, m, keyHash, j))
      && TotalSize(s') + 1 == TotalSize(shards)
  {
    var n := |shards|;
    var s' := shards[r := Remove(shards[r], key, true)];
    var m' := m - {key};
    TakenFacts(shards, m, keyHash, key, r);
    assert forall j :: j != key ==> Home(m', keyHash, n, j) == Home(m, keyHash, n, j);
    TidyAfter(shards, m, s', m', keyHash, key);
    OthersUnchanged(shards, m, s', m', keyHash, key);
    TidyFound(s', m', keyHash, key);
    assert key !in KeySet(s');
    assert KeySet(s') == KeySet(shards) - {key};
    TotalSizeUpdate(shards, r, s'[r]);
  }

  // ---------------------------------------------------------------------------
  // range_query
  // ---------------------------------------------------------------------------

  /**
   * The loop of `range_query`: every shard whose bounds intersect [lo, hi]
   * appends its pairs of the range; the others are skipped, and they have
   * none to give.
   */
  method GatherAll<V>(shards: seq<Tree<V>>, lo: int, hi: int) returns (buf: seq<Pair<V>>)
    requires AllBst(shards)
    ensures buf == AllInRange(shards, lo, hi)
  {
    buf := [];
    var i := 0;
    while i < |shards|
      invariant i <= |shards| && buf == AllInRange(shards[..i], lo, hi)
    {
      assert shards[..i + 1][..i] == shards[..i];
      if Intersects(shards[i], lo, hi) {
        buf := buf + InRange(shards[i], lo, hi);
      } else {
        MissedIsEmpty(shards[i], lo, hi);
        assert buf + InRange(shards[i], lo, hi) == buf;
      }
      i := i + 1;
    }
    assert shards[..i] == shards;
  }

  // ---------------------------------------------------------------------------
  // The sharded tree
  // ---------------------------------------------------------------------------

  /** `ParallelAVL::Stats`, without the balance score. */
  datatype Stats = Stats(
    numShards: nat, totalSize: nat, totalOps: nat,
    shardSizes: seq<nat>, shardInserts: seq<nat>, shardLookups: seq<nat>,
    hasHotspot: bool, suspiciousPatterns: nat, blockedRedirects: nat,
    redirectIndexSize: nat, redirectIndexHits: nat, redirectHitRate: real,
    redirectIndexMemoryBytes: nat)

  class ParallelAvl<V> {
    const numShards: nat
    const keyHash: int -> bv64
    /** The shards' trees, with each `TreeShard`'s insert and lookup counters. */
    var shards: seq<Tree<V>>
    var shardInserts: seq<nat>
    var shardLookups: seq<nat>
    const router: AdversaryResistantRouter<int>
    const index: RedirectIndex<int>
    var totalOps: nat
    var redirectIndexHits: nat

    /**
     * One tree and two counters per shard, a router over the same shards
     * and hash, index entries that name real redirects to existing shards,
     * and no more index hits than operations.
     */
    ghost predicate Valid()
      reads this, router, router.recent, index
    {
      && numShards > 0 && |shards| == numShards && |shardInserts| == numShards && |shardLookups| == numShards
      && AllBst(shards)
      && router.Valid() && router.numShards == numShards && router.keyHash == keyHash
      && index.Valid() && Bounded(index.redirects, numShards) && NoSelf(index.redirects, keyHash, numShards)
      && redirectIndexHits <= totalOps
    }

    /** Every stored key is in its home shard only. */
    ghost predicate KeysAtHome()
      requires Valid()
      reads this, router, router.recent, index
    {
      Tidy(shards, index.redirects, keyHash)
    }

    /** What `get(key)` answers in the current state. */
    ghost function Visible(key: int): Option<V>
      requires Valid()
      reads this, router, router.recent, index
    {
      Found(shards, index.redirects, keyHash, key)
    }

    /** The constructor: empty shards, zero counters, an empty index. */
    constructor (numShards: nat, strategy: Strategy, keyHash: int -> bv64, seedHash: nat -> bv64)
      requires numShards > 0
      ensures Valid() && KeysAtHome() && fresh(router) && fresh(router.loads) && fresh(router.recent) && fresh(index)
      ensures this.numShards == numShards && this.keyHash == keyHash && router.strategy == strategy
      ensures shards == seq(numShards, _ => Leaf) && KeySet(shards) == {}
      ensures shardInserts == seq(numShards, _ => 0) && shardLookups == seq(numShards, _ => 0)
      ensures index.redirects == map[] && totalOps == 0 && redirectIndexHits == 0
    {
      this.numShards := numShards;
      this.keyHash := keyHash;
      shards := seq(numShards, _ => Leaf);
      shardInserts := seq(numShards, _ => 0);
      shardLookups := seq(numShards, _ => 0);
      router := new AdversaryResistantRouter(numShards, strategy, keyHash, seedHash);
      index := new RedirectIndex();
      totalOps := 0;
      redirectIndexHits := 0;
      new;
      assert KeySet(shards) == {};
    }

    /** `router_->route(key)`: a shard of this tree; only the router's history moves. */
    method Dispatch(key: int, useLoadAware: bool, draw: nat, now: int) returns (t: nat)
      requires Valid()
      modifies router
      ensures Valid() && t < numShards
    {
      t := router.Route(key, useLoadAware, draw, now);
    }

    /** `router_->record_insertion(t)`: shard t's load rises by one. */
    method CountInsertion(t: nat, now: int)
      requires Valid() && t < numShards
      modifies router, router.loads, router.recent
      ensures Valid() && router.loads[..] == Bumped(old(router.loads[..]), t)
    {
      router.RecordInsertion(t, now);
    }

    /** `shards_[t]->insert(key, value)`: the pair is stored and the shard counts one more insert. */
    method Place(t: nat, key: int, value: V)
      requires Valid() && t < numShards
      modifies this
      ensures Valid() && shards == Placed(old(shards), t, key, value)
      ensures shardInserts == Bumped(old(shardInserts), t) && shardLookups == old(shardLookups)
      ensures totalOps == old(totalOps) && redirectIndexHits == old(redirectIndexHits)
    {
      InsertSpec(shards[t], key, value, true);
      shards := Placed(shards, t, key, value);
      shardInserts := Bumped(shardInserts, t);
    }

    /**
     * `shards_[t]->remove(key)` and, when it succeeds, `router_->record_removal(t)`:
     * the key leaves that shard and its load drops; an absent key changes nothing.
     */
    method Take(t: nat, key: int) returns (removed: bool)
      requires Valid() && t < numShards
      modifies this, router.loads
      ensures Valid() && removed == Lookup(old(shards)[t], key).Some?
      ensures shards == if removed then old(shards)[t := AvlCore.Remove(old(shards)[t], key, true)] else old(shards)
      ensures router.loads[..] == if removed then Dropped(old(router.loads[..]), t) else old(router.loads[..])
      ensures shardInserts == old(shardInserts) && shardLookups == old(shardLookups)
      ensures totalOps == old(totalOps) && redirectIndexHits == old(redirectIndexHits)
    {
      removed := Lookup(shards[t], key).Some?;
      if removed {
        RemoveSpec(shards[t], key, true);
        shards := shards[t := AvlCore.Remove(shards[t], key, true)];
        router.RecordRemoval(t);
      }
    }

    /**
     * The first step of the corrected insert: when the key is sent to a
     * shard other than its home, `remove` it from its home shard.
     */
    method Evict(key: int, t: nat)
      requires Valid() && t < numShards
      modifies this, router.loads
      ensures Valid() && shards == Evicted(old(shards), index.redirects, keyHash, key, t)
      ensures var home := Home(index.redirects, keyHash, numShards, key);
        var moved := home != t && Lookup(old(shards)[home], key).Some?;
        router.loads[..] == if moved then Dropped(old(router.loads[..]), home) else old(router.loads[..])
      ensures shardInserts == old(shardInserts) && shardLookups == old(shardLookups)
      ensures totalOps == old(totalOps) && redirectIndexHits == old(redirectIndexHits)
    {
      var home := if key in index.redirects then index.redirects[key] else NaturalOf(keyHash, numShards, key);
      if home != t {
        ghost var s0 := shards;
        var removed := Take(home, key);
        if !removed {
          assert s0[home := AvlCore.Remove(s0[home], key, true)] == s0;
        }
      }
    }

    /** `redirect_index_->lookup(key)`: the shard the index names, counted as one more lookup. */
    method Probe(key: int) returns (r: Option<nat>)
      requires Valid()
      modifies index
      ensures Valid() && index.redirects == old(index.redirects) && index.totalRedirects == old(index.totalRedirects)
      ensures r == if key in index.redirects then Some(index.redirects[key]) else None
      ensures r.Some? ==> r.value < numShards
      ensures index.lookups == old(index.lookups) + 1 && index.hits == old(index.hits) + (if r.Some? then 1 else 0)
    {
      r := index.Lookup(key);
    }

    /** `redirect_index_->remove(key)`. */
    method Forget(key: int)
      requires Valid()
      modifies index
      ensures Valid() && index.redirects == old(index.redirects) - {key}
      ensures index.lookups == old(index.lookups) && index.hits == old(index.hits)
    {
      index.Remove(key);
    }

    /** The last step of `insert` as written: record key -> t when t is not the natural shard. */
    method Record(key: int, t: nat)
      requires Valid() && t < numShards
      modifies index
      ensures Valid() && index.redirects == Recorded(old(index.redirects), keyHash, numShards, key, t)
      ensures index.lookups == old(index.lookups) && index.hits == old(index.hits)
    {
      var natural := NaturalOf(keyHash, numShards, key);
      if t != natural {
        index.RecordRedirect(key, natural, t);
      }
    }

    /** The corrected last step: key -> t for a redirect, and no entry when t is the natural shard. */
    method Reroute(key: int, t: nat)
      requires Valid() && t < numShards
      modifies index
      ensures Valid() && index.redirects == Rerouted(old(index.redirects), keyHash, numShards, key, t)
      ensures index.lookups == old(index.lookups) && index.hits == old(index.hits)
    {
      var natural := NaturalOf(keyHash, numShards, key);
      if t != natural {
        index.RecordRedirect(key, natural, t);
      } else {
        index.Remove(key);
      }
    }

    /**
     * `insert` as written: the pair goes to the router's target, the
     * target's load rises, and a redirect is recorded when the target is
     * not the natural shard. A copy of the key in another shard stays.
     */
    method InsertAsWritten(key: int, value: V, useLoadAware: bool, draw: nat, now: int) returns (ghost target: nat)
      requires Valid()
      modifies this, router, router.loads, router.recent, index
      ensures Valid() && target < numShards
      ensures shards == Placed(old(shards), target, key, value)
      ensures index.redirects == Recorded(old(index.redirects), keyHash, numShards, key, target)
      ensures router.loads[..] == Bumped(old(router.loads[..]), target)
      ensures shardInserts == Bumped(old(shardInserts), target) && shardLookups == old(shardLookups)
      ensures totalOps == old(totalOps) + 1 && redirectIndexHits == old(redirectIndexHits)
    {
      totalOps := totalOps + 1;
      var t := Dispatch(key, useLoadAware, draw, now);
      target := t;
      Place(t, key, value);
      CountInsertion(t, now);
      Record(key, t);
    }

    /**
     * `insert`, corrected: a key sent away from the shard it lives in is
     * first removed there (with that shard's load lowered, as `remove`
     * does); then the pair goes to the target, and the index names the
     * target for a redirect and has no entry otherwise. `TidyInsertStep`
     * shows that this keeps every key at home, makes `get(key)` answer the
     * new value and changes no other key's answer.
     */
    method Insert(key: int, value: V, useLoadAware: bool, draw: nat, now: int) returns (ghost target: nat)
      requires Valid()
      modifies this, router, router.loads, router.recent, index
      ensures Valid() && target < numShards
      ensures shards == Placed(Evicted(old(shards), old(index.redirects), keyHash, key, target), target, key, value)
      ensures index.redirects == Rerouted(old(index.redirects), keyHash, numShards, key, target)
      ensures var home := Home(old(index.redirects), keyHash, numShards, key);
        var moved := home != target && Lookup(old(shards)[home], key).Some?;
        router.loads[..] == Bumped(if moved then Dropped(old(router.loads[..]), home) else old(router.loads[..]), target)
      ensures shardInserts == Bumped(old(shardInserts), target) && shardLookups == old(shardLookups)
      ensures totalOps == old(totalOps) + 1 && redirectIndexHits == old(redirectIndexHits)
    {
      totalOps := totalOps + 1;
      var t := Dispatch(key, useLoadAware, draw, now);
      target := t;
      Evict(key, t);
      Place(t, key, value);
      CountInsertion(t, now);
      Reroute(key, t);
    }

    /**
     * The search `contains` and `get` share: the natural shard is asked (one
     * more lookup there), and on a miss the index; an index hit counts one
     * more redirect hit and asks the shard it names (one more lookup there).
     * The answer is what `get` finds. The caller has already counted the
     * operation, so a hit keeps the hits within the operations.
     */
    method Search(key: int) returns (r: Option<V>)
      requires Valid() && redirectIndexHits < totalOps
      modifies this, index
      ensures Valid() && shards == old(shards) && shardInserts == old(shardInserts) && index.redirects == old(index.redirects)
      ensures r == Visible(key) && totalOps == old(totalOps) && index.totalRedirects == old(index.totalRedirects)
      ensures var natural := NaturalOf(keyHash, numShards, key);
        var miss := Lookup(shards[natural], key).None?;
        var hit := miss && key in index.redirects;
        && shardLookups == (if hit then Bumped(Bumped(old(shardLookups), natural), index.redirects[key]) else Bumped(old(shardLookups), natural))
        && redirectIndexHits == old(redirectIndexHits) + (if hit then 1 else 0)
        && index.lookups == old(index.lookups) + (if miss then 1 else 0)
        && index.hits == old(index.hits) + (if hit then 1 else 0)
    {
      var natural := NaturalOf(keyHash, numShards, key);
      shardLookups := Bumped(shardLookups, natural);
      r := Lookup(shards[natural], key);
      if r.Some? {
        return;
      }
      var s := Probe(key);
      if s.Some? {
        redirectIndexHits := redirectIndexHits + 1;
        shardLookups := Bumped(shardLookups, s.value);
        r := Lookup(shards[s.value], key);
      }
    }

    /**
     * `contains`: one more operation and the shared search; the answer is
     * whether `get` finds a value, and with every key at home, whether the
     * key is stored.
     */
    method Contains(key: int) returns (b: bool)
      requires Valid()
      modifies this, index
      ensures Valid() && shards == old(shards) && shardInserts == old(shardInserts) && index.redirects == old(index.redirects)
      ensures totalOps == old(totalOps) + 1 && index.totalRedirects == old(index.totalRedirects)
      ensures b == Visible(key).Some?
      ensures KeysAtHome() ==> (b <==> key in KeySet(shards))
    {
      totalOps := totalOps + 1;
      var r := Search(key);
      b := r.Some?;
      if Tidy(shards, index.redirects, keyHash) {
        TidyFound(shards, index.redirects, keyHash, key);
      }
    }

    /**
     * `get`: one more operation and the shared search, answering the value
     * found; with every key at home, the value the key's home shard holds.
     */
    method Get(key: int) returns (r: Option<V>)
      requires Valid()
      modifies this, index
      ensures Valid() && shards == old(shards) && shardInserts == old(shardInserts) && index.redirects == old(index.redirects)
      ensures totalOps == old(totalOps) + 1 && index.totalRedirects == old(index.totalRedirects)
      ensures r == Visible(key)
      ensures KeysAtHome() ==> r == Lookup(shards[Home(index.redirects, keyHash, numShards, key)], key) && (r.Some? <==> key in KeySet(shards))
    {
      totalOps := totalOps + 1;
      r := Search(key);
      if Tidy(shards, index.redirects, keyHash) {
        TidyFound(shards, index.redirects, keyHash, key);
      }
    }

    /**
     * `remove`: the natural shard first, then the shard the index names;
     * on success that shard's load drops and the index entry goes. The
     * answer is whether `get` found the key. `TidyRemoveStep` shows that,
     * with every key at home, the key is then gone from every shard and no
     * other key's answer changes.
     */
    method Remove(key: int) returns (removed: bool)
      requires Valid()
      modifies this, router.loads, index
      ensures Valid() && shardInserts == old(shardInserts) && shardLookups == old(shardLookups)
      ensures removed == old(Visible(key)).Some?
      ensures var r := old(RemoveFrom(shards, index.redirects, keyHash, key));
        if r.Some? then
          && shards == old(shards)[r.value := AvlCore.Remove(old(shards)[r.value], key, true)]
          && index.redirects == old(index.redirects) - {key}
          && router.loads[..] == Dropped(old(router.loads[..]), r.value)
        else
          shards == old(shards) && index.redirects == old(index.redirects) && router.loads[..] == old(router.loads[..])
      ensures var miss := old(Lookup(shards[NaturalOf(keyHash, numShards, key)], key)).None?;
        && index.lookups == old(index.lookups) + (if miss then 1 else 0)
        && index.hits == old(index.hits) + (if miss && key in old(index.redirects) then 1 else 0)
      ensures totalOps == old(totalOps) + 1 && redirectIndexHits == old(redirectIndexHits)
    {
      totalOps := totalOps + 1;
      var r := Locate(key);
      removed := false;
      if r.Some? {
        removed := Take(r.value, key);
        Forget(key);
      }
    }

    /**
     * The search of `remove`: the natural shard when it holds the key,
     * else, after one index lookup, the shard the index names when that
     * one holds it. The shard found is the one whose `remove` succeeds.
     */
    method Locate(key: int) returns (r: Option<nat>)
      requires Valid()
      modifies index
      ensures Valid() && index.redirects == old(index.redirects) && index.totalRedirects == old(index.totalRedirects)
      ensures r == RemoveFrom(shards, index.redirects, keyHash, key)
      ensures var miss := Lookup(shards[NaturalOf(keyHash, numShards, key)], key).None?;
        && index.lookups == old(index.lookups) + (if miss then 1 else 0)
        && index.hits == old(index.hits) + (if miss && key in index.redirects then 1 else 0)
    {
      var natural := NaturalOf(keyHash, numShards, key);
      if Lookup(shards[natural], key).Some? {
        return Some(natural);
      }
      var p := Probe(key);
      if p.Some? && Lookup(shards[p.value], key).Some? {
        return p;
      }
      return None;
    }

    /**
     * `range_query`: one more operation; the pairs of [lo, hi] gathered
     * from the shards whose bounds intersect the range, sorted by key.
     * With every key at home they are exactly the pairs of the range that
     * `get` finds.
     */
    method RangeQuery(lo: int, hi: int) returns (out: seq<Pair<V>>)
      requires Valid()
      modifies this
      ensures Valid() && shards == old(shards) && shardInserts == old(shardInserts) && shardLookups == old(shardLookups)
      ensures totalOps == old(totalOps) + 1 && redirectIndexHits == old(redirectIndexHits)
      ensures KeyOrdered(out) && multiset(out) == multiset(AllInRange(shards, lo, hi))
      ensures KeysAtHome() ==> forall p :: p in out <==> lo <= p.key <= hi && Visible(p.key) == Some(p.value)
    {
      totalOps := totalOps + 1;
      var buf := GatherAll(shards, lo, hi);
      out := SortByKey(buf);
      SortByKeySpec(buf);
      if KeysAtHome() {
        forall p ensures p in out <==> lo <= p.key <= hi && Visible(p.key) == Some(p.value) {
          RangeVisible(shards, index.redirects, keyHash, lo, hi, p);
          assert p in out <==> p in multiset(out);
        }
      }
    }

    /** `size`: the sum of the shard sizes; with every key at home, the number of stored keys. */
    method Size() returns (total: nat)
      requires Valid()
      ensures total == TotalSize(shards)
      ensures KeysAtHome() ==> total == |KeySet(shards)|
    {
      total := SumSizes(shards);
      if KeysAtHome() {
        TidySize(shards, index.redirects, keyHash);
      }
    }

    /**
     * `clear`: every shard rebuilt empty with its counters zeroed, the
     * index cleared, both counters zero. The router keeps its loads.
     * Nothing is stored afterwards, so every key is trivially at home and
     * `get` finds nothing.
     */
    method Clear()
      requires Valid()
      modifies this, index
      ensures Valid() && KeysAtHome() && router.loads[..] == old(router.loads[..])
      ensures shards == seq(numShards, _ => Leaf) && KeySet(shards) == {}
      ensures shardInserts == seq(numShards, _ => 0) && shardLookups == seq(numShards, _ => 0)
      ensures index.redirects == map[] && totalOps == 0 && redirectIndexHits == 0
      ensures forall key :: Visible(key) == None
    {
      shards := seq(numShards, _ => Leaf);
      shardInserts := seq(numShards, _ => 0);
      shardLookups := seq(numShards, _ => 0);
      index.Clear();
      totalOps := 0;
      redirectIndexHits := 0;
      assert KeySet(shards) == {};
      forall key ensures Visible(key) == None {
        TidyFound(shards, index.redirects, keyHash, key);
      }
    }

    /**
     * `get_stats`: the shard count, the sizes and counters of every shard
     * and their total, the router's hotspot flag and attack counters, and
     * the index's size, hits, hit rate against all operations, and memory
     * for keys of `keySize` bytes.
     */
    method GetStats(keySize: nat) returns (stats: Stats)
      requires Valid()
      ensures stats.numShards == numShards && stats.totalOps == totalOps
      ensures stats.shardSizes == Sizes(shards) && stats.totalSize == TotalSize(shards)
      ensures stats.shardInserts == shardInserts && stats.shardLookups == shardLookups
      ensures stats.hasHotspot == Overloaded(MaxFrom(0, router.loads[..]), Sum(router.loads[..]), numShards)
      ensures stats.suspiciousPatterns == router.suspiciousPatterns == stats.blockedRedirects
      ensures stats.redirectIndexSize == |index.redirects| && stats.redirectIndexHits == redirectIndexHits
      ensures stats.redirectHitRate == Redirects.HitRate(redirectIndexHits, totalOps) && 0.0 <= stats.redirectHitRate <= 100.0
      ensures stats.redirectIndexMemoryBytes == Redirects.MemoryBytes(|index.redirects|, keySize)
    {
      var sizes, total := ListSizes(shards);
      var rs := router.GetStats();
      var ix := index.GetStats();
      stats := Stats(numShards, total, totalOps, sizes, shardInserts, shardLookups,
                     rs.hasHotspot, rs.suspiciousPatterns, rs.blockedRedirects,
                     ix.indexSize, redirectIndexHits, Redirects.HitRate(redirectIndexHits, totalOps),
                     Redirects.MemoryBytes(|index.redirects|, keySize));
    }
  }
}

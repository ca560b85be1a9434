/**
 * `TreeShard` of `shard.c`: a C AVL tree with size, operation counters and
 * the min/max bounds, behind a mutex (not modelled).
 */
module CShard {
  import opened Wrappers
  import opened AvlCore
  import opened AvlOrder
  import opened CAvlTree
  import opened ShardBounds

  /** `ShardStats`: the bounds are reported only when the shard has keys, and are 0 otherwise. */
  datatype ShardStats = ShardStats(size: nat, inserts: nat, removes: nat, lookups: nat, hasKeys: bool, minKey: int, maxKey: int)

  class Shard<V> {
    const tree: AvlTree<V>
    var size: nat
    var insertCount: nat
    var removeCount: nat
    var lookupCount: nat
    var minKey: int
    var maxKey: int
    var hasKeys: bool

    /** The keys of the tree. */
    ghost function Keys(): set<int>
      reads this, tree
    {
      AvlCore.Keys(tree.root)
    }

    /**
     * The tree is valid and `size` counts its keys; the bounds are exact
     * while there are keys, and `INT64_MAX`/`INT64_MIN` when there are none.
     */
    ghost predicate Valid()
      reads this, tree, tree.pool
    {
      && tree.Valid() && size == tree.size
      && Exact(Keys(), hasKeys, minKey, maxKey)
      && (!hasKeys ==> minKey == INT64_MAX && maxKey == INT64_MIN)
    }

    /** `shard_create`: an empty tree without a value destructor, zero counters, empty bounds. */
    constructor ()
      ensures Valid() && fresh(tree) && fresh(tree.pool)
      ensures Keys() == {} && size == 0 && !hasKeys
      ensures insertCount == 0 && removeCount == 0 && lookupCount == 0
    {
      tree := new AvlTree(false);
      size := 0;
      insertCount := 0;
      removeCount := 0;
      lookupCount := 0;
      minKey := INT64_MAX;
      maxKey := INT64_MIN;
      hasKeys := false;
    }

    /** `update_bounds`: the first key sets both bounds; a later one widens them. */
    method UpdateBounds(key: int)
      requires Exact(Keys() - {key}, hasKeys, minKey, maxKey) && key in Keys()
      modifies this
      ensures Exact(Keys(), hasKeys, minKey, maxKey)
      ensures size == old(size) && insertCount == old(insertCount)
      ensures removeCount == old(removeCount) && lookupCount == old(lookupCount)
    {
      if !hasKeys {
        minKey := key;
        maxKey := key;
        hasKeys := true;
        assert Keys() - {key} == {};
        assert Keys() == {key};
      } else {
        if key < minKey {
          minKey := key;
        }
        if key > maxKey {
          maxKey := key;
        }
        forall k | k in Keys() ensures minKey <= k <= maxKey {
          if k != key {
            assert k in old(Keys()) - {key};
          }
        }
      }
    }

    /** `recompute_bounds`: empty bounds for an empty tree, otherwise its smallest and largest key. */
    method RecomputeBounds()
      requires tree.Valid() && (Keys() != {} ==> hasKeys)
      modifies this
      ensures Exact(Keys(), hasKeys, minKey, maxKey)
      ensures !hasKeys ==> minKey == INT64_MAX && maxKey == INT64_MIN
      ensures size == old(size) && insertCount == old(insertCount)
      ensures removeCount == old(removeCount) && lookupCount == old(lookupCount)
    {
      if tree.Size() == 0 {
        hasKeys := false;
        minKey := INT64_MAX;
        maxKey := INT64_MIN;
      } else {
        var found;
        found, minKey := tree.MinKey();
        found, maxKey := tree.MaxKey();
      }
    }

    /**
     * `shard_insert`: the tree takes the pair; only a new key grows the size
     * and the bounds, but every call counts as an insert.
     */
    method Insert(key: int, value: V)
      requires Valid()
      modifies this, tree, tree.pool
      ensures Valid()
      ensures Keys() == old(Keys()) + {key}
      ensures forall j :: Lookup(tree.root, j) == if j == key then Some(value) else old(Lookup(tree.root, j))
      ensures size == if key in old(Keys()) then old(size) else old(size) + 1
      ensures insertCount == old(insertCount) + 1
      ensures removeCount == old(removeCount) && lookupCount == old(lookupCount)
    {
      ghost var before := Keys();
      var grew := TreeInsert(key, value);
      CountInsert(key, grew, before);
    }

    /** The bookkeeping of `shard_insert` once the tree has the pair. */
    method CountInsert(key: int, grew: bool, ghost before: set<int>)
      requires tree.Valid() && size + (if grew then 1 else 0) == tree.size
      requires Exact(before, hasKeys, minKey, maxKey) && (!hasKeys ==> minKey == INT64_MAX && maxKey == INT64_MIN)
      requires Keys() == before + {key} && grew == (key !in before)
      modifies this
      ensures Valid()
      ensures size == old(size) + (if grew then 1 else 0) && insertCount == old(insertCount) + 1
      ensures removeCount == old(removeCount) && lookupCount == old(lookupCount)
    {
      if grew {
        size := size + 1;
        UpdateBounds(key);
      } else {
        assert Keys() == before;
      }
      insertCount := insertCount + 1;
    }

    /** The tree part of `shard_insert`: `avl_tree_insert`, and whether the tree's size went up. */
    method TreeInsert(key: int, value: V) returns (grew: bool)
      requires tree.Valid()
      modifies tree, tree.pool
      ensures tree.Valid() && grew == (key !in old(Keys())) && tree.size == old(tree.size) + (if grew then 1 else 0)
      ensures Keys() == old(Keys()) + {key} && Keys() - {key} == old(Keys()) - {key}
      ensures forall j :: Lookup(tree.root, j) == if j == key then Some(value) else old(Lookup(tree.root, j))
    {
      var oldSize := tree.Size();
      tree.Insert(key, value);
      var newSize := tree.Size();
      grew := newSize > oldSize;
    }

    /**
     * `shard_remove`: false, with no counter changed, for an absent key.
     * Otherwise the key is gone, the size drops, the remove is counted, and
     * the bounds are recomputed when the key was one of them.
     */
    method Remove(key: int) returns (removed: bool)
      requires Valid()
      modifies this, tree, tree.pool
      ensures Valid()
      ensures removed == (key in old(Keys()))
      ensures Keys() == old(Keys()) - {key}
      ensures forall j :: Lookup(tree.root, j) == if j == key then None else old(Lookup(tree.root, j))
      ensures size == if removed then old(size) - 1 else old(size)
      ensures removeCount == if removed then old(removeCount) + 1 else old(removeCount)
      ensures insertCount == old(insertCount) && lookupCount == old(lookupCount)
    {
      removed := TreeRemove(key);
      if removed {
        size := size - 1;
        removeCount := removeCount + 1;
        if key == minKey || key == maxKey {
          RecomputeBounds();
        } else {
          assert minKey in Keys() && maxKey in Keys();
        }
      }
    }

    /** The tree part of `shard_remove`: `avl_tree_remove`. */
    method TreeRemove(key: int) returns (removed: bool)
      requires tree.Valid()
      modifies tree, tree.pool
      ensures tree.Valid() && removed == (key in old(Keys())) && tree.size == old(tree.size) - (if removed then 1 else 0)
      ensures Keys() == old(Keys()) - {key}
      ensures forall j :: Lookup(tree.root, j) == if j == key then None else old(Lookup(tree.root, j))
    {
      removed := tree.Remove(key);
    }

    /** `shard_contains`: whether the key is stored; one more lookup. */
    method Contains(key: int) returns (b: bool)
      requires Valid()
      modifies this
      ensures Valid() && b == (key in Keys())
      ensures lookupCount == old(lookupCount) + 1
      ensures size == old(size) && insertCount == old(insertCount) && removeCount == old(removeCount)
    {
      b := tree.Contains(key);
      lookupCount := lookupCount + 1;
    }

    /** `shard_get`: the stored value (`found` is `Some`), or `None`; one more lookup. */
    method Get(key: int) returns (r: Option<V>)
      requires Valid()
      modifies this
      ensures Valid() && r.Some? == (key in Keys()) && r == Lookup(tree.root, key)
      ensures lookupCount == old(lookupCount) + 1
      ensures size == old(size) && insertCount == old(insertCount) && removeCount == old(removeCount)
    {
      r := tree.Get(key);
      lookupCount := lookupCount + 1;
    }

    /**
     * `shard_intersects_range`: false without keys, otherwise whether
     * [min_key, max_key] meets [lo, hi]. With exact bounds that is: some key
     * is at least lo and some key is at most hi; so a shard holding a key of
     * [lo, hi] is never skipped.
     */
    function IntersectsRange(lo: int, hi: int): (b: bool)
      requires Valid()
      reads this, tree, tree.pool
      ensures b <==> (exists k :: k in Keys() && lo <= k) && (exists k :: k in Keys() && k <= hi)
      ensures (exists k :: k in Keys() && lo <= k <= hi) ==> b
    {
      hasKeys && !(maxKey < lo || minKey > hi)
    }

    /**
     * `shard_range_query`: the tree's range walk with a callback that stores
     * each pair while fewer than `max_results` are stored, and stops the walk
     * at the first pair it has no room for. The callback's answer depends
     * only on how many calls came before, which in the ascending walk is the
     * pair's rank among the pairs in range; the model passes it in that form
     * and then performs the callback's stores call by call. The output is the
     * first `max_results` pairs with lo <= key <= hi, in ascending order.
     */
    method RangeQuery(lo: int, hi: int, out: array<Pair<V>>, maxResults: nat) returns (count: nat)
      requires Valid() && maxResults <= out.Length
      modifies out
      ensures var inRange := Clip(InOrder(tree.root), lo, hi);
        count == Min(maxResults, |inRange|) && out[..count] == inRange[..count]
      ensures Ascending(out[..count])
      ensures forall i :: 0 <= i < count ==> lo <= out[i].key <= hi && Lookup(tree.root, out[i].key) == Some(out[i].value)
      ensures out[count..] == old(out[count..])
    {
      var inRange := Clip(InOrder(tree.root), lo, hi);
      var calls := tree.RangeForeach(lo, hi, Stored(inRange, maxResults));
      CountedWalk(tree.root, lo, hi, maxResults);
      count := StoreCalls(calls, out, maxResults);
      assert out[..count] == inRange[..count];
      ClipPrefix(tree.root, lo, hi, count);
    }

    /** `shard_get_stats`: the counters, and the bounds when the shard has keys. */
    function GetStats(): (s: ShardStats)
      requires Valid()
      reads this, tree, tree.pool
      ensures s.size == |Keys()| && s.hasKeys == (Keys() != {})
      ensures s.hasKeys ==> s.minKey in Keys() && s.maxKey in Keys() && forall k :: k in Keys() ==> s.minKey <= k <= s.maxKey
      ensures !s.hasKeys ==> s.minKey == 0 && s.maxKey == 0
      ensures s.inserts == insertCount && s.removes == removeCount && s.lookups == lookupCount
    {
      if hasKeys then ShardStats(size, insertCount, removeCount, lookupCount, true, minKey, maxKey)
      else ShardStats(size, insertCount, removeCount, lookupCount, false, 0, 0)
    }

    /** `shard_clear`: the tree is emptied, the counters zeroed and the bounds reset. */
    method Clear()
      requires Valid()
      modifies this, tree, tree.pool
      ensures Valid() && Keys() == {} && size == 0 && !hasKeys
      ensures insertCount == 0 && removeCount == 0 && lookupCount == 0
    {
      tree.Clear();
      size := 0;
      insertCount := 0;
      removeCount := 0;
      lookupCount := 0;
      hasKeys := false;
      minKey := INT64_MAX;
      maxKey := INT64_MIN;
    }

    /** `shard_extract_all`: every pair, in strictly ascending key order. */
    method ExtractAll(out: array<Pair<V>>) returns (count: nat)
      requires Valid() && size <= out.Length
      modifies out
      ensures count == |Keys()| && out[..count] == InOrder(tree.root) && Ascending(out[..count])
    {
      count := tree.ExtractAll(out);
    }
  }

  /**
   * The answers of `range_query_callback`, which stores a pair while fewer
   * than `max` are stored: on the ascending pairs of `inRange`, the number of
   * earlier calls is the pair's rank.
   */
  function Stored<V>(inRange: seq<Pair<V>>, max: nat): Pair<V> -> bool
  {
    (p: Pair<V>) => Rank(inRange, p.key) < max
  }

  /** With those answers the walk calls back on the first `max + 1` pairs in range, or on all of them. */
  lemma CountedWalk<V>(t: Tree<V>, lo: int, hi: int, max: nat)
    requires Bst(t)
    ensures var inRange := Clip(InOrder(t), lo, hi);
      CallsUntilStop(inRange, Stored(inRange, max)) == if |inRange| <= max then inRange else inRange[..max + 1]
  {
    var inRange := Clip(InOrder(t), lo, hi);
    InOrderAscending(t);
    ClipFacts(InOrder(t), lo, hi);
    forall j | 0 <= j < |inRange| ensures Stored(inRange, max)(inRange[j]) == (j < max) {
      RankAt(inRange, j);
    }
    CallsCounted(inRange, Stored(inRange, max), 0, max);
  }

  /** The stores of `range_query_callback`, call by call: a pair is stored while there is room. */
  method StoreCalls<V>(calls: seq<Pair<V>>, out: array<Pair<V>>, max: nat) returns (count: nat)
    requires max <= out.Length
    modifies out
    ensures count == Min(|calls|, max) && out[..count] == calls[..count]
    ensures out[count..] == old(out[count..])
  {
    count := 0;
    var i := 0;
    while i < |calls|
      invariant i <= |calls| && count == Min(i, max)
      invariant out[..count] == calls[..count] && out[count..] == old(out[count..])
      decreases |calls| - i
    {
      if count < max {
        out[count] := calls[i];
        count := count + 1;
      }
      i := i + 1;
    }
  }

  /** A prefix of the clipped traversal is ascending, in range, and agrees with the tree. */
  lemma ClipPrefix<V>(t: Tree<V>, lo: int, hi: int, n: nat)
    requires Bst(t) && n <= |Clip(InOrder(t), lo, hi)|
    ensures var c := Clip(InOrder(t), lo, hi)[..n];
      Ascending(c) && forall i :: 0 <= i < n ==> lo <= c[i].key <= hi && Lookup(t, c[i].key) == Some(c[i].value)
  {
    InOrderAscending(t);
    ClipFacts(InOrder(t), lo, hi);
    InOrderLookup(t);
    var c := Clip(InOrder(t), lo, hi);
    forall i | 0 <= i < n ensures Lookup(t, c[i].key) == Some(c[i].value) {
      var j :| 0 <= j < |InOrder(t)| && InOrder(t)[j] == c[i];
    }
  }
}

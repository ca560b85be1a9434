/**
 * `TreeShard` of `shard.hpp`: a C++ `AVLTree` with size, operation counters
 * and the min/max bounds. The mutex and the atomics are not modelled; every
 * operation is one step.
 *
 * Unlike the C shard, `clear` resets `has_keys` but leaves `min_key` and
 * `max_key` as they were, so the class invariant says nothing about the
 * bounds of an empty shard.
 */
module CppShard {
  import opened Wrappers
  import opened AvlCore
  import opened AvlOrder
  import opened CppTree
  import opened ShardBounds

  /** `TreeShard::Stats`: the bounds are present only when the shard has keys. */
  datatype ShardStats = ShardStats(size: nat, inserts: nat, removes: nat, lookups: nat, minKey: Option<int>, maxKey: Option<int>)

  class TreeShard<V> {
    const tree: BinarySearchTree<V>
    var size: nat
    var insertCount: nat
    var removeCount: nat
    var lookupCount: nat
    var minKey: int
    var maxKey: int
    var hasKeys: bool

    /** The keys of the tree. */
    ghost function Keys(): set<int>
      reads this, tree
    {
      AvlCore.Keys(tree.root)
    }

    /** The tree is a valid AVL tree, `size` counts its keys, and the bounds are exact while there are keys. */
    ghost predicate Valid()
      reads this, tree
    {
      && tree.Valid() && tree.balancing && size == tree.size
      && Exact(Keys(), hasKeys, minKey, maxKey)
    }

    /**
     * `TreeShard() = default`: an empty `AVLTree`, zero counters and the
     * bounds `INT64_MAX`/`INT64_MIN`. `zero` is the `Value{}` the tree's
     * `get` returns for a missing key.
     */
    constructor (zero: V)
      ensures Valid() && fresh(tree)
      ensures Keys() == {} && size == 0 && !hasKeys
      ensures minKey == INT64_MAX && maxKey == INT64_MIN
      ensures insertCount == 0 && removeCount == 0 && lookupCount == 0
    {
      tree := new BinarySearchTree(true, zero);
      size := 0;
      insertCount := 0;
      removeCount := 0;
      lookupCount := 0;
      minKey := INT64_MAX;
      maxKey := INT64_MIN;
      hasKeys := false;
    }

    /** `update_bounds`: the first key sets both bounds; a later one widens them. */
    method UpdateBounds(key: int)
      requires Exact(Keys() - {key}, hasKeys, minKey, maxKey) && key in Keys()
      modifies this
      ensures Exact(Keys(), hasKeys, minKey, maxKey)
      ensures size == old(size) && insertCount == old(insertCount)
      ensures removeCount == old(removeCount) && lookupCount == old(lookupCount)
    {
      if !hasKeys {
        minKey := key;
        maxKey := key;
        hasKeys := true;
        assert Keys() - {key} == {};
        assert Keys() == {key};
      } else {
        if key < minKey {
          minKey := key;
        }
        if key > maxKey {
          maxKey := key;
        }
        forall k | k in Keys() ensures minKey <= k <= maxKey {
          if k != key {
            assert k in old(Keys()) - {key};
          }
        }
      }
    }

    /**
     * `recompute_bounds`: for an empty tree `has_keys` is cleared and the
     * bounds reset; otherwise the bounds become the tree's `minKey()` and
     * `maxKey()`, and `has_keys` is left as it is.
     */
    method RecomputeBounds()
      requires tree.Valid() && (Keys() != {} ==> hasKeys)
      modifies this
      ensures Exact(Keys(), hasKeys, minKey, maxKey)
      ensures Keys() == {} ==> minKey == INT64_MAX && maxKey == INT64_MIN
      ensures size == old(size) && insertCount == old(insertCount)
      ensures removeCount == old(removeCount) && lookupCount == old(lookupCount)
    {
      if tree.Size() == 0 {
        hasKeys := false;
        minKey := INT64_MAX;
        maxKey := INT64_MIN;
      } else {
        minKey := tree.MinKey();
        maxKey := tree.MaxKey();
      }
    }

    /**
     * `insert`: the tree takes the pair; only a growth of the tree's size
     * grows `size` and the bounds, but every call counts as an insert.
     */
    method Insert(key: int, value: V)
      requires Valid()
      modifies this, tree
      ensures Valid()
      ensures Keys() == old(Keys()) + {key}
      ensures forall j :: Lookup(tree.root, j) == if j == key then Some(value) else old(Lookup(tree.root, j))
      ensures size == if key in old(Keys()) then old(size) else old(size) + 1
      ensures insertCount == old(insertCount) + 1
      ensures removeCount == old(removeCount) && lookupCount == old(lookupCount)
    {
      ghost var before := Keys();
      var grew := TreeInsert(key, value);
      CountInsert(key, grew, before);
    }

    /** The tree part of `insert`: `tree_.insert`, and whether `new_size > old_size`. */
    method TreeInsert(key: int, value: V) returns (grew: bool)
      requires tree.Valid()
      modifies tree
      ensures tree.Valid() && grew == (key !in old(Keys())) && tree.size == old(tree.size) + (if grew then 1 else 0)
      ensures Keys() == old(Keys()) + {key}
      ensures forall j :: Lookup(tree.root, j) == if j == key then Some(value) else old(Lookup(tree.root, j))
    {
      var oldSize := tree.Size();
      tree.Insert(key, value);
      var newSize := tree.Size();
      grew := newSize > oldSize;
    }

    /** The bookkeeping of `insert` once the tree has the pair. */
    method CountInsert(key: int, grew: bool, ghost before: set<int>)
      requires tree.Valid() && tree.balancing && size + (if grew then 1 else 0) == tree.size
      requires Exact(before, hasKeys, minKey, maxKey)
      requires Keys() == before + {key} && grew == (key !in before)
      modifies this
      ensures Valid()
      ensures size == old(size) + (if grew then 1 else 0) && insertCount == old(insertCount) + 1
      ensures removeCount == old(removeCount) && lookupCount == old(lookupCount)
    {
      if grew {
        size := size + 1;
        assert Keys() - {key} == before;
        UpdateBounds(key);
      } else {
        assert Keys() == before;
      }
      insertCount := insertCount + 1;
    }

    /**
     * `remove`: false, with no counter changed, when the tree's size did not
     * drop. Otherwise the key is gone, the size drops, the remove is counted,
     * and the bounds are recomputed when the key was one of them.
     */
    method Remove(key: int) returns (removed: bool)
      requires Valid()
      modifies this, tree
      ensures Valid()
      ensures removed == (key in old(Keys()))
      ensures Keys() == old(Keys()) - {key}
      ensures forall j :: Lookup(tree.root, j) == if j == key then None else old(Lookup(tree.root, j))
      ensures size == if removed then old(size) - 1 else old(size)
      ensures removeCount == if removed then old(removeCount) + 1 else old(removeCount)
      ensures insertCount == old(insertCount) && lookupCount == old(lookupCount)
    {
      removed := TreeRemove(key);
      if removed {
        size := size - 1;
        removeCount := removeCount + 1;
        if key == minKey || key == maxKey {
          RecomputeBounds();
        } else {
          assert minKey in Keys() && maxKey in Keys();
        }
      }
    }

    /** The tree part of `remove`: `tree_.remove`, and whether `new_size < old_size`. */
    method TreeRemove(key: int) returns (removed: bool)
      requires tree.Valid()
      modifies tree
      ensures tree.Valid() && removed == (key in old(Keys())) && tree.size == old(tree.size) - (if removed then 1 else 0)
      ensures Keys() == old(Keys()) - {key}
      ensures forall j :: Lookup(tree.root, j) == if j == key then None else old(Lookup(tree.root, j))
    {
      var oldSize := tree.Size();
      tree.Remove(key);
      var newSize := tree.Size();
      removed := newSize < oldSize;
    }

    /** `contains`: whether the key is stored; one more lookup. */
    method Contains(key: int) returns (b: bool)
      requires Valid()
      modifies this
      ensures Valid() && b == (key in Keys())
      ensures lookupCount == old(lookupCount) + 1
      ensures size == old(size) && insertCount == old(insertCount) && removeCount == old(removeCount)
    {
      lookupCount := lookupCount + 1;
      b := tree.Contains(key);
    }

    /** `get`: the stored value, or `nullopt` for an absent key; one more lookup. */
    method Get(key: int) returns (r: Option<V>)
      requires Valid()
      modifies this
      ensures Valid() && r.Some? == (key in Keys()) && r == Lookup(tree.root, key)
      ensures lookupCount == old(lookupCount) + 1
      ensures size == old(size) && insertCount == old(insertCount) && removeCount == old(removeCount)
    {
      lookupCount := lookupCount + 1;
      var present := tree.Contains(key);
      if present {
        var v := tree.Get(key);
        r := Some(v);
      } else {
        r := None;
        LookupKeys(tree.root, key);
      }
    }

    /**
     * `intersects_range`: false without keys, otherwise whether
     * [min_key, max_key] meets [lo, hi]. With exact bounds: some key is at
     * least lo and some key is at most hi, so a shard holding a key of
     * [lo, hi] is never skipped.
     */
    function IntersectsRange(lo: int, hi: int): (b: bool)
      requires Valid()
      reads this, tree
      ensures b <==> (exists k :: k in Keys() && lo <= k) && (exists k :: k in Keys() && k <= hi)
      ensures (exists k :: k in Keys() && lo <= k <= hi) ==> b
    {
      hasKeys && !(maxKey < lo || minKey > hi)
    }

    /**
     * `range_query`: the pruned recursive walk writes every pair with
     * lo <= key <= hi to the output, in ascending key order, and nothing else.
     */
    method RangeQuery(lo: int, hi: int) returns (out: seq<Pair<V>>)
      requires Valid()
      ensures out == Clip(InOrder(tree.root), lo, hi) && Ascending(out)
      ensures forall i :: 0 <= i < |out| ==> lo <= out[i].key <= hi && Lookup(tree.root, out[i].key) == Some(out[i].value)
      ensures (set p | p in out :: p.key) == (set k | k in Keys() && lo <= k <= hi)
    {
      out := RangeCollect(tree.root, lo, hi);
      RangeCollectSpec(tree.root, lo, hi);
      ClipKeySet(tree.root, lo, hi);
      InOrderAscending(tree.root);
      ClipFacts(InOrder(tree.root), lo, hi);
      InOrderLookup(tree.root);
      forall i | 0 <= i < |out| ensures Lookup(tree.root, out[i].key) == Some(out[i].value) {
        var j :| 0 <= j < |InOrder(tree.root)| && InOrder(tree.root)[j] == out[i];
      }
    }

    /** `get_stats`: the counters, and the bounds when the shard has keys. */
    function GetStats(): (s: ShardStats)
      requires Valid()
      reads this, tree
      ensures s.size == |Keys()| && s.minKey.Some? == (Keys() != {}) && s.maxKey.Some? == (Keys() != {})
      ensures s.minKey.Some? ==> s.minKey.value in Keys() && forall k :: k in Keys() ==> s.minKey.value <= k
      ensures s.maxKey.Some? ==> s.maxKey.value in Keys() && forall k :: k in Keys() ==> k <= s.maxKey.value
      ensures s.inserts == insertCount && s.removes == removeCount && s.lookups == lookupCount
    {
      if hasKeys then ShardStats(size, insertCount, removeCount, lookupCount, Some(minKey), Some(maxKey))
      else ShardStats(size, insertCount, removeCount, lookupCount, None, None)
    }

    /**
     * `clear`: the tree is move-assigned a fresh `AVLTree`, the counters are
     * zeroed and `has_keys` cleared; `min_key` and `max_key` keep their values.
     */
    method Clear()
      requires Valid()
      modifies this, tree
      ensures Valid() && Keys() == {} && size == 0 && !hasKeys
      ensures insertCount == 0 && removeCount == 0 && lookupCount == 0
      ensures minKey == old(minKey) && maxKey == old(maxKey)
    {
      var empty := new BinarySearchTree(true, tree.zero);
      tree.MoveAssign(empty);
      size := 0;
      insertCount := 0;
      removeCount := 0;
      lookupCount := 0;
      hasKeys := false;
    }
  }

  /** The keys of the clipped traversal are exactly the tree's keys in [lo, hi]. */
  lemma ClipKeySet<V>(t: Tree<V>, lo: int, hi: int)
    requires Bst(t)
    ensures (set p | p in Clip(InOrder(t), lo, hi) :: p.key) == (set k | k in Keys(t) && lo <= k <= hi)
  {
    var c := Clip(InOrder(t), lo, hi);
    InOrderAscending(t);
    ClipFacts(InOrder(t), lo, hi);
    InOrderInKeys(t);
    forall p | p in c ensures p.key in Keys(t) && lo <= p.key <= hi {
      var i :| 0 <= i < |c| && c[i] == p;
      var j :| 0 <= j < |InOrder(t)| && InOrder(t)[j] == p;
    }
    forall k | k in Keys(t) && lo <= k <= hi ensures k in (set p | p in c :: p.key) {
      ClipCovers(t, lo, hi, k);
    }
  }

  /** A key of the tree in [lo, hi] is the key of some pair of the clipped traversal. */
  lemma ClipCovers<V>(t: Tree<V>, lo: int, hi: int, k: int)
    requires k in Keys(t) && lo <= k <= hi
    ensures exists i :: 0 <= i < |Clip(InOrder(t), lo, hi)| && Clip(InOrder(t), lo, hi)[i].key == k
  {
    InOrderCovers(t);
    var j :| 0 <= j < |InOrder(t)| && InOrder(t)[j].key == k;
    ClipKeeps(InOrder(t), lo, hi, j);
    var c := Clip(InOrder(t), lo, hi);
    var i :| 0 <= i < |c| && c[i] == InOrder(t)[j];
    assert c[i].key == k;
  }
}

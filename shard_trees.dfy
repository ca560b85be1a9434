/**
 * What the sharded trees (`parallel_avl.c`, `parallel_avl.hpp`,
 * `DynamicShardedTree.hpp`, `AVLTreeParallel.h`) do with a vector of
 * shards. Each shard is taken by the value of its AVL tree. The shard
 * wrappers' counters and bounds are modelled with the shard classes
 * themselves. A shard's size is the number of keys in its tree.
 */
module ShardTrees {
  import opened Wrappers
  import opened AvlCore
  import opened AvlOrder
  import opened Routing
  import ShardBounds

  /** Every shard's tree is a search tree. */
  ghost predicate AllBst<V>(shards: seq<Tree<V>>)
  {
    forall i :: 0 <= i < |shards| ==> Bst(shards[i])
  }

  /** Every redirect entry names a shard of the vector. */
  ghost predicate Bounded<K>(m: map<K, nat>, n: nat)
  {
    forall k :: k in m ==> m[k] < n
  }

  /** Every key some shard holds. */
  ghost function KeySet<V>(shards: seq<Tree<V>>): set<int>
  {
    set i, k | 0 <= i < |shards| && k in Keys(shards[i]) :: k
  }

  /** The keys of the shards but the last, and of the last. */
  lemma KeySetDrop<V>(shards: seq<Tree<V>>)
    requires |shards| > 0
    ensures KeySet(shards) == KeySet(shards[..|shards| - 1]) + Keys(shards[|shards| - 1])
  {
    var n := |shards| - 1;
    forall k | k in KeySet(shards) ensures k in KeySet(shards[..n]) + Keys(shards[n]) {
      var i, j :| 0 <= i < |shards| && j in Keys(shards[i]) && j == k;
      if i < n {
        assert k in Keys(shards[..n][i]);
      }
    }
    forall k | k in KeySet(shards[..n]) ensures k in KeySet(shards) {
      var i, j :| 0 <= i < n && j in Keys(shards[..n][i]) && j == k;
      assert k in Keys(shards[i]);
    }
    forall k | k in Keys(shards[n]) ensures k in KeySet(shards) {
      assert k in Keys(shards[n]);
    }
  }

  /** No key is held by two shards. */
  ghost predicate Disjoint<V>(shards: seq<Tree<V>>)
  {
    forall i, j, k :: 0 <= i < |shards| && 0 <= j < |shards| && k in Keys(shards[i]) && k in Keys(shards[j]) ==> i == j
  }

  /** Shards that hold no key twice hold as many pairs as distinct keys. */
  lemma {:induction false} DisjointSize<V>(shards: seq<Tree<V>>)
    requires Disjoint(shards)
    ensures TotalSize(shards) == |KeySet(shards)|
    decreases |shards|
  {
    if shards == [] {
      assert KeySet(shards) == {};
    } else {
      var n := |shards| - 1;
      var front, last := shards[..n], shards[n];
      assert Disjoint(front) by {
        forall i, j, k | 0 <= i < n && 0 <= j < n && k in Keys(front[i]) && k in Keys(front[j]) ensures i == j {
          assert front[i] == shards[i] && front[j] == shards[j];
        }
      }
      DisjointSize(front);
      assert shards == front + [last];
      TotalSizeAppend(front, last);
      KeySetDrop(shards);
      assert KeySet(front) !! Keys(last) by {
        forall k | k in KeySet(front) ensures k !in Keys(last) {
          var i :| 0 <= i < n && k in Keys(front[i]);
          assert front[i] == shards[i] && i != n;
        }
      }
    }
  }

  /** The keys of a list of pairs. */
  function PairKeys<V>(s: seq<Pair<V>>): set<int>
  {
    set i | 0 <= i < |s| :: s[i].key
  }

  /** The pairs of a shard's traversal are its keys. */
  lemma PairKeysInOrder<V>(t: Tree<V>)
    ensures PairKeys(InOrder(t)) == Keys(t)
  {
    InOrderInKeys(t);
    InOrderCovers(t);
    forall k | k in Keys(t) ensures k in PairKeys(InOrder(t)) {
      var i :| 0 <= i < |InOrder(t)| && InOrder(t)[i].key == k;
    }
    forall k | k in PairKeys(InOrder(t)) ensures k in Keys(t) {
      var i :| 0 <= i < |InOrder(t)| && InOrder(t)[i].key == k;
    }
  }

  /** One more pair adds its key. */
  lemma PairKeysStep<V>(s: seq<Pair<V>>, i: nat)
    requires i < |s|
    ensures PairKeys(s[..i + 1]) == PairKeys(s[..i]) + {s[i].key}
  {
    forall k | k in PairKeys(s[..i + 1]) ensures k in PairKeys(s[..i]) + {s[i].key} {
      var j :| 0 <= j < i + 1 && s[..i + 1][j].key == k;
      if j < i {
        assert s[..i][j].key == k;
      }
    }
    forall k | k in PairKeys(s[..i]) + {s[i].key} ensures k in PairKeys(s[..i + 1]) {
      if k == s[i].key {
        assert s[..i + 1][i].key == k;
      } else {
        var j :| 0 <= j < i && s[..i][j].key == k;
        assert s[..i + 1][j].key == k;
      }
    }
  }

  /** The vector after shard `t` takes `key` with `value`: an AVL insertion into that shard. */
  function Placed<V>(shards: seq<Tree<V>>, t: nat, key: int, value: V): seq<Tree<V>>
    requires t < |shards|
  {
    shards[t := Insert(shards[t], key, value, true)]
  }

  /** Placing a pair adds its key to the stored keys and nothing else. */
  lemma KeySetPlaced<V>(shards: seq<Tree<V>>, t: nat, key: int, value: V)
    requires t < |shards|
    ensures KeySet(Placed(shards, t, key, value)) == KeySet(shards) + {key}
  {
    var w := Placed(shards, t, key, value);
    InsertSpec(shards[t], key, value, true);
    forall k | k in KeySet(w) ensures k in KeySet(shards) + {key} {
      var j, x :| 0 <= j < |w| && x in Keys(w[j]) && x == k;
      assert k == key || k in Keys(shards[j]);
    }
    forall k | k in KeySet(shards) + {key} ensures k in KeySet(w) {
      if k == key {
        assert k in Keys(w[t]);
      } else {
        var j, x :| 0 <= j < |shards| && x in Keys(shards[j]) && x == k;
        assert k in Keys(w[j]);
      }
    }
  }

  /** `shard_size` of every shard, in shard order. */
  function Sizes<V>(shards: seq<Tree<V>>): seq<nat>
  {
    seq(|shards|, i requires 0 <= i < |shards| => |Keys(shards[i])|)
  }

  /** The sum of the shard sizes: what `size()` adds up. */
  function TotalSize<V>(shards: seq<Tree<V>>): nat
  {
    Sum(Sizes(shards))
  }

  /** Replacing one shard changes the total by the change in that shard's size. */
  lemma TotalSizeUpdate<V>(shards: seq<Tree<V>>, i: nat, t: Tree<V>)
    requires i < |shards|
    ensures TotalSize(shards[i := t]) + |Keys(shards[i])| == TotalSize(shards) + |Keys(t)|
  {
    assert Sizes(shards[i := t]) == Sizes(shards)[i := |Keys(t)|];
    SumUpdate(Sizes(shards), i, |Keys(t)|);
  }

  /** Empty shards hold nothing. */
  lemma TotalSizeEmpty<V>(shards: seq<Tree<V>>)
    requires forall i :: 0 <= i < |shards| ==> shards[i] == Leaf
    ensures TotalSize(shards) == 0
  {
    SumZeros(Sizes(shards));
  }

  /** An appended shard adds its size; a dropped last shard takes its size away. */
  lemma TotalSizeAppend<V>(shards: seq<Tree<V>>, t: Tree<V>)
    ensures TotalSize(shards + [t]) == TotalSize(shards) + |Keys(t)|
  {
    assert Sizes(shards + [t])[..|shards|] == Sizes(shards);
  }

  /** The loop of `parallel_avl_size` and `ParallelAVL::size`: each shard's size, added up in shard order. */
  method SumSizes<V>(shards: seq<Tree<V>>) returns (total: nat)
    ensures total == TotalSize(shards)
  {
    var sizes := Sizes(shards);
    total := 0;
    var i := 0;
    while i < |shards|
      invariant i <= |shards| && total == Sum(sizes[..i])
    {
      assert sizes[..i + 1][..i] == sizes[..i];
      total := total + |Keys(shards[i])|;
      i := i + 1;
    }
    assert sizes[..i] == sizes;
  }

  /** The per-shard loop of the two `get_stats`: the list of shard sizes and their sum. */
  method ListSizes<V>(shards: seq<Tree<V>>) returns (sizes: seq<nat>, total: nat)
    ensures sizes == Sizes(shards) && total == TotalSize(shards)
  {
    sizes := [];
    total := 0;
    var i := 0;
    while i < |shards|
      invariant i <= |shards| && sizes == Sizes(shards)[..i] && total == Sum(sizes)
    {
      assert (sizes + [|Keys(shards[i])|])[..i] == sizes;
      sizes := sizes + [|Keys(shards[i])|];
      total := total + |Keys(shards[i])|;
      i := i + 1;
    }
    assert sizes == Sizes(shards);
  }

  /** A router load vector after `record_insertion` on shard `i`. */
  function Bumped(loads: seq<nat>, i: nat): seq<nat>
    requires i < |loads|
  {
    loads[i := loads[i] + 1]
  }

  /** A router load vector after `record_removal` on shard `i`: never below zero. */
  function Dropped(loads: seq<nat>, i: nat): seq<nat>
    requires i < |loads|
  {
    if loads[i] > 0 then loads[i := loads[i] - 1] else loads
  }

  /**
   * The scan that `contains`, `get` and `remove` make over the other shards
   * after a topology change: the first shard, in index order, other than
   * `skip`, whose tree holds the key.
   */
  method ScanShards<V>(shards: seq<Tree<V>>, k: int, skip: nat) returns (r: Option<nat>)
    requires AllBst(shards)
    ensures r == FirstHolder(shards, k, skip, 0)
  {
    var i := 0;
    while i < |shards|
      invariant i <= |shards|
      invariant forall j :: 0 <= j < i && j != skip ==> k !in Keys(shards[j])
    {
      LookupKeys(shards[i], k);
      if i != skip && Lookup(shards[i], k).Some? {
        return Some(i);
      }
      i := i + 1;
    }
    return None;
  }

  /** Some shard holds the key. */
  ghost predicate Stored<V>(shards: seq<Tree<V>>, k: int)
  {
    exists i :: 0 <= i < |shards| && k in Keys(shards[i])
  }

  /** Every key of every shard is an `int64_t`. */
  ghost predicate Int64Keys<V>(shards: seq<Tree<V>>)
  {
    forall i, k :: 0 <= i < |shards| && k in Keys(shards[i]) ==> -0x8000_0000_0000_0000 <= k <= 0x7fff_ffff_ffff_ffff
  }

  /**
   * The scan of the other shards: the lowest index from `i` on, other than
   * `skip`, whose tree holds `k`.
   */
  function FirstHolder<V>(shards: seq<Tree<V>>, k: int, skip: nat, i: nat): (r: Option<nat>)
    decreases |shards| - i
    ensures r.Some? ==> i <= r.value < |shards| && r.value != skip && k in Keys(shards[r.value])
    ensures r.Some? ==> forall j :: i <= j < r.value && j != skip ==> k !in Keys(shards[j])
    ensures r.None? <==> forall j :: i <= j < |shards| && j != skip ==> k !in Keys(shards[j])
  {
    if i >= |shards| then None
    else if i != skip && k in Keys(shards[i]) then Some(i)
    else FirstHolder(shards, k, skip, i + 1)
  }

  /**
   * `intersects_range` with exact bounds: the shard has keys, and its least
   * key is at most `hi` and its greatest at least `lo`. A shard holding a key
   * of [lo, hi] always intersects.
   */
  function Intersects<V>(t: Tree<V>, lo: int, hi: int): (b: bool)
    ensures Bst(t) && (exists k :: k in Keys(t) && lo <= k <= hi) ==> b
  {
    t.Node? && !(Rightmost(t) < lo || Leftmost(t) > hi)
  }

  /** What a shard's range query reports: its pairs with lo <= key <= hi, ascending. */
  function InRange<V>(t: Tree<V>, lo: int, hi: int): seq<Pair<V>>
  {
    Clip(InOrder(t), lo, hi)
  }

  /** The pairs of [lo, hi] of every shard, shard after shard. */
  function AllInRange<V>(shards: seq<Tree<V>>, lo: int, hi: int): seq<Pair<V>>
  {
    if shards == [] then [] else AllInRange(shards[..|shards| - 1], lo, hi) + InRange(shards[|shards| - 1], lo, hi)
  }

  /** Every pair of every shard, shard after shard, each shard in ascending order. */
  function AllPairs<V>(shards: seq<Tree<V>>): seq<Pair<V>>
  {
    if shards == [] then [] else AllPairs(shards[..|shards| - 1]) + InOrder(shards[|shards| - 1])
  }

  /** A shard that does not intersect the range has no pairs in it. */
  lemma MissedIsEmpty<V>(t: Tree<V>, lo: int, hi: int)
    requires Bst(t) && !Intersects(t, lo, hi)
    ensures InRange(t, lo, hi) == []
  {
    InOrderInKeys(t);
    ClipEmpty(InOrder(t), lo, hi);
  }

  /** A pair a shard holds in [lo, hi] is among that shard's range pairs. */
  lemma InRangeCovers<V>(t: Tree<V>, lo: int, hi: int, k: int, v: V)
    requires Bst(t) && Lookup(t, k) == Some(v) && lo <= k <= hi
    ensures Pair(k, v) in InRange(t, lo, hi)
  {
    LookupKeys(t, k);
    InOrderCovers(t);
    InOrderLookup(t);
    var j :| 0 <= j < |InOrder(t)| && InOrder(t)[j].key == k;
    ShardBounds.ClipKeeps(InOrder(t), lo, hi, j);
  }

  /** A pair some shard holds in [lo, hi] is among the range pairs of the vector. */
  lemma {:induction false} AllInRangeCovers<V>(shards: seq<Tree<V>>, lo: int, hi: int, i: nat, k: int, v: V)
    requires AllBst(shards) && i < |shards| && Lookup(shards[i], k) == Some(v) && lo <= k <= hi
    ensures Pair(k, v) in AllInRange(shards, lo, hi)
    decreases |shards|
  {
    var n := |shards| - 1;
    if i == n {
      InRangeCovers(shards[n], lo, hi, k, v);
    } else {
      assert shards[..n][i] == shards[i];
      AllInRangeCovers(shards[..n], lo, hi, i, k, v);
    }
  }

  /** The pairs gathered from the shards are pairs of some shard in [lo, hi]. */
  lemma {:induction false} AllInRangeFrom<V>(shards: seq<Tree<V>>, lo: int, hi: int)
    requires AllBst(shards)
    ensures forall p :: p in AllInRange(shards, lo, hi) ==>
      lo <= p.key <= hi && exists i :: 0 <= i < |shards| && Lookup(shards[i], p.key) == Some(p.value)
  {
    if shards != [] {
      var n := |shards| - 1;
      AllInRangeFrom(shards[..n], lo, hi);
      InRangeFrom(shards[n], lo, hi);
      forall p | p in AllInRange(shards, lo, hi)
        ensures lo <= p.key <= hi && exists i :: 0 <= i < |shards| && Lookup(shards[i], p.key) == Some(p.value)
      {
        if p in AllInRange(shards[..n], lo, hi) {
          var i :| 0 <= i < n && Lookup(shards[..n][i], p.key) == Some(p.value);
          assert shards[i] == shards[..n][i];
        } else {
          assert p in InRange(shards[n], lo, hi);
        }
      }
    }
  }

  /** A shard's range answer holds pairs of that shard in [lo, hi]. */
  lemma InRangeFrom<V>(t: Tree<V>, lo: int, hi: int)
    requires Bst(t)
    ensures forall p :: p in InRange(t, lo, hi) ==> lo <= p.key <= hi && Lookup(t, p.key) == Some(p.value)
  {
    InOrderAscending(t);
    ShardBounds.ClipFacts(InOrder(t), lo, hi);
    InOrderLookup(t);
    forall p | p in InRange(t, lo, hi) ensures lo <= p.key <= hi && Lookup(t, p.key) == Some(p.value) {
      var c := InRange(t, lo, hi);
      var i :| 0 <= i < |c| && c[i] == p;
      var j :| 0 <= j < |InOrder(t)| && InOrder(t)[j] == p;
    }
  }

  /** Every pair gathered from the shards is a pair of some shard. */
  lemma {:induction false} AllPairsFrom<V>(shards: seq<Tree<V>>)
    requires AllBst(shards)
    ensures forall p :: p in AllPairs(shards) ==> exists i :: 0 <= i < |shards| && Lookup(shards[i], p.key) == Some(p.value)
  {
    if shards != [] {
      var n := |shards| - 1;
      var t := shards[n];
      AllPairsFrom(shards[..n]);
      InOrderLookup(t);
      forall p | p in AllPairs(shards) ensures exists i :: 0 <= i < |shards| && Lookup(shards[i], p.key) == Some(p.value) {
        if p in AllPairs(shards[..n]) {
          var i :| 0 <= i < n && Lookup(shards[..n][i], p.key) == Some(p.value);
          assert shards[i] == shards[..n][i];
        } else {
          var j :| 0 <= j < |InOrder(t)| && InOrder(t)[j] == p;
        }
      }
    }
  }

  /** Every stored key is gathered. */
  lemma {:induction false} AllPairsCovers<V>(shards: seq<Tree<V>>)
    ensures forall i, k :: 0 <= i < |shards| && k in Keys(shards[i]) ==> exists p :: p in AllPairs(shards) && p.key == k
  {
    if shards != [] {
      var n := |shards| - 1;
      var t := shards[n];
      AllPairsCovers(shards[..n]);
      InOrderCovers(t);
      forall i, k | 0 <= i < |shards| && k in Keys(shards[i]) ensures exists p :: p in AllPairs(shards) && p.key == k {
        if i < n {
          assert shards[..n][i] == shards[i];
          var p :| p in AllPairs(shards[..n]) && p.key == k;
          assert p in AllPairs(shards);
        } else {
          var j :| 0 <= j < |InOrder(t)| && InOrder(t)[j].key == k;
          assert InOrder(t)[j] in AllPairs(shards);
        }
      }
    }
  }

  /** The gathered pairs are as many as the shard sizes add up to. */
  lemma {:induction false} AllPairsCount<V>(shards: seq<Tree<V>>)
    requires AllBst(shards)
    ensures |AllPairs(shards)| == TotalSize(shards)
  {
    if shards != [] {
      var n := |shards| - 1;
      AllPairsCount(shards[..n]);
      InOrderCount(shards[n]);
      assert Sizes(shards)[..n] == Sizes(shards[..n]);
    }
  }

  /** No key appears twice in a list of pairs. */
  predicate UniqueKeys<V>(s: seq<Pair<V>>)
  {
    forall i, j :: 0 <= i < j < |s| ==> s[i].key != s[j].key
  }

  /** Shards that hold no key twice give gathered pairs with distinct keys. */
  lemma {:induction false} AllPairsUnique<V>(shards: seq<Tree<V>>)
    requires AllBst(shards) && Disjoint(shards)
    ensures UniqueKeys(AllPairs(shards))
  {
    if shards != [] {
      var n := |shards| - 1;
      var front, last := shards[..n], shards[n];
      assert AllBst(front) && Disjoint(front);
      AllPairsUnique(front);
      AllPairsFrom(front);
      InOrderAscending(last);
      InOrderInKeys(last);
      var a, b := AllPairs(front), InOrder(last);
      var s := AllPairs(shards);
      assert s == a + b;
      forall i, j | 0 <= i < j < |s| ensures s[i].key != s[j].key {
        if j < |a| {
          assert s[i] == a[i] && s[j] == a[j];
        } else if i >= |a| {
          assert s[i] == b[i - |a|] && s[j] == b[j - |a|];
        } else {
          assert s[i] == a[i] && s[j] == b[j - |a|];
          assert a[i] in a;
          var x :| 0 <= x < n && Lookup(front[x], a[i].key) == Some(a[i].value);
          LookupKeys(front[x], a[i].key);
          assert a[i].key in Keys(shards[x]);
        }
      }
    }
  }

  /** The keys of the gathered pairs are the stored keys. */
  lemma AllPairsKeys<V>(shards: seq<Tree<V>>)
    requires AllBst(shards)
    ensures PairKeys(AllPairs(shards)) == KeySet(shards)
  {
    var s := AllPairs(shards);
    AllPairsFrom(shards);
    AllPairsCovers(shards);
    forall k | k in PairKeys(s) ensures k in KeySet(shards) {
      var i :| 0 <= i < |s| && s[i].key == k;
      assert s[i] in s;
      var x :| 0 <= x < |shards| && Lookup(shards[x], k) == Some(s[i].value);
      LookupKeys(shards[x], k);
    }
    forall k | k in KeySet(shards) ensures k in PairKeys(s) {
      var x, j :| 0 <= x < |shards| && j in Keys(shards[x]) && j == k;
      var p :| p in s && p.key == k;
      var i :| 0 <= i < |s| && s[i] == p;
    }
  }

  /** The pairs of a search tree's traversal are exactly its stored pairs. */
  lemma InOrderPairs<V>(t: Tree<V>)
    requires Bst(t)
    ensures forall k, y :: Pair(k, y) in InOrder(t) <==> Lookup(t, k) == Some(y)
  {
    InOrderLookup(t);
    InOrderCovers(t);
    forall k, y | Lookup(t, k) == Some(y) ensures Pair(k, y) in InOrder(t) {
      LookupKeys(t, k);
      var i :| 0 <= i < |InOrder(t)| && InOrder(t)[i].key == k;
    }
  }

  // ---------------------------------------------------------------------------
  // The stored pairs
  // ---------------------------------------------------------------------------

  /** Some shard maps k to x. */
  ghost predicate Holds<V>(trees: seq<Tree<V>>, k: int, x: V)
  {
    exists i :: 0 <= i < |trees| && Lookup(trees[i], k) == Some(x)
  }

  /** Trees that agree on every key but one hold the same pairs for every other key. */
  lemma HoldsElsewhere<V>(trees: seq<Tree<V>>, trees': seq<Tree<V>>, key: int)
    requires |trees'| == |trees|
    requires forall i, j :: 0 <= i < |trees| && j != key ==> Lookup(trees'[i], j) == Lookup(trees[i], j)
    ensures forall k, x :: k != key ==> (Holds(trees', k, x) <==> Holds(trees, k, x))
  {
    forall k, x | k != key && Holds(trees', k, x) ensures Holds(trees, k, x) {
      var i :| 0 <= i < |trees'| && Lookup(trees'[i], k) == Some(x);
      assert Lookup(trees[i], k) == Some(x);
    }
    forall k, x | k != key && Holds(trees, k, x) ensures Holds(trees', k, x) {
      var i :| 0 <= i < |trees| && Lookup(trees[i], k) == Some(x);
      assert Lookup(trees'[i], k) == Some(x);
    }
  }

  /** Storing a pair in shard e when no other shard holds its key stores exactly that pair. */
  lemma PlaceHolds<V>(trees: seq<Tree<V>>, e: nat, key: int, value: V)
    requires AllBst(trees) && Disjoint(trees) && e < |trees|
    requires forall j :: 0 <= j < |trees| && j != e ==> key !in Keys(trees[j])
    ensures var w := Placed(trees, e, key, value);
      && Disjoint(w) && KeySet(w) == KeySet(trees) + {key}
      && forall k, y :: Holds(w, k, y) <==> if k == key then y == value else Holds(trees, k, y)
  {
    var w := Placed(trees, e, key, value);
    InsertSpec(trees[e], key, value, true);
    forall j, k | 0 <= j < |trees| && k != key ensures Lookup(w[j], k) == Lookup(trees[j], k) {
      if j != e {
        assert w[j] == trees[j];
      }
    }
    HoldsElsewhere(trees, w, key);
    forall y | Holds(w, key, y) ensures y == value {
      var j :| 0 <= j < |w| && Lookup(w[j], key) == Some(y);
      if j != e {
        assert w[j] == trees[j];
        LookupKeys(trees[j], key);
      }
    }
    assert Lookup(w[e], key) == Some(value);
    KeySetPlaced(trees, e, key, value);
    assert Disjoint(w) by {
      forall a, b, k | 0 <= a < |w| && 0 <= b < |w| && k in Keys(w[a]) && k in Keys(w[b]) ensures a == b {
        if k != key {
          assert k in Keys(trees[a]) && k in Keys(trees[b]);
        }
      }
    }
  }

  /** Under Disjoint, a held key is held by one shard only. */
  lemma OnlyHolder<V>(trees: seq<Tree<V>>, k: int, i: nat)
    requires Disjoint(trees) && i < |trees| && k in Keys(trees[i])
    ensures forall j :: 0 <= j < |trees| && j != i ==> k !in Keys(trees[j])
  {
  }

  /** Dropping a key from the one shard that holds it removes exactly that key's pair. */
  lemma DropHolds<V>(trees: seq<Tree<V>>, i: nat, key: int)
    requires AllBst(trees) && Disjoint(trees) && i < |trees| && key in Keys(trees[i])
    ensures var w := trees[i := Remove(trees[i], key, true)];
      && Disjoint(w) && KeySet(w) == KeySet(trees) - {key}
      && (forall j :: 0 <= j < |w| ==> key !in Keys(w[j]))
      && forall k, y :: Holds(w, k, y) <==> k != key && Holds(trees, k, y)
  {
    var w := trees[i := Remove(trees[i], key, true)];
    RemoveSpec(trees[i], key, true);
    OnlyHolder(trees, key, i);
    forall j, k | 0 <= j < |trees| && k != key ensures Lookup(w[j], k) == Lookup(trees[j], k) {
      if j != i {
        assert w[j] == trees[j];
      }
    }
    HoldsElsewhere(trees, w, key);
    forall j | 0 <= j < |w| ensures key !in Keys(w[j]) {
      if j != i {
        assert w[j] == trees[j];
      }
    }
    forall y | Holds(w, key, y) ensures false {
      var j :| 0 <= j < |w| && Lookup(w[j], key) == Some(y);
      assert j != i && w[j] == trees[j];
      LookupKeys(trees[j], key);
    }
    forall k | k in KeySet(w) ensures k in KeySet(trees) - {key} {
      var j, x :| 0 <= j < |w| && x in Keys(w[j]) && x == k;
      assert k in Keys(trees[j]);
    }
    forall k | k in KeySet(trees) - {key} ensures k in KeySet(w) {
      var j, x :| 0 <= j < |trees| && x in Keys(trees[j]) && x == k;
      assert k in Keys(w[j]);
    }
    assert Disjoint(w) by {
      forall a, b, k | 0 <= a < |w| && 0 <= b < |w| && k in Keys(w[a]) && k in Keys(w[b]) ensures a == b {
        assert k in Keys(trees[a]) && k in Keys(trees[b]);
      }
    }
  }

  /** One step of the re-insertion loop: what the shards hold after one more pair. */
  lemma RefillStep<V>(v: seq<Tree<V>>, u: seq<Tree<V>>, w: seq<Tree<V>>, front: seq<Pair<V>>, p: Pair<V>)
    requires KeySet(u) == KeySet(v) + PairKeys(front) && KeySet(w) == KeySet(u) + {p.key}
    requires forall k, y :: Holds(u, k, y) <==> Holds(v, k, y) || Pair(k, y) in front
    requires forall k, y :: Holds(w, k, y) <==> Holds(u, k, y) || (k == p.key && y == p.value)
    ensures KeySet(w) == KeySet(v) + PairKeys(front + [p])
    ensures forall k, y :: Holds(w, k, y) <==> Holds(v, k, y) || Pair(k, y) in front + [p]
  {
    var pairs := front + [p];
    assert pairs[..|front|] == front && pairs[..|front| + 1] == pairs;
    PairKeysStep(pairs, |front|);
    forall k, y ensures Holds(w, k, y) <==> Holds(v, k, y) || Pair(k, y) in pairs {
      assert Pair(k, y) in pairs <==> Pair(k, y) in front || Pair(k, y) == p;
    }
  }

  /** The stored pairs of a vector are those of all shards but the last, and those of the last. */
  lemma HoldsDrop<V>(trees: seq<Tree<V>>)
    requires |trees| > 0
    ensures var n := |trees| - 1;
      forall k, y :: Holds(trees, k, y) <==> Holds(trees[..n], k, y) || Lookup(trees[n], k) == Some(y)
  {
    var n := |trees| - 1;
    forall k, y | Holds(trees, k, y) ensures Holds(trees[..n], k, y) || Lookup(trees[n], k) == Some(y) {
      var i :| 0 <= i < |trees| && Lookup(trees[i], k) == Some(y);
      if i < n {
        assert trees[..n][i] == trees[i];
      }
    }
    forall k, y | Holds(trees[..n], k, y) ensures Holds(trees, k, y) {
      var i :| 0 <= i < n && Lookup(trees[..n][i], k) == Some(y);
      assert trees[i] == trees[..n][i];
    }
  }

  /** The gathered pairs of shards that hold no key twice are exactly the stored pairs. */
  lemma AllPairsHolds<V>(trees: seq<Tree<V>>)
    requires AllBst(trees) && Disjoint(trees)
    ensures forall k, y :: Pair(k, y) in AllPairs(trees) <==> Holds(trees, k, y)
  {
    AllPairsFrom(trees);
    AllPairsCovers(trees);
    forall k, y | Holds(trees, k, y) ensures Pair(k, y) in AllPairs(trees) {
      var i :| 0 <= i < |trees| && Lookup(trees[i], k) == Some(y);
      LookupKeys(trees[i], k);
      var p :| p in AllPairs(trees) && p.key == k;
      var j :| 0 <= j < |trees| && Lookup(trees[j], k) == Some(p.value);
      LookupKeys(trees[j], k);
    }
  }

  /** Placing a pair whose key no shard holds stores that pair and keeps every other pair. */
  lemma PlaceFresh<V>(trees: seq<Tree<V>>, t: nat, key: int, value: V)
    requires AllBst(trees) && Disjoint(trees) && t < |trees| && key !in KeySet(trees)
    ensures var w := Placed(trees, t, key, value);
      && Disjoint(w) && KeySet(w) == KeySet(trees) + {key}
      && forall k, y :: Holds(w, k, y) <==> Holds(trees, k, y) || (k == key && y == value)
  {
    forall j | 0 <= j < |trees| ensures key !in Keys(trees[j]) {
      assert key in Keys(trees[j]) ==> key in KeySet(trees);
    }
    PlaceHolds(trees, t, key, value);
    forall y | Holds(trees, key, y) ensures false {
      var j :| 0 <= j < |trees| && Lookup(trees[j], key) == Some(y);
      LookupKeys(trees[j], key);
    }
  }

  /**
   * One step of re-inserting pairs with distinct keys no base shard holds:
   * after placing pair `i`, the shards hold the base pairs and the pairs
   * up to `i`, still no key twice.
   */
  lemma FreshStep<V>(base: seq<Tree<V>>, trees: seq<Tree<V>>, w: seq<Tree<V>>, t: nat, s: seq<Pair<V>>, i: nat)
    requires AllBst(trees) && Disjoint(trees) && t < |trees| && i < |s|
    requires UniqueKeys(s) && PairKeys(s) !! KeySet(base) && KeySet(trees) == KeySet(base) + PairKeys(s[..i])
    requires forall k, y :: Holds(trees, k, y) <==> Holds(base, k, y) || Pair(k, y) in s[..i]
    requires w == Placed(trees, t, s[i].key, s[i].value)
    ensures Disjoint(w) && forall k, y :: Holds(w, k, y) <==> Holds(base, k, y) || Pair(k, y) in s[..i + 1]
  {
    var p := s[i];
    forall j | 0 <= j < i ensures s[..i][j].key != p.key {
      assert s[..i][j] == s[j];
    }
    assert p.key in PairKeys(s);
    PlaceFresh(trees, t, p.key, p.value);
    RefillStep(base, trees, w, s[..i], p);
    assert s[..i] + [p] == s[..i + 1];
  }

  /**
   * Dropping the last shard and re-inserting its pairs, in ascending key
   * order, among the others keeps every stored pair, when no key was held
   * twice and the re-insertion keeps the pairs it was given.
   */
  lemma KeptPairs<V>(trees: seq<Tree<V>>, w: seq<Tree<V>>)
    requires AllBst(trees) && Disjoint(trees) && |trees| > 0
    requires var n := |trees| - 1; var moved := InOrder(trees[n]);
      Disjoint(trees[..n]) && UniqueKeys(moved) && PairKeys(moved) !! KeySet(trees[..n]) ==>
        Disjoint(w) && forall k, y :: Holds(w, k, y) <==> Holds(trees[..n], k, y) || Pair(k, y) in moved
    ensures Disjoint(w) && forall k, y :: Holds(w, k, y) <==> Holds(trees, k, y)
  {
    LastPairsFacts(trees);
  }

  /** Shards with no keys hold no pair, and so no key twice. */
  lemma NoKeysNoPairs<V>(trees: seq<Tree<V>>)
    requires AllBst(trees) && KeySet(trees) == {}
    ensures Disjoint(trees) && forall k, y :: !Holds(trees, k, y)
  {
    forall i | 0 <= i < |trees| ensures Keys(trees[i]) == {} {
      assert forall k :: k in Keys(trees[i]) ==> k in KeySet(trees);
    }
    forall k, y ensures !Holds(trees, k, y) {
      forall j | 0 <= j < |trees| ensures Lookup(trees[j], k) == None {
        LookupOutside(trees[j], k);
      }
    }
  }

  /**
   * The last shard's pairs, in ascending key order, have distinct keys that
   * no other shard holds, and with the other shards' pairs they are every
   * stored pair.
   */
  lemma LastPairsFacts<V>(trees: seq<Tree<V>>)
    requires AllBst(trees) && Disjoint(trees) && |trees| > 0
    ensures var n := |trees| - 1; var moved := InOrder(trees[n]);
      && Disjoint(trees[..n]) && UniqueKeys(moved) && PairKeys(moved) !! KeySet(trees[..n])
      && forall k, y :: Holds(trees, k, y) <==> Holds(trees[..n], k, y) || Pair(k, y) in moved
  {
    var n := |trees| - 1;
    var front, last := trees[..n], trees[n];
    HoldsDrop(trees);
    InOrderPairs(last);
    InOrderAscending(last);
    PairKeysInOrder(last);
    assert Disjoint(front) by {
      forall i, j, k | 0 <= i < n && 0 <= j < n && k in Keys(front[i]) && k in Keys(front[j]) ensures i == j {
        assert front[i] == trees[i] && front[j] == trees[j];
      }
    }
    forall k | k in KeySet(front) ensures k !in Keys(last) {
      var i :| 0 <= i < n && k in Keys(front[i]);
      assert front[i] == trees[i];
    }
  }

  // ---------------------------------------------------------------------------
  // Sorting gathered pairs by key
  // ---------------------------------------------------------------------------

  /** Keys never decrease; equal keys (one key stored in two shards) may repeat. */
  predicate KeyOrdered<V>(s: seq<Pair<V>>)
  {
    forall i, j :: 0 <= i < j < |s| ==> s[i].key <= s[j].key
  }

  /** Places `p` before the first pair of `s` whose key is not smaller. */
  function InsertByKey<V>(p: Pair<V>, s: seq<Pair<V>>): (r: seq<Pair<V>>)
    ensures |r| == |s| + 1
  {
    if s == [] then [p]
    else if p.key <= s[0].key then [p] + s
    else [s[0]] + InsertByKey(p, s[1..])
  }

  lemma {:induction false} InsertByKeyPerm<V>(p: Pair<V>, s: seq<Pair<V>>)
    ensures multiset(InsertByKey(p, s)) == multiset(s) + multiset{p}
  {
    if s != [] && p.key > s[0].key {
      InsertByKeyPerm(p, s[1..]);
      assert s == [s[0]] + s[1..];
    }
  }

  lemma {:induction false} InsertByKeyOrdered<V>(p: Pair<V>, s: seq<Pair<V>>)
    requires KeyOrdered(s)
    ensures KeyOrdered(InsertByKey(p, s))
  {
    if s != [] && p.key > s[0].key {
      var rest := InsertByKey(p, s[1..]);
      assert KeyOrdered(s[1..]) by {
        forall i, j | 0 <= i < j < |s[1..]| ensures s[1..][i].key <= s[1..][j].key {
          assert s[1..][i] == s[i + 1] && s[1..][j] == s[j + 1];
        }
      }
      InsertByKeyOrdered(p, s[1..]);
      InsertByKeyPerm(p, s[1..]);
      forall i | 0 <= i < |rest| ensures s[0].key <= rest[i].key {
        assert rest[i] in multiset(rest);
        if rest[i] != p {
          assert rest[i] in multiset(s[1..]);
          var j :| 0 <= j < |s[1..]| && s[1..][j] == rest[i];
          assert s[j + 1] == rest[i];
        }
      }
    }
  }

  /**
   * `qsort` with `kv_compare`, `std::sort` by `first`: the pairs in
   * ascending key order. Where two pairs share a key, the model keeps them
   * in the order they were gathered.
   */
  function SortByKey<V>(s: seq<Pair<V>>): (r: seq<Pair<V>>)
    ensures |r| == |s|
  {
    if s == [] then [] else InsertByKey(s[0], SortByKey(s[1..]))
  }

  /** The sort yields a key-ordered permutation of its input. */
  lemma {:induction false} SortByKeySpec<V>(s: seq<Pair<V>>)
    ensures KeyOrdered(SortByKey(s)) && multiset(SortByKey(s)) == multiset(s)
  {
    if s != [] {
      SortByKeySpec(s[1..]);
      InsertByKeyOrdered(s[0], SortByKey(s[1..]));
      InsertByKeyPerm(s[0], SortByKey(s[1..]));
      assert s == [s[0]] + s[1..];
    }
  }
}

/**
 * `AVLTreeParallel` (`include/AVLTreeParallel.h`): a fixed vector of AVL
 * trees, each with its own lock and a `local_size` counter.
 *
 * A key's shard is fixed by `getShardIndex`: `std::hash(key) % n` under the
 * HASH strategy, `(size_t)key % n` under RANGE. `insert`, `remove`,
 * `contains` and `get` touch that shard only. `rebalanceShards` moves the
 * largest keys of the fullest shard into the emptiest one when the float
 * balance score is below 0.8 and the fullest shard holds more than
 * `threshold` times the average.
 *
 * The vector of `TreeShard`s is held as two sequences of equal length: the
 * trees, taken by value, and the `local_size` counters. `std::hash<Key>` is
 * the function `keyHash`. The float score and threshold become integer
 * comparisons, cross-multiplied.
 *
 * `rebalanceShards` puts keys in a shard that `getShardIndex` never names
 * for them, and `contains` and `get` look nowhere else: a moved key stays
 * stored but is no longer found (`RebalanceHidesKeysAsWritten`).
 */
module AvlParallel {
  import opened Wrappers
  import opened Hashing
  import opened AvlCore
  import opened AvlOrder
  import opened Routing
  import opened ShardTrees
  import opened AvlSearch
  import ShardBounds

  datatype RoutingStrategy = Hash | Range

  /** 2^64: `size_t` arithmetic wraps modulo this. */
  const SIZE_T: int := 0x1_0000_0000_0000_0000

  /** The default `threshold` of `rebalanceShards`, 2.0, as the fraction 2/1. */
  const DEFAULT_THRESHOLD_NUM: nat := 2
  const DEFAULT_THRESHOLD_DEN: nat := 1

  // ---------------------------------------------------------------------------
  // Routing
  // ---------------------------------------------------------------------------

  /**
   * `getShardIndex`: the hash modulo the shard count, or the key itself cast
   * to `size_t` (so a negative key wraps to key + 2^64) modulo the count.
   */
  function ShardIndex(routing: RoutingStrategy, keyHash: int -> bv64, n: nat, key: int): (s: nat)
    requires n > 0
    ensures s < n
    ensures routing == Range && 0 <= key < SIZE_T ==> s == key % n
    ensures routing == Range && -SIZE_T <= key < 0 ==> s == (key + SIZE_T) % n
  {
    match routing
    case Hash => WordValue(keyHash(key)) % n
    case Range => (key % SIZE_T) % n
  }

  /** Under RANGE, keys that agree modulo 2^64 (such as -1 and 2^64 - 1) share a shard. */
  lemma RangeAliases(keyHash: int -> bv64, n: nat, key: int)
    requires n > 0 && -SIZE_T <= key < 0
    ensures ShardIndex(Range, keyHash, n, key) == ShardIndex(Range, keyHash, n, key + SIZE_T)
  {
  }

  // ---------------------------------------------------------------------------
  // The shards and their counters
  // ---------------------------------------------------------------------------

  /** The trees of the shards and their `local_size` counters. */
  datatype Layout<V> = Layout(trees: seq<Tree<V>>, sizes: seq<nat>)

  /**
   * Every tree is a search tree and no counter is below its tree's key count.
   * The counters can run ahead of the trees: `rebalanceShards` counts every
   * pair it moves, even one whose key the receiving shard already holds.
   */
  ghost predicate Counted<V>(v: Layout<V>)
  {
    && |v.trees| == |v.sizes|
    && AllBst(v.trees)
    && forall i :: 0 <= i < |v.trees| ==> |Keys(v.trees[i])| <= v.sizes[i]
  }

  /** Every counter is exactly its tree's key count. */
  ghost predicate Exact<V>(v: Layout<V>)
  {
    && |v.trees| == |v.sizes|
    && forall i :: 0 <= i < |v.trees| ==> v.sizes[i] == |Keys(v.trees[i])|
  }

  /** Every stored key sits in the shard `getShardIndex` names for it. */
  ghost predicate Routed<V>(trees: seq<Tree<V>>, routing: RoutingStrategy, keyHash: int -> bv64)
  {
    forall i, k :: 0 <= i < |trees| && k in Keys(trees[i]) ==> ShardIndex(routing, keyHash, |trees|, k) == i
  }

  /** A routed vector holds no key twice, and a key is stored iff its own shard holds it. */
  lemma RoutedFinds<V>(trees: seq<Tree<V>>, routing: RoutingStrategy, keyHash: int -> bv64, key: int)
    requires |trees| > 0 && Routed(trees, routing, keyHash)
    ensures Disjoint(trees)
    ensures key in Keys(trees[ShardIndex(routing, keyHash, |trees|, key)]) <==> key in KeySet(trees)
  {
    var n := |trees|;
    var s := ShardIndex(routing, keyHash, n, key);
    forall i, j, k | 0 <= i < n && 0 <= j < n && k in Keys(trees[i]) && k in Keys(trees[j]) ensures i == j {
      assert ShardIndex(routing, keyHash, n, k) == i;
      assert ShardIndex(routing, keyHash, n, k) == j;
    }
    assert key in Keys(trees[s]) ==> key in KeySet(trees);
    if key in KeySet(trees) {
      var i :| 0 <= i < n && key in Keys(trees[i]);
      assert ShardIndex(routing, keyHash, n, key) == i;
    }
  }

  /** The layout of a new object: `n` empty trees with zero counters. */
  function Empty<V>(n: nat): (v: Layout<V>)
    ensures |v.trees| == |v.sizes| == n
  {
    Layout(seq(n, _ => Leaf), seq(n, _ => 0))
  }

  /** An empty layout is counted exactly, routed, holds nothing and sums to zero. */
  lemma EmptyFacts<V>(n: nat, routing: RoutingStrategy, keyHash: int -> bv64)
    ensures Counted(Empty<V>(n)) && Exact(Empty<V>(n))
    ensures Routed(Empty<V>(n).trees, routing, keyHash)
    ensures KeySet(Empty<V>(n).trees) == {}
    ensures Sum(Empty<V>(n).sizes) == 0
  {
    var v := Empty<V>(n);
    SumZeros(v.sizes);
    assert forall i :: 0 <= i < n ==> Keys(v.trees[i]) == {};
  }

  /** The layout after `insert` into shard `i`: the counter grows only when the tree did. */
  function Added<V>(v: Layout<V>, i: nat, key: int, value: V): Layout<V>
    requires |v.sizes| == |v.trees| && i < |v.trees|
  {
    Layout(Placed(v.trees, i, key, value), if key in Keys(v.trees[i]) then v.sizes else Bumped(v.sizes, i))
  }

  /** The layout after `remove` in shard `i`: the counter drops only when the tree shrank. */
  function Erased<V>(v: Layout<V>, i: nat, key: int): Layout<V>
    requires Counted(v) && i < |v.trees|
  {
    var sizes := if key in Keys(v.trees[i]) then v.sizes[i := v.sizes[i] - 1] else v.sizes;
    Layout(v.trees[i := Remove(v.trees[i], key, true)], sizes)
  }

  /**
   * `insert` into shard `i` keeps the counters (exact ones stay exact), and
   * the counters' sum grows by one exactly when the key is new to the shard.
   */
  lemma AddedCounts<V>(v: Layout<V>, i: nat, key: int, value: V)
    requires Counted(v) && i < |v.trees|
    ensures var w := Added(v, i, key, value);
      && Counted(w)
      && (Exact(v) ==> Exact(w))
      && Sum(w.sizes) == Sum(v.sizes) + (if key in Keys(v.trees[i]) then 0 else 1)
  {
    var w := Added(v, i, key, value);
    InsertCount(v.trees[i], key, value);
    assert w.trees == v.trees[i := Insert(v.trees[i], key, value, true)];
    ShardChanged(v, w, i);
    CounterMoved(v.sizes, w.sizes, i, key !in Keys(v.trees[i]), true);
  }

  /** Inserting into a search tree keeps it one and grows its key count by one exactly for a new key. */
  lemma InsertCount<V>(t: Tree<V>, key: int, value: V)
    requires Bst(t)
    ensures Bst(Insert(t, key, value, true))
    ensures |Keys(Insert(t, key, value, true))| == |Keys(t)| + (if key in Keys(t) then 0 else 1)
  {
    InsertSpec(t, key, value, true);
    if key in Keys(t) {
      assert Keys(Insert(t, key, value, true)) == Keys(t);
    }
  }

  /** Removing from a search tree keeps it one and shrinks its key count by one exactly for a stored key. */
  lemma RemoveCount<V>(t: Tree<V>, key: int)
    requires Bst(t)
    ensures Bst(Remove(t, key, true))
    ensures |Keys(Remove(t, key, true))| + (if key in Keys(t) then 1 else 0) == |Keys(t)|
  {
    RemoveSpec(t, key, true);
    if key !in Keys(t) {
      assert Keys(Remove(t, key, true)) == Keys(t);
    }
  }

  /** `insert` into shard `i` adds the key to the store and changes that shard's lookup of the key only. */
  lemma AddedKeys<V>(trees: seq<Tree<V>>, i: nat, key: int, value: V)
    requires i < |trees| && Bst(trees[i])
    ensures var w := Placed(trees, i, key, value);
      && KeySet(w) == KeySet(trees) + {key}
      && forall k :: Lookup(w[i], k) == if k == key then Some(value) else Lookup(trees[i], k)
  {
    InsertSpec(trees[i], key, value, true);
    KeySetPlaced(trees, i, key, value);
  }

  /** An insertion into the key's own shard keeps every key in its own shard. */
  lemma AddedRouted<V>(trees: seq<Tree<V>>, routing: RoutingStrategy, keyHash: int -> bv64, key: int, value: V)
    requires |trees| > 0 && Routed(trees, routing, keyHash)
    ensures Routed(Placed(trees, ShardIndex(routing, keyHash, |trees|, key), key, value), routing, keyHash)
  {
    var i := ShardIndex(routing, keyHash, |trees|, key);
    InsertSpec(trees[i], key, value, true);
  }

  /**
   * `remove` in shard `i` keeps the counters (exact ones stay exact), and
   * the counters' sum drops by one exactly when the shard held the key.
   */
  lemma ErasedCounts<V>(v: Layout<V>, i: nat, key: int)
    requires Counted(v) && i < |v.trees|
    ensures var w := Erased(v, i, key);
      && Counted(w)
      && (Exact(v) ==> Exact(w))
      && Sum(w.sizes) + (if key in Keys(v.trees[i]) then 1 else 0) == Sum(v.sizes)
  {
    var w := Erased(v, i, key);
    RemoveCount(v.trees[i], key);
    assert w.trees == v.trees[i := Remove(v.trees[i], key, true)];
    ShardChanged(v, w, i);
    CounterMoved(v.sizes, w.sizes, i, key in Keys(v.trees[i]), false);
  }

  /** A removal from the key's own shard keeps routing and removes the key from the store. */
  lemma ErasedRouted<V>(trees: seq<Tree<V>>, routing: RoutingStrategy, keyHash: int -> bv64, key: int)
    requires |trees| > 0 && AllBst(trees) && Routed(trees, routing, keyHash)
    ensures var w := trees[ShardIndex(routing, keyHash, |trees|, key) := Remove(trees[ShardIndex(routing, keyHash, |trees|, key)], key, true)];
      Routed(w, routing, keyHash) && KeySet(w) == KeySet(trees) - {key}
  {
    var n := |trees|;
    var i := ShardIndex(routing, keyHash, n, key);
    var w := trees[i := Remove(trees[i], key, true)];
    RemoveSpec(trees[i], key, true);
    assert Routed(w, routing, keyHash);
    forall k | k in KeySet(trees) - {key} ensures k in KeySet(w) {
      var j :| 0 <= j < n && k in Keys(trees[j]);
      assert k in Keys(w[j]);
    }
    forall k | k in KeySet(w) ensures k in KeySet(trees) - {key} {
      var j :| 0 <= j < n && k in Keys(w[j]);
      assert k in Keys(trees[j]);
      assert k == key ==> j == i;
    }
  }

  /** A layout that differs from a counted one in shard `i` only is counted when that shard is. */
  lemma ShardChanged<V>(v: Layout<V>, w: Layout<V>, i: nat)
    requires Counted(v) && i < |v.trees| && |w.trees| == |w.sizes| == |v.trees|
    requires forall j :: 0 <= j < |v.trees| && j != i ==> w.trees[j] == v.trees[j] && w.sizes[j] == v.sizes[j]
    requires Bst(w.trees[i]) && |Keys(w.trees[i])| <= w.sizes[i]
    ensures Counted(w)
    ensures Exact(v) && w.sizes[i] == |Keys(w.trees[i])| ==> Exact(w)
  {
  }

  /** Moving one counter by one, up or down, moves the sum the same way. */
  lemma CounterMoved(sizes: seq<nat>, sizes': seq<nat>, i: nat, moved: bool, up: bool)
    requires i < |sizes|
    requires !moved ==> sizes' == sizes
    requires moved && up ==> sizes' == sizes[i := sizes[i] + 1]
    requires moved && !up ==> sizes[i] > 0 && sizes' == sizes[i := sizes[i] - 1]
    ensures moved && up ==> Sum(sizes') == Sum(sizes) + 1
    ensures moved && !up ==> Sum(sizes') + 1 == Sum(sizes)
    ensures !moved ==> Sum(sizes') == Sum(sizes)
  {
    if moved {
      SumUpdate(sizes, i, sizes'[i]);
    }
  }

  /** Exact counters of shards that hold no key twice sum to the number of stored keys. */
  lemma ExactSum<V>(v: Layout<V>)
    requires Exact(v) && Disjoint(v.trees)
    ensures Sum(v.sizes) == |KeySet(v.trees)|
  {
    assert v.sizes == Sizes(v.trees);
    DisjointSize(v.trees);
  }

  // ---------------------------------------------------------------------------
  // The balance score and the threshold of `rebalanceShards`
  // ---------------------------------------------------------------------------

  function Square(x: int): nat
  {
    if x < 0 then (-x) * (-x) else x * x
  }

  /** Σ (n·c − T)² over the counters c: n³ times the variance `getArchitectureInfo` computes. */
  function Spread(sizes: seq<nat>, n: int, total: int): nat
  {
    if sizes == [] then 0 else Spread(sizes[..|sizes| - 1], n, total) + Square(n * sizes[|sizes| - 1] - total)
  }

  /**
   * The balance score `max(0, 1 - stddev / avg)` is at least 0.8. With
   * avg = T/n and variance = Σ(c − avg)²/n this is: T == 0 (the score is
   * then 1.0), or 25·Σ(n·c − T)² <= n·T².
   */
  predicate WellBalanced(sizes: seq<nat>)
  {
    var n, total := |sizes|, Sum(sizes);
    total == 0 || 25 * Spread(sizes, n, total) <= n * total * total
  }

  /** No counter is above the one at `i`. */
  predicate IsFullest(sizes: seq<nat>, i: nat)
  {
    i < |sizes| && forall j :: 0 <= j < |sizes| ==> sizes[j] <= sizes[i]
  }

  /** No counter is below the one at `i`. */
  predicate IsEmptiest(sizes: seq<nat>, i: nat)
  {
    i < |sizes| && forall j :: 0 <= j < |sizes| ==> sizes[i] <= sizes[j]
  }

  /**
   * The fullest shard holds more than `threshold` = num/den times the
   * average T/n, and holds something.
   */
  predicate Exceeds(sizes: seq<nat>, over: nat, num: nat, den: nat)
    requires over < |sizes|
  {
    sizes[over] * den * |sizes| > num * Sum(sizes) && sizes[over] > 0
  }

  /** Counters that are all equal give a perfect score. */
  lemma EvenIsBalanced(sizes: seq<nat>, c: nat)
    requires forall j :: 0 <= j < |sizes| ==> sizes[j] == c
    ensures WellBalanced(sizes)
  {
    SumEven(sizes, c);
    SpreadEven(sizes, |sizes|, |sizes| * c, c);
  }

  lemma {:induction false} SumEven(sizes: seq<nat>, c: nat)
    requires forall j :: 0 <= j < |sizes| ==> sizes[j] == c
    ensures Sum(sizes) == |sizes| * c
  {
    if sizes != [] {
      SumEven(sizes[..|sizes| - 1], c);
    }
  }

  lemma {:induction false} SpreadEven(sizes: seq<nat>, n: int, total: int, c: nat)
    requires forall j :: 0 <= j < |sizes| ==> sizes[j] == c
    requires n * c == total
    ensures Spread(sizes, n, total) == 0
  {
    if sizes != [] {
      SpreadEven(sizes[..|sizes| - 1], n, total, c);
    }
  }

  /** When the fullest and the emptiest shard are one shard, the score is perfect. */
  lemma SameExtremesBalanced(sizes: seq<nat>, over: nat, under: nat)
    requires IsFullest(sizes, over) && IsEmptiest(sizes, under)
    ensures over == under ==> WellBalanced(sizes)
  {
    if over == under {
      EvenIsBalanced(sizes, sizes[over]);
    }
  }

  /** No load is above `m`, so the sum is at most n·m. */
  lemma {:induction false} SumAtMost(sizes: seq<nat>, m: nat)
    requires forall j :: 0 <= j < |sizes| ==> sizes[j] <= m
    ensures Sum(sizes) <= |sizes| * m
  {
    if sizes != [] {
      SumAtMost(sizes[..|sizes| - 1], m);
    }
  }

  /** The fullest counter is at least the average, rounded down. */
  lemma FullestAboveAverage(sizes: seq<nat>, over: nat)
    requires IsFullest(sizes, over)
    ensures Sum(sizes) / |sizes| <= sizes[over]
  {
    SumAtMost(sizes, sizes[over]);
    DivAtMost(Sum(sizes), |sizes|, sizes[over]);
  }

  lemma DivAtMost(s: nat, n: nat, m: nat)
    requires n > 0 && s <= n * m
    ensures s / n <= m
  {
    var q := s / n;
    assert q * n <= s;
    assert s < (m + 1) * n;
    LessTimes(q, m + 1, n);
  }

  lemma LessTimes(a: int, b: int, n: int)
    requires n > 0 && a * n < b * n
    ensures a < b
  {
  }

  /**
   * `to_move`: half the fullest shard's excess over the average (cast to
   * `size_t`, so rounded down), and never more than half of that shard.
   */
  function ToMove(sizes: seq<nat>, over: nat): (m: nat)
    requires IsFullest(sizes, over)
    ensures m <= sizes[over] / 2
  {
    FullestAboveAverage(sizes, over);
    var excess := sizes[over] - Sum(sizes) / |sizes|;
    ShardBounds.Min(excess / 2, sizes[over] / 2)
  }

  /**
   * How many pairs the fullest shard takes back: the loop keeps the indices
   * below `keep_count = elements.size() - to_move`, a `size_t` difference.
   * When `to_move` is the larger the difference wraps past every index, and
   * every pair is kept.
   */
  function KeptCount(count: nat, toMove: nat): (keep: nat)
    ensures keep <= count
    ensures toMove <= count < SIZE_T ==> keep + toMove == count
    ensures count < toMove < SIZE_T ==> keep == count
  {
    var keepCount := (count - toMove) % SIZE_T;
    if keepCount < count then keepCount else count
  }

  // ---------------------------------------------------------------------------
  // Moving pairs from the fullest shard to the emptiest
  // ---------------------------------------------------------------------------

  /** The tree after inserting the pairs one by one, in order. */
  function Fill<V>(t: Tree<V>, ps: seq<Pair<V>>): Tree<V>
  {
    if ps == [] then t else Insert(Fill(t, ps[..|ps| - 1]), ps[|ps| - 1].key, ps[|ps| - 1].value, true)
  }

  /** Filling a search tree keeps it one and adds exactly the keys of the pairs. */
  lemma {:induction false} FillKeys<V>(t: Tree<V>, ps: seq<Pair<V>>)
    requires Bst(t)
    ensures Bst(Fill(t, ps)) && Keys(Fill(t, ps)) == Keys(t) + PairKeys(ps)
  {
    if ps != [] {
      var n := |ps| - 1;
      FillKeys(t, ps[..n]);
      InsertSpec(Fill(t, ps[..n]), ps[n].key, ps[n].value, true);
      PairKeysStep(ps, n);
      assert ps[..n + 1] == ps;
    }
  }

  /** Filling a search tree with `ps` adds at most |ps| keys. */
  lemma FillCount<V>(t: Tree<V>, ps: seq<Pair<V>>)
    requires Bst(t)
    ensures Bst(Fill(t, ps)) && |Keys(Fill(t, ps))| <= |Keys(t)| + |ps|
  {
    FillKeys(t, ps);
    PairKeysAtMost(ps);
    assert |Keys(t) + PairKeys(ps)| <= |Keys(t)| + |PairKeys(ps)|;
  }

  /** With distinct keys, the filled tree maps each pair's key to its value and keeps every other lookup. */
  lemma FillLookup<V>(t: Tree<V>, ps: seq<Pair<V>>)
    requires Bst(t) && UniqueKeys(ps)
    ensures forall i :: 0 <= i < |ps| ==> Lookup(Fill(t, ps), ps[i].key) == Some(ps[i].value)
    ensures forall k :: k !in PairKeys(ps) ==> Lookup(Fill(t, ps), k) == Lookup(t, k)
  {
    forall i | 0 <= i < |ps| ensures Lookup(Fill(t, ps), ps[i].key) == Some(ps[i].value) {
      FillLookupPair(t, ps, i);
    }
    forall k | k !in PairKeys(ps) ensures Lookup(Fill(t, ps), k) == Lookup(t, k) {
      FillLookupOther(t, ps, k);
    }
  }

  /** With distinct keys, the filled tree maps the key of pair `i` to its value. */
  lemma {:induction false} FillLookupPair<V>(t: Tree<V>, ps: seq<Pair<V>>, i: nat)
    requires Bst(t) && UniqueKeys(ps) && i < |ps|
    ensures Lookup(Fill(t, ps), ps[i].key) == Some(ps[i].value)
  {
    var n := |ps| - 1;
    var front := ps[..n];
    FillBst(t, front);
    InsertSpec(Fill(t, front), ps[n].key, ps[n].value, true);
    if i < n {
      assert front[i] == ps[i] && ps[i].key != ps[n].key;
      assert UniqueKeys(front);
      FillLookupPair(t, front, i);
    }
  }

  /** Filling keeps a search tree one. */
  lemma FillBst<V>(t: Tree<V>, ps: seq<Pair<V>>)
    requires Bst(t)
    ensures Bst(Fill(t, ps))
  {
    FillKeys(t, ps);
  }

  /** A key of no pair answers in the filled tree as in the tree it started from. */
  lemma {:induction false} FillLookupOther<V>(t: Tree<V>, ps: seq<Pair<V>>, k: int)
    requires Bst(t) && k !in PairKeys(ps)
    ensures Lookup(Fill(t, ps), k) == Lookup(t, k)
  {
    if ps != [] {
      var n := |ps| - 1;
      var front := ps[..n];
      PairKeysStep(ps, n);
      assert ps[..n + 1] == ps;
      FillBst(t, front);
      InsertSpec(Fill(t, front), ps[n].key, ps[n].value, true);
      FillLookupOther(t, front, k);
    }
  }

  /** Pairs with distinct keys have as many keys as pairs. */
  lemma {:induction false} UniqueCount<V>(ps: seq<Pair<V>>)
    requires UniqueKeys(ps)
    ensures |PairKeys(ps)| == |ps|
  {
    if ps != [] {
      var n := |ps| - 1;
      assert UniqueKeys(ps[..n]);
      UniqueCount(ps[..n]);
      PairKeysStep(ps, n);
      assert ps[..n + 1] == ps;
      assert forall j :: 0 <= j < n ==> ps[..n][j].key != ps[n].key;
    }
  }

  /** Any list of pairs has at most as many keys as pairs. */
  lemma {:induction false} PairKeysAtMost<V>(ps: seq<Pair<V>>)
    ensures |PairKeys(ps)| <= |ps|
  {
    if ps != [] {
      var n := |ps| - 1;
      PairKeysAtMost(ps[..n]);
      PairKeysStep(ps, n);
      assert ps[..n + 1] == ps;
    }
  }

  /** The keys of a list of pairs are those of its two parts. */
  lemma CutKeys<V>(e: seq<Pair<V>>, keep: nat)
    requires keep <= |e|
    ensures PairKeys(e[..keep]) + PairKeys(e[keep..]) == PairKeys(e)
  {
    var lo, hi := e[..keep], e[keep..];
    forall k | k in PairKeys(e) ensures k in PairKeys(lo) + PairKeys(hi) {
      var i :| 0 <= i < |e| && e[i].key == k;
      if i < keep {
        assert lo[i] == e[i];
      } else {
        assert hi[i - keep] == e[i];
      }
    }
    forall k | k in PairKeys(lo) ensures k in PairKeys(e) {
      var i :| 0 <= i < keep && lo[i].key == k;
      assert e[i] == lo[i];
    }
    forall k | k in PairKeys(hi) ensures k in PairKeys(e) {
      var i :| 0 <= i < |hi| && hi[i].key == k;
      assert e[keep + i] == hi[i];
    }
  }

  /** Cutting an ascending list: every key before the cut is below every key after it. */
  lemma CutOrdered<V>(e: seq<Pair<V>>, keep: nat)
    requires Ascending(e) && keep <= |e|
    ensures forall a, b :: a in PairKeys(e[..keep]) && b in PairKeys(e[keep..]) ==> a < b
    ensures UniqueKeys(e[..keep]) && UniqueKeys(e[keep..])
  {
    var lo, hi := e[..keep], e[keep..];
    forall a, b | a in PairKeys(lo) && b in PairKeys(hi) ensures a < b {
      var i :| 0 <= i < keep && lo[i].key == a;
      var j :| 0 <= j < |hi| && hi[j].key == b;
      assert lo[i] == e[i] && hi[j] == e[keep + j];
    }
    assert UniqueKeys(lo) && UniqueKeys(hi);
  }

  /**
   * Cutting a search tree's traversal at `keep`: the two parts share no key
   * and hold the tree's keys between them, `keep` in the first part.
   */
  lemma SplitParts<V>(t: Tree<V>, keep: nat)
    requires Bst(t) && keep <= |InOrder(t)|
    ensures var e := InOrder(t);
      && PairKeys(e[..keep]) + PairKeys(e[keep..]) == Keys(t)
      && PairKeys(e[..keep]) !! PairKeys(e[keep..])
      && |PairKeys(e[..keep])| == keep && |PairKeys(e[keep..])| == |e| - keep
      && |e| == |Keys(t)|
  {
    var e := InOrder(t);
    InOrderAscending(t);
    InOrderCount(t);
    PairKeysInOrder(t);
    CutKeys(e, keep);
    CutOrdered(e, keep);
    UniqueCount(e[..keep]);
    UniqueCount(e[keep..]);
  }

  /**
   * The trees after the move: shard `over` is rebuilt from the first `keep`
   * pairs of its traversal, and shard `under` takes the remaining pairs.
   */
  function Split<V>(trees: seq<Tree<V>>, over: nat, under: nat, keep: nat): seq<Tree<V>>
    requires over < |trees| && under < |trees| && keep <= |InOrder(trees[over])|
  {
    var e := InOrder(trees[over]);
    trees[over := Fill(Leaf, e[..keep])][under := Fill(trees[under], e[keep..])]
  }

  /** The counters after the move: `over` counts the kept pairs, `under` one more per moved pair. */
  function SplitSizes(sizes: seq<nat>, over: nat, under: nat, keep: nat, count: nat): seq<nat>
    requires over < |sizes| && under < |sizes| && keep <= count
  {
    sizes[over := keep][under := sizes[under] + (count - keep)]
  }

  /**
   * `rebalanceShards` with `threshold` = num/den, given the shards the
   * descending sort puts first (`over`, a fullest one) and last (`under`, an
   * emptiest one). Nothing changes when the score is at least 0.8 or the
   * fullest shard is not above the threshold; otherwise it keeps its
   * smallest pairs and hands the `to_move` largest to `under`.
   */
  function Rebalanced<V>(v: Layout<V>, over: nat, under: nat, num: nat, den: nat): (r: Layout<V>)
    requires |v.trees| == |v.sizes| && IsFullest(v.sizes, over) && IsEmptiest(v.sizes, under)
    ensures |r.trees| == |r.sizes| == |v.trees|
  {
    if !Moves(v.sizes, over, num, den) then v
    else Layout(Split(v.trees, over, under, Keep(v, over)), SplitSizes(v.sizes, over, under, Keep(v, over), |InOrder(v.trees[over])|))
  }

  /** Whether `rebalanceShards` moves anything: the score is below 0.8 and the fullest shard is above the threshold. */
  predicate Moves(sizes: seq<nat>, over: nat, num: nat, den: nat)
    requires over < |sizes|
  {
    !WellBalanced(sizes) && Exceeds(sizes, over, num, den)
  }

  /** `keep_count`, the number of pairs the fullest shard takes back. */
  function Keep<V>(v: Layout<V>, over: nat): (keep: nat)
    requires |v.trees| == |v.sizes| && IsFullest(v.sizes, over)
    ensures keep <= |InOrder(v.trees[over])|
  {
    KeptCount(|InOrder(v.trees[over])|, ToMove(v.sizes, over))
  }

  /** A move never has one shard for both ends, as equal extremes mean a perfect score. */
  lemma MovesApart(sizes: seq<nat>, over: nat, under: nat, num: nat, den: nat)
    requires IsFullest(sizes, over) && IsEmptiest(sizes, under)
    ensures Moves(sizes, over, num, den) ==> over != under
  {
    SameExtremesBalanced(sizes, over, under);
  }

  /** With an exact counter, the fullest shard takes back all its pairs but the `to_move` largest. */
  lemma KeepCount<V>(v: Layout<V>, over: nat)
    requires Counted(v) && Exact(v) && IsFullest(v.sizes, over) && v.sizes[over] < SIZE_T
    ensures Keep(v, over) + ToMove(v.sizes, over) == |InOrder(v.trees[over])|
  {
    InOrderCount(v.trees[over]);
  }

  /**
   * After the move, shard `over` holds exactly the kept keys and shard
   * `under` its own keys and the moved ones; the other shards are untouched
   * and no key is lost or made up.
   */
  lemma SplitKeys<V>(trees: seq<Tree<V>>, over: nat, under: nat, keep: nat)
    requires AllBst(trees) && over < |trees| && under < |trees| && over != under
    requires keep <= |InOrder(trees[over])|
    ensures var w, e := Split(trees, over, under, keep), InOrder(trees[over]);
      && AllBst(w)
      && Keys(w[over]) == PairKeys(e[..keep])
      && Keys(w[under]) == Keys(trees[under]) + PairKeys(e[keep..])
      && (forall j :: 0 <= j < |trees| && j != over && j != under ==> w[j] == trees[j])
      && KeySet(w) == KeySet(trees)
  {
    var w := Split(trees, over, under, keep);
    SplitMoved(trees, over, under, keep);
    KeptKeys(trees[over], keep);
    TwoShardsChanged(trees, w, over, under);
  }

  /** The fullest shard keeps its smallest keys: each one is below every key it gives away. */
  lemma SplitKeepsSmallest<V>(trees: seq<Tree<V>>, over: nat, under: nat, keep: nat)
    requires over < |trees| && under < |trees| && over != under
    requires Bst(trees[over]) && keep <= |InOrder(trees[over])|
    ensures var w, e := Split(trees, over, under, keep), InOrder(trees[over]);
      forall a, b :: a in Keys(w[over]) && b in PairKeys(e[keep..]) ==> a < b
  {
    var e := InOrder(trees[over]);
    FillKeys(Leaf, e[..keep]);
    InOrderAscending(trees[over]);
    CutOrdered(e, keep);
  }

  /** Replacing two shards by two search trees holding the same keys between them keeps the store. */
  lemma TwoShardsChanged<V>(trees: seq<Tree<V>>, w: seq<Tree<V>>, a: nat, b: nat)
    requires AllBst(trees) && |w| == |trees| && a < |trees| && b < |trees| && a != b
    requires forall j :: 0 <= j < |trees| && j != a && j != b ==> w[j] == trees[j]
    requires Bst(w[a]) && Bst(w[b])
    requires Keys(w[a]) + Keys(w[b]) == Keys(trees[a]) + Keys(trees[b])
    ensures AllBst(w) && KeySet(w) == KeySet(trees)
  {
    forall k | k in KeySet(w) ensures k in KeySet(trees) {
      var j :| 0 <= j < |w| && k in Keys(w[j]);
      if j == a || j == b {
        assert k in Keys(trees[a]) || k in Keys(trees[b]);
      } else {
        assert k in Keys(trees[j]);
      }
    }
    forall k | k in KeySet(trees) ensures k in KeySet(w) {
      var j :| 0 <= j < |trees| && k in Keys(trees[j]);
      if j == a || j == b {
        assert k in Keys(w[a]) || k in Keys(w[b]);
      } else {
        assert k in Keys(w[j]);
      }
    }
  }

  /**
   * After the move, shard `over` answers the kept keys as before and nothing
   * else; shard `under` answers the moved keys with the values they had in
   * `over`, and its own keys as before.
   */
  lemma SplitLookup<V>(trees: seq<Tree<V>>, over: nat, under: nat, keep: nat)
    requires over < |trees| && under < |trees| && over != under
    requires Bst(trees[over]) && Bst(trees[under]) && keep <= |InOrder(trees[over])|
    ensures var w, e := Split(trees, over, under, keep), InOrder(trees[over]);
      && (forall k :: Lookup(w[over], k) == if k in PairKeys(e[..keep]) then Lookup(trees[over], k) else None)
      && (forall k :: Lookup(w[under], k) == if k in PairKeys(e[keep..]) then Lookup(trees[over], k) else Lookup(trees[under], k))
  {
    var e := InOrder(trees[over]);
    SplitAt(trees, over, under, keep);
    PartLookup(trees[over], Leaf, 0, keep);
    PartLookup(trees[over], trees[under], keep, |e|);
    assert e[0..keep] == e[..keep] && e[keep..|e|] == e[keep..];
  }

  /**
   * Filling a search tree with a stretch of another tree's traversal: the
   * stretch's keys answer as in that tree, every other key as before.
   */
  lemma PartLookup<V>(t: Tree<V>, base: Tree<V>, lo: nat, hi: nat)
    requires Bst(t) && Bst(base) && lo <= hi <= |InOrder(t)|
    ensures var part := InOrder(t)[lo..hi];
      forall k :: Lookup(Fill(base, part), k) == if k in PairKeys(part) then Lookup(t, k) else Lookup(base, k)
  {
    var e := InOrder(t);
    var part := e[lo..hi];
    InOrderLookup(t);
    InOrderAscending(t);
    assert UniqueKeys(part) by {
      forall i, j | 0 <= i < j < |part| ensures part[i].key != part[j].key {
        assert part[i] == e[lo + i] && part[j] == e[lo + j];
      }
    }
    FillLookup(base, part);
    forall k | k in PairKeys(part) ensures Lookup(Fill(base, part), k) == Lookup(t, k) {
      var i :| 0 <= i < |part| && part[i].key == k;
      assert part[i] == e[lo + i];
    }
  }

  /** The counters' sum after the move: the fullest shard's counter is replaced by its pair count. */
  lemma SplitSum(sizes: seq<nat>, over: nat, under: nat, keep: nat, count: nat)
    requires over < |sizes| && under < |sizes| && over != under && keep <= count
    ensures Sum(SplitSizes(sizes, over, under, keep, count)) + sizes[over] == Sum(sizes) + count
  {
    var mid := sizes[over := keep];
    SumUpdate(sizes, over, keep);
    SumUpdate(mid, under, sizes[under] + (count - keep));
  }

  /** A layout that differs from a counted one in shards `a` and `b` only is counted when those are. */
  lemma TwoCountersChanged<V>(v: Layout<V>, w: Layout<V>, a: nat, b: nat)
    requires Counted(v) && a < |v.trees| && b < |v.trees| && |w.trees| == |w.sizes| == |v.trees|
    requires forall j :: 0 <= j < |v.trees| && j != a && j != b ==> w.trees[j] == v.trees[j] && w.sizes[j] == v.sizes[j]
    requires Bst(w.trees[a]) && |Keys(w.trees[a])| <= w.sizes[a]
    requires Bst(w.trees[b]) && |Keys(w.trees[b])| <= w.sizes[b]
    ensures Counted(w)
    ensures Exact(v) && w.sizes[a] == |Keys(w.trees[a])| && w.sizes[b] == |Keys(w.trees[b])| ==> Exact(w)
  {
  }

  /**
   * The move keeps every counter at or above its tree's key count, and the
   * counters' sum changes by the fullest shard's pair count less its counter.
   */
  lemma SplitCounts<V>(v: Layout<V>, over: nat, under: nat, keep: nat)
    requires Counted(v) && over < |v.trees| && under < |v.trees| && over != under
    requires keep <= |InOrder(v.trees[over])|
    ensures var count := |InOrder(v.trees[over])|;
      var w := Layout(Split(v.trees, over, under, keep), SplitSizes(v.sizes, over, under, keep, count));
      && Counted(w)
      && Sum(w.sizes) + v.sizes[over] == Sum(v.sizes) + count
  {
    var e := InOrder(v.trees[over]);
    var count := |e|;
    var lo, hi := e[..keep], e[keep..];
    var w := Layout(Split(v.trees, over, under, keep), SplitSizes(v.sizes, over, under, keep, count));
    SplitAt(v.trees, over, under, keep);
    FillCount(Leaf, lo);
    FillCount(v.trees[under], hi);
    TwoCountersChanged(v, w, over, under);
    SplitSum(v.sizes, over, under, keep, count);
  }

  /**
   * When the counters are exact and the two shards share no key, the move
   * keeps them exact and the total count is unchanged.
   */
  lemma SplitExact<V>(v: Layout<V>, over: nat, under: nat, keep: nat)
    requires Counted(v) && Exact(v)
    requires over < |v.trees| && under < |v.trees| && over != under
    requires Keys(v.trees[over]) !! Keys(v.trees[under])
    requires keep <= |InOrder(v.trees[over])|
    ensures var count := |InOrder(v.trees[over])|;
      var w := Layout(Split(v.trees, over, under, keep), SplitSizes(v.sizes, over, under, keep, count));
      && Exact(w)
      && Sum(w.sizes) == Sum(v.sizes)
  {
    var e := InOrder(v.trees[over]);
    var count := |e|;
    var lo, hi := e[..keep], e[keep..];
    var A, B := Fill(Leaf, lo), Fill(v.trees[under], hi);
    var w := Layout(Split(v.trees, over, under, keep), SplitSizes(v.sizes, over, under, keep, count));
    FillKeys(Leaf, lo);
    FillKeys(v.trees[under], hi);
    SplitParts(v.trees[over], keep);
    MovedExact(v, w, over, under, A, B, keep, count, PairKeys(hi));
  }

  /**
   * The counting step of the move, over the new trees `a` and `b` of shards
   * `over` and `under` and the moved keys.
   */
  lemma MovedExact<V>(v: Layout<V>, w: Layout<V>, over: nat, under: nat, a: Tree<V>, b: Tree<V>, keep: nat, count: nat, moved: set<int>)
    requires Counted(v) && Exact(v)
    requires over < |v.trees| && under < |v.trees| && over != under && keep <= count
    requires w.trees == v.trees[over := a][under := b]
    requires w.sizes == SplitSizes(v.sizes, over, under, keep, count)
    requires Bst(a) && Bst(b) && |Keys(a)| == keep && |moved| == count - keep
    requires count == v.sizes[over]
    requires Keys(b) == Keys(v.trees[under]) + moved && Keys(v.trees[under]) !! moved
    ensures Exact(w) && Sum(w.sizes) == Sum(v.sizes)
  {
    TwoCountersChanged(v, w, over, under);
    SplitSum(v.sizes, over, under, keep, count);
  }

  /** The move keeps a vector that holds no key twice. */
  lemma SplitDisjoint<V>(trees: seq<Tree<V>>, over: nat, under: nat, keep: nat)
    requires Disjoint(trees) && over < |trees| && under < |trees| && over != under
    requires Bst(trees[over]) && Bst(trees[under]) && keep <= |InOrder(trees[over])|
    ensures Disjoint(Split(trees, over, under, keep))
  {
    var e := InOrder(trees[over]);
    SplitMoved(trees, over, under, keep);
    MovedDisjoint(trees, Split(trees, over, under, keep), over, under, PairKeys(e[keep..]));
  }

  /**
   * The move in terms of key sets: shard `over` loses the keys past the cut,
   * which it held, and shard `under` gains them.
   */
  lemma SplitMoved<V>(trees: seq<Tree<V>>, over: nat, under: nat, keep: nat)
    requires over < |trees| && under < |trees| && over != under
    requires Bst(trees[over]) && Bst(trees[under]) && keep <= |InOrder(trees[over])|
    ensures var w, moved := Split(trees, over, under, keep), PairKeys(InOrder(trees[over])[keep..]);
      && |w| == |trees|
      && (forall j :: 0 <= j < |trees| && j != over && j != under ==> w[j] == trees[j])
      && moved <= Keys(trees[over])
      && Keys(w[over]) == Keys(trees[over]) - moved
      && Keys(w[under]) == Keys(trees[under]) + moved
      && Bst(w[over]) && Bst(w[under])
  {
    var e := InOrder(trees[over]);
    SplitAt(trees, over, under, keep);
    KeptKeys(trees[over], keep);
    FillKeys(trees[under], e[keep..]);
  }

  /** Where the move puts the two rebuilt trees. */
  lemma SplitAt<V>(trees: seq<Tree<V>>, over: nat, under: nat, keep: nat)
    requires over < |trees| && under < |trees| && over != under && keep <= |InOrder(trees[over])|
    ensures var w, e := Split(trees, over, under, keep), InOrder(trees[over]);
      && |w| == |trees|
      && w[over] == Fill(Leaf, e[..keep])
      && w[under] == Fill(trees[under], e[keep..])
      && (forall j :: 0 <= j < |trees| && j != over && j != under ==> w[j] == trees[j])
  {
  }

  /** The tree rebuilt from the first `keep` pairs holds the keys of `t` but those past the cut. */
  lemma KeptKeys<V>(t: Tree<V>, keep: nat)
    requires Bst(t) && keep <= |InOrder(t)|
    ensures var e := InOrder(t);
      && PairKeys(e[keep..]) <= Keys(t)
      && Keys(Fill(Leaf, e[..keep])) == Keys(t) - PairKeys(e[keep..]) == PairKeys(e[..keep])
      && Bst(Fill(Leaf, e[..keep]))
  {
    var e := InOrder(t);
    FillKeys(Leaf, e[..keep]);
    SplitParts(t, keep);
  }

  /**
   * Moving keys `moved` of shard `a` into shard `b`, where `a` keeps the
   * rest, keeps a vector that holds no key twice.
   */
  lemma MovedDisjoint<V>(trees: seq<Tree<V>>, w: seq<Tree<V>>, a: nat, b: nat, moved: set<int>)
    requires Disjoint(trees) && |w| == |trees| && a < |trees| && b < |trees| && a != b
    requires forall j :: 0 <= j < |trees| && j != a && j != b ==> w[j] == trees[j]
    requires moved <= Keys(trees[a])
    requires Keys(w[a]) == Keys(trees[a]) - moved
    requires Keys(w[b]) == Keys(trees[b]) + moved
    ensures Disjoint(w)
  {
    forall i, j, k | 0 <= i < |w| && 0 <= j < |w| && k in Keys(w[i]) && k in Keys(w[j]) ensures i == j {
      var i' := if i == b && k in moved then a else i;
      var j' := if j == b && k in moved then a else j;
      assert k in Keys(trees[i']) && k in Keys(trees[j']);
    }
  }

  // ---------------------------------------------------------------------------
  // What `rebalanceShards` keeps and what it breaks
  // ---------------------------------------------------------------------------

  /**
   * `rebalanceShards` keeps every counter at or above its tree's key count
   * and loses no key. On a vector that holds no key twice with exact
   * counters, it keeps both and leaves the total count unchanged.
   */
  lemma RebalancedFacts<V>(v: Layout<V>, over: nat, under: nat, num: nat, den: nat)
    requires Counted(v) && IsFullest(v.sizes, over) && IsEmptiest(v.sizes, under)
    ensures var r := Rebalanced(v, over, under, num, den);
      && Counted(r)
      && KeySet(r.trees) == KeySet(v.trees)
      && (Exact(v) && Disjoint(v.trees) ==> Exact(r) && Disjoint(r.trees) && Sum(r.sizes) == Sum(v.sizes))
  {
    MovesApart(v.sizes, over, under, num, den);
    if Moves(v.sizes, over, num, den) {
      SplitFacts(v, over, under, Keep(v, over));
    }
  }

  /** The move with `keep` pairs kept, as `RebalancedFacts` states it. */
  lemma SplitFacts<V>(v: Layout<V>, over: nat, under: nat, keep: nat)
    requires Counted(v) && over < |v.trees| && under < |v.trees| && over != under
    requires keep <= |InOrder(v.trees[over])|
    ensures var r := Layout(Split(v.trees, over, under, keep), SplitSizes(v.sizes, over, under, keep, |InOrder(v.trees[over])|));
      && Counted(r)
      && KeySet(r.trees) == KeySet(v.trees)
      && (Exact(v) && Disjoint(v.trees) ==> Exact(r) && Disjoint(r.trees) && Sum(r.sizes) == Sum(v.sizes))
  {
    SplitCounts(v, over, under, keep);
    SplitKeys(v.trees, over, under, keep);
    if Exact(v) && Disjoint(v.trees) {
      DisjointPair(v.trees, over, under);
      SplitExact(v, over, under, keep);
      SplitDisjoint(v.trees, over, under, keep);
    }
  }

  /** Two different shards of a vector that holds no key twice share no key. */
  lemma DisjointPair<V>(trees: seq<Tree<V>>, a: nat, b: nat)
    requires Disjoint(trees) && a < |trees| && b < |trees| && a != b
    ensures Keys(trees[a]) !! Keys(trees[b])
  {
    forall k | k in Keys(trees[a]) ensures k !in Keys(trees[b]) {
    }
  }

  /**
   * When the counters are exact, the pairs that move are the `to_move`
   * largest of the fullest shard: that many keys leave it, and each is
   * larger than every key it keeps.
   */
  lemma RebalancedMoves<V>(v: Layout<V>, over: nat, under: nat, num: nat, den: nat)
    requires Counted(v) && Exact(v) && IsFullest(v.sizes, over) && IsEmptiest(v.sizes, under)
    requires Moves(v.sizes, over, num, den) && v.sizes[over] < SIZE_T
    ensures over != under
    ensures var e, r := InOrder(v.trees[over]), Rebalanced(v, over, under, num, den);
      && Keep(v, over) + ToMove(v.sizes, over) == |e|
      && |PairKeys(e[Keep(v, over)..])| == ToMove(v.sizes, over)
      && Keys(r.trees[over]) == Keys(v.trees[over]) - PairKeys(e[Keep(v, over)..])
      && (forall a, b :: a in Keys(r.trees[over]) && b in PairKeys(e[Keep(v, over)..]) ==> a < b)
  {
    MovesApart(v.sizes, over, under, num, den);
    KeepCount(v, over);
    CutFacts(v.trees, over, under, Keep(v, over));
  }

  /** The key sets of the cut at `keep`, as `RebalancedMoves` states them. */
  lemma CutFacts<V>(trees: seq<Tree<V>>, over: nat, under: nat, keep: nat)
    requires over < |trees| && under < |trees| && over != under
    requires Bst(trees[over]) && Bst(trees[under]) && keep <= |InOrder(trees[over])|
    ensures var e, w := InOrder(trees[over]), Split(trees, over, under, keep);
      && |PairKeys(e[keep..])| == |e| - keep
      && Keys(w[over]) == Keys(trees[over]) - PairKeys(e[keep..])
      && (forall a, b :: a in Keys(w[over]) && b in PairKeys(e[keep..]) ==> a < b)
  {
    SplitParts(trees[over], keep);
    SplitMoved(trees, over, under, keep);
    SplitKeepsSmallest(trees, over, under, keep);
  }

  /**
   * As written, `contains` and `get` look only in `getShardIndex(key)`, but
   * `rebalanceShards` puts the moved pairs in the emptiest shard: starting
   * from a vector where every key sits in its own shard, each moved key is
   * still stored and its own shard no longer holds it.
   */
  lemma RebalanceHidesKeysAsWritten<V>(v: Layout<V>, routing: RoutingStrategy, keyHash: int -> bv64, over: nat, under: nat, num: nat, den: nat)
    requires Counted(v) && |v.trees| > 0 && Routed(v.trees, routing, keyHash)
    requires IsFullest(v.sizes, over) && IsEmptiest(v.sizes, under) && Moves(v.sizes, over, num, den)
    ensures var e, r := InOrder(v.trees[over]), Rebalanced(v, over, under, num, den);
      forall k :: k in PairKeys(e[Keep(v, over)..]) ==>
        k in KeySet(r.trees) && k !in Keys(r.trees[ShardIndex(routing, keyHash, |r.trees|, k)])
  {
    MovesApart(v.sizes, over, under, num, den);
    HiddenAfterSplit(v.trees, routing, keyHash, over, under, Keep(v, over));
  }

  /** The cut at `keep` of a routed vector, as `RebalanceHidesKeysAsWritten` states it. */
  lemma HiddenAfterSplit<V>(trees: seq<Tree<V>>, routing: RoutingStrategy, keyHash: int -> bv64, over: nat, under: nat, keep: nat)
    requires Routed(trees, routing, keyHash) && over < |trees| && under < |trees| && over != under
    requires Bst(trees[over]) && Bst(trees[under]) && keep <= |InOrder(trees[over])|
    ensures var e, w := InOrder(trees[over]), Split(trees, over, under, keep);
      forall k :: k in PairKeys(e[keep..]) ==> k in KeySet(w) && k !in Keys(w[ShardIndex(routing, keyHash, |w|, k)])
  {
    var e, w := InOrder(trees[over]), Split(trees, over, under, keep);
    SplitMoved(trees, over, under, keep);
    forall k | k in PairKeys(e[keep..]) ensures k in KeySet(w) && k !in Keys(w[ShardIndex(routing, keyHash, |w|, k)]) {
      assert k in Keys(trees[over]);
      assert ShardIndex(routing, keyHash, |trees|, k) == over;
      assert k in Keys(w[under]);
    }
  }

  // ---------------------------------------------------------------------------
  // The object
  // ---------------------------------------------------------------------------

  /**
   * `AVLTreeParallel`. `keyHash` is `std::hash<Key>` and `zero` is the
   * `Value{}` the shard trees' `get` answers for a missing key.
   */
  class AvlTreeParallel<V> {
    const routing: RoutingStrategy
    const keyHash: int -> bv64
    const zero: V
    var layout: Layout<V>

    /** At least one shard, and every counter at or above its tree's key count. */
    ghost predicate Valid()
      reads this
    {
      Counted(layout) && |layout.trees| > 0
    }

    /** The constructor: `n` empty shards with zero counters. */
    constructor(n: nat, routing: RoutingStrategy, keyHash: int -> bv64, zero: V)
      requires n > 0
      ensures Valid() && layout == Empty(n)
      ensures this.routing == routing && this.keyHash == keyHash && this.zero == zero
      ensures Exact(layout) && Routed(layout.trees, routing, keyHash) && KeySet(layout.trees) == {}
    {
      this.routing := routing;
      this.keyHash := keyHash;
      this.zero := zero;
      layout := Empty(n);
      EmptyFacts<V>(n, routing, keyHash);
    }

    /** `getShardIndex`. */
    function Index(key: int): (s: nat)
      requires Valid()
      reads this
      ensures s < |layout.trees|
    {
      ShardIndex(routing, keyHash, |layout.trees|, key)
    }

    /**
     * `insert`: the key's shard takes the pair, and its counter grows when
     * its tree did. The counters' sum grows by one exactly for a key new to
     * that shard; routing and exact counters are kept.
     */
    method Insert(key: int, value: V)
      requires Valid()
      modifies this
      ensures Valid() && layout == Added(old(layout), old(Index(key)), key, value)
      ensures Sum(layout.sizes) == Sum(old(layout.sizes)) + if key in old(Keys(layout.trees[Index(key)])) then 0 else 1
      ensures KeySet(layout.trees) == KeySet(old(layout.trees)) + {key}
      ensures old(Exact(layout)) ==> Exact(layout)
      ensures old(Routed(layout.trees, routing, keyHash)) ==> Routed(layout.trees, routing, keyHash)
    {
      var i := Index(key);
      AddedCounts(layout, i, key, value);
      AddedKeys(layout.trees, i, key, value);
      if Routed(layout.trees, routing, keyHash) {
        AddedRouted(layout.trees, routing, keyHash, key, value);
      }
      layout := Added(layout, i, key, value);
    }

    /**
     * `remove`: the key's shard drops it, and its counter drops when its
     * tree shrank. Routing and exact counters are kept; on a routed vector
     * the key is gone from the store.
     */
    method Remove(key: int)
      requires Valid()
      modifies this
      ensures Valid() && layout == Erased(old(layout), old(Index(key)), key)
      ensures Sum(layout.sizes) + (if key in old(Keys(layout.trees[Index(key)])) then 1 else 0) == Sum(old(layout.sizes))
      ensures old(Exact(layout)) ==> Exact(layout)
      ensures old(Routed(layout.trees, routing, keyHash)) ==>
        Routed(layout.trees, routing, keyHash) && KeySet(layout.trees) == KeySet(old(layout.trees)) - {key}
    {
      var i := Index(key);
      ErasedCounts(layout, i, key);
      if Routed(layout.trees, routing, keyHash) {
        ErasedRouted(layout.trees, routing, keyHash, key);
      }
      layout := Erased(layout, i, key);
    }

    /**
     * `contains`: the key's own shard is searched, and no other. On a
     * routed vector that answers whether the key is stored at all.
     */
    method Contains(key: int) returns (b: bool)
      requires Valid()
      ensures b <==> key in Keys(layout.trees[Index(key)])
      ensures Routed(layout.trees, routing, keyHash) ==> (b <==> key in KeySet(layout.trees))
    {
      var found := FindNode(layout.trees[Index(key)], key);
      b := found.Some?;
      if Routed(layout.trees, routing, keyHash) {
        RoutedFinds(layout.trees, routing, keyHash, key);
      }
    }

    /** `get`: the value the key's own shard holds for it, or `Value{}`. */
    method Get(key: int) returns (value: V)
      requires Valid()
      ensures Lookup(layout.trees[Index(key)], key).Some? ==> value == Lookup(layout.trees[Index(key)], key).value
      ensures key !in Keys(layout.trees[Index(key)]) ==> value == zero
    {
      var found := FindNode(layout.trees[Index(key)], key);
      value := if found.Some? then found.value else zero;
    }

    /**
     * `size`: the sum of the `local_size` counters; the number of stored
     * keys while the counters are exact and no key is held twice.
     */
    method Size() returns (total: nat)
      requires Valid()
      ensures total == Sum(layout.sizes)
      ensures Exact(layout) && Disjoint(layout.trees) ==> total == |KeySet(layout.trees)|
    {
      var sizes := layout.sizes;
      total := 0;
      var i := 0;
      while i < |sizes|
        invariant i <= |sizes| && total == Sum(sizes[..i])
      {
        assert sizes[..i + 1][..i] == sizes[..i];
        total := total + sizes[i];
        i := i + 1;
      }
      assert sizes[..i] == sizes;
      if Exact(layout) && Disjoint(layout.trees) {
        ExactSum(layout);
      }
    }

    /** `clear`: every tree emptied and every counter zeroed. */
    method Clear()
      requires Valid()
      modifies this
      ensures Valid() && layout == Empty(|old(layout.trees)|)
      ensures Exact(layout) && Routed(layout.trees, routing, keyHash) && KeySet(layout.trees) == {} && Sum(layout.sizes) == 0
    {
      EmptyFacts<V>(|layout.trees|, routing, keyHash);
      layout := Empty(|layout.trees|);
    }

    /**
     * `rebalanceShards(threshold)` with threshold = num/den. `over` and
     * `under` are the shards the descending sort of the counters puts first
     * and last; the sort does not fix which one among equal counters, so
     * any fullest and any emptiest shard may be chosen.
     */
    method RebalanceShards(num: nat, den: nat) returns (over: nat, under: nat)
      requires Valid()
      modifies this
      ensures Valid() && IsFullest(old(layout.sizes), over) && IsEmptiest(old(layout.sizes), under)
      ensures layout == Rebalanced(old(layout), over, under, num, den)
      ensures KeySet(layout.trees) == KeySet(old(layout.trees))
      ensures old(Exact(layout) && Disjoint(layout.trees)) ==>
        Exact(layout) && Disjoint(layout.trees) && Sum(layout.sizes) == Sum(old(layout.sizes))
    {
      over, under := Extremes(layout.sizes);
      RebalancedFacts(layout, over, under, num, den);
      MovesApart(layout.sizes, over, under, num, den);
      if Moves(layout.sizes, over, num, den) {
        Move(over, under, Keep(layout, over));
      }
    }

    /**
     * The moving loop of `rebalanceShards`: the fullest shard is emptied,
     * then its pairs, in ascending key order, go back to it while their
     * index is below `keep_count` and to the emptiest shard after that,
     * each one counted by the shard receiving it.
     */
    method Move(over: nat, under: nat, keep: nat)
      requires Valid() && over < |layout.trees| && under < |layout.trees| && over != under
      requires keep <= |InOrder(layout.trees[over])|
      modifies this
      ensures layout == Layout(Split(old(layout.trees), over, under, keep), SplitSizes(old(layout.sizes), over, under, keep, |InOrder(old(layout.trees[over]))|))
    {
      var e := InOrder(layout.trees[over]);
      var a, b, kept, moved := Distribute(e, keep, layout.trees[under], layout.sizes[under]);
      layout := Layout(layout.trees[over := a][under := b], layout.sizes[over := kept][under := moved]);
    }

    /**
     * The loop of the move over the pairs `e` of the fullest shard: pair
     * `i` goes to the emptied tree `a` when `i < keep`, otherwise to `b`,
     * the emptiest shard's tree; each pair bumps the receiving counter.
     */
    static method Distribute(e: seq<Pair<V>>, keep: nat, base: Tree<V>, baseSize: nat)
      returns (a: Tree<V>, b: Tree<V>, kept: nat, moved: nat)
      requires keep <= |e|
      ensures a == Fill(Leaf, e[..keep]) && b == Fill(base, e[keep..])
      ensures kept == keep && moved == baseSize + (|e| - keep)
    {
      a, b, kept, moved := Leaf, base, 0, baseSize;
      var i := 0;
      while i < |e|
        invariant i <= |e| && Distributed(e, keep, base, baseSize, i, a, b, kept, moved)
      {
        a, b, kept, moved := DistributeOne(e, keep, base, baseSize, i, a, b, kept, moved);
        i := i + 1;
      }
      DistributedAll(e, keep, base, baseSize, a, b, kept, moved);
    }

    /** One turn of the loop: pair `i` goes to the tree its index selects, and that counter goes up. */
    static method DistributeOne(e: seq<Pair<V>>, keep: nat, base: Tree<V>, baseSize: nat, i: nat, a: Tree<V>, b: Tree<V>, kept: nat, moved: nat)
      returns (a': Tree<V>, b': Tree<V>, kept': nat, moved': nat)
      requires keep <= |e| && i < |e| && Distributed(e, keep, base, baseSize, i, a, b, kept, moved)
      ensures Distributed(e, keep, base, baseSize, i + 1, a', b', kept', moved')
    {
      a', b', kept', moved' := a, b, kept, moved;
      if i < keep {
        FillStep(Leaf, e, 0, i);
        a' := AvlCore.Insert(a, e[i].key, e[i].value, true);
        kept' := kept + 1;
      } else {
        assert i == keep ==> e[keep..i] == [];
        FillStep(base, e, keep, i);
        b' := AvlCore.Insert(b, e[i].key, e[i].value, true);
        moved' := moved + 1;
      }
    }
  }

  /**
   * The state of the move after `i` pairs: the kept ones among them fill
   * `a`, the others fill `b` on top of `base`, and the counters count them.
   */
  ghost predicate Distributed<V>(e: seq<Pair<V>>, keep: nat, base: Tree<V>, baseSize: nat, i: nat, a: Tree<V>, b: Tree<V>, kept: nat, moved: nat)
    requires keep <= |e| && i <= |e|
  {
    if i <= keep then a == Fill(Leaf, e[0..i]) && kept == i && b == base && moved == baseSize
    else a == Fill(Leaf, e[0..keep]) && kept == keep && b == Fill(base, e[keep..i]) && moved == baseSize + (i - keep)
  }

  /** After every pair, the loop state is the move's result. */
  lemma DistributedAll<V>(e: seq<Pair<V>>, keep: nat, base: Tree<V>, baseSize: nat, a: Tree<V>, b: Tree<V>, kept: nat, moved: nat)
    requires keep <= |e| && Distributed(e, keep, base, baseSize, |e|, a, b, kept, moved)
    ensures a == Fill(Leaf, e[..keep]) && b == Fill(base, e[keep..])
    ensures kept == keep && moved == baseSize + (|e| - keep)
  {
    assert e[0..keep] == e[..keep] && e[keep..|e|] == e[keep..];
    if |e| == keep {
      assert e[keep..] == [] && e[0..|e|] == e[..keep];
    }
  }

  /** Filling with one more pair of a stretch inserts that pair last. */
  lemma FillStep<V>(t: Tree<V>, e: seq<Pair<V>>, lo: nat, hi: nat)
    requires lo <= hi < |e|
    ensures Fill(t, e[lo..hi + 1]) == AvlCore.Insert(Fill(t, e[lo..hi]), e[hi].key, e[hi].value, true)
  {
    assert e[lo..hi + 1][..hi - lo] == e[lo..hi];
  }

  /** The scan standing in for the sort: a fullest and an emptiest shard. */
  method Extremes(sizes: seq<nat>) returns (over: nat, under: nat)
    requires |sizes| > 0
    ensures IsFullest(sizes, over) && IsEmptiest(sizes, under)
  {
    over, under := 0, 0;
    var i := 1;
    while i < |sizes|
      invariant 1 <= i <= |sizes| && over < i && under < i
      invariant forall j :: 0 <= j < i ==> sizes[under] <= sizes[j] <= sizes[over]
    {
      if sizes[i] > sizes[over] {
        over := i;
      }
      if sizes[i] < sizes[under] {
        under := i;
      }
      i := i + 1;
    }
  }
}

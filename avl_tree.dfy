/**
 * The C AVL tree (`avl_tree.c`): a root, a size counter, a node pool and an
 * optional value destructor.
 *
 * The nodes are a `Tree` value held in the `root` field. Insertion and
 * removal replace it by the rebuilt tree that `AvlCore` computes, with the
 * rebalance hook switched on. The pool hands out one node per stored key;
 * the map `nodeOf` records which node holds which key. Calls of the
 * value destructor are recorded, in order, in `destroyed`.
 */
module CAvlTree {
  import opened Wrappers
  import opened AvlCore
  import opened AvlBalance
  import opened AvlOrder
  import opened AvlSearch
  import opened AvlPool

  /** The values in the order `avl_destroy_values_recursive` visits them: left, right, node. */
  function PostOrderValues<V>(t: Tree<V>): (vs: seq<V>)
    ensures |vs| == |InOrder(t)|
  {
    match t
    case Leaf => []
    case Node(l, _, v, _, r) => PostOrderValues(l) + PostOrderValues(r) + [v]
  }

  class AvlTree<V> {
    var root: Tree<V>
    var size: nat
    const pool: NodePool
    const hasDestructor: bool
    var destroyed: seq<V>
    var nodeOf: map<int, NodeRef>

    /**
     * The tree is an AVL search tree holding `size` keys; each key sits in
     * its own pool node, which is not on the free list; and every node the
     * pool has obtained is either free or holds a key.
     */
    ghost predicate Valid()
      reads this, pool
    {
      && Avl(root) && Bst(root) && size == |Keys(root)|
      && pool.Valid()
      && nodeOf.Keys == Keys(root)
      && Owned(nodeOf, pool.freeList, pool.blocks)
      && pool.totalAllocated == BLOCK_SIZE * pool.blocks
      && |pool.freeList| + size == pool.totalAllocated
    }

    /** `avl_tree_create`. */
    constructor (hasDestructor: bool)
      ensures Valid() && fresh(pool)
      ensures root == Leaf && size == 0 && destroyed == [] && this.hasDestructor == hasDestructor
    {
      root := Leaf;
      size := 0;
      this.hasDestructor := hasDestructor;
      destroyed := [];
      nodeOf := map[];
      pool := new NodePool();
    }

    /** `avl_tree_contains`. */
    method Contains(k: int) returns (b: bool)
      requires Valid()
      ensures b == (k in Keys(root))
    {
      var r := FindNode(root, k);
      b := r.Some?;
    }

    /** `avl_tree_get`: `found` is reported by `Some`, and a missing key gives `None` (NULL). */
    method Get(k: int) returns (r: Option<V>)
      requires Valid()
      ensures r.Some? == (k in Keys(root))
      ensures r == Lookup(root, k)
    {
      r := FindNode(root, k);
    }

    /** `avl_tree_size`. */
    function Size(): (n: nat)
      requires Valid()
      reads this, pool
      ensures n == |Keys(root)|
    {
      size
    }

    /** `avl_tree_empty`. */
    function Empty(): (b: bool)
      requires Valid()
      reads this, pool
      ensures b == (Keys(root) == {})
    {
      size == 0
    }

    /** `avl_tree_min_key`: `found` is false and the key 0 on an empty tree. */
    method MinKey() returns (found: bool, k: int)
      requires Valid()
      ensures found == (Keys(root) != {})
      ensures !found ==> k == 0
      ensures found ==> k in Keys(root) && forall j :: j in Keys(root) ==> k <= j
    {
      if root.Leaf? {
        return false, 0;
      }
      k := FindMin(root);
      found := true;
    }

    /** `avl_tree_max_key`: `found` is false and the key 0 on an empty tree. */
    method MaxKey() returns (found: bool, k: int)
      requires Valid()
      ensures found == (Keys(root) != {})
      ensures !found ==> k == 0
      ensures found ==> k in Keys(root) && forall j :: j in Keys(root) ==> j <= k
    {
      if root.Leaf? {
        return false, 0;
      }
      k := FindMax(root);
      found := true;
    }

    /**
     * `avl_tree_insert`: a present key gets the new value, after the
     * destructor has been called on the old one; an absent key is stored in
     * a node from the pool and the size grows by one.
     */
    method Insert(k: int, v: V)
      requires Valid()
      modifies this, pool
      ensures Valid()
      ensures Keys(root) == old(Keys(root)) + {k}
      ensures forall j :: Lookup(root, j) == if j == k then Some(v) else old(Lookup(root, j))
      ensures size == if k in old(Keys(root)) then old(size) else old(size) + 1
      ensures destroyed == old(destroyed) + (if hasDestructor then old(Lookup(root, k)).ToSeq() else [])
    {
      var existing := FindNode(root, k);
      if existing.Some? {
        if hasDestructor {
          destroyed := destroyed + [existing.value];
        }
        ReplaceValue(k, v);
      } else {
        AttachNew(k, v);
      }
    }

    /** The found-key branch of `avl_tree_insert`: only the value changes. */
    method ReplaceValue(k: int, v: V)
      requires Valid() && k in Keys(root)
      modifies this
      ensures Valid()
      ensures Keys(root) == old(Keys(root))
      ensures forall j :: Lookup(root, j) == if j == k then Some(v) else old(Lookup(root, j))
      ensures size == old(size) && destroyed == old(destroyed)
    {
      InsertSpec(root, k, v, true);
      InsertAvl(root, k, v);
      assert Keys(root) + {k} == Keys(root);
      root := AvlCore.Insert(root, k, v, true);
    }

    /** The new-key branch of `avl_tree_insert`: a node from the pool holds the key. */
    method AttachNew(k: int, v: V)
      requires Valid() && k !in Keys(root)
      modifies this, pool
      ensures Valid()
      ensures Keys(root) == old(Keys(root)) + {k}
      ensures forall j :: Lookup(root, j) == if j == k then Some(v) else old(Lookup(root, j))
      ensures size == old(size) + 1 && destroyed == old(destroyed)
    {
      var r := AvlCore.Insert(root, k, v, true);
      InsertFresh(root, k, v, r);
      ghost var free, blocks, total := pool.freeList, pool.blocks, pool.totalAllocated;
      var n := pool.Alloc();
      AllocOwned(nodeOf, free, blocks, total, k, n, pool.freeList, pool.blocks, pool.totalAllocated);
      nodeOf := nodeOf[k := n];
      root := r;
      size := size + 1;
    }

    /**
     * `avl_tree_remove`: false, with nothing changed, for an absent key;
     * otherwise the key is gone, the destructor is called on its value, its
     * node returns to the pool and the size drops by one.
     */
    method Remove(k: int) returns (removed: bool)
      requires Valid()
      modifies this, pool
      ensures Valid()
      ensures removed == (k in old(Keys(root)))
      ensures Keys(root) == old(Keys(root)) - {k}
      ensures forall j :: Lookup(root, j) == if j == k then None else old(Lookup(root, j))
      ensures size == if removed then old(size) - 1 else old(size)
      ensures destroyed == old(destroyed) + (if hasDestructor then old(Lookup(root, k)).ToSeq() else [])
      ensures !removed ==> root == old(root) && pool.freeList == old(pool.freeList)
    {
      var existing := FindNode(root, k);
      if existing.None? {
        return false;
      }
      if hasDestructor {
        destroyed := destroyed + [existing.value];
      }
      UnlinkFound(k);
      removed := true;
    }

    /** The found-key branch of `avl_tree_remove`: the node is unlinked and returned to the pool. */
    method UnlinkFound(k: int)
      requires Valid() && k in Keys(root)
      modifies this, pool
      ensures Valid()
      ensures Keys(root) == old(Keys(root)) - {k}
      ensures forall j :: Lookup(root, j) == if j == k then None else old(Lookup(root, j))
      ensures size == old(size) - 1 && destroyed == old(destroyed)
    {
      RemoveSpec(root, k, true);
      RemoveAvl(root, k);
      var n := nodeOf[k];
      OwnedAfterFree(nodeOf, pool.freeList, pool.blocks, k);
      pool.Free(n);
      nodeOf := RemoveKey(nodeOf, k);
      root := AvlCore.Remove(root, k, true);
      size := size - 1;
    }

    /** `avl_tree_clear`: every value goes to the destructor (post-order), the pool starts over, the tree is empty. */
    method Clear()
      requires Valid()
      modifies this, pool
      ensures Valid()
      ensures root == Leaf && size == 0
      ensures destroyed == old(destroyed) + (if hasDestructor then PostOrderValues(old(root)) else [])
      ensures pool.blocks == 0 && pool.freeList == [] && pool.totalAllocated == 0
    {
      if hasDestructor {
        destroyed := destroyed + PostOrderValues(root);
      }
      pool.Destroy();
      pool.Init();
      root := Leaf;
      size := 0;
      nodeOf := map[];
    }

    /** `avl_tree_destroy`: the values go to the destructor and the pool releases its blocks. */
    method Destroy()
      requires Valid()
      modifies this, pool
      ensures destroyed == old(destroyed) + (if hasDestructor then PostOrderValues(old(root)) else [])
      ensures pool.blocks == 0 && pool.freeList == []
    {
      if hasDestructor {
        destroyed := destroyed + PostOrderValues(root);
      }
      pool.Destroy();
    }

    /**
     * `avl_tree_extract_all`: the caller's array receives every pair, in
     * strictly ascending key order, and the count is the size.
     */
    method ExtractAll(out: array<Pair<V>>) returns (count: nat)
      requires Valid()
      requires size <= out.Length
      modifies out
      ensures count == size
      ensures out[..count] == InOrder(root)
      ensures Ascending(out[..count])
      ensures out[count..] == old(out[count..])
    {
      InOrderCount(root);
      InOrderAscending(root);
      count := ExtractInto(root, out, 0);
    }

    /**
     * `avl_tree_range_foreach`: the pairs passed to the callback are the
     * pairs with lo <= key <= hi, ascending, up to and including the first
     * one the callback answers false to.
     */
    method RangeForeach(lo: int, hi: int, callback: Pair<V> -> bool) returns (calls: seq<Pair<V>>)
      requires Valid()
      ensures calls == CallsUntilStop(Clip(InOrder(root), lo, hi), callback)
    {
      var stop;
      calls, stop := RangeInto(root, lo, hi, callback, false);
      RangeWalkSpec(root, lo, hi, callback);
    }
  }

  /**
   * Each key's node lies in an obtained block and is not on the free list,
   * and no two keys share a node.
   */
  ghost predicate Owned(nodeOf: map<int, NodeRef>, free: seq<NodeRef>, blocks: nat)
  {
    && (forall k :: k in nodeOf ==> nodeOf[k].block < blocks && nodeOf[k].slot < BLOCK_SIZE && nodeOf[k] !in free)
    && (forall k1, k2 :: k1 in nodeOf && k2 in nodeOf && k1 != k2 ==> nodeOf[k1] != nodeOf[k2])
  }

  /** Returning a key's node to the free list keeps the other keys' nodes owned. */
  lemma OwnedAfterFree(nodeOf: map<int, NodeRef>, free: seq<NodeRef>, blocks: nat, k: int)
    requires k in nodeOf && Owned(nodeOf, free, blocks)
    ensures Owned(RemoveKey(nodeOf, k), [nodeOf[k]] + free, blocks)
  {
  }

  /** A node fresh from the pool can hold a new key. */
  lemma OwnedAfterAlloc(nodeOf: map<int, NodeRef>, free: seq<NodeRef>, blocks: nat, k: int,
                        n: NodeRef, free': seq<NodeRef>, blocks': nat)
    requires k !in nodeOf && Owned(nodeOf, free, blocks)
    requires n.block < blocks' && n.slot < BLOCK_SIZE && n !in free'
    requires (free != [] && n == free[0] && free' == free[1..] && blocks' == blocks)
          || (free == [] && n.block == blocks && blocks' == blocks + 1 && forall i :: 0 <= i < |free'| ==> free'[i].block == blocks)
    ensures Owned(nodeOf[k := n], free', blocks')
  {
  }

  /** Inserting an absent key into an AVL search tree: one more key, the new pair, the rest unchanged. */
  lemma InsertFresh<V>(t: Tree<V>, k: int, v: V, r: Tree<V>)
    requires Avl(t) && Bst(t) && k !in Keys(t) && r == Insert(t, k, v, true)
    ensures Avl(r) && Bst(r) && Keys(r) == Keys(t) + {k} && |Keys(r)| == |Keys(t)| + 1
    ensures forall j :: Lookup(r, j) == if j == k then Some(v) else Lookup(t, j)
  {
    InsertSpec(t, k, v, true);
    InsertAvl(t, k, v);
  }

  /** The pool after `Alloc`: the new key owns the node, and one more node is in use. */
  lemma AllocOwned(nodeOf: map<int, NodeRef>, free: seq<NodeRef>, blocks: nat, total: nat, k: int,
                   n: NodeRef, free': seq<NodeRef>, blocks': nat, total': nat)
    requires k !in nodeOf && Owned(nodeOf, free, blocks) && total == BLOCK_SIZE * blocks
    requires free != [] ==> n == free[0] && free' == free[1..] && blocks' == blocks && total' == total
    requires free == [] ==>
      && n == NodeRef(blocks, 0) && free' == BlockChain(blocks) + free
      && blocks' == blocks + 1 && total' == total + BLOCK_SIZE
    requires n.block < blocks' && n.slot < BLOCK_SIZE && n !in free'
    ensures Owned(nodeOf[k := n], free', blocks')
    ensures total' == BLOCK_SIZE * blocks' && |free'| + 1 == |free| + (total' - total)
  {
    OwnedAfterAlloc(nodeOf, free, blocks, k, n, free', blocks');
  }

  /** The map without `k`. */
  function RemoveKey<K, T>(m: map<K, T>, k: K): (m': map<K, T>)
    ensures m'.Keys == m.Keys - {k}
    ensures forall j :: j in m' ==> m'[j] == m[j]
  {
    map j | j in m && j != k :: m[j]
  }

  /** `avl_extract_recursive`: in-order, writing at `index` and advancing it. */
  method ExtractInto<V>(t: Tree<V>, out: array<Pair<V>>, index: nat) returns (next: nat)
    requires index + |InOrder(t)| <= out.Length
    modifies out
    ensures next == index + |InOrder(t)|
    ensures out[index..next] == InOrder(t)
    ensures out[..index] == old(out[..index]) && out[next..] == old(out[next..])
    decreases t
  {
    match t
    case Leaf =>
      next := index;
    case Node(l, k, v, _, r) =>
      ghost var before := out[..];
      var i := ExtractInto(l, out, index);
      ghost var afterLeft := out[..];
      out[i] := Pair(k, v);
      ghost var afterNode := out[..];
      next := ExtractInto(r, out, i + 1);
      Splice(before, afterLeft, afterNode, out[..], index, i, next, InOrder(l), Pair(k, v), InOrder(r));
  }

  /** The three writes of one `ExtractInto` step put the left run, the node and the right run side by side. */
  lemma Splice<T>(before: seq<T>, a1: seq<T>, a2: seq<T>, a3: seq<T>, index: nat, i: nat, next: nat,
                  left: seq<T>, x: T, right: seq<T>)
    requires |before| == |a1| == |a2| == |a3| && index <= i < next <= |before|
    requires i == index + |left| && next == i + 1 + |right|
    requires a1[index..i] == left && a1[..index] == before[..index] && a1[i..] == before[i..]
    requires a2 == a1[i := x]
    requires a3[i + 1..next] == right && a3[..i + 1] == a2[..i + 1] && a3[next..] == a2[next..]
    ensures a3[index..next] == left + [x] + right
    ensures a3[..index] == before[..index] && a3[next..] == before[next..]
  {
    assert a3[index..next] == a3[index..i] + [a3[i]] + a3[i + 1..next];
    assert a3[index..i] == a1[index..i];
    assert a3[..index] == a1[..index];
    assert a3[next..] == a1[next..];
  }

  /**
   * `avl_range_recursive`: nothing when the subtree is empty or the walk has
   * stopped; the left subtree only when the key is above lo; the node when
   * it is in range and the walk has not stopped; the right subtree only when
   * the key is below hi and the walk has not stopped.
   */
  method RangeInto<V>(t: Tree<V>, lo: int, hi: int, callback: Pair<V> -> bool, stop: bool)
    returns (calls: seq<Pair<V>>, stopOut: bool)
    ensures stop ==> calls == [] && stopOut
    ensures !stop ==> Walk(calls, stopOut) == RangeWalk(t, lo, hi, callback)
    decreases t
  {
    calls, stopOut := [], stop;
    if t.Leaf? || stop {
      return;
    }
    if t.key > lo {
      calls, stopOut := RangeInto(t.left, lo, hi, callback, stopOut);
    }
    if !stopOut && lo <= t.key <= hi {
      calls := calls + [Pair(t.key, t.value)];
      if !callback(Pair(t.key, t.value)) {
        stopOut := true;
        return;
      }
    }
    if !stopOut && t.key < hi {
      var more;
      more, stopOut := RangeInto(t.right, lo, hi, callback, stopOut);
      calls := calls + more;
    }
  }
}

/**
 * The node pool of the C AVL tree (`AVLNodePool` in `avl_tree.h`).
 *
 * Nodes are handed out from blocks of `BLOCK_SIZE` nodes. Node `slot` of
 * block `block` is named `NodeRef(block, slot)`. Released nodes are kept on a
 * LIFO free list, threaded through the nodes' `right` links in the C code.
 */
module AvlPool {

  /** `AVL_POOL_BLOCK_SIZE`. */
  const BLOCK_SIZE: nat := 256

  datatype NodeRef = NodeRef(block: nat, slot: nat)

  /** The nodes 1 .. BLOCK_SIZE - 1 of block `b`, in the order a fresh block links them. */
  function BlockChain(b: nat): (chain: seq<NodeRef>)
    ensures |chain| == BLOCK_SIZE - 1
    ensures forall i :: 0 <= i < |chain| ==> chain[i] == NodeRef(b, i + 1)
  {
    seq(BLOCK_SIZE - 1, i requires 0 <= i => NodeRef(b, i + 1))
  }

  predicate Distinct(s: seq<NodeRef>)
  {
    forall i, j :: 0 <= i < j < |s| ==> s[i] != s[j]
  }

  class NodePool {
    /** How many blocks have been obtained since the last `Init`; the newest has index `blocks - 1`. */
    var blocks: nat
    var freeList: seq<NodeRef>
    var totalAllocated: nat

    /** Every free node lies in an obtained block, and none is listed twice. */
    ghost predicate Valid()
      reads this
    {
      && (forall i :: 0 <= i < |freeList| ==> freeList[i].block < blocks && freeList[i].slot < BLOCK_SIZE)
      && Distinct(freeList)
    }

    /** `avl_pool_init`. */
    constructor ()
      ensures Valid()
      ensures blocks == 0 && freeList == [] && totalAllocated == 0
    {
      blocks, freeList, totalAllocated := 0, [], 0;
    }

    /** `avl_pool_init` on an existing pool. */
    method Init()
      modifies this
      ensures Valid()
      ensures blocks == 0 && freeList == [] && totalAllocated == 0
    {
      blocks, freeList, totalAllocated := 0, [], 0;
    }

    /**
     * `avl_pool_alloc`: the head of the free list when there is one;
     * otherwise a new block, whose node 0 is returned and whose nodes
     * 1 .. 255 are linked ahead of the (empty) free list.
     */
    method Alloc() returns (n: NodeRef)
      requires Valid()
      modifies this
      ensures Valid()
      ensures old(freeList) != [] ==>
        && n == old(freeList)[0] && freeList == old(freeList)[1..]
        && blocks == old(blocks) && totalAllocated == old(totalAllocated)
      ensures old(freeList) == [] ==>
        && n == NodeRef(old(blocks), 0) && freeList == BlockChain(old(blocks)) + old(freeList)
        && blocks == old(blocks) + 1 && totalAllocated == old(totalAllocated) + BLOCK_SIZE
      ensures n.block < blocks && n.slot < BLOCK_SIZE && n !in freeList
    {
      if freeList != [] {
        n := freeList[0];
        freeList := freeList[1..];
        return;
      }
      var b := blocks;
      blocks := blocks + 1;
      var chain: seq<NodeRef> := [];
      var i := 1;
      while i < BLOCK_SIZE
        invariant 1 <= i <= BLOCK_SIZE
        invariant |chain| == i - 1
        invariant forall j :: 0 <= j < |chain| ==> chain[j] == NodeRef(b, j + 1)
      {
        chain := chain + [NodeRef(b, i)];
        i := i + 1;
      }
      freeList := chain + freeList;
      totalAllocated := totalAllocated + BLOCK_SIZE;
      n := NodeRef(b, 0);
    }

    /** `avl_pool_free`: the node goes to the head of the free list. */
    method Free(n: NodeRef)
      requires Valid()
      requires n.block < blocks && n.slot < BLOCK_SIZE && n !in freeList
      modifies this
      ensures Valid()
      ensures freeList == [n] + old(freeList)
      ensures blocks == old(blocks) && totalAllocated == old(totalAllocated)
    {
      freeList := [n] + freeList;
    }

    /** `avl_pool_destroy`: every block is released; `total_allocated` is left as it was. */
    method Destroy()
      modifies this
      ensures Valid()
      ensures blocks == 0 && freeList == []
      ensures totalAllocated == old(totalAllocated)
    {
      blocks := 0;
      freeList := [];
    }
  }

  /** Freeing a node and allocating again returns that same node (LIFO). */
  method FreeThenAlloc(pool: NodePool, n: NodeRef) returns (m: NodeRef)
    requires pool.Valid()
    requires n.block < pool.blocks && n.slot < BLOCK_SIZE && n !in pool.freeList
    modifies pool
    ensures m == n
    ensures pool.Valid() && pool.freeList == old(pool.freeList)
  {
    pool.Free(n);
    m := pool.Alloc();
  }
}

/**
 * The C++ `BinarySearchTree` and its subclass `AVLTree`
 * (`BinarySearchTree.h`, `AVLTree.h`).
 *
 * One class models both. The `balancing` flag says which rebalance hook the
 * object has: `AVLTree::rebalance`, or the base class's, which does nothing.
 * The nodes are a `Tree` value held in `root`, as in the C tree. `zero`
 * stands for the value-initialised `Value{}` that `get` returns for a
 * missing key.
 */
module CppTree {
  import opened Wrappers
  import opened AvlCore
  import opened AvlBalance
  import opened AvlSearch

  class BinarySearchTree<V> {
    var root: Tree<V>
    var size: nat
    const balancing: bool
    const zero: V

    /** A search tree holding `size` keys; with the AVL hook it is also an AVL tree. */
    ghost predicate Valid()
      reads this
    {
      Bst(root) && size == |Keys(root)| && (balancing ==> Avl(root))
    }

    /** `BinarySearchTree()` when `balancing` is false, `AVLTree()` when it is true. */
    constructor (balancing: bool, zero: V)
      ensures Valid()
      ensures root == Leaf && size == 0 && this.balancing == balancing && this.zero == zero
    {
      root := Leaf;
      size := 0;
      this.balancing := balancing;
      this.zero := zero;
    }

    /** The move constructor: the new tree takes the nodes and the size; the source is left empty. */
    constructor Move(other: BinarySearchTree<V>)
      requires other.Valid()
      modifies other
      ensures Valid() && other.Valid()
      ensures root == old(other.root) && size == old(other.size)
      ensures balancing == other.balancing && zero == other.zero
      ensures other.root == Leaf && other.size == 0
    {
      root := other.root;
      size := other.size;
      balancing := other.balancing;
      zero := other.zero;
      new;
      other.root := Leaf;
      other.size := 0;
    }

    /**
     * The move assignment: unless the source is this very tree, the old
     * nodes are dropped, the source's nodes and size are taken, and the
     * source is left empty.
     */
    method MoveAssign(other: BinarySearchTree<V>)
      requires Valid() && other.Valid() && other.balancing == balancing
      modifies this, other
      ensures Valid() && other.Valid()
      ensures other == this ==> root == old(root) && size == old(size)
      ensures other != this ==>
        && root == old(other.root) && size == old(other.size)
        && other.root == Leaf && other.size == 0
    {
      if this != other {
        root := other.root;
        size := other.size;
        other.root := Leaf;
        other.size := 0;
      }
    }

    /** `contains`. */
    method Contains(k: int) returns (b: bool)
      requires Valid()
      ensures b == (k in Keys(root))
    {
      var r := FindNode(root, k);
      b := r.Some?;
    }

    /** `get`: the stored value, or `Value{}` for a missing key. */
    method Get(k: int) returns (v: V)
      requires Valid()
      ensures k in Keys(root) ==> Lookup(root, k) == Some(v)
      ensures k !in Keys(root) ==> v == zero
    {
      var r := FindNode(root, k);
      v := r.GetOr(zero);
    }

    function Size(): (n: nat)
      requires Valid()
      reads this
      ensures n == |Keys(root)|
    {
      size
    }

    function Empty(): (b: bool)
      requires Valid()
      reads this
      ensures b == (Keys(root) == {})
    {
      size == 0
    }

    /** `minKey`: the smallest key, or `Key{}` (0) on an empty tree. */
    method MinKey() returns (k: int)
      requires Valid()
      ensures Keys(root) == {} ==> k == 0
      ensures Keys(root) != {} ==> k in Keys(root) && forall j :: j in Keys(root) ==> k <= j
    {
      if root.Leaf? {
        return 0;
      }
      k := FindMin(root);
    }

    /** `maxKey`: the largest key, or `Key{}` (0) on an empty tree. */
    method MaxKey() returns (k: int)
      requires Valid()
      ensures Keys(root) == {} ==> k == 0
      ensures Keys(root) != {} ==> k in Keys(root) && forall j :: j in Keys(root) ==> j <= k
    {
      if root.Leaf? {
        return 0;
      }
      k := FindMax(root);
    }

    /**
     * `insert`: a present key only gets the new value; an absent key is
     * attached as a new leaf, the size grows by one, and the rebalance hook
     * runs from the new node up.
     */
    method Insert(k: int, v: V)
      requires Valid()
      modifies this
      ensures Valid()
      ensures Keys(root) == old(Keys(root)) + {k}
      ensures forall j :: Lookup(root, j) == if j == k then Some(v) else old(Lookup(root, j))
      ensures size == if k in old(Keys(root)) then old(size) else old(size) + 1
    {
      var existing := FindNode(root, k);
      InsertSpec(root, k, v, balancing);
      if balancing {
        InsertAvl(root, k, v);
      }
      if existing.Some? {
        assert Keys(root) + {k} == Keys(root);
        root := AvlCore.Insert(root, k, v, balancing);
      } else {
        root := AvlCore.Insert(root, k, v, balancing);
        size := size + 1;
      }
    }

    /** `remove`: nothing for an absent key; otherwise the key is gone and the size drops by one. */
    method Remove(k: int)
      requires Valid()
      modifies this
      ensures Valid()
      ensures Keys(root) == old(Keys(root)) - {k}
      ensures forall j :: Lookup(root, j) == if j == k then None else old(Lookup(root, j))
      ensures size == if k in old(Keys(root)) then old(size) - 1 else old(size)
      ensures k !in old(Keys(root)) ==> root == old(root)
    {
      var existing := FindNode(root, k);
      if existing.None? {
        return;
      }
      RemoveSpec(root, k, balancing);
      if balancing {
        RemoveAvl(root, k);
      }
      root := AvlCore.Remove(root, k, balancing);
      size := size - 1;
    }
  }
}

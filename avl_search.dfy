/**
 * The read-only descents shared by the C tree (`avl_find_node`,
 * `avl_find_min`, `avl_find_max`) and the C++ tree (`findNode`, `findMin`,
 * `findMax`): a cursor follows child links until it stops.
 */
module AvlSearch {
  import opened Wrappers
  import opened AvlCore
  import opened AvlOrder

  /** Descend by comparison; the value of the node holding `k`, if the descent meets one. */
  method FindNode<V>(t: Tree<V>, k: int) returns (r: Option<V>)
    ensures r == Lookup(t, k)
    ensures Bst(t) ==> (r.Some? <==> k in Keys(t))
  {
    var current := t;
    r := None;
    while current.Node?
      invariant r.None? ==> Lookup(current, k) == Lookup(t, k)
      invariant r.Some? ==> r == Lookup(t, k)
      decreases current
    {
      if k < current.key {
        current := current.left;
      } else if k > current.key {
        current := current.right;
      } else {
        r := Some(current.value);
        break;
      }
    }
    if Bst(t) {
      LookupKeys(t, k);
    }
  }

  /** Follow left links to the end: the smallest key of a search tree. */
  method FindMin<V>(t: Tree<V>) returns (k: int)
    requires t.Node?
    ensures k == Leftmost(t)
    ensures k in Keys(t)
    ensures Bst(t) ==> forall j :: j in Keys(t) ==> k <= j
  {
    var node := t;
    while node.left.Node?
      invariant node.Node? && Leftmost(node) == Leftmost(t)
      decreases node
    {
      node := node.left;
    }
    k := node.key;
  }

  /** Follow right links to the end: the largest key of a search tree. */
  method FindMax<V>(t: Tree<V>) returns (k: int)
    requires t.Node?
    ensures k == Rightmost(t)
    ensures k in Keys(t)
    ensures Bst(t) ==> forall j :: j in Keys(t) ==> j <= k
  {
    var node := t;
    while node.right.Node?
      invariant node.Node? && Rightmost(node) == Rightmost(t)
      decreases node
    {
      node := node.right;
    }
    k := node.key;
  }
}

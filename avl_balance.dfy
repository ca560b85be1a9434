/**
 * The AVL condition is kept by insertion and removal with the rebalance hook
 * on: every stored height is exact and every balance factor stays in
 * [-1, 1] (`avl_rebalance_node`, `AVLTree::rebalanceNode`).
 */
module AvlBalance {
  import opened AvlCore

  lemma {:induction false} AvlHeight<V>(t: Tree<V>)
    requires Avl(t)
    ensures Height(t) >= 0
    ensures t.Node? ==> Height(t) >= 1
  {
    match t
    case Leaf =>
    case Node(l, _, _, _, r) =>
      AvlHeight(l);
      AvlHeight(r);
  }

  /** The AVL condition implies the weaker "heights are exact" condition. */
  lemma {:induction false} AvlHeightsOk<V>(t: Tree<V>)
    requires Avl(t)
    ensures HeightsOk(t)
  {
    match t
    case Leaf =>
    case Node(l, _, _, _, r) =>
      AvlHeightsOk(l);
      AvlHeightsOk(r);
  }

  /** Right-heavy by two, with a left-leaning right child: the double rotation. */
  lemma RebalanceRightLeft<V>(l: Tree<V>, k: int, v: V, r: Tree<V>)
    requires Avl(l) && Avl(r) && Height(r) == Height(l) + 2
    requires r.Node? && BalanceFactor(r) < 0
    ensures var t := RotateLeft(Make(l, k, v, RotateRight(r)));
      Avl(t) && Height(t) == Height(r)
  {
    AvlHeight(l);
    var Node(rl, rk, rv, _, rr) := r;
    AvlHeight(rl);
    var Node(a, x, xv, _, b) := rl;
    AvlHeight(a);
    AvlHeight(b);
    AvlHeight(rr);
    assert RotateRight(r) == Make(a, x, xv, Make(b, rk, rv, rr));
    var lo := Make(l, k, v, a);
    var hi := Make(b, rk, rv, rr);
    assert RotateLeft(Make(l, k, v, RotateRight(r))) == Make(lo, x, xv, hi);
  }

  /** Right-heavy by two, with a balanced or right-leaning right child: one rotation. */
  lemma RebalanceRightRight<V>(l: Tree<V>, k: int, v: V, r: Tree<V>)
    requires Avl(l) && Avl(r) && Height(r) == Height(l) + 2
    requires r.Node? && BalanceFactor(r) >= 0
    ensures var t := RotateLeft(Make(l, k, v, r));
      Avl(t) && Height(r) <= Height(t) <= Height(r) + 1
  {
    AvlHeight(l);
    var Node(rl, rk, rv, _, rr) := r;
    AvlHeight(rl);
    AvlHeight(rr);
    assert RotateLeft(Make(l, k, v, r)) == Make(Make(l, k, v, rl), rk, rv, rr);
  }

  /** Left-heavy by two, with a right-leaning left child: the double rotation. */
  lemma RebalanceLeftRight<V>(l: Tree<V>, k: int, v: V, r: Tree<V>)
    requires Avl(l) && Avl(r) && Height(l) == Height(r) + 2
    requires l.Node? && BalanceFactor(l) > 0
    ensures var t := RotateRight(Make(RotateLeft(l), k, v, r));
      Avl(t) && Height(t) == Height(l)
  {
    AvlHeight(r);
    var Node(ll, lk, lv, _, lr) := l;
    AvlHeight(lr);
    var Node(a, x, xv, _, b) := lr;
    AvlHeight(a);
    AvlHeight(b);
    AvlHeight(ll);
    assert RotateLeft(l) == Make(Make(ll, lk, lv, a), x, xv, b);
    var lo := Make(ll, lk, lv, a);
    var hi := Make(b, k, v, r);
    assert RotateRight(Make(RotateLeft(l), k, v, r)) == Make(lo, x, xv, hi);
  }

  /** Left-heavy by two, with a balanced or left-leaning left child: one rotation. */
  lemma RebalanceLeftLeft<V>(l: Tree<V>, k: int, v: V, r: Tree<V>)
    requires Avl(l) && Avl(r) && Height(l) == Height(r) + 2
    requires l.Node? && BalanceFactor(l) <= 0
    ensures var t := RotateRight(Make(l, k, v, r));
      Avl(t) && Height(l) <= Height(t) <= Height(l) + 1
  {
    AvlHeight(r);
    var Node(ll, lk, lv, _, lr) := l;
    AvlHeight(ll);
    AvlHeight(lr);
    assert RotateRight(Make(l, k, v, r)) == Make(ll, lk, lv, Make(lr, k, v, r));
  }

  /**
   * `avl_rebalance_node` on a node whose AVL children differ in height by at
   * most two leaves an AVL subtree whose height is the taller child's height
   * or one more, and exactly one more when no rotation was needed.
   */
  lemma RebalanceNodeAvl<V>(l: Tree<V>, k: int, v: V, h: int, r: Tree<V>)
    requires Avl(l) && Avl(r) && -2 <= Height(r) - Height(l) <= 2
    ensures Avl(RebalanceNode(Node(l, k, v, h, r)))
    ensures Max(Height(l), Height(r)) <= Height(RebalanceNode(Node(l, k, v, h, r))) <= Max(Height(l), Height(r)) + 1
    ensures -1 <= Height(r) - Height(l) <= 1 ==> Height(RebalanceNode(Node(l, k, v, h, r))) == Max(Height(l), Height(r)) + 1
  {
    AvlHeight(l);
    AvlHeight(r);
    var n := Make(l, k, v, r);
    if BalanceFactor(n) == 2 {
      if r.Node? && BalanceFactor(r) < 0 {
        RebalanceRightLeft(l, k, v, r);
      } else {
        RebalanceRightRight(l, k, v, r);
      }
    } else if BalanceFactor(n) == -2 {
      if l.Node? && BalanceFactor(l) > 0 {
        RebalanceLeftRight(l, k, v, r);
      } else {
        RebalanceLeftLeft(l, k, v, r);
      }
    }
  }

  /** Replacing a value changes no link and no height. */
  lemma {:induction false} AssignAvl<V>(t: Tree<V>, k: int, v: V)
    ensures Height(Assign(t, k, v)) == Height(t)
    ensures Avl(t) ==> Avl(Assign(t, k, v))
  {
    match t
    case Leaf =>
    case Node(l, x, xv, h, r) =>
      if k < x {
        AssignAvl(l, k, v);
      } else if k > x {
        AssignAvl(r, k, v);
      }
  }

  /** Attaching a new key keeps the AVL condition and grows the height by at most one. */
  lemma {:induction false} GrowAvl<V>(t: Tree<V>, k: int, v: V)
    requires Lookup(t, k).None? && Avl(t)
    ensures Avl(Grow(t, k, v, true))
    ensures Height(t) <= Height(Grow(t, k, v, true)) <= Height(t) + 1
  {
    match t
    case Leaf =>
    case Node(l, x, xv, h, r) =>
      if k < x {
        GrowAvl(l, k, v);
        RebalanceNodeAvl(Grow(l, k, v, true), x, xv, h, r);
      } else {
        GrowAvl(r, k, v);
        RebalanceNodeAvl(l, x, xv, h, Grow(r, k, v, true));
      }
  }

  /** AVL insertion keeps the AVL condition and grows the height by at most one. */
  lemma InsertAvl<V>(t: Tree<V>, k: int, v: V)
    requires Avl(t)
    ensures Avl(Insert(t, k, v, true))
    ensures Height(t) <= Height(Insert(t, k, v, true)) <= Height(t) + 1
  {
    if Lookup(t, k).Some? {
      AssignAvl(t, k, v);
    } else {
      GrowAvl(t, k, v);
    }
  }

  /** Detaching the leftmost node keeps the AVL condition and lowers the height by at most one. */
  lemma {:induction false} DetachMinAvl<V>(t: Tree<V>)
    requires t.Node? && Avl(t)
    ensures Avl(DetachMin(t, true).rest)
    ensures Height(t) - 1 <= Height(DetachMin(t, true).rest) <= Height(t)
  {
    match t
    case Node(l, x, xv, h, r) =>
      AvlHeight(r);
      if l.Node? {
        DetachMinAvl(l);
        RebalanceNodeAvl(DetachMin(l, true).rest, x, xv, h, r);
      }
  }

  lemma RemoveRootAvl<V>(t: Tree<V>)
    requires t.Node? && Avl(t)
    ensures Avl(RemoveRoot(t, true))
    ensures Height(t) - 1 <= Height(RemoveRoot(t, true)) <= Height(t)
  {
    var Node(l, x, xv, h, r) := t;
    AvlHeight(l);
    AvlHeight(r);
    if l.Node? && r.Node? {
      var d := DetachMin(r, true);
      DetachMinAvl(r);
      RebalanceNodeAvl(l, d.key, d.value, d.height, d.rest);
    }
  }

  /** Unlinking a found key keeps the AVL condition and lowers the height by at most one. */
  lemma {:induction false} UnlinkAvl<V>(t: Tree<V>, k: int)
    requires Lookup(t, k).Some? && Avl(t)
    ensures Avl(Unlink(t, k, true))
    ensures Height(t) - 1 <= Height(Unlink(t, k, true)) <= Height(t)
  {
    match t
    case Node(l, x, xv, h, r) =>
      if k < x {
        UnlinkAvl(l, k);
        RebalanceNodeAvl(Unlink(l, k, true), x, xv, h, r);
      } else if k > x {
        UnlinkAvl(r, k);
        RebalanceNodeAvl(l, x, xv, h, Unlink(r, k, true));
      } else {
        RemoveRootAvl(t);
      }
  }

  /** AVL removal keeps the AVL condition and lowers the height by at most one. */
  lemma RemoveAvl<V>(t: Tree<V>, k: int)
    requires Avl(t)
    ensures Avl(Remove(t, k, true))
    ensures Height(t) - 1 <= Height(Remove(t, k, true)) <= Height(t)
  {
    if Lookup(t, k).Some? {
      UnlinkAvl(t, k);
    }
  }
}

/**
 * The tree algorithm shared by the C AVL tree (`avl_tree.c`, `avl_tree.h`)
 * and the C++ `BinarySearchTree` / `AVLTree` pair.
 *
 * A tree is a value. Each node carries its key, its value and the `height`
 * field the sources keep in every node. Insertion and removal rebuild the
 * path from the root to the changed node. Each rebuilt node passes through
 * `Hook`, the sources' rebalance hook:
 * - in the AVL trees, `RebalanceNode` is applied to every ancestor of the
 *   change, bottom-up;
 * - in the plain C++ `BinarySearchTree`, the hook does nothing.
 */
module AvlCore {
  import opened Wrappers

  datatype Tree<V> = Leaf | Node(left: Tree<V>, key: int, value: V, height: int, right: Tree<V>)

  /** A key with its value, as `extract_all` and range queries report them. */
  datatype Pair<V> = Pair(key: int, value: V)

  // ---------------------------------------------------------------------------
  // Heights and the balance factor (avl_height, avl_update_height, avl_balance_factor)
  // ---------------------------------------------------------------------------

  /** `avl_height`: the stored height, 0 for an empty tree. */
  function Height<V>(t: Tree<V>): int
  {
    if t.Leaf? then 0 else t.height
  }

  function Max(a: int, b: int): int { if a > b then a else b }

  /** A node whose height is recomputed from its children (`avl_update_height`). */
  function Make<V>(l: Tree<V>, k: int, v: V, r: Tree<V>): (t: Tree<V>)
    ensures t.Node? && t.left == l && t.right == r && t.key == k && t.value == v
    ensures Height(t) == 1 + Max(Height(l), Height(r))
  {
    Node(l, k, v, 1 + Max(Height(l), Height(r)), r)
  }

  /** `avl_balance_factor`: height(right) - height(left). */
  function BalanceFactor<V>(t: Tree<V>): int
    requires t.Node?
  {
    Height(t.right) - Height(t.left)
  }

  // ---------------------------------------------------------------------------
  // Rotations and rebalancing (avl_rotate_left/right, avl_rebalance_node)
  // ---------------------------------------------------------------------------

  /** `avl_rotate_left`: the right child becomes the root of the subtree. */
  function RotateLeft<V>(t: Tree<V>): Tree<V>
  {
    match t
    case Node(a, x, xv, _, Node(b, y, yv, _, c)) => Make(Make(a, x, xv, b), y, yv, c)
    case _ => t
  }

  /** `avl_rotate_right`: the left child becomes the root of the subtree. */
  function RotateRight<V>(t: Tree<V>): Tree<V>
  {
    match t
    case Node(Node(a, x, xv, _, b), y, yv, _, c) => Make(a, x, xv, Make(b, y, yv, c))
    case _ => t
  }

  /**
   * `avl_rebalance_node`: recompute the height, then rotate when the balance
   * factor is +2 or -2, with a preliminary rotation of the child in the
   * zig-zag cases.
   */
  function RebalanceNode<V>(t: Tree<V>): Tree<V>
  {
    match t
    case Leaf => Leaf
    case Node(l, k, v, _, r) =>
      var n := Make(l, k, v, r);
      if BalanceFactor(n) == 2 then
        if r.Node? && BalanceFactor(r) < 0 then RotateLeft(Make(l, k, v, RotateRight(r)))
        else RotateLeft(n)
      else if BalanceFactor(n) == -2 then
        if l.Node? && BalanceFactor(l) > 0 then RotateRight(Make(RotateLeft(l), k, v, r))
        else RotateRight(n)
      else n
  }

  /** The rebalance hook: `RebalanceNode` for an AVL tree, nothing for a plain BST. */
  function Hook<V>(balancing: bool, t: Tree<V>): Tree<V>
  {
    if balancing then RebalanceNode(t) else t
  }

  // ---------------------------------------------------------------------------
  // Search, insertion and removal
  // ---------------------------------------------------------------------------

  /** `avl_find_node` / `findNode`: descend by comparison until the key or an empty subtree. */
  function Lookup<V>(t: Tree<V>, k: int): Option<V>
  {
    match t
    case Leaf => None
    case Node(l, x, v, _, r) =>
      if k < x then Lookup(l, k) else if k > x then Lookup(r, k) else Some(v)
  }

  /**
   * `avl_tree_insert` / `insert`: the descent either finds the key, and then
   * only its value is replaced, or ends at an empty link, where a new leaf
   * is attached.
   */
  function Insert<V>(t: Tree<V>, k: int, v: V, balancing: bool): Tree<V>
  {
    if Lookup(t, k).Some? then Assign(t, k, v) else Grow(t, k, v, balancing)
  }

  /** The value replacement of an insertion that finds its key: no link and no height changes. */
  function Assign<V>(t: Tree<V>, k: int, v: V): Tree<V>
  {
    match t
    case Leaf => Leaf
    case Node(l, x, xv, h, r) =>
      if k < x then Node(Assign(l, k, v), x, xv, h, r)
      else if k > x then Node(l, x, xv, h, Assign(r, k, v))
      else Node(l, x, v, h, r)
  }

  /**
   * The attachment of a new key: a leaf of height 1 at the end of the
   * descent, then every ancestor, bottom-up, goes through the hook.
   */
  function Grow<V>(t: Tree<V>, k: int, v: V, balancing: bool): Tree<V>
    requires Lookup(t, k).None?
  {
    match t
    case Leaf => Node(Leaf, k, v, 1, Leaf)
    case Node(l, x, xv, h, r) =>
      // The descent did not find k, so k differs from x.
      if k < x then Hook(balancing, Node(Grow(l, k, v, balancing), x, xv, h, r))
      else Hook(balancing, Node(l, x, xv, h, Grow(r, k, v, balancing)))
  }

  /** The leftmost node's key, value and height, and the tree without it. */
  datatype Detached<V> = Detached(key: int, value: V, height: int, rest: Tree<V>)

  /**
   * The successor step of removal: the leftmost node is unlinked and replaced
   * by its right subtree (`avl_transplant(successor, successor->right)`), and
   * each node on the way down goes through the hook.
   */
  function DetachMin<V>(t: Tree<V>, balancing: bool): Detached<V>
    requires t.Node?
  {
    match t
    case Node(l, x, xv, h, r) =>
      if l.Leaf? then Detached(x, xv, h, r)
      else
        var d := DetachMin(l, balancing);
        Detached(d.key, d.value, d.height, Hook(balancing, Node(d.rest, x, xv, h, r)))
  }

  /**
   * `avl_tree_remove` / `remove`: nothing changes when the descent does not
   * find the key; otherwise its node is unlinked.
   */
  function Remove<V>(t: Tree<V>, k: int, balancing: bool): Tree<V>
  {
    if Lookup(t, k).None? then t else Unlink(t, k, balancing)
  }

  /**
   * The unlinking of a found key: a node with at most one child is replaced
   * by that child; a node with two children is replaced by its in-order
   * successor (keeping the successor's own height field); every ancestor goes
   * through the hook.
   */
  function Unlink<V>(t: Tree<V>, k: int, balancing: bool): Tree<V>
    requires Lookup(t, k).Some?
  {
    match t
    case Node(l, x, xv, h, r) =>
      if k < x then Hook(balancing, Node(Unlink(l, k, balancing), x, xv, h, r))
      else if k > x then Hook(balancing, Node(l, x, xv, h, Unlink(r, k, balancing)))
      else RemoveRoot(t, balancing)
  }

  /** Unlinks the root of a subtree, the node `remove` found. */
  function RemoveRoot<V>(t: Tree<V>, balancing: bool): Tree<V>
    requires t.Node?
  {
    if t.left.Leaf? then t.right
    else if t.right.Leaf? then t.left
    else
      var d := DetachMin(t.right, balancing);
      Hook(balancing, Node(t.left, d.key, d.value, d.height, d.rest))
  }

  // ---------------------------------------------------------------------------
  // Specification functions
  // ---------------------------------------------------------------------------

  function Keys<V>(t: Tree<V>): set<int>
  {
    match t
    case Leaf => {}
    case Node(l, k, _, _, r) => Keys(l) + {k} + Keys(r)
  }

  /** Binary-search-tree order: left keys below the node's key, right keys above. */
  ghost predicate Bst<V>(t: Tree<V>)
  {
    match t
    case Leaf => true
    case Node(l, k, _, _, r) =>
      Bst(l) && Bst(r) && (forall j :: j in Keys(l) ==> j < k) && (forall j :: j in Keys(r) ==> j > k)
  }

  /** Every stored height is 1 + the larger of the children's heights. */
  ghost predicate HeightsOk<V>(t: Tree<V>)
  {
    match t
    case Leaf => true
    case Node(l, _, _, h, r) => HeightsOk(l) && HeightsOk(r) && h == 1 + Max(Height(l), Height(r))
  }

  /** The AVL condition: heights are exact and every balance factor is in [-1, 1]. */
  ghost predicate Avl<V>(t: Tree<V>)
  {
    match t
    case Leaf => true
    case Node(l, _, _, h, r) =>
      Avl(l) && Avl(r) && h == 1 + Max(Height(l), Height(r)) && -1 <= Height(r) - Height(l) <= 1
  }

  /** The keys in ascending order with their values (in-order traversal). */
  function InOrder<V>(t: Tree<V>): seq<Pair<V>>
  {
    match t
    case Leaf => []
    case Node(l, k, v, _, r) => InOrder(l) + [Pair(k, v)] + InOrder(r)
  }

  // ---------------------------------------------------------------------------
  // Search
  // ---------------------------------------------------------------------------

  lemma {:induction false} LookupKeys<V>(t: Tree<V>, k: int)
    requires Bst(t)
    ensures Lookup(t, k).Some? <==> k in Keys(t)
  {
    match t
    case Leaf =>
    case Node(l, x, _, _, r) =>
      if k < x {
        LookupKeys(l, k);
      } else if k > x {
        LookupKeys(r, k);
      }
  }

  /** Outside the key set the search finds nothing, whatever the order. */
  lemma {:induction false} LookupOutside<V>(t: Tree<V>, k: int)
    requires k !in Keys(t)
    ensures Lookup(t, k) == None
  {
    match t
    case Leaf =>
    case Node(l, x, _, _, r) =>
      if k < x {
        LookupOutside(l, k);
      } else if k > x {
        LookupOutside(r, k);
      }
  }

  // ---------------------------------------------------------------------------
  // Rotations and the hook keep the keys, the order and every lookup
  // ---------------------------------------------------------------------------

  lemma RotateLeftKeeps<V>(t: Tree<V>)
    ensures Keys(RotateLeft(t)) == Keys(t)
    ensures InOrder(RotateLeft(t)) == InOrder(t)
    ensures Bst(t) ==> Bst(RotateLeft(t))
    ensures Bst(t) ==> forall j :: Lookup(RotateLeft(t), j) == Lookup(t, j)
  {
    match t
    case Node(a, x, xv, _, Node(b, y, yv, hy, c)) =>
      assert InOrder(RotateLeft(t)) == InOrder(a) + [Pair(x, xv)] + InOrder(b) + [Pair(y, yv)] + InOrder(c);
      if Bst(t) {
        RotateLeftSearch(a, x, xv, b, y, yv, hy, c, t);
      }
    case _ =>
  }

  lemma RotateLeftSearch<V>(a: Tree<V>, x: int, xv: V, b: Tree<V>, y: int, yv: V, hy: int, c: Tree<V>, t: Tree<V>)
    requires t.Node? && t.left == a && t.key == x && t.value == xv && t.right == Node(b, y, yv, hy, c) && Bst(t)
    ensures Bst(RotateLeft(t))
    ensures forall j :: Lookup(RotateLeft(t), j) == Lookup(t, j)
  {
    var lo := Make(a, x, xv, b);
    var rt := Node(b, y, yv, hy, c);
    assert Bst(rt) && Bst(b) && Bst(c);
    assert Keys(b) <= Keys(rt);
    assert Bst(lo);
    assert forall j :: j in Keys(lo) ==> j < y;
    forall j ensures Lookup(RotateLeft(t), j) == Lookup(t, j) {
      if j < y {
        assert Lookup(RotateLeft(t), j) == Lookup(lo, j);
      }
    }
  }

  lemma RotateRightKeeps<V>(t: Tree<V>)
    ensures Keys(RotateRight(t)) == Keys(t)
    ensures InOrder(RotateRight(t)) == InOrder(t)
    ensures Bst(t) ==> Bst(RotateRight(t))
    ensures Bst(t) ==> forall j :: Lookup(RotateRight(t), j) == Lookup(t, j)
  {
    match t
    case Node(Node(a, x, xv, hx, b), y, yv, _, c) =>
      assert InOrder(RotateRight(t)) == InOrder(a) + [Pair(x, xv)] + InOrder(b) + [Pair(y, yv)] + InOrder(c);
      if Bst(t) {
        RotateRightSearch(a, x, xv, hx, b, y, yv, c, t);
      }
    case _ =>
  }

  lemma RotateRightSearch<V>(a: Tree<V>, x: int, xv: V, hx: int, b: Tree<V>, y: int, yv: V, c: Tree<V>, t: Tree<V>)
    requires t.Node? && t.left == Node(a, x, xv, hx, b) && t.key == y && t.value == yv && t.right == c && Bst(t)
    ensures Bst(RotateRight(t))
    ensures forall j :: Lookup(RotateRight(t), j) == Lookup(t, j)
  {
    var hi := Make(b, y, yv, c);
    var lt := Node(a, x, xv, hx, b);
    assert Bst(lt) && Bst(a) && Bst(b);
    assert Keys(b) <= Keys(lt);
    assert Bst(hi);
    assert forall j :: j in Keys(hi) ==> j > x;
    forall j ensures Lookup(RotateRight(t), j) == Lookup(t, j) {
      if j > x {
        assert Lookup(RotateRight(t), j) == Lookup(hi, j);
      }
    }
  }

  /** A node rebuilt with the same parts (only the height differs) has the same content. */
  lemma RebuildKeeps<V>(l: Tree<V>, k: int, v: V, h: int, r: Tree<V>)
    ensures Keys(Make(l, k, v, r)) == Keys(Node(l, k, v, h, r))
    ensures InOrder(Make(l, k, v, r)) == InOrder(Node(l, k, v, h, r))
    ensures Bst(Make(l, k, v, r)) == Bst(Node(l, k, v, h, r))
    ensures forall j :: Lookup(Make(l, k, v, r), j) == Lookup(Node(l, k, v, h, r), j)
  {
  }

  lemma {:induction false} HookKeeps<V>(balancing: bool, t: Tree<V>)
    ensures Keys(Hook(balancing, t)) == Keys(t)
    ensures InOrder(Hook(balancing, t)) == InOrder(t)
    ensures Bst(t) ==> Bst(Hook(balancing, t))
    ensures Bst(t) ==> forall j :: Lookup(Hook(balancing, t), j) == Lookup(t, j)
  {
    if balancing {
      match t
      case Leaf =>
      case Node(l, k, v, h, r) =>
        var n := Make(l, k, v, r);
        RebuildKeeps(l, k, v, h, r);
        if BalanceFactor(n) == 2 && r.Node? && BalanceFactor(r) < 0 {
          RotateRightKeeps(r);
          var m := Make(l, k, v, RotateRight(r));
          RotateLeftKeeps(m);
          assert Keys(m) == Keys(t);
          assert InOrder(m) == InOrder(t);
          if Bst(t) {
            assert Bst(m);
            forall j ensures Lookup(m, j) == Lookup(t, j) {
              if j > k {
                assert Lookup(m, j) == Lookup(RotateRight(r), j);
              }
            }
          }
        } else if BalanceFactor(n) == 2 {
          RotateLeftKeeps(n);
        } else if BalanceFactor(n) == -2 && l.Node? && BalanceFactor(l) > 0 {
          RotateLeftKeeps(l);
          var m := Make(RotateLeft(l), k, v, r);
          RotateRightKeeps(m);
          assert Keys(m) == Keys(t);
          assert InOrder(m) == InOrder(t);
          if Bst(t) {
            assert Bst(m);
            forall j ensures Lookup(m, j) == Lookup(t, j) {
              if j < k {
                assert Lookup(m, j) == Lookup(RotateLeft(l), j);
              }
            }
          }
        } else if BalanceFactor(n) == -2 {
          RotateRightKeeps(n);
        }
    }
  }

  // ---------------------------------------------------------------------------
  // Insertion and removal, in both the AVL and the plain BST form
  // ---------------------------------------------------------------------------

  /** The value replacement keeps every key, the order and every other lookup. */
  lemma {:induction false} AssignSpec<V>(t: Tree<V>, k: int, v: V)
    ensures Keys(Assign(t, k, v)) == Keys(t)
    ensures Bst(t) ==> Bst(Assign(t, k, v))
    ensures forall j :: Lookup(Assign(t, k, v), j) == if j == k && Lookup(t, k).Some? then Some(v) else Lookup(t, j)
  {
    match t
    case Leaf =>
    case Node(l, x, xv, h, r) =>
      if k < x {
        AssignSpec(l, k, v);
      } else if k > x {
        AssignSpec(r, k, v);
      }
  }

  /** Attaching a new key adds it, keeps the order, and changes the lookup of that key only. */
  lemma {:induction false} GrowSpec<V>(t: Tree<V>, k: int, v: V, balancing: bool)
    requires Lookup(t, k).None?
    ensures Keys(Grow(t, k, v, balancing)) == Keys(t) + {k}
    ensures Bst(t) ==> Bst(Grow(t, k, v, balancing))
    ensures Bst(t) ==> forall j :: Lookup(Grow(t, k, v, balancing), j) == if j == k then Some(v) else Lookup(t, j)
  {
    match t
    case Leaf =>
    case Node(l, x, xv, h, r) =>
      if k < x {
        GrowSpec(l, k, v, balancing);
        GrowLeftStep(l, x, xv, h, r, Grow(l, k, v, balancing), k, v, balancing);
      } else {
        GrowSpec(r, k, v, balancing);
        GrowRightStep(l, x, xv, h, r, Grow(r, k, v, balancing), k, v, balancing);
      }
  }

  /** Adding `k` below `x` on the left and running the hook adds `k` to the whole subtree. */
  lemma GrowLeftStep<V>(l: Tree<V>, x: int, xv: V, h: int, r: Tree<V>, l': Tree<V>, k: int, v: V, balancing: bool)
    requires k < x && Keys(l') == Keys(l) + {k}
    requires Bst(l) ==> Bst(l') && forall j :: Lookup(l', j) == if j == k then Some(v) else Lookup(l, j)
    ensures Keys(Hook(balancing, Node(l', x, xv, h, r))) == Keys(Node(l, x, xv, h, r)) + {k}
    ensures Bst(Node(l, x, xv, h, r)) ==> Bst(Hook(balancing, Node(l', x, xv, h, r)))
    ensures Bst(Node(l, x, xv, h, r)) ==>
              forall j :: Lookup(Hook(balancing, Node(l', x, xv, h, r)), j) == if j == k then Some(v) else Lookup(Node(l, x, xv, h, r), j)
  {
    HookKeeps(balancing, Node(l', x, xv, h, r));
    if Bst(Node(l, x, xv, h, r)) {
      forall j ensures Lookup(Node(l', x, xv, h, r), j) == if j == k then Some(v) else Lookup(Node(l, x, xv, h, r), j) {
      }
    }
  }

  /** Adding `k` above `x` on the right and running the hook adds `k` to the whole subtree. */
  lemma GrowRightStep<V>(l: Tree<V>, x: int, xv: V, h: int, r: Tree<V>, r': Tree<V>, k: int, v: V, balancing: bool)
    requires k > x && Keys(r') == Keys(r) + {k}
    requires Bst(r) ==> Bst(r') && forall j :: Lookup(r', j) == if j == k then Some(v) else Lookup(r, j)
    ensures Keys(Hook(balancing, Node(l, x, xv, h, r'))) == Keys(Node(l, x, xv, h, r)) + {k}
    ensures Bst(Node(l, x, xv, h, r)) ==> Bst(Hook(balancing, Node(l, x, xv, h, r')))
    ensures Bst(Node(l, x, xv, h, r)) ==>
              forall j :: Lookup(Hook(balancing, Node(l, x, xv, h, r')), j) == if j == k then Some(v) else Lookup(Node(l, x, xv, h, r), j)
  {
    HookKeeps(balancing, Node(l, x, xv, h, r'));
    if Bst(Node(l, x, xv, h, r)) {
      forall j ensures Lookup(Node(l, x, xv, h, r'), j) == if j == k then Some(v) else Lookup(Node(l, x, xv, h, r), j) {
      }
    }
  }

  /** Insertion adds the key, keeps the order, and changes the lookup of that key only. */
  lemma InsertSpec<V>(t: Tree<V>, k: int, v: V, balancing: bool)
    ensures Keys(Insert(t, k, v, balancing)) == Keys(t) + {k}
    ensures Bst(t) ==> Bst(Insert(t, k, v, balancing))
    ensures Bst(t) ==> forall j :: Lookup(Insert(t, k, v, balancing), j) == if j == k then Some(v) else Lookup(t, j)
  {
    if Lookup(t, k).Some? {
      AssignSpec(t, k, v);
      if k !in Keys(t) {
        LookupOutside(t, k);
      }
    } else {
      GrowSpec(t, k, v, balancing);
    }
  }

  /** The successor step detaches the smallest key with its value and keeps the rest in order. */
  lemma {:induction false} DetachMinSpec<V>(t: Tree<V>, balancing: bool)
    requires t.Node? && Bst(t)
    ensures var d := DetachMin(t, balancing);
      && d.key in Keys(t)
      && (forall j :: j in Keys(t) ==> d.key <= j)
      && Lookup(t, d.key) == Some(d.value)
      && Keys(d.rest) == Keys(t) - {d.key}
      && Bst(d.rest)
      && (forall j :: Lookup(d.rest, j) == if j == d.key then None else Lookup(t, j))
  {
    match t
    case Node(l, x, xv, h, r) =>
      if l.Leaf? {
        assert x !in Keys(r);
        forall j ensures Lookup(r, j) == if j == x then None else Lookup(t, j) {
          if j == x {
            LookupOutside(r, j);
          } else if j < x {
            LookupOutside(r, j);
          }
        }
      } else {
        var d := DetachMin(l, balancing);
        DetachMinSpec(l, balancing);
        var n := Node(d.rest, x, xv, h, r);
        HookKeeps(balancing, n);
        assert Bst(n);
        forall j ensures Lookup(n, j) == if j == d.key then None else Lookup(t, j) {
        }
      }
  }

  /** Unlinking a found key deletes it, keeps the order, and changes the lookup of that key only. */
  lemma {:induction false} UnlinkSpec<V>(t: Tree<V>, k: int, balancing: bool)
    requires Lookup(t, k).Some? && Bst(t)
    ensures Keys(Unlink(t, k, balancing)) == Keys(t) - {k}
    ensures Bst(Unlink(t, k, balancing))
    ensures forall j :: Lookup(Unlink(t, k, balancing), j) == if j == k then None else Lookup(t, j)
  {
    match t
    case Node(l, x, xv, h, r) =>
      if k < x {
        UnlinkSpec(l, k, balancing);
        UnlinkLeftStep(l, x, xv, h, r, Unlink(l, k, balancing), k, balancing);
      } else if k > x {
        UnlinkSpec(r, k, balancing);
        UnlinkRightStep(l, x, xv, h, r, Unlink(r, k, balancing), k, balancing);
      } else {
        RemoveRootSpec(t, balancing);
      }
  }

  /** Removing `k` from the left subtree of `x` and running the hook removes `k` from the whole subtree. */
  lemma UnlinkLeftStep<V>(l: Tree<V>, x: int, xv: V, h: int, r: Tree<V>, l': Tree<V>, k: int, balancing: bool)
    requires k < x && Bst(Node(l, x, xv, h, r))
    requires Keys(l') == Keys(l) - {k} && Bst(l')
    requires forall j :: Lookup(l', j) == if j == k then None else Lookup(l, j)
    ensures Keys(Hook(balancing, Node(l', x, xv, h, r))) == Keys(Node(l, x, xv, h, r)) - {k}
    ensures Bst(Hook(balancing, Node(l', x, xv, h, r)))
    ensures forall j :: Lookup(Hook(balancing, Node(l', x, xv, h, r)), j)
              == if j == k then None else Lookup(Node(l, x, xv, h, r), j)
  {
    HookKeeps(balancing, Node(l', x, xv, h, r));
    assert k !in Keys(r);
    forall j ensures Lookup(Node(l', x, xv, h, r), j) == if j == k then None else Lookup(Node(l, x, xv, h, r), j) {
    }
  }

  /** Removing `k` from the right subtree of `x` and running the hook removes `k` from the whole subtree. */
  lemma UnlinkRightStep<V>(l: Tree<V>, x: int, xv: V, h: int, r: Tree<V>, r': Tree<V>, k: int, balancing: bool)
    requires k > x && Bst(Node(l, x, xv, h, r))
    requires Keys(r') == Keys(r) - {k} && Bst(r')
    requires forall j :: Lookup(r', j) == if j == k then None else Lookup(r, j)
    ensures Keys(Hook(balancing, Node(l, x, xv, h, r'))) == Keys(Node(l, x, xv, h, r)) - {k}
    ensures Bst(Hook(balancing, Node(l, x, xv, h, r')))
    ensures forall j :: Lookup(Hook(balancing, Node(l, x, xv, h, r')), j)
              == if j == k then None else Lookup(Node(l, x, xv, h, r), j)
  {
    HookKeeps(balancing, Node(l, x, xv, h, r'));
    assert k !in Keys(l);
    forall j ensures Lookup(Node(l, x, xv, h, r'), j) == if j == k then None else Lookup(Node(l, x, xv, h, r), j) {
    }
  }

  /** Removal deletes the key, keeps the order, and changes the lookup of that key only. */
  lemma RemoveSpec<V>(t: Tree<V>, k: int, balancing: bool)
    requires Bst(t)
    ensures Keys(Remove(t, k, balancing)) == Keys(t) - {k}
    ensures Bst(Remove(t, k, balancing))
    ensures forall j :: Lookup(Remove(t, k, balancing), j) == if j == k then None else Lookup(t, j)
  {
    if Lookup(t, k).None? {
      LookupKeys(t, k);
    } else {
      UnlinkSpec(t, k, balancing);
    }
  }

  lemma {:induction false} RemoveRootSpec<V>(t: Tree<V>, balancing: bool)
    requires t.Node? && Bst(t)
    ensures Keys(RemoveRoot(t, balancing)) == Keys(t) - {t.key}
    ensures Bst(RemoveRoot(t, balancing))
    ensures forall j :: Lookup(RemoveRoot(t, balancing), j) == if j == t.key then None else Lookup(t, j)
  {
    var Node(l, x, xv, h, r) := t;
    var k := x;
    if l.Leaf? {
      forall j ensures Lookup(r, j) == if j == k then None else Lookup(t, j) {
        if j <= x {
          LookupOutside(r, j);
        }
      }
    } else if r.Leaf? {
      forall j ensures Lookup(l, j) == if j == k then None else Lookup(t, j) {
        if j >= x {
          LookupOutside(l, j);
        }
      }
    } else {
      var d := DetachMin(r, balancing);
      DetachMinSpec(r, balancing);
      var n := Node(l, d.key, d.value, d.height, d.rest);
      HookKeeps(balancing, n);
      assert forall j :: j in Keys(l) ==> j < d.key;
      assert Bst(n);
      forall j ensures Lookup(n, j) == if j == k then None else Lookup(t, j) {
        if j <= x || j < d.key {
          LookupOutside(r, j);
        }
        if j >= x {
          LookupOutside(l, j);
        }
      }
    }
  }
}

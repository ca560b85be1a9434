/**
 * Order facts about the tree: the in-order traversal (`avl_extract_recursive`)
 * is strictly ascending and lists every key once with its value, the
 * leftmost and rightmost nodes hold the extreme keys (`avl_find_min`,
 * `avl_find_max`), and the pruned range walk (`avl_range_recursive`) calls
 * its callback on exactly the keys in [lo, hi], in ascending order, up to and
 * including the first call that answers false.
 */
module AvlOrder {
  import opened Wrappers
  import opened AvlCore

  predicate Ascending<V>(s: seq<Pair<V>>)
  {
    forall i, j :: 0 <= i < j < |s| ==> s[i].key < s[j].key
  }

  /** Every element of the traversal is a key of the tree. */
  lemma {:induction false} InOrderInKeys<V>(t: Tree<V>)
    ensures forall i :: 0 <= i < |InOrder(t)| ==> InOrder(t)[i].key in Keys(t)
  {
    match t
    case Leaf =>
    case Node(l, k, v, _, r) =>
      InOrderInKeys(l);
      InOrderInKeys(r);
      var s := InOrder(t);
      forall i | 0 <= i < |s| ensures s[i].key in Keys(t) {
        if i < |InOrder(l)| {
          assert s[i] == InOrder(l)[i];
        } else if i > |InOrder(l)| {
          assert s[i] == InOrder(r)[i - |InOrder(l)| - 1];
        }
      }
  }

  /** In a search tree the traversal is strictly ascending. */
  lemma {:induction false} InOrderAscending<V>(t: Tree<V>)
    requires Bst(t)
    ensures Ascending(InOrder(t))
  {
    match t
    case Leaf =>
    case Node(l, k, v, _, r) =>
      InOrderAscending(l);
      InOrderAscending(r);
      InOrderInKeys(l);
      InOrderInKeys(r);
      var sl, sr := InOrder(l), InOrder(r);
      var s := InOrder(t);
      forall i, j | 0 <= i < j < |s| ensures s[i].key < s[j].key {
        if j < |sl| {
          assert s[i] == sl[i] && s[j] == sl[j];
        } else if j == |sl| {
          assert s[i] == sl[i];
        } else if i > |sl| {
          assert s[i] == sr[i - |sl| - 1] && s[j] == sr[j - |sl| - 1];
        } else if i == |sl| {
          assert s[j] == sr[j - |sl| - 1];
        } else {
          assert s[i] == sl[i] && s[j] == sr[j - |sl| - 1];
        }
      }
  }

  /** In a search tree the traversal has exactly one entry per key. */
  lemma {:induction false} InOrderCount<V>(t: Tree<V>)
    requires Bst(t)
    ensures |InOrder(t)| == |Keys(t)|
  {
    match t
    case Leaf =>
    case Node(l, k, v, _, r) =>
      InOrderCount(l);
      InOrderCount(r);
      assert forall j :: j in Keys(l) ==> j < k;
      assert forall j :: j in Keys(r) ==> j > k;
      forall j | j in Keys(l) ensures j !in Keys(r) {
      }
      assert Keys(l) !! Keys(r);
      assert Keys(l) !! {k};
      assert (Keys(l) + {k}) !! Keys(r);
  }

  /** Every key of the tree appears in the traversal. */
  lemma {:induction false} InOrderCovers<V>(t: Tree<V>)
    ensures forall k :: k in Keys(t) ==> exists i :: 0 <= i < |InOrder(t)| && InOrder(t)[i].key == k
  {
    match t
    case Leaf =>
    case Node(l, k, v, _, r) =>
      InOrderCovers(l);
      InOrderCovers(r);
      var sl, sr := InOrder(l), InOrder(r);
      var s := InOrder(t);
      forall key | key in Keys(t) ensures exists i :: 0 <= i < |s| && s[i].key == key {
        if key in Keys(l) {
          var i :| 0 <= i < |sl| && sl[i].key == key;
          assert s[i] == sl[i];
        } else if key in Keys(r) {
          var i :| 0 <= i < |sr| && sr[i].key == key;
          assert s[|sl| + 1 + i] == sr[i];
        } else {
          assert s[|sl|].key == key;
        }
      }
      assert forall key :: key in Keys(t) ==> exists i :: 0 <= i < |InOrder(t)| && InOrder(t)[i].key == key;
  }

  /** In a search tree the traversal pairs each key with the value a lookup returns. */
  lemma {:induction false} InOrderLookup<V>(t: Tree<V>)
    requires Bst(t)
    ensures forall i :: 0 <= i < |InOrder(t)| ==> Lookup(t, InOrder(t)[i].key) == Some(InOrder(t)[i].value)
  {
    match t
    case Leaf =>
    case Node(l, k, v, _, r) =>
      InOrderLookup(l);
      InOrderLookup(r);
      InOrderInKeys(l);
      InOrderInKeys(r);
      var sl, sr := InOrder(l), InOrder(r);
      var s := InOrder(t);
      forall i | 0 <= i < |s| ensures Lookup(t, s[i].key) == Some(s[i].value) {
        if i < |sl| {
          assert s[i] == sl[i];
          assert sl[i].key in Keys(l);
        } else if i > |sl| {
          assert s[i] == sr[i - |sl| - 1];
          assert sr[i - |sl| - 1].key in Keys(r);
        }
      }
  }

  // ---------------------------------------------------------------------------
  // Extreme keys
  // ---------------------------------------------------------------------------

  /** `avl_find_min`: follow left links to the end. */
  function Leftmost<V>(t: Tree<V>): (k: int)
    requires t.Node?
    ensures k in Keys(t)
    ensures Bst(t) ==> forall j :: j in Keys(t) ==> k <= j
  {
    if t.left.Leaf? then t.key else Leftmost(t.left)
  }

  /** `avl_find_max`: follow right links to the end. */
  function Rightmost<V>(t: Tree<V>): (k: int)
    requires t.Node?
    ensures k in Keys(t)
    ensures Bst(t) ==> forall j :: j in Keys(t) ==> j <= k
  {
    if t.right.Leaf? then t.key else Rightmost(t.right)
  }

  // ---------------------------------------------------------------------------
  // The range walk
  // ---------------------------------------------------------------------------

  /** The pairs of `s` whose key lies in [lo, hi], in order. */
  function Clip<V>(s: seq<Pair<V>>, lo: int, hi: int): seq<Pair<V>>
  {
    if s == [] then []
    else (if lo <= s[0].key <= hi then [s[0]] else []) + Clip(s[1..], lo, hi)
  }

  /** The prefix of `s` up to and including the first pair the callback rejects. */
  function CallsUntilStop<V>(s: seq<Pair<V>>, callback: Pair<V> -> bool): seq<Pair<V>>
  {
    if s == [] then []
    else if !callback(s[0]) then [s[0]]
    else [s[0]] + CallsUntilStop(s[1..], callback)
  }

  /** Whether the callback rejects some pair of `s`. */
  predicate Stops<V>(s: seq<Pair<V>>, callback: Pair<V> -> bool)
  {
    exists i :: 0 <= i < |s| && !callback(s[i])
  }

  /** The callback invocations of a range walk, and whether it was told to stop. */
  datatype Walk<V> = Walk(calls: seq<Pair<V>>, stopped: bool)

  /**
   * `avl_range_recursive`: the left subtree is visited only when the node's
   * key is above lo, the right only when it is below hi, and a callback that
   * answers false ends the whole walk.
   */
  function RangeWalk<V>(t: Tree<V>, lo: int, hi: int, callback: Pair<V> -> bool): Walk<V>
  {
    match t
    case Leaf => Walk([], false)
    case Node(l, k, v, _, r) =>
      var a := if k > lo then RangeWalk(l, lo, hi, callback) else Walk([], false);
      var b := if k < hi then RangeWalk(r, lo, hi, callback) else Walk([], false);
      Join(a, Pair(k, v), lo <= k <= hi, callback, b)
  }

  /**
   * One node's step of the walk: the left part `a` first; unless it stopped,
   * the node itself when it is in range; unless the callback rejected it, the
   * right part `b`. The callback has no effects in this model, so computing
   * `b` when it is not used changes nothing.
   */
  function Join<V>(a: Walk<V>, p: Pair<V>, inRange: bool, callback: Pair<V> -> bool, b: Walk<V>): Walk<V>
  {
    if a.stopped then a
    else if inRange && !callback(p) then Walk(a.calls + [p], true)
    else Walk(a.calls + (if inRange then [p] else []) + b.calls, b.stopped)
  }

  lemma {:induction false} ClipAppend<V>(s: seq<Pair<V>>, u: seq<Pair<V>>, lo: int, hi: int)
    ensures Clip(s + u, lo, hi) == Clip(s, lo, hi) + Clip(u, lo, hi)
  {
    if s == [] {
      assert s + u == u;
    } else {
      assert (s + u)[0] == s[0];
      assert (s + u)[1..] == s[1..] + u;
      ClipAppend(s[1..], u, lo, hi);
    }
  }

  lemma {:induction false} ClipEmpty<V>(s: seq<Pair<V>>, lo: int, hi: int)
    requires forall i :: 0 <= i < |s| ==> s[i].key < lo || s[i].key > hi
    ensures Clip(s, lo, hi) == []
  {
    if s != [] {
      assert forall i :: 0 <= i < |s[1..]| ==> s[1..][i] == s[i + 1];
      ClipEmpty(s[1..], lo, hi);
    }
  }

  /** A sequence is rejected when its head or its tail is. */
  lemma StopsCons<V>(s: seq<Pair<V>>, callback: Pair<V> -> bool)
    requires s != []
    ensures Stops(s, callback) == (!callback(s[0]) || Stops(s[1..], callback))
  {
    if Stops(s, callback) && callback(s[0]) {
      var i :| 0 <= i < |s| && !callback(s[i]);
      assert s[1..][i - 1] == s[i];
    }
    if Stops(s[1..], callback) {
      var i :| 0 <= i < |s[1..]| && !callback(s[1..][i]);
      assert s[i + 1] == s[1..][i];
    }
  }

  /** A concatenation is rejected when one of its parts is. */
  lemma StopsAppend<V>(s: seq<Pair<V>>, u: seq<Pair<V>>, callback: Pair<V> -> bool)
    ensures Stops(s + u, callback) == (Stops(s, callback) || Stops(u, callback))
  {
    if Stops(s + u, callback) {
      var i :| 0 <= i < |s + u| && !callback((s + u)[i]);
      if i < |s| {
        assert s[i] == (s + u)[i];
      } else {
        assert u[i - |s|] == (s + u)[i];
      }
    }
    if Stops(s, callback) {
      var i :| 0 <= i < |s| && !callback(s[i]);
      assert (s + u)[i] == s[i];
    }
    if Stops(u, callback) {
      var i :| 0 <= i < |u| && !callback(u[i]);
      assert (s + u)[|s| + i] == u[i];
    }
  }

  lemma {:induction false} CallsAppend<V>(s: seq<Pair<V>>, u: seq<Pair<V>>, callback: Pair<V> -> bool)
    ensures Stops(s + u, callback) == (Stops(s, callback) || Stops(u, callback))
    ensures CallsUntilStop(s + u, callback)
         == if Stops(s, callback) then CallsUntilStop(s, callback) else s + CallsUntilStop(u, callback)
  {
    StopsAppend(s, u, callback);
    if s == [] {
      assert s + u == u;
    } else {
      var w := s + u;
      assert w[0] == s[0] && w[1..] == s[1..] + u;
      CallsAppend(s[1..], u, callback);
      StopsCons(s, callback);
      if callback(s[0]) {
        assert s + CallsUntilStop(u, callback) == [s[0]] + (s[1..] + CallsUntilStop(u, callback));
      }
    }
  }

  /** Without a rejection the walk calls the callback on every pair. */
  lemma {:induction false} CallsWithoutStop<V>(s: seq<Pair<V>>, callback: Pair<V> -> bool)
    requires !Stops(s, callback)
    ensures CallsUntilStop(s, callback) == s
  {
    if s != [] {
      StopsCons(s, callback);
      CallsWithoutStop(s[1..], callback);
    }
  }

  /** One pair alone: clipped, then walked. */
  lemma SingleCalls<V>(p: Pair<V>, lo: int, hi: int, callback: Pair<V> -> bool)
    ensures Clip([p], lo, hi) == if lo <= p.key <= hi then [p] else []
    ensures Stops(Clip([p], lo, hi), callback) == (lo <= p.key <= hi && !callback(p))
    ensures CallsUntilStop(Clip([p], lo, hi), callback) == Clip([p], lo, hi)
  {
    assert [p][1..] == [];
  }

  /**
   * The range walk calls the callback on the keys of [lo, hi] in ascending
   * order, stops right after the first call that answers false, and reports
   * whether that happened.
   */
  lemma {:induction false} RangeWalkSpec<V>(t: Tree<V>, lo: int, hi: int, callback: Pair<V> -> bool)
    requires Bst(t)
    ensures RangeWalk(t, lo, hi, callback).calls == CallsUntilStop(Clip(InOrder(t), lo, hi), callback)
    ensures RangeWalk(t, lo, hi, callback).stopped == Stops(Clip(InOrder(t), lo, hi), callback)
  {
    match t
    case Leaf =>
    case Node(l, k, v, _, r) =>
      var p := Pair(k, v);
      var cl, cp, cr := Clip(InOrder(l), lo, hi), Clip([p], lo, hi), Clip(InOrder(r), lo, hi);
      ClipAppend(InOrder(l) + [p], InOrder(r), lo, hi);
      ClipAppend(InOrder(l), [p], lo, hi);
      assert Clip(InOrder(t), lo, hi) == cl + cp + cr;
      InOrderInKeys(l);
      InOrderInKeys(r);
      if k > lo {
        RangeWalkSpec(l, lo, hi, callback);
      } else {
        ClipEmpty(InOrder(l), lo, hi);
      }
      if k < hi {
        RangeWalkSpec(r, lo, hi, callback);
      } else {
        ClipEmpty(InOrder(r), lo, hi);
      }
      JoinSpec(cl, p, lo, hi, callback, cr);
  }

  /** The node step joins the walks of the two sides into the walk of the whole clipped sequence. */
  lemma JoinSpec<V>(cl: seq<Pair<V>>, p: Pair<V>, lo: int, hi: int, callback: Pair<V> -> bool, cr: seq<Pair<V>>)
    ensures var cp := Clip([p], lo, hi);
      Join(Walk(CallsUntilStop(cl, callback), Stops(cl, callback)), p, lo <= p.key <= hi, callback,
           Walk(CallsUntilStop(cr, callback), Stops(cr, callback)))
      == Walk(CallsUntilStop(cl + cp + cr, callback), Stops(cl + cp + cr, callback))
  {
    var cp := Clip([p], lo, hi);
    if !Stops(cl, callback) {
      CallsWithoutStop(cl, callback);
    }
    SingleCalls(p, lo, hi, callback);
    CallsAppend(cl + cp, cr, callback);
    CallsAppend(cl, cp, callback);
  }
}

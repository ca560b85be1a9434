/**
 * What the C shard (`shard.c`) and the C++ `TreeShard` (`shard.hpp`) have
 * in common: a tree, counters, and `min_key`/`max_key`/`has_keys` bounds
 * that let a range query skip a shard.
 *
 * `update_bounds` only widens the bounds, and a removal recomputes them
 * whenever the removed key was one of them. So the bounds are not merely an
 * enclosing interval: while `has_keys` holds, `min_key` and `max_key` are
 * the smallest and the largest key in the tree.
 */
module ShardBounds {
  import opened AvlCore
  import opened AvlOrder

  /** `INT64_MAX` and `INT64_MIN`, the bounds of an empty shard. */
  const INT64_MAX: int := 0x7fff_ffff_ffff_ffff
  const INT64_MIN: int := -0x8000_0000_0000_0000

  function Min(a: nat, b: nat): nat { if a < b then a else b }

  /** `has_keys` holds exactly when there are keys, and then the bounds are the extreme keys. */
  ghost predicate Exact(keys: set<int>, hasKeys: bool, lo: int, hi: int)
  {
    && (hasKeys <==> keys != {})
    && (hasKeys ==> lo in keys && hi in keys && forall k :: k in keys ==> lo <= k <= hi)
  }

  // ---------------------------------------------------------------------------
  // The clipped traversal
  // ---------------------------------------------------------------------------

  /** Clipping keeps pairs of `s`, with keys in [lo, hi], in their order. */
  lemma {:induction false} ClipFacts<V>(s: seq<Pair<V>>, lo: int, hi: int)
    requires Ascending(s)
    ensures Ascending(Clip(s, lo, hi))
    ensures forall i :: 0 <= i < |Clip(s, lo, hi)| ==> Clip(s, lo, hi)[i] in s && lo <= Clip(s, lo, hi)[i].key <= hi
  {
    if s != [] {
      assert Ascending(s[1..]) by {
        forall i, j | 0 <= i < j < |s[1..]| ensures s[1..][i].key < s[1..][j].key {
          assert s[1..][i] == s[i + 1] && s[1..][j] == s[j + 1];
        }
      }
      ClipFacts(s[1..], lo, hi);
      var c := Clip(s[1..], lo, hi);
      forall i | 0 <= i < |c| ensures s[0].key < c[i].key {
        var j :| 0 <= j < |s[1..]| && s[1..][j] == c[i];
        assert s[j + 1] == c[i];
      }
    }
  }

  /** Clipping drops no pair whose key is in [lo, hi]. */
  lemma {:induction false} ClipKeeps<V>(s: seq<Pair<V>>, lo: int, hi: int, j: nat)
    requires j < |s| && lo <= s[j].key <= hi
    ensures exists i :: 0 <= i < |Clip(s, lo, hi)| && Clip(s, lo, hi)[i] == s[j]
  {
    var head := if lo <= s[0].key <= hi then [s[0]] else [];
    assert Clip(s, lo, hi) == head + Clip(s[1..], lo, hi);
    if j == 0 {
      assert Clip(s, lo, hi)[0] == s[0];
    } else {
      assert s[1..][j - 1] == s[j];
      ClipKeeps(s[1..], lo, hi, j - 1);
      var i :| 0 <= i < |Clip(s[1..], lo, hi)| && Clip(s[1..], lo, hi)[i] == s[j];
      assert Clip(s, lo, hi)[|head| + i] == s[j];
    }
  }

  /** How many pairs of `s` have a key below `k`. */
  function Rank<V>(s: seq<Pair<V>>, k: int): (n: nat)
    ensures n <= |s|
  {
    if s == [] then 0 else (if s[0].key < k then 1 else 0) + Rank(s[1..], k)
  }

  lemma {:induction false} RankNone<V>(s: seq<Pair<V>>, k: int)
    requires forall i :: 0 <= i < |s| ==> k <= s[i].key
    ensures Rank(s, k) == 0
  {
    if s != [] {
      assert forall i :: 0 <= i < |s[1..]| ==> s[1..][i] == s[i + 1];
      RankNone(s[1..], k);
    }
  }

  /** In an ascending sequence the pair at position `i` has exactly `i` pairs below it. */
  lemma {:induction false} RankAt<V>(s: seq<Pair<V>>, i: nat)
    requires Ascending(s) && i < |s|
    ensures Rank(s, s[i].key) == i
  {
    if i == 0 {
      assert forall j :: 0 <= j < |s[1..]| ==> s[1..][j] == s[j + 1];
      RankNone(s[1..], s[0].key);
    } else {
      assert s[1..][i - 1] == s[i];
      assert Ascending(s[1..]) by {
        forall a, b | 0 <= a < b < |s[1..]| ensures s[1..][a].key < s[1..][b].key {
          assert s[1..][a] == s[a + 1] && s[1..][b] == s[b + 1];
        }
      }
      RankAt(s[1..], i - 1);
    }
  }

  /**
   * A callback that answers true to its first `max - n` calls and false to
   * the next one: the walk stops right after that call, or runs through
   * when the sequence is not longer than `max - n`.
   */
  lemma {:induction false} CallsCounted<V>(s: seq<Pair<V>>, callback: Pair<V> -> bool, n: nat, max: nat)
    requires n <= max
    requires forall j :: 0 <= j < |s| ==> callback(s[j]) == (n + j < max)
    ensures CallsUntilStop(s, callback) == if n + |s| <= max then s else s[..max - n + 1]
  {
    if s != [] {
      if n < max {
        assert forall j :: 0 <= j < |s[1..]| ==> s[1..][j] == s[j + 1];
        CallsCounted(s[1..], callback, n + 1, max);
        if n + |s| > max {
          assert s[..max - n + 1] == [s[0]] + s[1..][..max - n];
        } else {
          assert s == [s[0]] + s[1..];
        }
      }
    }
  }

  /**
   * `range_query_recursive` of `TreeShard`: the left subtree only when the
   * node's key is above lo, the node when it is in range, the right subtree
   * only when the key is below hi; every pair goes to the output.
   */
  function RangeCollect<V>(t: Tree<V>, lo: int, hi: int): seq<Pair<V>>
  {
    match t
    case Leaf => []
    case Node(l, k, v, _, r) =>
      (if k > lo then RangeCollect(l, lo, hi) else [])
      + (if lo <= k <= hi then [Pair(k, v)] else [])
      + (if k < hi then RangeCollect(r, lo, hi) else [])
  }

  /** The pruning loses nothing: the output is the in-order traversal clipped to [lo, hi]. */
  lemma {:induction false} RangeCollectSpec<V>(t: Tree<V>, lo: int, hi: int)
    requires Bst(t)
    ensures RangeCollect(t, lo, hi) == Clip(InOrder(t), lo, hi)
  {
    match t
    case Leaf =>
    case Node(l, k, v, _, r) =>
      var p := Pair(k, v);
      var cl, cp, cr := Clip(InOrder(l), lo, hi), Clip([p], lo, hi), Clip(InOrder(r), lo, hi);
      ClipAppend(InOrder(l) + [p], InOrder(r), lo, hi);
      ClipAppend(InOrder(l), [p], lo, hi);
      assert Clip(InOrder(t), lo, hi) == cl + cp + cr;
      assert [p][1..] == [];
      assert cp == if lo <= k <= hi then [p] else [];
      InOrderInKeys(l);
      InOrderInKeys(r);
      var a := if k > lo then RangeCollect(l, lo, hi) else [];
      var b := if k < hi then RangeCollect(r, lo, hi) else [];
      if k > lo {
        RangeCollectSpec(l, lo, hi);
      } else {
        ClipEmpty(InOrder(l), lo, hi);
      }
      assert a == cl;
      if k < hi {
        RangeCollectSpec(r, lo, hi);
      } else {
        ClipEmpty(InOrder(r), lo, hi);
      }
      assert b == cr;
  }
}

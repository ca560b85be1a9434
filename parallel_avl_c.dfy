/**
 * `ParallelAVL` of `parallel_avl.c`: a vector of shards, a router, and a
 * redirect index. A key normally lives in its natural shard,
 * `pavl_hash(key) % num_shards`. When the router places a new key
 * elsewhere, the index records where it went. After a shard is added or
 * removed, `topology_changed` makes lookups scan the other shards.
 *
 * Each shard is the value of its AVL tree (`ShardTrees`). The router is
 * the object of `CRouter`. The redirect index is the key-to-shard map it
 * holds (`CRedirectIndex` models the table behind it); reading it as an
 * exact map is what the corrected Robin Hood insert of `CHashTable`
 * provides. `InsertAsWritten` is `parallel_avl_insert` as written, which
 * can leave a stale copy of a key in another shard; `Insert` evicts that
 * copy first. The router's random draw and its floating-point choices are
 * parameters. `pavl_hash` is the
 * constant field `hash`, which the constructor sets to `KeyHashValue` and
 * hands to every router it creates.
 */
module CParallel {
  import opened Wrappers
  import opened Hashing
  import opened Routing
  import opened AvlCore
  import opened AvlOrder
  import opened ShardTrees
  import opened CRouter
  import Redirects

  /** The shard count `parallel_avl_create` uses when asked for 0. */
  const DEFAULT_SHARDS: nat := 8

  // ---------------------------------------------------------------------------
  // The state as values
  // ---------------------------------------------------------------------------

  /** Every redirect entry names a shard that holds its key. */
  ghost predicate Held<V>(m: map<Int64, nat>, shards: seq<Tree<V>>)
  {
    forall k :: k in m ==> m[k] < |shards| && k as int in Keys(shards[m[k]])
  }

  /** At least one shard, each a search tree of `int64_t` keys. */
  ghost predicate Shaped<V>(shards: seq<Tree<V>>)
  {
    |shards| > 0 && AllBst(shards) && Int64Keys(shards)
  }

  /** Every key sits in its natural shard, `hash(key) % |shards|`. */
  ghost predicate AllNatural<V>(shards: seq<Tree<V>>, hash: Int64 -> nat)
  {
    forall i, k :: 0 <= i < |shards| && k in Keys(shards[i]) ==> IsInt64(k) && hash(k as Int64) % |shards| == i
  }

  /**
   * The shard whose answer `contains` and `get` return. First the natural
   * shard, if it holds the key. Else nothing, if no key was ever
   * redirected and the topology never changed. Else the shard of the
   * redirect entry, if there is one (its answer is final, even when it
   * does not hold the key). Else, after a topology change, the first other
   * shard that holds the key.
   */
  function Probe<V>(shards: seq<Tree<V>>, m: map<Int64, nat>, hasRedirects: bool, topologyChanged: bool, key: Int64, natural: nat): (r: Option<nat>)
    requires natural < |shards| && Bounded(m, |shards|)
    ensures r.Some? ==> r.value < |shards| && key as int in Keys(shards[r.value])
    ensures key as int in Keys(shards[natural]) ==> r == Some(natural)
    ensures !hasRedirects && !topologyChanged ==> (r.Some? <==> key as int in Keys(shards[natural]))
  {
    if key as int in Keys(shards[natural]) then Some(natural)
    else if !hasRedirects && !topologyChanged then None
    else if hasRedirects && key in m then (if key as int in Keys(shards[m[key]]) then Some(m[key]) else None)
    else if topologyChanged then FirstHolder(shards, key as int, natural, 0)
    else None
  }

  /**
   * After a topology change, with every entry naming a shard that holds
   * its key, every stored key is found.
   */
  lemma ProbeComplete<V>(shards: seq<Tree<V>>, m: map<Int64, nat>, hasRedirects: bool, key: Int64, natural: nat)
    requires natural < |shards| && Held(m, shards) && key as int in KeySet(shards)
    ensures Bounded(m, |shards|) && Probe(shards, m, hasRedirects, true, key, natural).Some?
  {
    if key as int !in Keys(shards[natural]) && !(hasRedirects && key in m) {
      var i, k :| 0 <= i < |shards| && k in Keys(shards[i]) && k == key as int;
      assert FirstHolder(shards, key as int, natural, 0).Some?;
    }
  }

  /**
   * With every key in its natural shard and both flags clear, a key is
   * found exactly when some shard holds it.
   */
  lemma NaturalComplete<V>(shards: seq<Tree<V>>, m: map<Int64, nat>, hash: Int64 -> nat, key: Int64)
    requires |shards| > 0 && AllNatural(shards, hash) && Bounded(m, |shards|)
    ensures Probe(shards, m, false, false, key, hash(key) % |shards|).Some? <==> key as int in KeySet(shards)
  {
    var natural := hash(key) % |shards|;
    if key as int in KeySet(shards) {
      var i, k :| 0 <= i < |shards| && k in Keys(shards[i]) && k == key as int;
      assert IsInt64(k) && hash(k as Int64) % |shards| == i;
      assert k as Int64 == key;
      assert key as int in Keys(shards[natural]);
    }
    if key as int in Keys(shards[natural]) {
      assert key as int in KeySet(shards);
    }
  }

  /**
   * Placing a key keeps the vector shaped. The key is then found in shard
   * `t` with its value, and the total grows by one exactly when the shard
   * did not hold the key.
   */
  lemma PlacedFacts<V>(shards: seq<Tree<V>>, t: nat, key: Int64, value: V)
    requires Shaped(shards) && t < |shards|
    ensures var s' := Placed(shards, t, key as int, value);
      && Shaped(s') && Lookup(s'[t], key as int) == Some(value)
      && TotalSize(s') == TotalSize(shards) + (if key as int in Keys(shards[t]) then 0 else 1)
  {
    var s' := Placed(shards, t, key as int, value);
    InsertSpec(shards[t], key as int, value, true);
    if key as int in Keys(shards[t]) {
      assert Keys(s'[t]) == Keys(shards[t]);
    }
    TotalSizeUpdate(shards, t, s'[t]);
  }

  /**
   * Placing a key keeps every entry held, and adds an entry for the key
   * and its shard that is held too.
   */
  lemma HeldAfterPlace<V>(m: map<Int64, nat>, shards: seq<Tree<V>>, t: nat, key: Int64, value: V)
    requires t < |shards|
    ensures Held(m, shards) ==> Held(m, Placed(shards, t, key as int, value)) && Held(m[key := t], Placed(shards, t, key as int, value))
  {
    InsertSpec(shards[t], key as int, value, true);
  }

  /**
   * What `insert` leaves `contains` and `get` to read. A key that its
   * target shard gained, or that went to its natural shard, is found. A key
   * that no shard held before is read from its target shard, which maps it
   * to the inserted value.
   */
  lemma InsertReadBack<V>(shards: seq<Tree<V>>, m: map<Int64, nat>, hasRedirects: bool, topologyChanged: bool, t: nat, natural: nat, key: Int64, value: V)
    requires Shaped(shards) && t < |shards| && natural < |shards|
    ensures Bounded(m, |shards|) ==> var grew := key as int !in Keys(shards[t]);
      var redirected := grew && t != natural;
      var m' := if redirected then m[key := t] else m;
      var s' := Placed(shards, t, key as int, value);
      && Bounded(m', |shards|)
      && ((grew || t == natural) ==> Probe(s', m', hasRedirects || redirected, topologyChanged, key, natural).Some?)
      && (key as int !in KeySet(shards) ==>
            Probe(s', m', hasRedirects || redirected, topologyChanged, key, natural) == Some(t) && Lookup(s'[t], key as int) == Some(value))
      && (t != natural && key as int in Keys(shards[natural]) ==>
            Probe(s', m', hasRedirects || redirected, topologyChanged, key, natural) == Some(natural)
            && Lookup(s'[natural], key as int) == Lookup(shards[natural], key as int))
  {
    PlacedFacts(shards, t, key, value);
    InsertSpec(shards[t], key as int, value, true);
    if key as int !in KeySet(shards) && t != natural {
      assert key as int !in Keys(shards[natural]);
    }
    if t != natural {
      assert Placed(shards, t, key as int, value)[natural] == shards[natural];
    }
  }

  /**
   * `insert` as written, on a key that its natural shard holds and a
   * target elsewhere: both shards then hold the key, and `contains` and
   * `get` still read the natural shard, which keeps the old value.
   */
  lemma InsertAsWrittenHidesValue<V>(shards: seq<Tree<V>>, m: map<Int64, nat>, hasRedirects: bool, topologyChanged: bool, t: nat, natural: nat, key: Int64, value: V)
    requires Shaped(shards) && t < |shards| && natural < |shards| && Bounded(m, |shards|)
    requires t != natural && key as int in Keys(shards[natural])
    ensures var grew := key as int !in Keys(shards[t]);
      var m' := if grew then m[key := t] else m;
      var s' := Placed(shards, t, key as int, value);
      && Bounded(m', |shards|) && !Disjoint(s')
      && Probe(s', m', hasRedirects || grew, topologyChanged, key, natural) == Some(natural)
      && Lookup(s'[natural], key as int) == Lookup(shards[natural], key as int)
  {
    var s' := Placed(shards, t, key as int, value);
    InsertSpec(shards[t], key as int, value, true);
    assert s'[natural] == shards[natural];
    assert key as int in Keys(s'[t]) && key as int in Keys(s'[natural]);
  }

  /**
   * One input that shows it, with the real `pavl_hash`. Two shards; key 7
   * is stored with value 1 in its natural shard, whose load is 1 while the
   * other's is 0. Under `LOAD_AWARE` the natural shard is overloaded and
   * the other one is below the average, so `insert(7, 2)` goes there.
   * `get(7)` still answers 1, and `size()` counts two pairs for one key.
   */
  lemma StaleReadAsWritten(draw: nat)
    ensures var natural := KeyHashValue(7) % 2;
      var t := 1 - natural;
      var loads: seq<nat> := if natural == 0 then [1, 0] else [0, 1];
      var shards: seq<Tree<int>> := if natural == 0 then [Node(Leaf, 7, 1, 1, Leaf), Leaf] else [Leaf, Node(Leaf, 7, 1, 1, Leaf)];
      var s' := Placed(shards, t, 7, 2);
      var m' := map[7 as Int64 := t];
      && LoadAware(loads, natural, draw) == t
      && Bounded(m', 2) && Probe(s', m', true, false, 7, natural) == Some(natural)
      && Lookup(s'[natural], 7) == Some(1) && Lookup(s'[t], 7) == Some(2)
      && TotalSize(s') == 2 && KeySet(s') == {7}
  {
    var natural := KeyHashValue(7) % 2;
    var t := 1 - natural;
    var loads: seq<nat> := if natural == 0 then [1, 0] else [0, 1];
    var shards: seq<Tree<int>> := if natural == 0 then [Node(Leaf, 7, 1, 1, Leaf), Leaf] else [Leaf, Node(Leaf, 7, 1, 1, Leaf)];
    var s' := Placed(shards, t, 7, 2);
    if natural == 0 {
      assert loads[..1] == [1] && [1][..0] == [];
    } else {
      assert loads[..1] == [0] && [0][..0] == [];
    }
    assert Sum(loads) == 1;
    assert ArgMin(loads) == t;
    InsertSpec(shards[t], 7, 2, true);
    assert s'[natural] == shards[natural];
    assert Keys(s'[0]) == {7} && Keys(s'[1]) == {7};
    assert Sizes(s') == [1, 1];
    assert Sum([1, 1]) == 2 by {
      assert [1, 1][..1] == [1];
      assert [1][..0] == [];
    }
    assert KeySet(s') == {7} by {
      forall k | k in KeySet(s') ensures k == 7 {
        var i :| 0 <= i < 2 && k in Keys(s'[i]);
      }
      assert 7 in Keys(s'[0]);
    }
  }

  /**
   * The eviction step of the corrected insert: the first shard other than
   * the target `t` that holds the key loses it.
   */
  function Evicted<V>(shards: seq<Tree<V>>, t: nat, key: int): (r: seq<Tree<V>>)
    ensures |r| == |shards|
    ensures forall i :: 0 <= i < |shards| && (i == t || key !in Keys(shards[i])) ==> r[i] == shards[i]
  {
    match FirstHolder(shards, key, t, 0)
    case None => shards
    case Some(h) => shards[h := AvlCore.Remove(shards[h], key, true)]
  }

  /**
   * The index step of the corrected insert: a key placed away from its
   * natural shard is recorded there, and a key placed in its natural shard
   * loses any entry, which would name the shard it was evicted from.
   */
  function Rerouted(m: map<Int64, nat>, key: Int64, t: nat, natural: nat): (r: map<Int64, nat>)
    ensures t != natural ==> key in r && r[key] == t
    ensures t == natural ==> key !in r
    ensures forall k :: k != key ==> (k in r <==> k in m) && (k in m ==> r[k] == m[k])
  {
    if t != natural then m[key := t] else m - {key}
  }

  /** Evicting a key and placing it again stores the keys stored before and the key. */
  lemma EvictedKeys<V>(shards: seq<Tree<V>>, t: nat, key: Int64)
    requires AllBst(shards) && t < |shards|
    ensures KeySet(Evicted(shards, t, key as int)) + {key as int} == KeySet(shards) + {key as int}
  {
    var k0 := key as int;
    var e := Evicted(shards, t, k0);
    match FirstHolder(shards, k0, t, 0) {
      case None =>
      case Some(h) =>
        RemoveSpec(shards[h], k0, true);
        forall k | k in KeySet(e) ensures k in KeySet(shards) {
          var j, x :| 0 <= j < |e| && x in Keys(e[j]) && x == k;
          assert k in Keys(shards[j]);
        }
        forall k | k in KeySet(shards) && k != k0 ensures k in KeySet(e) {
          var j, x :| 0 <= j < |shards| && x in Keys(shards[j]) && x == k;
          assert k in Keys(e[j]);
        }
    }
  }

  /**
   * The eviction alone, with no key held twice before: the vector stays
   * shaped with no key held twice, the key is left at most in the target,
   * and every other key is looked up as before.
   */
  lemma EvictFacts<V>(shards: seq<Tree<V>>, t: nat, key: Int64)
    requires Shaped(shards) && Disjoint(shards) && t < |shards|
    ensures var e := Evicted(shards, t, key as int);
      && Shaped(e) && Disjoint(e) && KeySet(e) + {key as int} == KeySet(shards) + {key as int}
      && (forall j :: 0 <= j < |e| && j != t ==> key as int !in Keys(e[j]))
      && (forall i, k :: 0 <= i < |e| && k != key as int ==> Lookup(e[i], k) == Lookup(shards[i], k))
  {
    var k0 := key as int;
    var e := Evicted(shards, t, k0);
    match FirstHolder(shards, k0, t, 0) {
      case None =>
        assert e == shards;
      case Some(h) =>
        assert e == shards[h := AvlCore.Remove(shards[h], k0, true)];
        TakenFacts(shards, h, key);
        DropHolds(shards, h, k0);
        RemoveSpec(shards[h], k0, true);
    }
  }

  /**
   * The router's loads after the corrected insert: the load of the shard
   * the key was evicted from drops, as in `remove`, and the target's load
   * grows when the target gains the key.
   */
  ghost function Reloaded<V>(loads: seq<nat>, shards: seq<Tree<V>>, t: nat, key: int): seq<nat>
    requires |loads| == |shards| && t < |shards|
  {
    var h := FirstHolder(shards, key, t, 0);
    var evicted := if h.Some? then Dropped(loads, h.value) else loads;
    if key !in Keys(shards[t]) then Bumped(evicted, t) else evicted
  }

  /**
   * The shards after the corrected insert, with no key held twice before:
   * the key is held by the target alone, with the new value; every other
   * pair stays; and no key is held twice.
   */
  lemma EvictPlaceFacts<V>(shards: seq<Tree<V>>, t: nat, key: Int64, value: V)
    requires Shaped(shards) && Disjoint(shards) && t < |shards|
    ensures var w := Placed(Evicted(shards, t, key as int), t, key as int, value);
      && Shaped(w) && KeySet(w) == KeySet(shards) + {key as int}
      && (forall j :: 0 <= j < |w| && j != t ==> key as int !in Keys(w[j]))
      && Lookup(w[t], key as int) == Some(value)
      && Disjoint(w)
      && forall k, y :: Holds(w, k, y) <==> (k != key as int && Holds(shards, k, y)) || (k == key as int && y == value)
  {
    var k0 := key as int;
    var e := Evicted(shards, t, k0);
    EvictFacts(shards, t, key);
    HoldsElsewhere(shards, e, k0);
    PlaceHolds(e, t, k0, value);
    PlacedFacts(e, t, key, value);
  }

  /** Under the corrected insert every other key is looked up as before. */
  lemma EvictPlaceOthers<V>(shards: seq<Tree<V>>, t: nat, key: Int64, value: V)
    requires Shaped(shards) && Disjoint(shards) && t < |shards|
    ensures var w := Placed(Evicted(shards, t, key as int), t, key as int, value);
      forall i, k :: 0 <= i < |w| && k != key as int ==> Lookup(w[i], k) == Lookup(shards[i], k)
  {
    var k0 := key as int;
    var e := Evicted(shards, t, k0);
    var w := Placed(e, t, k0, value);
    EvictFacts(shards, t, key);
    InsertSpec(e[t], k0, value, true);
    forall i, k | 0 <= i < |w| && k != k0 ensures Lookup(w[i], k) == Lookup(shards[i], k) {
      if i != t {
        assert w[i] == e[i];
      }
    }
  }

  /** Under the corrected insert the total grows by one exactly when the key was not stored. */
  lemma EvictPlaceSize<V>(shards: seq<Tree<V>>, t: nat, key: Int64, value: V)
    requires Shaped(shards) && Disjoint(shards) && t < |shards|
    ensures TotalSize(Placed(Evicted(shards, t, key as int), t, key as int, value))
         == TotalSize(shards) + (if key as int in KeySet(shards) then 0 else 1)
  {
    var w := Placed(Evicted(shards, t, key as int), t, key as int, value);
    EvictPlaceFacts(shards, t, key, value);
    DisjointSize(shards);
    DisjointSize(w);
    var s := KeySet(shards);
    if key as int in s {
      assert KeySet(w) == s;
    } else {
      assert |s + {key as int}| == |s| + 1;
    }
  }

  /**
   * What the corrected insert leaves `contains` and `get` to read, with no
   * key held twice before: the key is read from its target shard, and if
   * every entry named a shard holding its key, every entry still does.
   */
  lemma EvictReadBack<V>(shards: seq<Tree<V>>, m: map<Int64, nat>, hasRedirects: bool, topologyChanged: bool, t: nat, natural: nat, key: Int64, value: V)
    requires Shaped(shards) && Disjoint(shards) && t < |shards| && natural < |shards| && Bounded(m, |shards|)
    ensures var w := Placed(Evicted(shards, t, key as int), t, key as int, value);
      var m' := Rerouted(m, key, t, natural);
      && Bounded(m', |shards|)
      && Probe(w, m', hasRedirects || t != natural, topologyChanged, key, natural) == Some(t)
      && (Held(m, shards) ==> Held(m', w))
  {
    var w := Placed(Evicted(shards, t, key as int), t, key as int, value);
    var m' := Rerouted(m, key, t, natural);
    EvictPlaceFacts(shards, t, key, value);
    EvictPlaceOthers(shards, t, key, value);
    if Held(m, shards) {
      forall k | k in m' ensures m'[k] < |w| && k as int in Keys(w[m'[k]]) {
        if k != key {
          LookupKeys(shards[m[k]], k as int);
          LookupKeys(w[m[k]], k as int);
        }
      }
    }
  }

  /**
   * The shard `remove` takes a key from, if any: the natural shard if it
   * holds the key, else the shard of its redirect entry if that one does
   * (`remove` consults the index whatever `has_redirects` says), else,
   * after a topology change, the first other shard that holds it.
   */
  function RemoveFrom<V>(shards: seq<Tree<V>>, m: map<Int64, nat>, topologyChanged: bool, key: Int64, natural: nat): (r: Option<nat>)
    requires natural < |shards| && Bounded(m, |shards|)
    ensures r.Some? ==> r.value < |shards| && key as int in Keys(shards[r.value])
    ensures r.None? <==>
      && key as int !in Keys(shards[natural])
      && !(key in m && key as int in Keys(shards[m[key]]))
      && (topologyChanged ==> forall i :: 0 <= i < |shards| && i != natural ==> key as int !in Keys(shards[i]))
  {
    if key as int in Keys(shards[natural]) then Some(natural)
    else if key in m && key as int in Keys(shards[m[key]]) then Some(m[key])
    else if topologyChanged then FirstHolder(shards, key as int, natural, 0)
    else None
  }

  /** `remove` drops the key's redirect entry when it finds the key in the natural shard or through the index. */
  predicate Unlisted<V>(shards: seq<Tree<V>>, m: map<Int64, nat>, key: Int64, natural: nat)
    requires natural < |shards| && Bounded(m, |shards|)
  {
    key as int in Keys(shards[natural]) || (key in m && key as int in Keys(shards[m[key]]))
  }

  /**
   * After a topology change, with every entry held, `remove` finds a key
   * exactly when some shard holds it.
   */
  lemma RemoveComplete<V>(shards: seq<Tree<V>>, m: map<Int64, nat>, key: Int64, natural: nat)
    requires natural < |shards| && Held(m, shards)
    ensures Bounded(m, |shards|) && (RemoveFrom(shards, m, true, key, natural).Some? <==> key as int in KeySet(shards))
  {
    if key as int in KeySet(shards) {
      var i, k :| 0 <= i < |shards| && k in Keys(shards[i]) && k == key as int;
    }
  }

  /**
   * Taking the key out of the shard `remove` chose keeps every entry held,
   * whether or not the key's entry is dropped with it.
   */
  lemma HeldAfterRemove<V>(shards: seq<Tree<V>>, m: map<Int64, nat>, topologyChanged: bool, key: Int64, natural: nat)
    requires natural < |shards| && AllBst(shards) && Bounded(m, |shards|)
    ensures Held(m, shards) && RemoveFrom(shards, m, topologyChanged, key, natural).Some? ==>
      var r := RemoveFrom(shards, m, topologyChanged, key, natural).value;
      var m' := if Unlisted(shards, m, key, natural) then m - {key} else m;
      Held(m', shards[r := AvlCore.Remove(shards[r], key as int, true)])
  {
    var r := RemoveFrom(shards, m, topologyChanged, key, natural);
    if r.Some? {
      RemoveSpec(shards[r.value], key as int, true);
    }
  }

  /**
   * Taking a key out of shard `r` keeps the vector shaped, leaves the key
   * out of that shard, and lowers the total by one when the shard held it.
   */
  lemma TakenFacts<V>(shards: seq<Tree<V>>, r: nat, key: Int64)
    requires Shaped(shards) && r < |shards|
    ensures var s' := shards[r := AvlCore.Remove(shards[r], key as int, true)];
      && Shaped(s') && key as int !in Keys(s'[r])
      && (key as int in Keys(shards[r]) ==> TotalSize(s') + 1 == TotalSize(shards))
  {
    var t' := AvlCore.Remove(shards[r], key as int, true);
    RemoveSpec(shards[r], key as int, true);
    TotalSizeUpdate(shards, r, t');
  }

  /**
   * An empty shard at the end keeps the vector shaped, the stored keys,
   * the total, every entry held and every entry in range.
   */
  lemma AppendFacts<V>(m: map<Int64, nat>, shards: seq<Tree<V>>)
    requires Shaped(shards)
    ensures var s' := shards + [Leaf];
      && Shaped(s') && KeySet(s') == KeySet(shards) && TotalSize(s') == TotalSize(shards)
      && (Held(m, shards) ==> Held(m, s')) && (Bounded(m, |shards|) ==> Bounded(m, |s'|))
  {
    var s' := shards + [Leaf];
    assert s'[..|shards|] == shards;
    KeySetDrop(s');
    TotalSizeAppend(shards, Leaf);
  }

  /** The redirect entries that do not name shard `s`. */
  function Purged(m: map<Int64, nat>, s: nat): (r: map<Int64, nat>)
    ensures forall k :: k in r <==> k in m && m[k] != s
    ensures forall k :: k in r ==> r[k] == m[k]
  {
    map k | k in m && m[k] != s :: m[k]
  }

  /** Dropping the last shard and the entries naming it keeps every other entry held. */
  lemma HeldAfterDrop<V>(m: map<Int64, nat>, shards: seq<Tree<V>>)
    requires |shards| > 0
    ensures Held(m, shards) ==> Held(Purged(m, |shards| - 1), shards[..|shards| - 1])
  {
  }

  /** Every shard empty. */
  lemma KeySetEmpty<V>(shards: seq<Tree<V>>)
    requires forall i :: 0 <= i < |shards| ==> shards[i] == Leaf
    ensures KeySet(shards) == {} && TotalSize(shards) == 0
  {
    TotalSizeEmpty(shards);
  }

  /**
   * Dropping the last of at least two shards keeps the rest shaped, and
   * the keys of the rest and of the last make up all the stored keys. The
   * entries that do not name it stay held and in range.
   */
  lemma DropFacts<V>(m: map<Int64, nat>, shards: seq<Tree<V>>)
    requires Shaped(shards) && |shards| > 1
    ensures var last := |shards| - 1;
      && Shaped(shards[..last])
      && KeySet(shards) == KeySet(shards[..last]) + Keys(shards[last])
      && (Held(m, shards) ==> Held(Purged(m, last), shards[..last]))
      && (Bounded(m, |shards|) ==> Bounded(Purged(m, last), last))
  {
    KeySetDrop(shards);
    HeldAfterDrop(m, shards);
  }

  /**
   * What removing the last shard leaves to redistribute: its traversal
   * holds exactly its keys, each an `int64_t`, and with the remaining keys
   * makes up all keys; entries that did not name it stay held.
   */
  lemma RemovalFacts<V>(m: map<Int64, nat>, shards: seq<Tree<V>>, moved: seq<Pair<V>>)
    requires Shaped(shards) && |shards| > 1 && moved == InOrder(shards[|shards| - 1])
    ensures var last := |shards| - 1;
      && KeySet(shards) == KeySet(shards[..last]) + PairKeys(moved)
      && |moved| == |Keys(shards[last])|
      && (forall j :: 0 <= j < |moved| ==> IsInt64(moved[j].key))
      && (Held(m, shards) ==> Held(Purged(m, last), shards[..last]))
  {
    DropFacts(m, shards);
    MovedFacts(shards[|shards| - 1]);
  }

  /** The traversal of a tree of `int64_t` keys holds exactly its keys, once each. */
  lemma MovedFacts<V>(t: Tree<V>)
    requires Bst(t) && forall k :: k in Keys(t) ==> IsInt64(k)
    ensures PairKeys(InOrder(t)) == Keys(t) && |InOrder(t)| == |Keys(t)|
    ensures forall j :: 0 <= j < |InOrder(t)| ==> IsInt64(InOrder(t)[j].key)
  {
    PairKeysInOrder(t);
    InOrderCount(t);
    InOrderInKeys(t);
  }

  /** With no key held twice, a shard that holds a key answers the one value stored for it. */
  lemma ReadHolds<V>(shards: seq<Tree<V>>, r: nat, key: int, y: V)
    requires AllBst(shards) && Disjoint(shards) && r < |shards| && key in Keys(shards[r])
    ensures Lookup(shards[r], key) == Some(y) <==> Holds(shards, key, y)
  {
    if Holds(shards, key, y) {
      var j :| 0 <= j < |shards| && Lookup(shards[j], key) == Some(y);
      LookupKeys(shards[j], key);
    }
  }

  /** Placing a key in its natural shard keeps every key in its natural shard. */
  lemma NaturalAfterPlace<V>(shards: seq<Tree<V>>, hash: Int64 -> nat, key: Int64, value: V)
    requires |shards| > 0 && AllNatural(shards, hash)
    ensures AllNatural(Placed(shards, hash(key) % |shards|, key as int, value), hash)
  {
    var t := hash(key) % |shards|;
    var s' := Placed(shards, t, key as int, value);
    InsertSpec(shards[t], key as int, value, true);
    assert |s'| == |shards|;
    forall i, k | 0 <= i < |s'| && k in Keys(s'[i]) ensures IsInt64(k) && hash(k as Int64) % |s'| == i {
      if i == t && k == key as int {
        assert k as Int64 == key;
      } else if i == t {
        assert k in Keys(shards[t]);
      } else {
        assert k in Keys(shards[i]);
      }
    }
    assert AllNatural(s', hash);
  }

  /** The gathered pairs have exactly the stored keys, each an `int64_t`, and are as many as the total size. */
  lemma AllPairsFacts<V>(shards: seq<Tree<V>>)
    requires Shaped(shards)
    ensures var all := AllPairs(shards);
      && PairKeys(all) == KeySet(shards) && |all| == TotalSize(shards)
      && forall j :: 0 <= j < |all| ==> IsInt64(all[j].key)
  {
    AllPairsCount(shards);
    AllPairsKeys(shards);
    var all := AllPairs(shards);
    forall j | 0 <= j < |all| ensures IsInt64(all[j].key) {
      assert all[j].key in PairKeys(all);
      var i, x :| 0 <= i < |shards| && x in Keys(shards[i]) && x == all[j].key;
    }
  }

  // ---------------------------------------------------------------------------
  // Range queries
  // ---------------------------------------------------------------------------

  /** The pairs of the first shards are among the pairs of all shards. */
  lemma {:induction false} AllInRangePrefix<V>(shards: seq<Tree<V>>, i: nat, lo: int, hi: int)
    requires i <= |shards|
    ensures |AllInRange(shards[..i], lo, hi)| <= |AllInRange(shards, lo, hi)|
    ensures multiset(AllInRange(shards[..i], lo, hi)) <= multiset(AllInRange(shards, lo, hi))
    decreases |shards|
  {
    if i < |shards| {
      var n := |shards| - 1;
      AllInRangePrefix(shards[..n], i, lo, hi);
      assert shards[..n][..i] == shards[..i];
    } else {
      assert shards[..i] == shards;
    }
  }

  /** The first `n` entries of `s`, or all of them when there are fewer. */
  function Truncated<V>(s: seq<Pair<V>>, n: nat): (r: seq<Pair<V>>)
    ensures |r| <= n && r <= s && (|s| <= n ==> r == s) && (|s| > n ==> |r| == n)
  {
    if |s| <= n then s else s[..n]
  }

  /**
   * The buffer after the first `i` shards: at most `cap` pairs, taken from
   * the pairs of the range in those shards, and all of them while the
   * buffer is not full.
   */
  ghost predicate Gathered<V>(shards: seq<Tree<V>>, i: nat, lo: int, hi: int, cap: nat, buf: seq<Pair<V>>)
    requires i <= |shards|
  {
    var all := AllInRange(shards[..i], lo, hi);
    && |buf| <= cap && |buf| <= |all| && multiset(buf) <= multiset(all)
    && (|buf| < cap ==> buf == all)
  }

  /** One more shard adds the first pairs of its range that still fit. */
  lemma GatherStep<V>(shards: seq<Tree<V>>, i: nat, lo: int, hi: int, cap: nat, buf: seq<Pair<V>>, taken: seq<Pair<V>>)
    requires i < |shards| && Gathered(shards, i, lo, hi, cap, buf)
    requires taken == Truncated(InRange(shards[i], lo, hi), cap - |buf|)
    ensures Gathered(shards, i + 1, lo, hi, cap, buf + taken)
  {
    assert shards[..i + 1][..i] == shards[..i];
    var got := InRange(shards[i], lo, hi);
    assert AllInRange(shards[..i + 1], lo, hi) == AllInRange(shards[..i], lo, hi) + got;
    assert got == taken + got[|taken|..];
    assert multiset(taken) <= multiset(got);
  }

  /** When the loop ends, at the last shard or with the buffer full, the buffer is a part of the range's pairs, and all of them if not full. */
  lemma GatherDone<V>(shards: seq<Tree<V>>, i: nat, lo: int, hi: int, cap: nat, buf: seq<Pair<V>>)
    requires i <= |shards| && Gathered(shards, i, lo, hi, cap, buf) && (i == |shards| || |buf| >= cap)
    ensures |buf| <= cap && |buf| <= |AllInRange(shards, lo, hi)|
    ensures multiset(buf) <= multiset(AllInRange(shards, lo, hi))
    ensures |buf| < cap ==> buf == AllInRange(shards, lo, hi)
  {
    AllInRangePrefix(shards, i, lo, hi);
    if i == |shards| {
      assert shards[..i] == shards;
    }
  }

  /**
   * The gathering loop of `parallel_avl_range_query` over the shards that
   * intersect the range, each adding its pairs of the range in ascending
   * order until the buffer of `cap` entries is full. The buffer holds
   * pairs of the range. When it is not full, it holds all of them.
   */
  method Gather<V>(shards: seq<Tree<V>>, lo: int, hi: int, cap: nat) returns (buf: seq<Pair<V>>)
    requires AllBst(shards)
    ensures |buf| <= cap && |buf| <= |AllInRange(shards, lo, hi)|
    ensures multiset(buf) <= multiset(AllInRange(shards, lo, hi))
    ensures |buf| < cap ==> buf == AllInRange(shards, lo, hi)
  {
    buf := [];
    var i := 0;
    while i < |shards|
      invariant i <= |shards| && Gathered(shards, i, lo, hi, cap, buf)
    {
      var full;
      buf, full := GatherShard(shards, i, lo, hi, cap, buf);
      i := i + 1;
      if full {
        break;
      }
    }
    GatherDone(shards, i, lo, hi, cap, buf);
  }

  /**
   * One pass of the gathering loop: a shard that intersects the range adds
   * the first pairs of its range that still fit, and the loop stops once
   * the buffer is full; a shard that does not is skipped.
   */
  method GatherShard<V>(shards: seq<Tree<V>>, i: nat, lo: int, hi: int, cap: nat, buf: seq<Pair<V>>) returns (buf': seq<Pair<V>>, full: bool)
    requires AllBst(shards) && i < |shards| && Gathered(shards, i, lo, hi, cap, buf)
    ensures Gathered(shards, i + 1, lo, hi, cap, buf') && (full ==> |buf'| >= cap)
  {
    if Intersects(shards[i], lo, hi) {
      var taken := Truncated(InRange(shards[i], lo, hi), cap - |buf|);
      GatherStep(shards, i, lo, hi, cap, buf, taken);
      buf' := buf + taken;
      full := |buf'| >= cap;
    } else {
      MissedIsEmpty(shards[i], lo, hi);
      GatherStep(shards, i, lo, hi, cap, buf, []);
      assert buf + [] == buf;
      buf', full := buf, false;
    }
  }

  /** The buffer sorted by key and cut to `maxResults`: what `parallel_avl_range_query` hands back. */
  function Cut<V>(buf: seq<Pair<V>>, maxResults: nat): seq<Pair<V>>
  {
    SortByKey(buf)[..if |buf| < maxResults then |buf| else maxResults]
  }

  /**
   * The answer of `parallel_avl_range_query`. Its pairs are pairs of the
   * range held by the shards, in key order; when the range holds no more
   * than `maxResults` pairs, the buffer (twice that size) held them all,
   * and so does the answer.
   */
  lemma RangeAnswer<V>(shards: seq<Tree<V>>, lo: int, hi: int, maxResults: nat, buf: seq<Pair<V>>)
    requires AllBst(shards)
    requires |buf| <= |AllInRange(shards, lo, hi)| && multiset(buf) <= multiset(AllInRange(shards, lo, hi))
    requires |buf| < 2 * maxResults ==> buf == AllInRange(shards, lo, hi)
    ensures var out := Cut(buf, maxResults);
      && |out| <= maxResults && KeyOrdered(out)
      && (forall p :: p in out ==> lo <= p.key <= hi && exists i :: 0 <= i < |shards| && Lookup(shards[i], p.key) == Some(p.value))
      && (|AllInRange(shards, lo, hi)| <= maxResults ==> multiset(out) == multiset(AllInRange(shards, lo, hi)))
  {
    var sorted := SortByKey(buf);
    SortByKeySpec(buf);
    var out := Cut(buf, maxResults);
    AllInRangeFrom(shards, lo, hi);
    forall p | p in out
      ensures lo <= p.key <= hi && exists i :: 0 <= i < |shards| && Lookup(shards[i], p.key) == Some(p.value)
    {
      assert p in multiset(sorted);
      assert p in multiset(AllInRange(shards, lo, hi));
    }
    if |AllInRange(shards, lo, hi)| <= maxResults && maxResults > 0 {
      assert out == sorted;
    }
  }

  /**
   * The body of `parallel_avl_range_query` after the count: gather up to
   * twice `maxResults` pairs of [lo, hi], sort them by key, keep the first
   * `maxResults`.
   */
  method Answer<V>(shards: seq<Tree<V>>, lo: int, hi: int, maxResults: nat) returns (out: seq<Pair<V>>)
    requires AllBst(shards)
    ensures |out| <= maxResults && KeyOrdered(out)
    ensures forall p :: p in out ==> lo <= p.key <= hi && exists i :: 0 <= i < |shards| && Lookup(shards[i], p.key) == Some(p.value)
    ensures |AllInRange(shards, lo, hi)| <= maxResults ==> multiset(out) == multiset(AllInRange(shards, lo, hi))
  {
    var buf := Gather(shards, lo, hi, 2 * maxResults);
    out := Cut(buf, maxResults);
    RangeAnswer(shards, lo, hi, maxResults, buf);
  }

  /** `ParallelAVLStats` without the balance score and the per-shard insert and lookup counters. */
  datatype Stats = Stats(
    numShards: nat, totalSize: nat, totalOps: nat, shardSizes: seq<nat>,
    hasHotspot: bool, suspiciousPatterns: nat, blockedRedirects: nat,
    redirectIndexSize: nat, redirectIndexHits: nat, redirectHitRate: real, redirectIndexMemoryBytes: nat)

  class ParallelAvl<V> {
    var numShards: nat
    const hash: Int64 -> nat
    var shards: seq<Tree<V>>
    var router: Router
    var redirects: map<Int64, nat>
    var totalOps: nat
    var redirectHits: nat
    var topologyChanged: bool
    var hasRedirects: bool

    /**
     * `num_shards` search trees of `int64_t` keys, a router with one load
     * per shard, and no more redirect hits than operations.
     */
    ghost predicate Valid()
      reads this, router
    {
      && Shaped(shards) && |shards| == numShards && redirectHits <= totalOps
      && router.Valid() && router.numShards == numShards && router.hash == hash
    }

    /** Every redirect entry names a shard of the vector, so that reading through it stays in bounds. */
    ghost predicate IndexInRange()
      reads this
    {
      Bounded(redirects, numShards)
    }

    /**
     * `parallel_avl_create`: `num_shards` empty shards (8 when asked for
     * 0), a router with the given strategy, an empty index, zero counters
     * and both flags clear.
     */
    constructor (numShards: nat, strategy: Strategy)
      ensures Valid() && IndexInRange() && fresh(router) && fresh(router.loads) && hash == KeyHashValue
      ensures this.numShards == (if numShards == 0 then DEFAULT_SHARDS else numShards)
      ensures KeySet(shards) == {} && TotalSize(shards) == 0 && Held(redirects, shards)
      ensures redirects == map[] && Sum(router.loads[..]) == 0 && router.strategy == strategy
      ensures totalOps == 0 && redirectHits == 0 && !topologyChanged && !hasRedirects
    {
      var n := if numShards == 0 then DEFAULT_SHARDS else numShards;
      this.numShards := n;
      shards := seq(n, _ => Leaf);
      hash := KeyHashValue;
      router := new Router(n, strategy, KeyHashValue);
      redirects := map[];
      totalOps := 0;
      redirectHits := 0;
      topologyChanged := false;
      hasRedirects := false;
      new;
      KeySetEmpty(shards);
      SumZeros(router.loads[..]);
    }

    /** `pavl_hash(key) % num_shards`: the natural shard of a key. */
    function NaturalShard(key: Int64): (s: nat)
      requires Valid()
      reads this, router
      ensures s < |shards|
    {
      hash(key) % numShards
    }

    /** The shard `contains` and `get` read `key` from, if any. */
    ghost function ReadFrom(key: Int64): Option<nat>
      requires Valid() && IndexInRange()
      reads this, router
    {
      Probe(shards, redirects, hasRedirects, topologyChanged, key, NaturalShard(key))
    }

    /** The shard `remove` takes `key` from, if any. */
    ghost function TakeFrom(key: Int64): Option<nat>
      requires Valid() && IndexInRange()
      reads this, router
    {
      RemoveFrom(shards, redirects, topologyChanged, key, NaturalShard(key))
    }

    /** `parallel_avl_size`: the sum of the shard sizes. */
    method Size() returns (total: nat)
      requires Valid()
      ensures total == TotalSize(shards)
    {
      total := SumSizes(shards);
    }

    /** `shard_insert` on shard `t`: only the shard vector changes. */
    method Place(t: nat, key: Int64, value: V) returns (grew: bool)
      requires Valid() && t < numShards
      modifies this
      ensures Valid() && router == old(router) && numShards == old(numShards)
      ensures shards == Placed(old(shards), t, key as int, value) && grew == (key as int !in old(Keys(shards[t])))
      ensures Lookup(shards[t], key as int) == Some(value)
      ensures TotalSize(shards) == old(TotalSize(shards)) + (if grew then 1 else 0)
      ensures redirects == old(redirects) && totalOps == old(totalOps) && redirectHits == old(redirectHits)
      ensures topologyChanged == old(topologyChanged) && hasRedirects == old(hasRedirects)
    {
      grew := key as int !in Keys(shards[t]);
      PlacedFacts(shards, t, key, value);
      shards := Placed(shards, t, key as int, value);
    }

    /**
     * The bookkeeping of `parallel_avl_insert` after the shard insert: one
     * more operation; if the shard grew, the router counts it, and a key
     * placed away from its natural shard gets a redirect entry.
     */
    method Account(key: Int64, t: nat, grew: bool)
      requires Valid() && t < numShards
      modifies this, router.loads
      ensures Valid() && router == old(router) && numShards == old(numShards) && shards == old(shards)
      ensures router.loads[..] == (if grew then Bumped(old(router.loads[..]), t) else old(router.loads[..]))
      ensures redirects == (if grew && t != NaturalShard(key) then old(redirects)[key := t] else old(redirects))
      ensures hasRedirects == (old(hasRedirects) || (grew && t != NaturalShard(key)))
      ensures totalOps == old(totalOps) + 1 && redirectHits == old(redirectHits) && topologyChanged == old(topologyChanged)
    {
      totalOps := totalOps + 1;
      if grew {
        router.RecordInsertion(t);
        if t != NaturalShard(key) {
          redirects, hasRedirects := redirects[key := t], true;
        }
      }
    }

    /**
     * `parallel_avl_insert` as written: one more operation; the key goes to
     * the router's shard. Only when that shard grew does the router count
     * it, and only then, if the shard is not the natural one, is the
     * redirect recorded and `has_redirects` set. A key no shard held is
     * then read back from that shard. A key its natural shard already holds
     * and that the router sends elsewhere is stored twice, and `contains`
     * and `get` keep reading the old copy.
     */
    method InsertAsWritten(key: Int64, value: V, useLoadAware: bool, draw: nat) returns (ghost target: nat)
      requires Valid()
      modifies this, router.loads
      ensures Valid() && router == old(router) && numShards == old(numShards)
      ensures target < numShards
      ensures router.strategy == StaticHash ==> target == NaturalShard(key)
      ensures router.strategy == LoadAwareRouting ==> target == LoadAware(old(router.loads[..]), NaturalShard(key), draw)
      ensures shards == Placed(old(shards), target, key as int, value)
      ensures Lookup(shards[target], key as int) == Some(value)
      ensures var grew := key as int !in old(Keys(shards[target]));
        && router.loads[..] == (if grew then Bumped(old(router.loads[..]), target) else old(router.loads[..]))
        && redirects == (if grew && target != NaturalShard(key) then old(redirects)[key := target] else old(redirects))
        && hasRedirects == (old(hasRedirects) || (grew && target != NaturalShard(key)))
        && TotalSize(shards) == old(TotalSize(shards)) + (if grew then 1 else 0)
      ensures totalOps == old(totalOps) + 1 && redirectHits == old(redirectHits) && topologyChanged == old(topologyChanged)
      ensures KeySet(shards) == old(KeySet(shards)) + {key as int}
      ensures old(IndexInRange()) ==> IndexInRange()
      ensures old(Held(redirects, shards)) ==> Held(redirects, shards)
      ensures old(IndexInRange()) && key as int !in old(KeySet(shards)) ==> ReadFrom(key) == Some(target)
      ensures old(IndexInRange()) && target != NaturalShard(key) && key as int in old(Keys(shards[NaturalShard(key)])) ==>
        ReadFrom(key) == Some(NaturalShard(key))
        && Lookup(shards[NaturalShard(key)], key as int) == old(Lookup(shards[NaturalShard(key)], key as int))
    {
      var t := router.Route(key, useLoadAware, draw);
      target := t;
      var natural := NaturalShard(key);
      KeySetPlaced(shards, t, key as int, value);
      HeldAfterPlace(redirects, shards, t, key, value);
      InsertReadBack(shards, redirects, hasRedirects, topologyChanged, t, natural, key, value);
      var grew := Place(t, key, value);
      Account(key, t, grew);
    }

    /**
     * The eviction step of the corrected insert: the first shard other
     * than `t` that holds the key loses it, and its load drops, as in
     * `parallel_avl_remove`.
     */
    method Evict(key: Int64, t: nat)
      requires Valid() && t < numShards
      modifies this, router.loads
      ensures Valid() && router == old(router) && numShards == old(numShards)
      ensures shards == Evicted(old(shards), t, key as int)
      ensures var h := FirstHolder(old(shards), key as int, t, 0);
        router.loads[..] == if h.Some? then Dropped(old(router.loads[..]), h.value) else old(router.loads[..])
      ensures redirects == old(redirects) && totalOps == old(totalOps) && redirectHits == old(redirectHits)
      ensures topologyChanged == old(topologyChanged) && hasRedirects == old(hasRedirects)
    {
      var h := ScanShards(shards, key as int, t);
      if h.Some? {
        Take(h.value, key);
      }
    }

    /**
     * The bookkeeping of the corrected insert: as in `Account`, except
     * that the index always follows the key. A key placed away from its
     * natural shard is recorded there, and a key placed in its natural
     * shard loses its entry.
     */
    method Reroute(key: Int64, t: nat, grew: bool)
      requires Valid() && t < numShards
      modifies this, router.loads
      ensures Valid() && router == old(router) && numShards == old(numShards) && shards == old(shards)
      ensures router.loads[..] == (if grew then Bumped(old(router.loads[..]), t) else old(router.loads[..]))
      ensures redirects == Rerouted(old(redirects), key, t, NaturalShard(key))
      ensures hasRedirects == (old(hasRedirects) || t != NaturalShard(key))
      ensures totalOps == old(totalOps) + 1 && redirectHits == old(redirectHits) && topologyChanged == old(topologyChanged)
    {
      totalOps := totalOps + 1;
      if grew {
        router.RecordInsertion(t);
      }
      if t != NaturalShard(key) {
        redirects, hasRedirects := redirects[key := t], true;
      } else {
        redirects := redirects - {key};
      }
    }

    /**
     * The shard step of the corrected insert: `Evict`, then `Place`. With
     * no key held twice before, the key is then held by `t` alone with the
     * new value, every other pair stays, and the total counts the key once.
     */
    method EvictPlace(key: Int64, t: nat, value: V) returns (grew: bool)
      requires Valid() && t < numShards
      modifies this, router.loads
      ensures Valid() && router == old(router) && numShards == old(numShards)
      ensures shards == Placed(Evicted(old(shards), t, key as int), t, key as int, value)
      ensures grew == (key as int !in old(Keys(shards[t])))
      ensures Lookup(shards[t], key as int) == Some(value)
      ensures KeySet(shards) == old(KeySet(shards)) + {key as int}
      ensures var h := FirstHolder(old(shards), key as int, t, 0);
        router.loads[..] == if h.Some? then Dropped(old(router.loads[..]), h.value) else old(router.loads[..])
      ensures redirects == old(redirects) && totalOps == old(totalOps) && redirectHits == old(redirectHits)
      ensures topologyChanged == old(topologyChanged) && hasRedirects == old(hasRedirects)
      ensures old(Disjoint(shards)) ==>
        && Disjoint(shards)
        && (forall j :: 0 <= j < numShards && j != t ==> key as int !in Keys(shards[j]))
        && TotalSize(shards) == old(TotalSize(shards)) + (if key as int in old(KeySet(shards)) then 0 else 1)
    {
      EvictedKeys(shards, t, key);
      KeySetPlaced(Evicted(shards, t, key as int), t, key as int, value);
      if Disjoint(shards) {
        EvictPlaceFacts(shards, t, key, value);
        EvictPlaceSize(shards, t, key, value);
      }
      Evict(key, t);
      grew := Place(t, key, value);
    }

    /**
     * The corrected insert into a chosen shard `t`: `EvictPlace`, then
     * `Reroute`. With no key held twice before, `contains` and `get` then
     * read the key from `t`, and every entry still names a shard that
     * holds its key.
     */
    method Store(key: Int64, t: nat, value: V)
      requires Valid() && t < numShards
      modifies this, router.loads
      ensures Valid() && router == old(router) && numShards == old(numShards)
      ensures shards == Placed(Evicted(old(shards), t, key as int), t, key as int, value)
      ensures Lookup(shards[t], key as int) == Some(value)
      ensures KeySet(shards) == old(KeySet(shards)) + {key as int}
      ensures router.loads[..] == Reloaded(old(router.loads[..]), old(shards), t, key as int)
      ensures redirects == Rerouted(old(redirects), key, t, NaturalShard(key))
      ensures hasRedirects == (old(hasRedirects) || t != NaturalShard(key))
      ensures totalOps == old(totalOps) + 1 && redirectHits == old(redirectHits) && topologyChanged == old(topologyChanged)
      ensures old(IndexInRange()) ==> IndexInRange()
      ensures old(Disjoint(shards)) ==>
        && Disjoint(shards)
        && (forall j :: 0 <= j < numShards && j != t ==> key as int !in Keys(shards[j]))
        && TotalSize(shards) == old(TotalSize(shards)) + (if key as int in old(KeySet(shards)) then 0 else 1)
      ensures old(Disjoint(shards)) && old(Held(redirects, shards)) ==> Held(redirects, shards)
      ensures old(IndexInRange()) && old(Disjoint(shards)) ==> ReadFrom(key) == Some(t)
    {
      ghost var s0, m0, flag := shards, redirects, hasRedirects;
      var grew := EvictPlace(key, t, value);
      Reroute(key, t, grew);
      if Disjoint(s0) && Bounded(m0, numShards) {
        EvictReadBack(s0, m0, flag, topologyChanged, t, NaturalShard(key), key, value);
      }
    }

    /**
     * The insert `parallel_avl_insert` evidently intends: the key first
     * leaves any other shard that holds it, then goes to the router's
     * shard, and the index follows it. With no key held twice before, no
     * key is held twice after, `size()` counts the key once, and
     * `contains` and `get` read the new value back, whether or not the key
     * was stored; `EvictPlaceFacts` states the pairs then stored.
     */
    method Insert(key: Int64, value: V, useLoadAware: bool, draw: nat) returns (ghost target: nat)
      requires Valid()
      modifies this, router.loads
      ensures Valid() && router == old(router) && numShards == old(numShards)
      ensures target < numShards
      ensures router.strategy == StaticHash ==> target == NaturalShard(key)
      ensures router.strategy == LoadAwareRouting ==> target == LoadAware(old(router.loads[..]), NaturalShard(key), draw)
      ensures shards == Placed(Evicted(old(shards), target, key as int), target, key as int, value)
      ensures Lookup(shards[target], key as int) == Some(value)
      ensures KeySet(shards) == old(KeySet(shards)) + {key as int}
      ensures router.loads[..] == Reloaded(old(router.loads[..]), old(shards), target, key as int)
      ensures redirects == Rerouted(old(redirects), key, target, NaturalShard(key))
      ensures hasRedirects == (old(hasRedirects) || target != NaturalShard(key))
      ensures totalOps == old(totalOps) + 1 && redirectHits == old(redirectHits) && topologyChanged == old(topologyChanged)
      ensures old(IndexInRange()) ==> IndexInRange()
      ensures old(Disjoint(shards)) ==>
        && Disjoint(shards)
        && (forall j :: 0 <= j < numShards && j != target ==> key as int !in Keys(shards[j]))
        && TotalSize(shards) == old(TotalSize(shards)) + (if key as int in old(KeySet(shards)) then 0 else 1)
      ensures old(Disjoint(shards)) && old(Held(redirects, shards)) ==> Held(redirects, shards)
      ensures old(IndexInRange()) && old(Disjoint(shards)) ==> ReadFrom(key) == Some(target)
    {
      var t := router.Route(key, useLoadAware, draw);
      target := t;
      Store(key, t, value);
    }

    /**
     * `parallel_avl_contains`. A hit in the natural shard costs nothing.
     * Otherwise, with either flag set, it counts one operation, and one
     * redirect hit when the index has the key.
     */
    method Contains(key: Int64) returns (found: bool)
      requires Valid() && IndexInRange()
      modifies this
      ensures Valid() && IndexInRange() && router == old(router) && numShards == old(numShards) && shards == old(shards)
      ensures redirects == old(redirects) && topologyChanged == old(topologyChanged) && hasRedirects == old(hasRedirects)
      ensures found == ReadFrom(key).Some?
      ensures var missed := key as int !in Keys(shards[NaturalShard(key)]) && (hasRedirects || topologyChanged);
        && totalOps == old(totalOps) + (if missed then 1 else 0)
        && redirectHits == old(redirectHits) + (if missed && hasRedirects && key in redirects then 1 else 0)
    {
      var natural := NaturalShard(key);
      if key as int in Keys(shards[natural]) {
        return true;
      }
      if !hasRedirects && !topologyChanged {
        return false;
      }
      totalOps := totalOps + 1;
      if hasRedirects && key in redirects {
        redirectHits := redirectHits + 1;
        return key as int in Keys(shards[redirects[key]]);
      }
      if topologyChanged {
        var r := ScanShards(shards, key as int, natural);
        return r.Some?;
      }
      return false;
    }

    /**
     * `parallel_avl_get`: the value of the shard `contains` reads, with
     * the same counting.
     */
    method Get(key: Int64) returns (r: Option<V>)
      requires Valid() && IndexInRange()
      modifies this
      ensures Valid() && IndexInRange() && router == old(router) && numShards == old(numShards) && shards == old(shards)
      ensures redirects == old(redirects) && topologyChanged == old(topologyChanged) && hasRedirects == old(hasRedirects)
      ensures r.Some? <==> ReadFrom(key).Some?
      ensures ReadFrom(key).Some? ==> r == Lookup(shards[ReadFrom(key).value], key as int)
      ensures var missed := key as int !in Keys(shards[NaturalShard(key)]) && (hasRedirects || topologyChanged);
        && totalOps == old(totalOps) + (if missed then 1 else 0)
        && redirectHits == old(redirectHits) + (if missed && hasRedirects && key in redirects then 1 else 0)
    {
      var natural := NaturalShard(key);
      LookupKeys(shards[natural], key as int);
      r := Lookup(shards[natural], key as int);
      if r.Some? {
        return;
      }
      if !hasRedirects && !topologyChanged {
        return;
      }
      totalOps := totalOps + 1;
      if hasRedirects && key in redirects {
        redirectHits := redirectHits + 1;
        LookupKeys(shards[redirects[key]], key as int);
        r := Lookup(shards[redirects[key]], key as int);
        return;
      }
      if topologyChanged {
        var s := ScanShards(shards, key as int, natural);
        if s.Some? {
          LookupKeys(shards[s.value], key as int);
          r := Lookup(shards[s.value], key as int);
        }
      }
    }

    /** `shard_remove` on shard `r` that succeeded, and `router_record_removal`. */
    method Take(r: nat, key: Int64)
      requires Valid() && r < numShards
      modifies this, router.loads
      ensures Valid() && router == old(router) && numShards == old(numShards)
      ensures shards == old(shards)[r := AvlCore.Remove(old(shards)[r], key as int, true)]
      ensures key as int !in Keys(shards[r])
      ensures old(key as int in Keys(shards[r])) ==> TotalSize(shards) + 1 == old(TotalSize(shards))
      ensures router.loads[..] == Dropped(old(router.loads[..]), r)
      ensures redirects == old(redirects) && totalOps == old(totalOps) && redirectHits == old(redirectHits)
      ensures topologyChanged == old(topologyChanged) && hasRedirects == old(hasRedirects)
    {
      TakenFacts(shards, r, key);
      shards := shards[r := AvlCore.Remove(shards[r], key as int, true)];
      router.RecordRemoval(r);
    }

    /**
     * The three probes of `parallel_avl_remove`: the natural shard, the
     * shard of the key's redirect entry, and after a topology change the
     * other shards in index order. Reports whether the first two found it,
     * since only then does `remove` drop the entry.
     */
    method FindVictim(key: Int64) returns (r: Option<nat>, unlisted: bool)
      requires Valid() && IndexInRange()
      ensures r == TakeFrom(key) && unlisted == Unlisted(shards, redirects, key, NaturalShard(key))
      ensures unlisted ==> r.Some?
    {
      var natural := NaturalShard(key);
      if key as int in Keys(shards[natural]) {
        return Some(natural), true;
      }
      if key in redirects && key as int in Keys(shards[redirects[key]]) {
        return Some(redirects[key]), true;
      }
      unlisted := false;
      r := None;
      if topologyChanged {
        r := ScanShards(shards, key as int, natural);
      }
    }

    /**
     * `parallel_avl_remove`: one more operation. The key goes from the
     * shard `TakeFrom` names, whose load drops; if that shard was found
     * directly or through the index, the key's entry goes too.
     */
    method Remove(key: Int64) returns (removed: bool)
      requires Valid() && IndexInRange()
      modifies this, router.loads
      ensures Valid() && IndexInRange() && router == old(router) && numShards == old(numShards)
      ensures removed == old(TakeFrom(key)).Some?
      ensures removed ==> var r := old(TakeFrom(key)).value;
        && shards == old(shards)[r := AvlCore.Remove(old(shards)[r], key as int, true)]
        && key as int !in Keys(shards[r])
        && TotalSize(shards) + 1 == old(TotalSize(shards))
        && router.loads[..] == Dropped(old(router.loads[..]), r)
      ensures !removed ==> shards == old(shards) && router.loads[..] == old(router.loads[..])
      ensures redirects == if old(Unlisted(shards, redirects, key, NaturalShard(key))) then old(redirects) - {key} else old(redirects)
      ensures totalOps == old(totalOps) + 1 && redirectHits == old(redirectHits)
      ensures topologyChanged == old(topologyChanged) && hasRedirects == old(hasRedirects)
      ensures old(Held(redirects, shards)) ==> Held(redirects, shards)
    {
      totalOps := totalOps + 1;
      HeldAfterRemove(shards, redirects, topologyChanged, key, NaturalShard(key));
      var r, unlisted := FindVictim(key);
      if r.None? {
        return false;
      }
      Take(r.value, key);
      if unlisted {
        redirects := redirects - {key};
      }
      return true;
    }

    /**
     * `parallel_avl_range_query`: one more operation; at most
     * `max_results` pairs of [lo, hi], each the pair of some shard, in
     * ascending key order. When the shards hold no more pairs of the range
     * than that, the answer is all of them.
     */
    method RangeQuery(lo: Int64, hi: Int64, maxResults: nat) returns (out: seq<Pair<V>>)
      requires Valid()
      modifies this
      ensures Valid() && router == old(router) && numShards == old(numShards) && shards == old(shards)
      ensures redirects == old(redirects) && topologyChanged == old(topologyChanged) && hasRedirects == old(hasRedirects)
      ensures totalOps == old(totalOps) + 1 && redirectHits == old(redirectHits)
      ensures |out| <= maxResults && KeyOrdered(out)
      ensures forall p :: p in out ==>
        lo as int <= p.key <= hi as int && exists i :: 0 <= i < |shards| && Lookup(shards[i], p.key) == Some(p.value)
      ensures |AllInRange(shards, lo as int, hi as int)| <= maxResults ==>
        multiset(out) == multiset(AllInRange(shards, lo as int, hi as int))
    {
      totalOps := totalOps + 1;
      out := Answer(shards, lo as int, hi as int, maxResults);
    }

    /** `shard_clear` on every shard, in index order. */
    method EmptyShards()
      requires Valid()
      modifies this
      ensures Valid() && router == old(router) && numShards == old(numShards)
      ensures forall i :: 0 <= i < |shards| ==> shards[i] == Leaf
      ensures redirects == old(redirects) && totalOps == old(totalOps) && redirectHits == old(redirectHits)
      ensures topologyChanged == old(topologyChanged) && hasRedirects == old(hasRedirects)
    {
      var i := 0;
      while i < numShards
        invariant Valid() && i <= numShards && router == old(router) && numShards == old(numShards)
        invariant forall j :: 0 <= j < i ==> shards[j] == Leaf
        invariant redirects == old(redirects) && totalOps == old(totalOps) && redirectHits == old(redirectHits)
        invariant topologyChanged == old(topologyChanged) && hasRedirects == old(hasRedirects)
      {
        shards := shards[i := Leaf];
        i := i + 1;
      }
    }

    /**
     * `parallel_avl_clear`: every shard empty, the index empty, both
     * counters zero. The router's loads and both flags stay as they were.
     */
    method Clear()
      requires Valid()
      modifies this
      ensures Valid() && IndexInRange() && router == old(router) && numShards == old(numShards)
      ensures KeySet(shards) == {} && TotalSize(shards) == 0 && Held(redirects, shards)
      ensures redirects == map[] && totalOps == 0 && redirectHits == 0
      ensures topologyChanged == old(topologyChanged) && hasRedirects == old(hasRedirects)
    {
      EmptyShards();
      KeySetEmpty(shards);
      TotalSizeEmpty(shards);
      redirects := map[];
      totalOps := 0;
      redirectHits := 0;
    }

    /**
     * `parallel_avl_add_shard`: an empty shard at the end, a fresh router
     * over the larger count (`INTELLIGENT` when the old router's balance
     * score exceeded 0.9, given here as `balanced`, else `LOAD_AWARE`),
     * and the topology marked changed. No key moves.
     */
    method AddShard(balanced: bool) returns (ok: bool)
      requires Valid()
      modifies this
      ensures ok && Valid() && fresh(router) && fresh(router.loads)
      ensures numShards == old(numShards) + 1 && shards == old(shards) + [Leaf]
      ensures router.strategy == (if balanced then Intelligent else LoadAwareRouting) && Sum(router.loads[..]) == 0
      ensures KeySet(shards) == old(KeySet(shards)) && TotalSize(shards) == old(TotalSize(shards))
      ensures redirects == old(redirects) && topologyChanged
      ensures totalOps == old(totalOps) && redirectHits == old(redirectHits) && hasRedirects == old(hasRedirects)
      ensures old(IndexInRange()) ==> IndexInRange()
      ensures old(Held(redirects, shards)) ==> Held(redirects, shards)
    {
      var n := numShards + 1;
      AppendFacts(redirects, shards);
      shards := shards + [Leaf];
      numShards := n;
      router := new Router(n, if balanced then Intelligent else LoadAwareRouting, hash);
      SumZeros(router.loads[..]);
      topologyChanged := true;
      return true;
    }

    /**
     * `parallel_avl_get_stats`: the shard count, the operation count, each
     * shard's size and their sum, the router's hotspot flag and attack
     * counters, and the redirect index's size, the redirect hits, the hit
     * rate against all operations and the index's memory estimate.
     */
    method GetStats() returns (s: Stats)
      requires Valid()
      ensures s.numShards == numShards && s.totalOps == totalOps
      ensures s.shardSizes == Sizes(shards) && s.totalSize == TotalSize(shards)
      ensures s.hasHotspot == Overloaded(MaxFrom(0, router.loads[..]), Sum(router.loads[..]), numShards)
      ensures s.suspiciousPatterns == 0 && s.blockedRedirects == 0
      ensures s.redirectIndexSize == |redirects| && s.redirectIndexHits == redirectHits
      ensures s.redirectHitRate == Redirects.HitRate(redirectHits, totalOps) && 0.0 <= s.redirectHitRate <= 100.0
      ensures s.redirectIndexMemoryBytes == |redirects| * 32
    {
      var sizes, total := ListSizes(shards);
      var rs := router.GetStats();
      s := Stats(numShards, total, totalOps, sizes, rs.hasHotspot, rs.suspiciousPatterns, rs.blockedRedirects,
        |redirects|, redirectHits, Redirects.HitRate(redirectHits, totalOps), Redirects.MemoryBytes(|redirects|, 8));
    }

    /** `router_record_insertion` on shard `t`: only the router's loads change. */
    method Tally(t: nat)
      requires Valid() && t < numShards
      modifies router.loads
      ensures Valid() && router.loads[..] == Bumped(old(router.loads[..]), t)
      ensures Sum(router.loads[..]) == old(Sum(router.loads[..])) + 1
    {
      router.RecordInsertion(t);
    }

    /**
     * One step of the redistribution in `parallel_avl_remove_shard`: the
     * router picks a shard, the shard takes the pair, and the router
     * counts an insertion whether or not the shard grew.
     */
    method Reinsert(key: Int64, value: V, useLoadAware: bool, draw: nat) returns (ghost t: nat)
      requires Valid()
      modifies this, router.loads
      ensures Valid() && router == old(router) && numShards == old(numShards) && t < numShards
      ensures shards == Placed(old(shards), t, key as int, value) && KeySet(shards) == old(KeySet(shards)) + {key as int}
      ensures router.loads[..] == Bumped(old(router.loads[..]), t) && Sum(router.loads[..]) == old(Sum(router.loads[..])) + 1
      ensures redirects == old(redirects) && totalOps == old(totalOps) && redirectHits == old(redirectHits)
      ensures topologyChanged == old(topologyChanged) && hasRedirects == old(hasRedirects)
    {
      var s := router.Route(key, useLoadAware, draw);
      t := s;
      KeySetPlaced(shards, s, key as int, value);
      var _ := Place(s, key, value);
      Tally(s);
    }

    /**
     * The first half of `parallel_avl_remove_shard`: the pairs of the last
     * shard in ascending key order are taken out, the shard goes, a fresh
     * `INTELLIGENT` router over one shard fewer takes over, and the
     * topology is marked changed.
     */
    method DropLast() returns (moved: seq<Pair<V>>)
      requires Valid() && numShards > 1
      modifies this
      ensures Valid() && fresh(router) && fresh(router.loads) && router.strategy == Intelligent && Sum(router.loads[..]) == 0
      ensures numShards == old(numShards) - 1 && shards == old(shards)[..numShards] && topologyChanged
      ensures moved == InOrder(old(shards)[numShards])
      ensures redirects == old(redirects) && totalOps == old(totalOps) && redirectHits == old(redirectHits)
      ensures hasRedirects == old(hasRedirects)
    {
      var last := numShards - 1;
      DropFacts(redirects, shards);
      moved := InOrder(shards[last]);
      shards := shards[..last];
      numShards := last;
      router := new Router(last, Intelligent, hash);
      SumZeros(router.loads[..]);
      topologyChanged := true;
    }

    /**
     * The second half of `parallel_avl_remove_shard`: each pair, in order,
     * is routed and inserted again (`Reinsert`). The stored keys gain the
     * moved keys, the router counts one insertion per pair, and entries
     * that named shards holding their keys still do. When the moved keys
     * are distinct and new and no key is held twice, the shards then hold
     * exactly the pairs they held and the moved pairs, still no key twice.
     */
    method Redistribute(moved: seq<Pair<V>>, useLoadAware: nat -> bool, draw: nat -> nat, ghost m: map<Int64, nat>)
      requires Valid() && forall j :: 0 <= j < |moved| ==> IsInt64(moved[j].key)
      modifies this, router.loads
      ensures Valid() && router == old(router) && numShards == old(numShards)
      ensures KeySet(shards) == old(KeySet(shards)) + PairKeys(moved)
      ensures Sum(router.loads[..]) == old(Sum(router.loads[..])) + |moved|
      ensures redirects == old(redirects) && totalOps == old(totalOps) && redirectHits == old(redirectHits)
      ensures topologyChanged == old(topologyChanged) && hasRedirects == old(hasRedirects)
      ensures Held(m, old(shards)) ==> Held(m, shards)
      ensures old(Disjoint(shards)) && UniqueKeys(moved) && PairKeys(moved) !! old(KeySet(shards)) ==>
        && Disjoint(shards)
        && forall k, y :: Holds(shards, k, y) <==> Holds(old(shards), k, y) || Pair(k, y) in moved
    {
      ghost var s0 := shards;
      ghost var distinct := Disjoint(shards) && UniqueKeys(moved) && PairKeys(moved) !! KeySet(shards);
      var i := 0;
      while i < |moved|
        invariant i <= |moved| && Valid() && router == old(router) && numShards == old(numShards)
        invariant KeySet(shards) == KeySet(s0) + PairKeys(moved[..i])
        invariant Sum(router.loads[..]) == old(Sum(router.loads[..])) + i
        invariant redirects == old(redirects) && totalOps == old(totalOps) && redirectHits == old(redirectHits)
        invariant topologyChanged == old(topologyChanged) && hasRedirects == old(hasRedirects)
        invariant Held(m, s0) ==> Held(m, shards)
        invariant distinct ==> Disjoint(shards) && forall k, y :: Holds(shards, k, y) <==> Holds(s0, k, y) || Pair(k, y) in moved[..i]
      {
        PairKeysStep(moved, i);
        ghost var before := shards;
        var t := Reinsert(moved[i].key as Int64, moved[i].value, useLoadAware(i), draw(i));
        HeldAfterPlace(m, before, t, moved[i].key as Int64, moved[i].value);
        if distinct {
          FreshStep(s0, before, shards, t, moved, i);
        }
        i := i + 1;
      }
      assert moved[..i] == moved;
    }

    /**
     * `parallel_avl_remove_shard` as written. With one shard it refuses.
     * Otherwise the last shard goes, a fresh `INTELLIGENT` router takes
     * over, the topology is marked changed, and each pair of the removed
     * shard, in ascending key order, is routed (pair `i` with the choice
     * `useLoadAware(i)` and the draw `draw(i)`) and inserted again. No key
     * is lost. The redirect entries are kept as they are, so an entry that
     * named the removed shard now names the shard count, one past the last
     * shard, and `contains`, `get` and `remove` would read through it.
     */
    method RemoveShardAsWritten(useLoadAware: nat -> bool, draw: nat -> nat) returns (ok: bool)
      requires Valid()
      modifies this
      ensures Valid() && ok == (old(numShards) > 1)
      ensures !ok ==> unchanged(this)
      ensures ok ==>
        && fresh(router) && fresh(router.loads) && router.strategy == Intelligent
        && numShards == old(numShards) - 1 && topologyChanged
        && KeySet(shards) == old(KeySet(shards))
        && Sum(router.loads[..]) == old(|Keys(shards[numShards - 1])|)
        && redirects == old(redirects)
        && totalOps == old(totalOps) && redirectHits == old(redirectHits) && hasRedirects == old(hasRedirects)
      ensures ok ==> forall k :: k in redirects && old(redirects[k] == numShards - 1) ==> redirects[k] == numShards
      ensures ok && old(Held(redirects, shards)) ==> Held(Purged(redirects, numShards), shards)
      ensures ok && old(Disjoint(shards)) ==>
        Disjoint(shards) && forall k, y :: Holds(shards, k, y) <==> Holds(old(shards), k, y)
    {
      if numShards <= 1 {
        return false;
      }
      ghost var s0, m0 := shards, redirects;
      var moved := DropLast();
      RemovalFacts(m0, s0, moved);
      Redistribute(moved, useLoadAware, draw, Purged(m0, numShards));
      if Disjoint(s0) {
        KeptPairs(s0, shards);
      }
      return true;
    }

    /**
     * `parallel_avl_remove_shard` as intended: the same, and the redirect
     * entries that named the removed shard go with it. Every entry then
     * stays in range, every held entry stays held, and so, the topology
     * being marked changed, every stored key is still found. When no key
     * was held twice, the shards hold the same pairs as before, and a read
     * of any key answers the value it had.
     */
    method RemoveShard(useLoadAware: nat -> bool, draw: nat -> nat) returns (ok: bool)
      requires Valid()
      modifies this
      ensures Valid() && ok == (old(numShards) > 1)
      ensures !ok ==> unchanged(this)
      ensures ok ==>
        && fresh(router) && fresh(router.loads) && router.strategy == Intelligent
        && numShards == old(numShards) - 1 && topologyChanged
        && KeySet(shards) == old(KeySet(shards))
        && Sum(router.loads[..]) == old(|Keys(shards[numShards - 1])|)
        && redirects == Purged(old(redirects), numShards)
        && totalOps == old(totalOps) && redirectHits == old(redirectHits) && hasRedirects == old(hasRedirects)
      ensures old(IndexInRange()) ==> IndexInRange()
      ensures old(Held(redirects, shards)) ==> Held(redirects, shards)
      ensures old(IndexInRange()) && old(Held(redirects, shards)) ==>
        forall key: Int64 :: key as int in KeySet(shards) ==> ReadFrom(key).Some?
      ensures old(Disjoint(shards)) ==>
        Disjoint(shards) && forall k, y :: Holds(shards, k, y) <==> Holds(old(shards), k, y)
      ensures old(IndexInRange()) && old(Disjoint(shards)) ==>
        forall key: Int64, y :: ReadFrom(key).Some? ==>
          (Lookup(shards[ReadFrom(key).value], key as int) == Some(y) <==> Holds(old(shards), key as int, y))
    {
      ok := RemoveShardAsWritten(useLoadAware, draw);
      if ok {
        redirects := Purged(redirects, numShards);
      }
      if old(IndexInRange()) && old(Held(redirects, shards)) {
        forall key: Int64 | key as int in KeySet(shards) ensures ReadFrom(key).Some? {
          ProbeComplete(shards, redirects, hasRedirects, key, NaturalShard(key));
        }
      }
      if old(IndexInRange()) && old(Disjoint(shards)) {
        forall key: Int64, y | ReadFrom(key).Some?
          ensures Lookup(shards[ReadFrom(key).value], key as int) == Some(y) <==> Holds(old(shards), key as int, y)
        {
          ReadHolds(shards, ReadFrom(key).value, key as int, y);
        }
      }
    }

    /** The extraction loop of `parallel_avl_force_rebalance`: every shard's pairs, shard after shard, each in ascending key order. */
    method Collect() returns (all: seq<Pair<V>>)
      requires Valid()
      ensures all == AllPairs(shards)
    {
      all := [];
      var i := 0;
      while i < numShards
        invariant i <= numShards && all == AllPairs(shards[..i])
      {
        assert shards[..i + 1][..i] == shards[..i];
        all := all + InOrder(shards[i]);
        i := i + 1;
      }
      assert shards[..i] == shards;
    }

    /** One step of the reinsertion in `parallel_avl_force_rebalance`: the pair goes to its natural shard, which the router counts. */
    method Restore(key: Int64, value: V)
      requires Valid() && AllNatural(shards, hash)
      modifies this, router.loads
      ensures Valid() && router == old(router) && numShards == old(numShards) && AllNatural(shards, hash)
      ensures shards == Placed(old(shards), NaturalShard(key), key as int, value) && KeySet(shards) == old(KeySet(shards)) + {key as int}
      ensures Sum(router.loads[..]) == old(Sum(router.loads[..])) + 1
      ensures redirects == old(redirects) && totalOps == old(totalOps) && redirectHits == old(redirectHits)
      ensures topologyChanged == old(topologyChanged) && hasRedirects == old(hasRedirects)
    {
      var t := NaturalShard(key);
      KeySetPlaced(shards, t, key as int, value);
      NaturalAfterPlace(shards, hash, key, value);
      var _ := Place(t, key, value);
      Tally(t);
    }

    /**
     * The reinsertion loop of `parallel_avl_force_rebalance`: every pair,
     * in order, to its natural shard. When the pairs have distinct keys that
     * no shard holds and no key is held twice, the shards then hold exactly
     * the pairs they held and the pairs given, still no key twice.
     */
    method Refill(all: seq<Pair<V>>)
      requires Valid() && AllNatural(shards, hash) && forall j :: 0 <= j < |all| ==> IsInt64(all[j].key)
      modifies this, router.loads
      ensures Valid() && router == old(router) && numShards == old(numShards) && AllNatural(shards, hash)
      ensures KeySet(shards) == old(KeySet(shards)) + PairKeys(all)
      ensures Sum(router.loads[..]) == old(Sum(router.loads[..])) + |all|
      ensures redirects == old(redirects) && totalOps == old(totalOps) && redirectHits == old(redirectHits)
      ensures topologyChanged == old(topologyChanged) && hasRedirects == old(hasRedirects)
      ensures old(Disjoint(shards)) && UniqueKeys(all) && PairKeys(all) !! old(KeySet(shards)) ==>
        && Disjoint(shards)
        && forall k, y :: Holds(shards, k, y) <==> Holds(old(shards), k, y) || Pair(k, y) in all
    {
      ghost var s0 := shards;
      ghost var distinct := Disjoint(shards) && UniqueKeys(all) && PairKeys(all) !! KeySet(shards);
      var i := 0;
      while i < |all|
        invariant i <= |all| && Valid() && router == old(router) && numShards == old(numShards) && AllNatural(shards, hash)
        invariant KeySet(shards) == KeySet(s0) + PairKeys(all[..i])
        invariant Sum(router.loads[..]) == old(Sum(router.loads[..])) + i
        invariant redirects == old(redirects) && totalOps == old(totalOps) && redirectHits == old(redirectHits)
        invariant topologyChanged == old(topologyChanged) && hasRedirects == old(hasRedirects)
        invariant distinct ==> Disjoint(shards) && forall k, y :: Holds(shards, k, y) <==> Holds(s0, k, y) || Pair(k, y) in all[..i]
      {
        PairKeysStep(all, i);
        ghost var before, t := shards, NaturalShard(all[i].key as Int64);
        Restore(all[i].key as Int64, all[i].value);
        if distinct {
          FreshStep(s0, before, shards, t, all, i);
        }
        i := i + 1;
      }
      assert all[..i] == all;
    }

    /**
     * Steps 2 to 4 of `parallel_avl_force_rebalance` and its final resets:
     * the shards and the index cleared, a fresh `STATIC_HASH` router, every
     * pair back in its natural shard, the operation count set to the number
     * of pairs, the hits to zero, and both flags cleared. When the pairs
     * have distinct keys, the shards hold exactly those pairs, and a read of
     * a key answers the value paired with it.
     */
    method Rebuild(all: seq<Pair<V>>)
      requires Valid() && forall j :: 0 <= j < |all| ==> IsInt64(all[j].key)
      modifies this
      ensures Valid() && numShards == old(numShards) && KeySet(shards) == PairKeys(all)
      ensures fresh(router) && fresh(router.loads) && router.strategy == StaticHash
      ensures Sum(router.loads[..]) == |all| && AllNatural(shards, hash)
      ensures redirects == map[] && IndexInRange() && Held(redirects, shards)
      ensures totalOps == |all| && redirectHits == 0 && !topologyChanged && !hasRedirects
      ensures forall key: Int64 :: ReadFrom(key).Some? <==> key as int in KeySet(shards)
      ensures UniqueKeys(all) ==> Disjoint(shards) && forall k, y :: Holds(shards, k, y) <==> Pair(k, y) in all
      ensures UniqueKeys(all) ==>
        forall key: Int64, y :: ReadFrom(key).Some? ==>
          (Lookup(shards[ReadFrom(key).value], key as int) == Some(y) <==> Pair(key as int, y) in all)
    {
      Reset();
      NoKeysNoPairs(shards);
      Refill(all);
      totalOps, redirectHits := |all|, 0;
      topologyChanged, hasRedirects := false, false;
      forall key: Int64 ensures ReadFrom(key).Some? <==> key as int in KeySet(shards) {
        NaturalComplete(shards, redirects, hash, key);
      }
      if UniqueKeys(all) {
        forall key: Int64, y | ReadFrom(key).Some?
          ensures Lookup(shards[ReadFrom(key).value], key as int) == Some(y) <==> Pair(key as int, y) in all
        {
          ReadHolds(shards, ReadFrom(key).value, key as int, y);
        }
      }
    }

    /** Steps 2 and 3 of `parallel_avl_force_rebalance`: the shards and the index cleared, and a fresh `STATIC_HASH` router. */
    method Reset()
      requires Valid()
      modifies this
      ensures Valid() && numShards == old(numShards) && KeySet(shards) == {} && AllNatural(shards, hash)
      ensures fresh(router) && fresh(router.loads) && router.strategy == StaticHash && Sum(router.loads[..]) == 0
      ensures redirects == map[] && totalOps == old(totalOps) && redirectHits == old(redirectHits)
      ensures topologyChanged == old(topologyChanged) && hasRedirects == old(hasRedirects)
    {
      EmptyShards();
      KeySetEmpty(shards);
      redirects := map[];
      router := new Router(numShards, StaticHash, hash);
      SumZeros(router.loads[..]);
    }

    /**
     * `parallel_avl_force_rebalance`. With no keys it changes nothing.
     * Otherwise every pair is extracted, the shards and the index are
     * cleared, a fresh `STATIC_HASH` router takes over, and every pair goes
     * back to its natural shard. The same keys are stored, each in its
     * natural shard; the operation count becomes the number of pairs moved,
     * the hits zero, and both flags clear. Every stored key is then found,
     * and only those. When no key was held twice, the shards hold the same
     * pairs as before, and a read of any key answers the value it had.
     */
    method ForceRebalance()
      requires Valid()
      modifies this
      ensures Valid() && numShards == old(numShards) && KeySet(shards) == old(KeySet(shards))
      ensures old(TotalSize(shards)) == 0 ==> unchanged(this)
      ensures old(TotalSize(shards)) > 0 ==>
        && fresh(router) && fresh(router.loads) && router.strategy == StaticHash
        && Sum(router.loads[..]) == old(TotalSize(shards)) && AllNatural(shards, hash)
        && redirects == map[] && IndexInRange() && Held(redirects, shards)
        && totalOps == old(TotalSize(shards)) && redirectHits == 0 && !topologyChanged && !hasRedirects
        && (forall key: Int64 :: ReadFrom(key).Some? <==> key as int in KeySet(shards))
        && (old(Disjoint(shards)) ==>
              forall key: Int64, y :: ReadFrom(key).Some? ==>
                (Lookup(shards[ReadFrom(key).value], key as int) == Some(y) <==> Holds(old(shards), key as int, y)))
      ensures old(Disjoint(shards)) ==>
        Disjoint(shards) && forall k, y :: Holds(shards, k, y) <==> Holds(old(shards), k, y)
    {
      var size := Size();
      if size == 0 {
        return;
      }
      var all := Collect();
      AllPairsFacts(shards);
      if Disjoint(shards) {
        AllPairsUnique(shards);
        AllPairsHolds(shards);
      }
      Rebuild(all);
    }
  }
}

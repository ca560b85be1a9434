/**
 * What the three routers (`router.c`, `router.hpp`, `AdaptiveRouter.h`)
 * have in common: a ring of virtual nodes sorted by hash and searched for
 * the first node at or after a key's hash, and a per-shard load vector
 * scanned for its total, its minimum and its maximum.
 *
 * Loads are unbounded here; `size_t` wrap-around of the counters and of
 * their sum is not modelled. Every floating-point comparison against the
 * average load is cross-multiplied by the shard count.
 */
module Routing {

  /** `VNODES_PER_SHARD`, `WINDOW_SIZE` and `SIZE_MAX` of the routers. */
  const VNODES_PER_SHARD: nat := 16
  const WINDOW_SIZE: nat := 50
  const SIZE_MAX: nat := 0xffff_ffff_ffff_ffff

  /** `VirtualNode`: a point of the hash ring and the shard that owns it. */
  datatype VirtualNode = VirtualNode(shardId: nat, hashValue: nat)

  predicate Sorted(s: seq<VirtualNode>)
  {
    forall i, j :: 0 <= i < j < |s| ==> s[i].hashValue <= s[j].hashValue
  }

  /**
   * The four strategies, as `router.c`, `router.hpp` and `AdaptiveRouter.h`
   * number them (the third is `VIRTUAL_NODES` in `AdaptiveRouter.h`).
   */
  datatype Strategy = StaticHash | LoadAwareRouting | ConsistentHash | Intelligent
  {
    /** The strategies for which the constructors build the ring. */
    predicate UsesRing() { this == ConsistentHash || this == Intelligent }
  }

  /** The routers' `Stats` without the floating-point average and balance score. */
  datatype RouterStats = RouterStats(totalLoad: nat, minLoad: nat, maxLoad: nat, hasHotspot: bool,
                                     suspiciousPatterns: nat, blockedRedirects: nat)

  // ---------------------------------------------------------------------------
  // Building the ring
  // ---------------------------------------------------------------------------

  /**
   * The nodes in the order the construction loops push them: shard-major,
   * the node of shard s and number v carrying the hash of the seed
   * s * VNODES_PER_SHARD + v.
   */
  function Seeded(n: nat, hashOf: nat -> nat): seq<VirtualNode>
  {
    seq(n * VNODES_PER_SHARD, i requires 0 <= i => VirtualNode(i / VNODES_PER_SHARD, hashOf(i)))
  }

  /** The nested construction loops of `init_virtual_nodes` / `initVirtualNodes`. */
  method FillVirtualNodes(n: nat, hashOf: nat -> nat) returns (nodes: seq<VirtualNode>)
    ensures nodes == Seeded(n, hashOf)
  {
    nodes := [];
    var shard := 0;
    while shard < n
      invariant shard <= n
      invariant nodes == Seeded(shard, hashOf)
    {
      var vnode := 0;
      while vnode < VNODES_PER_SHARD
        invariant vnode <= VNODES_PER_SHARD
        invariant |nodes| == shard * VNODES_PER_SHARD + vnode
        invariant forall i :: 0 <= i < |nodes| ==> nodes[i] == VirtualNode(i / VNODES_PER_SHARD, hashOf(i))
      {
        var seed := shard * VNODES_PER_SHARD + vnode;
        nodes := nodes + [VirtualNode(shard, hashOf(seed))];
        vnode := vnode + 1;
      }
      shard := shard + 1;
    }
  }

  /** How many nodes of `s` belong to shard `shard`. */
  function Owned(s: seq<VirtualNode>, shard: nat): nat
  {
    if s == [] then 0 else (if s[0].shardId == shard then 1 else 0) + Owned(s[1..], shard)
  }

  lemma {:induction false} OwnedAppend(a: seq<VirtualNode>, b: seq<VirtualNode>, shard: nat)
    ensures Owned(a + b, shard) == Owned(a, shard) + Owned(b, shard)
  {
    if a == [] {
      assert a + b == b;
    } else {
      assert (a + b)[1..] == a[1..] + b;
      OwnedAppend(a[1..], b, shard);
    }
  }

  /** The ring has VNODES_PER_SHARD nodes for each of the n shards and none for any other. */
  lemma {:induction false} SeededOwned(n: nat, hashOf: nat -> nat, shard: nat)
    ensures |Seeded(n, hashOf)| == n * VNODES_PER_SHARD
    ensures Owned(Seeded(n, hashOf), shard) == if shard < n then VNODES_PER_SHARD else 0
  {
    if n > 0 {
      var block := seq(VNODES_PER_SHARD, v requires 0 <= v => VirtualNode(n - 1, hashOf((n - 1) * VNODES_PER_SHARD + v)));
      assert Seeded(n, hashOf) == Seeded(n - 1, hashOf) + block;
      SeededOwned(n - 1, hashOf, shard);
      OwnedAppend(Seeded(n - 1, hashOf), block, shard);
      BlockOwned(block, n - 1, shard);
    }
  }

  lemma {:induction false} BlockOwned(block: seq<VirtualNode>, owner: nat, shard: nat)
    requires forall i :: 0 <= i < |block| ==> block[i].shardId == owner
    ensures Owned(block, shard) == if shard == owner then |block| else 0
  {
    if block != [] {
      assert forall i :: 0 <= i < |block[1..]| ==> block[1..][i] == block[i + 1];
      BlockOwned(block[1..], owner, shard);
    }
  }

  /** Places `x` before the first node of `s` whose hash is not smaller. */
  function InsertByHash(x: VirtualNode, s: seq<VirtualNode>): (r: seq<VirtualNode>)
    ensures |r| == |s| + 1
  {
    if s == [] then [x]
    else if x.hashValue <= s[0].hashValue then [x] + s
    else [s[0]] + InsertByHash(x, s[1..])
  }

  /** Inserting adds `x` and keeps every node of `s`. */
  lemma {:induction false} InsertByHashPerm(x: VirtualNode, s: seq<VirtualNode>)
    ensures multiset(InsertByHash(x, s)) == multiset(s) + multiset{x}
    ensures forall shard :: Owned(InsertByHash(x, s), shard) == Owned(s, shard) + (if x.shardId == shard then 1 else 0)
  {
    if s != [] && x.hashValue > s[0].hashValue {
      InsertByHashPerm(x, s[1..]);
      assert s == [s[0]] + s[1..];
      var r := InsertByHash(x, s);
      assert r[1..] == InsertByHash(x, s[1..]);
    } else if s != [] {
      var r := InsertByHash(x, s);
      assert r[1..] == s;
    }
  }

  /** Inserting into a sorted ring keeps it sorted. */
  lemma {:induction false} InsertByHashSorted(x: VirtualNode, s: seq<VirtualNode>)
    requires Sorted(s)
    ensures Sorted(InsertByHash(x, s))
  {
    if s != [] && x.hashValue > s[0].hashValue {
      var rest := InsertByHash(x, s[1..]);
      assert Sorted(s[1..]) by {
        forall i, j | 0 <= i < j < |s[1..]| ensures s[1..][i].hashValue <= s[1..][j].hashValue {
          assert s[1..][i] == s[i + 1] && s[1..][j] == s[j + 1];
        }
      }
      InsertByHashSorted(x, s[1..]);
      InsertByHashPerm(x, s[1..]);
      forall i | 0 <= i < |rest| ensures s[0].hashValue <= rest[i].hashValue {
        assert rest[i] in multiset(rest);
        if rest[i] != x {
          assert rest[i] in multiset(s[1..]);
          var j :| 0 <= j < |s[1..]| && s[1..][j] == rest[i];
          assert s[j + 1] == rest[i];
        }
      }
    }
  }

  /**
   * `qsort` with `vnode_compare`, `std::sort` by `hash_value`: the nodes in
   * ascending hash order. Where two nodes share a hash, the model keeps
   * them in the order they were pushed.
   */
  function SortByHash(s: seq<VirtualNode>): (r: seq<VirtualNode>)
    ensures |r| == |s|
  {
    if s == [] then [] else InsertByHash(s[0], SortByHash(s[1..]))
  }

  /** The sort yields a sorted permutation with the same number of nodes per shard. */
  lemma {:induction false} SortByHashSpec(s: seq<VirtualNode>)
    ensures Sorted(SortByHash(s)) && multiset(SortByHash(s)) == multiset(s)
    ensures forall shard :: Owned(SortByHash(s), shard) == Owned(s, shard)
  {
    if s != [] {
      SortByHashSpec(s[1..]);
      InsertByHashSorted(s[0], SortByHash(s[1..]));
      InsertByHashPerm(s[0], SortByHash(s[1..]));
      assert s == [s[0]] + s[1..];
    }
  }

  /** Every node of a permutation of `Seeded(n, ·)` names a shard below n. */
  lemma RingShards(n: nat, hashOf: nat -> nat, ring: seq<VirtualNode>)
    requires multiset(ring) == multiset(Seeded(n, hashOf))
    ensures forall i :: 0 <= i < |ring| ==> ring[i].shardId < n
  {
    forall i | 0 <= i < |ring| ensures ring[i].shardId < n {
      assert ring[i] in multiset(ring);
      var j :| 0 <= j < |Seeded(n, hashOf)| && Seeded(n, hashOf)[j] == ring[i];
    }
  }

  /**
   * `init_virtual_nodes` / `initVirtualNodes`: 16 nodes per shard, filled
   * shard by shard, then sorted by hash. The sort is specified only as a
   * sorted permutation: nodes with equal hashes may come in any order.
   */
  method InitVirtualNodes(n: nat, hashOf: nat -> nat) returns (nodes: seq<VirtualNode>)
    ensures |nodes| == n * VNODES_PER_SHARD && Sorted(nodes)
    ensures multiset(nodes) == multiset(Seeded(n, hashOf))
    ensures forall shard: nat :: Owned(nodes, shard) == if shard < n then VNODES_PER_SHARD else 0
  {
    var filled := FillVirtualNodes(n, hashOf);
    nodes := SortByHash(filled);
    SortByHashSpec(filled);
    forall shard: nat ensures Owned(nodes, shard) == if shard < n then VNODES_PER_SHARD else 0 {
      SeededOwned(n, hashOf, shard);
    }
  }

  // ---------------------------------------------------------------------------
  // Looking up the ring
  // ---------------------------------------------------------------------------

  /** `std::lower_bound` by `hash_value`: the first node whose hash is at least h, or |s|. */
  function LowerBound(s: seq<VirtualNode>, h: nat): (i: nat)
    ensures i <= |s|
    ensures forall j :: 0 <= j < i ==> s[j].hashValue < h
    ensures i < |s| ==> h <= s[i].hashValue
  {
    if s == [] then 0
    else if h <= s[0].hashValue then 0
    else 1 + LowerBound(s[1..], h)
  }

  /** Any position with only smaller hashes before it and a hash at least h at it is the lower bound. */
  lemma {:induction false} LowerBoundUnique(s: seq<VirtualNode>, h: nat, i: nat)
    requires i <= |s| && (forall j :: 0 <= j < i ==> s[j].hashValue < h)
    requires i < |s| ==> h <= s[i].hashValue
    ensures LowerBound(s, h) == i
  {
    if s != [] && i > 0 {
      assert forall j :: 0 <= j < |s[1..]| ==> s[1..][j] == s[j + 1];
      LowerBoundUnique(s[1..], h, i - 1);
    }
  }

  /**
   * The binary search of `route_consistent_hash`: the half-open interval
   * [lo, hi) shrinks around the first node whose hash is at least h.
   */
  method SearchRing(s: seq<VirtualNode>, h: nat) returns (lo: nat)
    requires Sorted(s)
    ensures lo == LowerBound(s, h)
  {
    lo := 0;
    var hi := |s|;
    while lo < hi
      invariant lo <= hi <= |s|
      invariant forall j :: 0 <= j < lo ==> s[j].hashValue < h
      invariant forall j :: hi <= j < |s| ==> h <= s[j].hashValue
      decreases hi - lo
    {
      var mid := lo + (hi - lo) / 2;
      if s[mid].hashValue < h {
        lo := mid + 1;
      } else {
        hi := mid;
      }
    }
    LowerBoundUnique(s, h, lo);
  }

  /**
   * The lower bound, or the first node when it falls off the end (the
   * wrap-around). On a sorted ring that is the first node clockwise from h:
   * its hash is the least one at least h, and when no hash reaches h it is
   * the least hash of all.
   */
  function RingPosition(s: seq<VirtualNode>, h: nat): (i: nat)
    requires |s| > 0
    ensures i < |s|
    ensures Sorted(s) && (exists j :: 0 <= j < |s| && h <= s[j].hashValue) ==>
      h <= s[i].hashValue && forall j :: 0 <= j < |s| && h <= s[j].hashValue ==> s[i].hashValue <= s[j].hashValue
    ensures (forall j :: 0 <= j < |s| ==> s[j].hashValue < h) ==> i == 0
  {
    var b := LowerBound(s, h);
    if b < |s| then b else 0
  }

  /** The ring lookup of all three routers: the lower bound, wrapping to the first node. */
  method RingShard(s: seq<VirtualNode>, h: nat) returns (shard: nat)
    requires |s| > 0 && Sorted(s)
    ensures shard == s[RingPosition(s, h)].shardId
  {
    var i := SearchRing(s, h);
    if i >= |s| {
      i := 0;
    }
    shard := s[i].shardId;
  }

  // ---------------------------------------------------------------------------
  // Load scans
  // ---------------------------------------------------------------------------

  function Sum(s: seq<nat>): nat
  {
    if s == [] then 0 else Sum(s[..|s| - 1]) + s[|s| - 1]
  }

  /** Changing one load changes the total by the same amount. */
  lemma {:induction false} SumUpdate(s: seq<nat>, i: nat, v: nat)
    requires i < |s|
    ensures Sum(s[i := v]) + s[i] == Sum(s) + v
  {
    if i < |s| - 1 {
      assert s[i := v][..|s| - 1] == s[..|s| - 1][i := v];
      SumUpdate(s[..|s| - 1], i, v);
    } else {
      assert s[i := v][..|s| - 1] == s[..|s| - 1];
    }
  }

  /** A load vector of zeros sums to zero. */
  lemma {:induction false} SumZeros(s: seq<nat>)
    requires forall i :: 0 <= i < |s| ==> s[i] == 0
    ensures Sum(s) == 0
  {
    if s != [] {
      SumZeros(s[..|s| - 1]);
    }
  }

  /** No single load exceeds the total. */
  lemma {:induction false} SumBounds(s: seq<nat>, i: nat)
    requires i < |s|
    ensures s[i] <= Sum(s)
  {
    if i < |s| - 1 {
      SumBounds(s[..|s| - 1], i);
    }
  }

  /** The summing loop `total_load += shard_loads[i]`. */
  method TotalLoad(a: array<nat>) returns (total: nat)
    ensures total == Sum(a[..])
  {
    total := 0;
    var i := 0;
    while i < a.Length
      invariant i <= a.Length && total == Sum(a[..i])
    {
      assert a[..i + 1][..i] == a[..i];
      total := total + a[i];
      i := i + 1;
    }
    assert a[..a.Length] == a[..];
  }

  /** The lowest index holding the smallest load: the scan keeps the first strictly smaller one. */
  function ArgMin(s: seq<nat>): (i: nat)
    requires |s| > 0
    ensures i < |s| && forall j :: 0 <= j < |s| ==> s[i] <= s[j]
    ensures forall j :: 0 <= j < i ==> s[i] < s[j]
  {
    if |s| == 1 then 0
    else
      var k := ArgMin(s[..|s| - 1]);
      assert forall j :: 0 <= j < |s| - 1 ==> s[..|s| - 1][j] == s[j];
      if s[|s| - 1] < s[k] then |s| - 1 else k
  }

  /** The lowest index holding the largest load: the scan keeps the first strictly larger one. */
  function ArgMax(s: seq<nat>): (i: nat)
    requires |s| > 0
    ensures i < |s| && forall j :: 0 <= j < |s| ==> s[j] <= s[i]
    ensures forall j :: 0 <= j < i ==> s[j] < s[i]
  {
    if |s| == 1 then 0
    else
      var k := ArgMax(s[..|s| - 1]);
      assert forall j :: 0 <= j < |s| - 1 ==> s[..|s| - 1][j] == s[j];
      if s[|s| - 1] > s[k] then |s| - 1 else k
  }

  /** The scan for the least-loaded shard: `best_shard` and `min_load`. */
  method LeastLoaded(a: array<nat>) returns (best: nat, min: nat)
    requires a.Length > 0
    ensures best == ArgMin(a[..]) && min == a[best]
  {
    best := 0;
    min := a[0];
    var i := 1;
    while i < a.Length
      invariant 1 <= i <= a.Length
      invariant best == ArgMin(a[..i]) && min == a[best]
    {
      assert a[..i + 1][..i] == a[..i];
      if a[i] < min {
        best := i;
        min := a[i];
      }
      i := i + 1;
    }
    assert a[..a.Length] == a[..];
  }

  /** The running minimum of the stats loop, starting from `init`. */
  function MinFrom(init: nat, s: seq<nat>): (m: nat)
    ensures m <= init && forall i :: 0 <= i < |s| ==> m <= s[i]
    ensures m == init || exists i :: 0 <= i < |s| && m == s[i]
  {
    if s == [] then init
    else
      var m := MinFrom(init, s[..|s| - 1]);
      assert forall i :: 0 <= i < |s| - 1 ==> s[..|s| - 1][i] == s[i];
      if s[|s| - 1] < m then s[|s| - 1] else m
  }

  /** The running maximum of the stats loop, starting from `init`. */
  function MaxFrom(init: nat, s: seq<nat>): (m: nat)
    ensures init <= m && forall i :: 0 <= i < |s| ==> s[i] <= m
    ensures m == init || exists i :: 0 <= i < |s| && m == s[i]
  {
    if s == [] then init
    else
      var m := MaxFrom(init, s[..|s| - 1]);
      assert forall i :: 0 <= i < |s| - 1 ==> s[..|s| - 1][i] == s[i];
      if s[|s| - 1] > m then s[|s| - 1] else m
  }

  /**
   * The stats loop: the total, and the smallest and largest load starting
   * from `SIZE_MAX` and 0, so an empty vector reports `SIZE_MAX` and 0.
   */
  method ScanLoads(a: array<nat>) returns (total: nat, min: nat, max: nat)
    ensures total == Sum(a[..]) && min == MinFrom(SIZE_MAX, a[..]) && max == MaxFrom(0, a[..])
  {
    total, min, max := 0, SIZE_MAX, 0;
    var i := 0;
    while i < a.Length
      invariant i <= a.Length && total == Sum(a[..i])
      invariant min == MinFrom(SIZE_MAX, a[..i]) && max == MaxFrom(0, a[..i])
    {
      assert a[..i + 1][..i] == a[..i];
      total := total + a[i];
      if a[i] < min {
        min := a[i];
      }
      if a[i] > max {
        max := a[i];
      }
      i := i + 1;
    }
    assert a[..a.Length] == a[..];
  }

  /** Over a non-empty vector of `size_t` loads the scan's minimum is the true minimum and at most the maximum. */
  lemma ScanBounds(s: seq<nat>)
    requires |s| > 0 && forall i :: 0 <= i < |s| ==> s[i] <= SIZE_MAX
    ensures MinFrom(SIZE_MAX, s) == s[ArgMin(s)] && MinFrom(SIZE_MAX, s) <= MaxFrom(0, s)
  {
    var m := MinFrom(SIZE_MAX, s);
    if m == SIZE_MAX {
      assert s[ArgMin(s)] <= SIZE_MAX;
    }
  }

  /**
   * The window step of `record_insertion` (`router.hpp`) and
   * `recordInsertion` (`AdaptiveRouter.h`): one more recent insert on a
   * shard, then, once the window holds `WINDOW_SIZE` inserts per shard, the
   * whole window zeroed. Either way the window ends below that threshold.
   */
  method BumpWindow(recent: array<nat>, idx: nat) returns (reset: bool)
    requires idx < recent.Length
    modifies recent
    ensures reset <==> Sum(old(recent[..])) + 1 >= WINDOW_SIZE * recent.Length
    ensures reset ==> forall i :: 0 <= i < recent.Length ==> recent[i] == 0
    ensures !reset ==> recent[..] == old(recent[..])[idx := old(recent[idx]) + 1]
    ensures Sum(recent[..]) < WINDOW_SIZE * recent.Length
  {
    SumUpdate(recent[..], idx, recent[idx] + 1);
    recent[idx] := recent[idx] + 1;
    var total := TotalLoad(recent);
    reset := total >= WINDOW_SIZE * recent.Length;
    if reset {
      var i := 0;
      while i < recent.Length
        invariant i <= recent.Length
        invariant forall j :: 0 <= j < i ==> recent[j] == 0
      {
        recent[i] := 0;
        i := i + 1;
      }
      SumZeros(recent[..]);
    }
  }

  /** `load > 1.5 * avg` with avg = total / n, cross-multiplied: 2 * load * n > 3 * total. */
  predicate Overloaded(load: nat, total: nat, n: nat)
  {
    2 * load * n > 3 * total
  }

  /** `load < avg` with avg = total / n, cross-multiplied. */
  predicate BelowAverage(load: nat, total: nat, n: nat)
  {
    load * n < total
  }

  /**
   * The load-aware rule shared by `router.c` and `router.hpp`: keep the
   * natural shard unless its load exceeds 1.5 times the average; then the
   * lowest-index least-loaded shard if its load is below the average, and
   * otherwise the shard the random draw names.
   */
  function LoadAware(loads: seq<nat>, natural: nat, random: nat): (shard: nat)
    requires natural < |loads|
    ensures shard < |loads|
  {
    if !Overloaded(loads[natural], Sum(loads), |loads|) then natural
    else if BelowAverage(loads[ArgMin(loads)], Sum(loads), |loads|) then ArgMin(loads)
    else random % |loads|
  }

  /** `route_load_aware` of `router.c` and `router.hpp`: the scans, then the rule. */
  method RouteLoadAware(loads: array<nat>, natural: nat, random: nat) returns (shard: nat)
    requires natural < loads.Length
    ensures shard == LoadAware(loads[..], natural, random)
  {
    var primary := loads[natural];
    var total := TotalLoad(loads);
    if !Overloaded(primary, total, loads.Length) {
      return natural;
    }
    var best, min := LeastLoaded(loads);
    if BelowAverage(min, total, loads.Length) {
      return best;
    }
    shard := random % loads.Length;
  }

  /** A load below the average is below any load above 1.5 times the average. */
  lemma BelowOverloaded(m: nat, p: nat, t: nat, n: nat)
    requires Overloaded(p, t, n) && BelowAverage(m, t, n)
    ensures m < p
  {
    if p <= m {
      MulMono(p, m, n);
    }
  }

  lemma MulMono(a: nat, b: nat, n: nat)
    requires a <= b
    ensures a * n <= b * n
  {
    var d := b - a;
    assert b * n == a * n + d * n;
  }

  /**
   * An overloaded shard never receives a load-aware redirect: whenever the
   * rule leaves the natural shard for a scanned one, that shard's load is
   * below the average and hence below the natural shard's.
   */
  lemma LoadAwareRelieves(loads: seq<nat>, natural: nat, random: nat)
    requires natural < |loads|
    ensures var s := LoadAware(loads, natural, random);
      s != natural && BelowAverage(loads[ArgMin(loads)], Sum(loads), |loads|) && s == ArgMin(loads) ==>
        loads[s] < loads[natural]
  {
    var s := LoadAware(loads, natural, random);
    var m, p, t, n := loads[ArgMin(loads)], loads[natural], Sum(loads), |loads|;
    if s != natural && BelowAverage(m, t, n) && s == ArgMin(loads) {
      assert Overloaded(p, t, n);
      BelowOverloaded(m, p, t, n);
    }
  }
}

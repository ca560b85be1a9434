/**
 * `CachedLoadStats` (`cached_load_stats.hpp`): a vector of per-shard
 * loads and a cache of its minimum, maximum and total, refreshed by a
 * scan. The loads are `size_t` counters: incrementing the largest one and
 * decrementing a zero one wrap around, as `fetch_add` and `fetch_sub` do.
 *
 * The background thread that calls `refresh` every millisecond, `start`
 * and `stop` are not part of this model; `refresh` is an ordinary method.
 * Averages and ratios are exact rationals here, not doubles.
 */
module LoadStats {
  import opened Routing

  /** `fetch_add(1)` on a `size_t`. */
  function IncWord(x: nat): (y: nat)
    requires x <= SIZE_MAX
    ensures y <= SIZE_MAX
  {
    if x == SIZE_MAX then 0 else x + 1
  }

  /** `fetch_sub(1)` on a `size_t`: a zero load wraps to `SIZE_MAX`. */
  function DecWord(x: nat): (y: nat)
    requires x <= SIZE_MAX
    ensures y <= SIZE_MAX
  {
    if x == 0 then SIZE_MAX else x - 1
  }

  /** The two wrapping steps undo each other on every `size_t`. */
  lemma IncDecInverse(x: nat)
    requires x <= SIZE_MAX
    ensures DecWord(IncWord(x)) == x && IncWord(DecWord(x)) == x
  {
  }

  /** The number of `size_t` values: `size_t` sums are taken modulo it. */
  const WORD: nat := SIZE_MAX + 1

  /** Adding to a wrapped total wraps the same as adding to the exact one. */
  lemma AddWrapped(t: nat, x: nat)
    ensures (t % WORD + x) % WORD == (t + x) % WORD
  {
    var q := t / WORD;
    assert t == q * WORD + t % WORD;
    assert t + x == q * WORD + (t % WORD + x);
  }

  /** A total that fits in a `size_t` is its own wrapped value. */
  lemma WrapSmall(t: nat)
    requires t <= SIZE_MAX
    ensures t % WORD == t
  {
  }

  /** One more load adds itself to the total. */
  lemma SumStep(p: seq<nat>, x: nat)
    ensures Sum(p + [x]) == Sum(p) + x
  {
    assert (p + [x])[..|p|] == p;
  }

  /** The wrapped total of one more load is the wrapped sum of the longer prefix. */
  lemma WrapStep(p: seq<nat>, x: nat, total: nat)
    requires total == Sum(p) % WORD
    ensures (total + x) % WORD == Sum(p + [x]) % WORD
  {
    SumStep(p, x);
    AddWrapped(Sum(p), x);
  }

  /** One step of the scan: the first least and the first greatest load of one more element. */
  lemma ArgStep(p: seq<nat>, x: nat)
    ensures p != [] ==> ArgMin(p + [x]) == (if x < p[ArgMin(p)] then |p| else ArgMin(p))
    ensures p != [] ==> ArgMax(p + [x]) == (if x > p[ArgMax(p)] then |p| else ArgMax(p))
    ensures p == [] ==> ArgMin(p + [x]) == 0 && ArgMax(p + [x]) == 0
  {
    assert (p + [x])[..|p|] == p;
  }

  /** The running minimum, started from `UINT64_MAX`, is the first least load after one more step. */
  lemma MinKept(p: seq<nat>, x: nat, idx: nat, m: nat, idx': nat, m': nat)
    requires x <= SIZE_MAX
    requires p == [] ==> idx == 0 && m == SIZE_MAX
    requires p != [] ==> idx == ArgMin(p) && m == p[idx]
    requires if x < m then idx' == |p| && m' == x else idx' == idx && m' == m
    ensures idx' == ArgMin(p + [x]) && m' == (p + [x])[idx']
  {
    ArgStep(p, x);
  }

  /** The running maximum, started from 0, is the first greatest load after one more step. */
  lemma MaxKept(p: seq<nat>, x: nat, idx: nat, m: nat, idx': nat, m': nat)
    requires p == [] ==> idx == 0 && m == 0
    requires p != [] ==> idx == ArgMax(p) && m == p[idx]
    requires if x > m then idx' == |p| && m' == x else idx' == idx && m' == m
    ensures idx' == ArgMax(p + [x]) && m' == (p + [x])[idx']
  {
    ArgStep(p, x);
  }

  /**
   * The scan of `refresh` over a non-empty vector of `size_t` loads: the
   * `size_t` total, which is the sum modulo 2^64, and the first least and
   * first greatest load with their indices (the minimum starts from
   * `UINT64_MAX`, the maximum from 0).
   */
  method ScanExtremes(a: array<nat>) returns (total: nat, minIdx: nat, min: nat, maxIdx: nat, max: nat)
    requires a.Length > 0 && forall i :: 0 <= i < a.Length ==> a[i] <= SIZE_MAX
    ensures total == Sum(a[..]) % WORD && total <= SIZE_MAX
    ensures minIdx == ArgMin(a[..]) && min == a[minIdx] && maxIdx == ArgMax(a[..]) && max == a[maxIdx]
  {
    total, minIdx, min, maxIdx, max := 0, 0, SIZE_MAX, 0, 0;
    var i := 0;
    while i < a.Length
      invariant i <= a.Length && total == Sum(a[..i]) % WORD
      invariant i == 0 ==> min == SIZE_MAX && max == 0 && minIdx == 0 && maxIdx == 0
      invariant i > 0 ==> minIdx == ArgMin(a[..i]) && min == a[minIdx]
      invariant i > 0 ==> maxIdx == ArgMax(a[..i]) && max == a[maxIdx]
    {
      var load := a[i];
      assert a[..i + 1] == a[..i] + [load];
      WrapStep(a[..i], load, total);
      total := (total + load) % WORD;
      ghost var minIdx0, min0, maxIdx0, max0 := minIdx, min, maxIdx, max;
      if load < min {
        min := load;
        minIdx := i;
      }
      if load > max {
        max := load;
        maxIdx := i;
      }
      MinKept(a[..i], load, minIdx0, min0, minIdx, min);
      MaxKept(a[..i], load, maxIdx0, max0, maxIdx, max);
      i := i + 1;
    }
    assert a[..a.Length] == a[..];
  }

  /** Scaling by a positive factor keeps a strict comparison. */
  lemma RealScale(a: real, b: real, r: real)
    requires r > 0.0
    ensures a > b <==> a * r > b * r
  {
    if a > b {
      assert a * r - b * r == (a - b) * r;
    } else {
      assert b * r - a * r == (b - a) * r;
    }
  }

  class CachedLoadStats {
    const loads: array<nat>
    var minShard: nat
    var maxShard: nat
    var minLoad: nat
    var maxLoad: nat
    var totalLoad: nat

    /** Every load is a `size_t`. */
    ghost predicate Valid()
      reads this, loads
    {
      forall i :: 0 <= i < loads.Length ==> loads[i] <= SIZE_MAX
    }

    /** The constructor: `num_shards` zero loads and a zero cache. */
    constructor (numShards: nat)
      ensures Valid() && fresh(loads) && loads[..] == seq(numShards, _ => 0)
      ensures minShard == 0 && maxShard == 0 && minLoad == 0 && maxLoad == 0 && totalLoad == 0
    {
      loads := new nat[numShards](_ => 0);
      minShard, maxShard, minLoad, maxLoad, totalLoad := 0, 0, 0, 0, 0;
    }

    /**
     * `refresh`: nothing on an empty vector; otherwise one scan that caches
     * the `size_t` total (the sum of the loads modulo 2^64, so the sum
     * itself while it fits), the lowest-index least and greatest loads and
     * their values.
     */
    method Refresh()
      requires Valid()
      modifies this
      ensures Valid()
      ensures loads.Length == 0 ==>
        && minShard == old(minShard) && maxShard == old(maxShard)
        && minLoad == old(minLoad) && maxLoad == old(maxLoad) && totalLoad == old(totalLoad)
      ensures loads.Length > 0 ==>
        && totalLoad == Sum(loads[..]) % WORD && totalLoad <= SIZE_MAX
        && (Sum(loads[..]) <= SIZE_MAX ==> totalLoad == Sum(loads[..]))
        && minShard == ArgMin(loads[..]) && minLoad == loads[minShard]
        && maxShard == ArgMax(loads[..]) && maxLoad == loads[maxShard]
    {
      if loads.Length == 0 {
        return;
      }
      var total, minIdx, min, maxIdx, max := ScanExtremes(loads);
      if Sum(loads[..]) <= SIZE_MAX {
        WrapSmall(Sum(loads[..]));
      }
      minShard, maxShard, minLoad, maxLoad, totalLoad := minIdx, maxIdx, min, max, total;
    }

    /** After a refresh of a non-empty vector, the cached bounds enclose every load. */
    lemma RefreshedBounds()
      requires loads.Length > 0 && minShard == ArgMin(loads[..]) && minLoad == loads[minShard]
      requires maxShard == ArgMax(loads[..]) && maxLoad == loads[maxShard]
      ensures forall i :: 0 <= i < loads.Length ==> minLoad <= loads[i] <= maxLoad
      ensures minLoad <= maxLoad && 0.0 <= BalanceScore() <= 1.0
    {
      assert forall i :: 0 <= i < loads.Length ==> loads[..][i] == loads[i];
    }

    /** `increment_load`: one more load on a shard, wrapping; other ids are ignored. */
    method IncrementLoad(shard: nat)
      requires Valid()
      modifies loads
      ensures Valid()
      ensures loads[..] == if shard < loads.Length then old(loads[..])[shard := IncWord(old(loads[shard]))] else old(loads[..])
    {
      if shard < loads.Length {
        loads[shard] := IncWord(loads[shard]);
      }
    }

    /** `decrement_load`: one load less on a shard, wrapping below zero; other ids are ignored. */
    method DecrementLoad(shard: nat)
      requires Valid()
      modifies loads
      ensures Valid()
      ensures loads[..] == if shard < loads.Length then old(loads[..])[shard := DecWord(old(loads[shard]))] else old(loads[..])
    {
      if shard < loads.Length {
        loads[shard] := DecWord(loads[shard]);
      }
    }

    /** `set_load`: overwrite a shard's load; other ids are ignored. */
    method SetLoad(shard: nat, load: nat)
      requires Valid() && load <= SIZE_MAX
      modifies loads
      ensures Valid()
      ensures loads[..] == if shard < loads.Length then old(loads[..])[shard := load] else old(loads[..])
    {
      if shard < loads.Length {
        loads[shard] := load;
      }
    }

    /** `get_load`: a shard's load, or 0 for an id past the last shard. */
    function GetLoad(shard: nat): (load: nat)
      reads this, loads
      ensures shard < loads.Length ==> load == loads[shard]
      ensures shard >= loads.Length ==> load == 0
    {
      if shard < loads.Length then loads[shard] else 0
    }

    /** `get_average_load`: the cached total over the shard count, 0 without shards. */
    function AverageLoad(): (avg: real)
      reads this
      ensures loads.Length > 0 ==> avg * loads.Length as real == totalLoad as real
      ensures loads.Length == 0 ==> avg == 0.0
    {
      if loads.Length == 0 then 0.0 else totalLoad as real / loads.Length as real
    }

    /** `get_balance_score`: 1 when the cached maximum is 0, else the cached minimum over it. */
    function BalanceScore(): (score: real)
      reads this
      ensures maxLoad == 0 ==> score == 1.0
      ensures minLoad <= maxLoad ==> 0.0 <= score <= 1.0
      ensures 0 < minLoad == maxLoad ==> score == 1.0
    {
      if maxLoad == 0 then 1.0 else minLoad as real / maxLoad as real
    }

    /** `detect_hotspot`: false with a zero average, else the cached maximum above threshold times the average. */
    function DetectHotspot(threshold: real): (hot: bool)
      reads this
      ensures AverageLoad() == 0.0 ==> !hot
    {
      if AverageLoad() == 0.0 then false else maxLoad as real > AverageLoad() * threshold
    }

    /**
     * With the default threshold 1.5 and a maximum no larger than the total
     * (as after a refresh whose sum did not wrap), the test is the routers'
     * cross-multiplied `Overloaded`.
     */
    lemma DefaultHotspotIsOverloaded()
      requires maxLoad <= totalLoad
      ensures DetectHotspot(1.5) == Overloaded(maxLoad, totalLoad, loads.Length)
    {
      var n := loads.Length;
      if n > 0 && totalLoad > 0 {
        var avg, r, m, t := AverageLoad(), n as real, maxLoad as real, totalLoad as real;
        assert avg * r == t;
        assert m > avg * 1.5 <==> m * r > avg * r * 1.5 by {
          RealScale(m, avg * 1.5, r);
        }
        assert (2 * maxLoad * n) as real == 2.0 * m * r;
        assert (3 * totalLoad) as real == 3.0 * t;
      }
    }

    /** `snapshot`: one load per shard, in shard order. */
    method Snapshot() returns (result: seq<nat>)
      ensures result == loads[..]
    {
      result := [];
      var i := 0;
      while i < loads.Length
        invariant i <= loads.Length && result == loads[..i]
      {
        result := result + [loads[i]];
        i := i + 1;
      }
      assert loads[..loads.Length] == loads[..];
    }
  }
}

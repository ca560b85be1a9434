/**
 * The deterministic workload generators of `workloads.hpp` and the
 * factory that names and configures all five kinds. Keys are the default
 * `Key = int`, unbounded here: the signed overflow a long run of `next`
 * would reach is undefined behaviour in C++ and is not modelled.
 *
 * The uniform, Zipfian and hotspot generators draw from `mt19937`; the
 * factory's result for them is their configuration only.
 */
module Workloads {
  import opened Wrappers

  // ---------------------------------------------------------------------------
  // Deterministic generators
  // ---------------------------------------------------------------------------

  /** `SequentialGenerator`: start, start + 1, start + 2, ... and back to start on `reset`. */
  class SequentialGenerator {
    var current: int
    const start: int
    /** How many keys have been drawn since construction or the last reset. */
    ghost var drawn: nat

    ghost predicate Valid()
      reads this
    {
      current == start + drawn
    }

    constructor (start: int)
      ensures Valid() && this.start == start && drawn == 0
    {
      this.start := start;
      current := start;
      drawn := 0;
    }

    /** `next`: the n-th key since the start or the last reset is start + n. */
    method Next() returns (key: int)
      requires Valid()
      modifies this
      ensures Valid() && key == start + old(drawn) && drawn == old(drawn) + 1
    {
      key := current;
      current := current + 1;
      drawn := drawn + 1;
    }

    /** `reset`: the next key is the start again. */
    method Reset()
      modifies this
      ensures Valid() && drawn == 0
    {
      current := start;
      drawn := 0;
    }
  }

  lemma MulAtLeast(a: int, d: int)
    requires a >= 1 && d > 0
    ensures a * d >= d
  {
    assert a * d == (a - 1) * d + d;
  }

  /** Adding the modulus keeps the remainder. */
  lemma AddStepMod(x: int, d: int)
    requires d > 0
    ensures (x + d) % d == x % d
  {
    var q, r := x / d, x % d;
    var q2, r2 := (x + d) / d, (x + d) % d;
    assert (q2 - q - 1) * d == r - r2 by {
      assert x == q * d + r;
      assert x + d == q2 * d + r2;
      assert (q2 - q - 1) * d == q2 * d - q * d - d;
    }
    if q2 - q - 1 >= 1 {
      MulAtLeast(q2 - q - 1, d);
    } else if q2 - q - 1 <= -1 {
      MulAtLeast(q + 1 - q2, d);
    }
  }

  /** Every term of start + k * step leaves the remainder of start modulo step. */
  lemma {:induction false} StrideResidue(start: int, k: nat, step: nat)
    requires step > 0
    ensures (start + k * step) % step == start % step
  {
    if k > 0 {
      StrideResidue(start, k - 1, step);
      assert start + k * step == (start + (k - 1) * step) + step;
      AddStepMod(start + (k - 1) * step, step);
    }
  }

  /**
   * `AdversarialGenerator`: target, target + n, target + 2n, ... so that
   * every key has the remainder of the target modulo the shard count.
   */
  class AdversarialGenerator {
    const numShards: nat
    const targetShard: nat
    var counter: int
    /** How many keys have been drawn since construction or the last reset. */
    ghost var drawn: nat

    ghost predicate Valid()
      reads this
    {
      counter == targetShard + drawn * numShards
    }

    constructor (numShards: nat, targetShard: nat)
      ensures Valid() && this.numShards == numShards && this.targetShard == targetShard && drawn == 0
    {
      this.numShards := numShards;
      this.targetShard := targetShard;
      counter := targetShard;
      drawn := 0;
    }

    /** `next`: the n-th key is target + n * num_shards, on the target's residue class. */
    method Next() returns (key: int)
      requires Valid()
      modifies this
      ensures Valid() && key == targetShard + old(drawn) * numShards && drawn == old(drawn) + 1
      ensures numShards > 0 ==> key % numShards == targetShard % numShards
    {
      key := counter;
      counter := counter + numShards;
      drawn := drawn + 1;
      if numShards > 0 {
        StrideResidue(targetShard, old(drawn), numShards);
      }
    }

    /** `reset`: the next key is the target again. */
    method Reset()
      modifies this
      ensures Valid() && drawn == 0
    {
      counter := targetShard;
      drawn := 0;
    }
  }

  // ---------------------------------------------------------------------------
  // The factory
  // ---------------------------------------------------------------------------

  /** `WorkloadType`, and any other value of the underlying integer. */
  datatype WorkloadType = Uniform | Zipfian | Sequential | Adversarial | OtherValue(code: int)

  /** What `WorkloadFactory::create` builds, by its constructor arguments. */
  datatype Workload =
    | UniformKeys(lo: int, hi: int, seed: nat)
    | ZipfianKeys(keySpace: nat, alpha: real, seed: nat)
    | SequentialKeys(start: int)
    | AdversarialKeys(numShards: nat, targetShard: nat)

  /**
   * `create`: uniform over [0, key_space - 1] (also for an unlisted type),
   * Zipfian with exponent 0.99, sequential from 0, adversarial on shard 0.
   */
  function Create(t: WorkloadType, keySpace: nat, numShards: nat, seed: nat): (w: Workload)
    ensures w.SequentialKeys? <==> t == Sequential
    ensures w.AdversarialKeys? <==> t == Adversarial
    ensures w.UniformKeys? ==> w.lo == 0 && w.hi == keySpace - 1
  {
    match t
    case Uniform => UniformKeys(0, keySpace - 1, seed)
    case Zipfian => ZipfianKeys(keySpace, 0.99, seed)
    case Sequential => SequentialKeys(0)
    case Adversarial => AdversarialKeys(numShards, 0)
    case OtherValue(_) => UniformKeys(0, keySpace - 1, seed)
  }

  /** The first key of a deterministic workload, and `None` for the random ones. */
  function FirstKey(w: Workload): (k: Option<int>)
    ensures k.Some? <==> w.SequentialKeys? || w.AdversarialKeys?
  {
    match w
    case SequentialKeys(start) => Some(start)
    case AdversarialKeys(_, target) => Some(target)
    case _ => None
  }

  /** A generator built from a deterministic workload starts at its first key. */
  method Start(w: Workload) returns (first: int)
    requires w.SequentialKeys? || w.AdversarialKeys?
    ensures Some(first) == FirstKey(w)
  {
    if w.SequentialKeys? {
      var g := new SequentialGenerator(w.start);
      first := g.Next();
    } else {
      var g := new AdversarialGenerator(w.numShards, w.targetShard);
      first := g.Next();
    }
  }

  /** The factory's sequential and adversarial generators both start at key 0. */
  lemma FactoryStartsAtZero(keySpace: nat, numShards: nat, seed: nat)
    ensures FirstKey(Create(Sequential, keySpace, numShards, seed)) == Some(0)
    ensures FirstKey(Create(Adversarial, keySpace, numShards, seed)) == Some(0)
  {
  }

  /** `name`: the enumerator's upper-case name, and "UNKNOWN" for any other value. */
  function Name(t: WorkloadType): (s: string)
    ensures t.OtherValue? <==> s == "UNKNOWN"
  {
    match t
    case Uniform => "UNIFORM"
    case Zipfian => "ZIPFIAN"
    case Sequential => "SEQUENTIAL"
    case Adversarial => "ADVERSARIAL"
    case OtherValue(_) => "UNKNOWN"
  }

  /** The four enumerators have four different names. */
  lemma NamesDistinct(a: WorkloadType, b: WorkloadType)
    requires !a.OtherValue? && !b.OtherValue? && a != b
    ensures Name(a) != Name(b)
  {
  }
}

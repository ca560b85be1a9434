/**
 * The hash functions of the sharded tree, all on 64-bit words (`uint64_t`,
 * `size_t`), with multiplication wrapping modulo 2^64 as in C and C++.
 *
 * - `Fmix64` is the MurmurHash3 64-bit finalizer. The C hash table
 *   (`ht_hash`), the C router (`router_hash`), the C sharded tree
 *   (`pavl_hash`) and the C++ ring code (`hash_key`, `hash_vnode`) all apply it.
 * - `Mix32On64` is the 32-bit Murmur finalizer's shifts and constants
 *   applied to a 64-bit word (`hash2` of the C++ routers).
 * - `HalfFmix64` is the first half of the finalizer, which the distributed
 *   coordinator uses to pick a shard.
 *
 * `std::hash` is implementation-defined, so callers pass it in as a function.
 */
module Hashing {

  function XorShift33(h: bv64): bv64 { h ^ (h >> 33) }
  function XorShift16(h: bv64): bv64 { h ^ (h >> 16) }
  function XorShift13(h: bv64): bv64 { h ^ (h >> 13) }

  /** The two fmix64 multipliers, wrapping modulo 2^64. */
  function MulC1(h: bv64): bv64 { h * 0xff51afd7ed558ccd }
  function MulC2(h: bv64): bv64 { h * 0xc4ceb9fe1a85ec53 }

  /** The two 32-bit finalizer multipliers, applied to a 64-bit word. */
  function MulM1(h: bv64): bv64 { h * 0x85ebca6b }
  function MulM2(h: bv64): bv64 { h * 0xc2b2ae35 }

  /** MurmurHash3 fmix64: xor-shift 33, multiply, xor-shift 33, multiply, xor-shift 33. */
  function Fmix64(h: bv64): bv64
  {
    XorShift33(MulC2(XorShift33(MulC1(XorShift33(h)))))
  }

  /** The first three steps of fmix64 (xor-shift 33, multiply, xor-shift 33). */
  function HalfFmix64(h: bv64): bv64
  {
    XorShift33(MulC1(XorShift33(h)))
  }

  /** `hash2`: the 32-bit finalizer's shifts and constants on a 64-bit word. */
  function Mix32On64(h: bv64): bv64
  {
    XorShift16(MulM2(XorShift13(MulM1(XorShift16(h)))))
  }

  // ---------------------------------------------------------------------------
  // Each step is invertible, so the mixers are bijections on 64-bit words.
  // Each step's inverse is proved twice over: a closed identity left to the
  // bit-vector solver, and an unfolding of the named step to that identity.
  // ---------------------------------------------------------------------------

  /** Undoes `XorShift16`. */
  function UnXorShift16(y: bv64): bv64
  {
    y ^ (y >> 16) ^ (y >> 32) ^ (y >> 48)
  }

  /** Undoes `XorShift13`. */
  function UnXorShift13(y: bv64): bv64
  {
    y ^ (y >> 13) ^ (y >> 26) ^ (y >> 39) ^ (y >> 52)
  }

  /** Multiplication by the inverses of the odd constants modulo 2^64. */
  function UnMulC1(h: bv64): bv64 { h * 0x4f74430c22a54005 }
  function UnMulC2(h: bv64): bv64 { h * 0x9cb4b2f8129337db }
  function UnMulM1(h: bv64): bv64 { h * 0x000a7324a5cb9243 }
  function UnMulM2(h: bv64): bv64 { h * 0xd16e308e7ed1b41d }

  lemma XorShift33Closed(h: bv64)
    ensures (h ^ (h >> 33)) ^ ((h ^ (h >> 33)) >> 33) == h
  {
  }

  lemma XorShift33Unfold(h: bv64)
    ensures XorShift33(XorShift33(h)) == (h ^ (h >> 33)) ^ ((h ^ (h >> 33)) >> 33)
  {
    assert XorShift33(h) == h ^ (h >> 33);
  }

  /** A shift by 33 leaves the top half untouched, so the step undoes itself. */
  lemma XorShift33Involution(h: bv64)
    ensures XorShift33(XorShift33(h)) == h
  {
    XorShift33Unfold(h);
    XorShift33Closed(h);
  }

  lemma UnXorShift16Closed(h: bv64)
    ensures (h ^ (h >> 16)) ^ ((h ^ (h >> 16)) >> 16) ^ ((h ^ (h >> 16)) >> 32) ^ ((h ^ (h >> 16)) >> 48) == h
  {
  }

  lemma UnXorShift16Unfold(h: bv64)
    ensures UnXorShift16(XorShift16(h))
         == (h ^ (h >> 16)) ^ ((h ^ (h >> 16)) >> 16) ^ ((h ^ (h >> 16)) >> 32) ^ ((h ^ (h >> 16)) >> 48)
  {
    assert XorShift16(h) == h ^ (h >> 16);
  }

  lemma UnXorShift16Inverse(h: bv64)
    ensures UnXorShift16(XorShift16(h)) == h
  {
    UnXorShift16Unfold(h);
    UnXorShift16Closed(h);
  }

  lemma UnXorShift13Closed(h: bv64)
    ensures (h ^ (h >> 13)) ^ ((h ^ (h >> 13)) >> 13) ^ ((h ^ (h >> 13)) >> 26)
          ^ ((h ^ (h >> 13)) >> 39) ^ ((h ^ (h >> 13)) >> 52) == h
  {
  }

  lemma UnXorShift13Unfold(h: bv64)
    ensures UnXorShift13(XorShift13(h))
         == (h ^ (h >> 13)) ^ ((h ^ (h >> 13)) >> 13) ^ ((h ^ (h >> 13)) >> 26)
          ^ ((h ^ (h >> 13)) >> 39) ^ ((h ^ (h >> 13)) >> 52)
  {
    assert XorShift13(h) == h ^ (h >> 13);
  }

  lemma UnXorShift13Inverse(h: bv64)
    ensures UnXorShift13(XorShift13(h)) == h
  {
    UnXorShift13Unfold(h);
    UnXorShift13Closed(h);
  }

  lemma MulC1Closed(h: bv64) ensures h * 0xff51afd7ed558ccd * 0x4f74430c22a54005 == h {}
  lemma MulC2Closed(h: bv64) ensures h * 0xc4ceb9fe1a85ec53 * 0x9cb4b2f8129337db == h {}
  lemma MulM1Closed(h: bv64) ensures h * 0x85ebca6b * 0x000a7324a5cb9243 == h {}
  lemma MulM2Closed(h: bv64) ensures h * 0xc2b2ae35 * 0xd16e308e7ed1b41d == h {}

  lemma MulC1Unfold(h: bv64) ensures UnMulC1(MulC1(h)) == h * 0xff51afd7ed558ccd * 0x4f74430c22a54005
  {
    assert MulC1(h) == h * 0xff51afd7ed558ccd;
  }
  lemma MulC2Unfold(h: bv64) ensures UnMulC2(MulC2(h)) == h * 0xc4ceb9fe1a85ec53 * 0x9cb4b2f8129337db
  {
    assert MulC2(h) == h * 0xc4ceb9fe1a85ec53;
  }
  lemma MulM1Unfold(h: bv64) ensures UnMulM1(MulM1(h)) == h * 0x85ebca6b * 0x000a7324a5cb9243
  {
    assert MulM1(h) == h * 0x85ebca6b;
  }
  lemma MulM2Unfold(h: bv64) ensures UnMulM2(MulM2(h)) == h * 0xc2b2ae35 * 0xd16e308e7ed1b41d
  {
    assert MulM2(h) == h * 0xc2b2ae35;
  }

  lemma MulC1Inverse(h: bv64) ensures UnMulC1(MulC1(h)) == h { MulC1Unfold(h); MulC1Closed(h); }
  lemma MulC2Inverse(h: bv64) ensures UnMulC2(MulC2(h)) == h { MulC2Unfold(h); MulC2Closed(h); }
  lemma MulM1Inverse(h: bv64) ensures UnMulM1(MulM1(h)) == h { MulM1Unfold(h); MulM1Closed(h); }
  lemma MulM2Inverse(h: bv64) ensures UnMulM2(MulM2(h)) == h { MulM2Unfold(h); MulM2Closed(h); }

  /** The inverse of `Fmix64`: the steps undone in reverse order. */
  function UnFmix64(h: bv64): bv64
  {
    XorShift33(UnMulC1(XorShift33(UnMulC2(XorShift33(h)))))
  }

  lemma {:induction false} UnFmix64Inverse(h: bv64)
    ensures UnFmix64(Fmix64(h)) == h
  {
    var a := XorShift33(h);
    var b := XorShift33(MulC1(a));
    XorShift33Involution(MulC2(b));
    MulC2Inverse(b);
    XorShift33Involution(MulC1(a));
    MulC1Inverse(a);
    XorShift33Involution(h);
  }

  /** fmix64 never maps two different words to the same hash. */
  lemma Fmix64Injective(a: bv64, b: bv64)
    requires Fmix64(a) == Fmix64(b)
    ensures a == b
  {
    UnFmix64Inverse(a);
    UnFmix64Inverse(b);
  }

  /** The inverse of `Mix32On64`. */
  function UnMix32On64(h: bv64): bv64
  {
    UnXorShift16(UnMulM1(UnXorShift13(UnMulM2(UnXorShift16(h)))))
  }

  lemma {:induction false} UnMix32On64Inverse(h: bv64)
    ensures UnMix32On64(Mix32On64(h)) == h
  {
    var x := XorShift16(h);
    var y := XorShift13(MulM1(x));
    UnXorShift16Inverse(MulM2(y));
    MulM2Inverse(y);
    UnXorShift13Inverse(MulM1(x));
    MulM1Inverse(x);
    UnXorShift16Inverse(h);
  }

  /** `hash2` of the C++ routers never maps two different words to the same hash. */
  lemma Mix32On64Injective(a: bv64, b: bv64)
    requires Mix32On64(a) == Mix32On64(b)
    ensures a == b
  {
    UnMix32On64Inverse(a);
    UnMix32On64Inverse(b);
  }

  // ---------------------------------------------------------------------------
  // Keys, words and slots
  // ---------------------------------------------------------------------------

  const TWO_TO_64: int := 0x1_0000_0000_0000_0000
  const INT64_MIN: int := -0x8000_0000_0000_0000
  const INT64_MAX: int := 0x7fff_ffff_ffff_ffff

  predicate IsInt64(k: int) { INT64_MIN <= k <= INT64_MAX }

  /** `int64_t`. */
  newtype Int64 = k: int | INT64_MIN <= k <= INT64_MAX

  /** `(uint64_t)k`: the two's complement reinterpretation of an `int64_t` key. */
  function AsU64(k: Int64): bv64
  {
    (if k < 0 then k as int + TWO_TO_64 else k as int) as bv64
  }

  /** `ht_hash`, `router_hash` and `pavl_hash`: fmix64 of the key as an unsigned word. */
  function KeyHash(k: Int64): bv64
  {
    Fmix64(AsU64(k))
  }

  /** Two keys whose unsigned words differ never share a hash, whichever C function computes it. */
  lemma KeyHashOfWord(a: Int64, b: Int64)
    requires AsU64(a) != AsU64(b)
    ensures KeyHash(a) != KeyHash(b)
  {
    if KeyHash(a) == KeyHash(b) {
      Fmix64Injective(AsU64(a), AsU64(b));
    }
  }

  /** A 64-bit word read as an unsigned number. */
  function WordValue(h: bv64): nat
  {
    h as nat
  }

  /** `ht_hash` read as a number: the hash function of the C hash table. */
  function KeyHashValue(k: Int64): nat
  {
    WordValue(KeyHash(k))
  }
}

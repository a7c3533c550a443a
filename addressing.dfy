/**
 * Bucket addressing (cuckoohash_map.go): the number of buckets for a hash
 * power, the mask that selects a bucket index, a key's two candidate buckets,
 * and the bridge between the 64-bit words the source computes with and the
 * integers the rest of the model counts with.
 */
module Addressing {
  import opened Arith

  /**
   * `HashSize`: Go's `1 << hp` on a uint64, which is 0 once `hp` reaches 64.
   * Below 64 it is a single set bit, a power of two.
   */
  function HashSize(hp: bv32): (n: bv64)
    ensures hp < 64 ==> n != 0 && n & (n - 1) == 0
    ensures hp >= 64 ==> n == 0
  {
    if hp < 64 then 1 << hp else 0
  }

  /**
   * `HashMask`: one less than the bucket count. Below 64 it is a run of low
   * one bits below the bucket count; from 64 the count wraps to 0 and the
   * mask to all ones.
   */
  function HashMask(hp: bv32): (m: bv64)
    ensures hp < 64 ==> m < HashSize(hp) && m & (m + 1) == 0
    ensures hp >= 64 ==> m == 0xFFFF_FFFF_FFFF_FFFF
  {
    HashSize(hp) - 1
  }

  // ---------------------------------------------------------------------------
  // The bucket count as an integer, built up one doubling at a time.

  /** Doubling a word below 2^63 doubles its value. */
  lemma Double(x: bv64)
    requires x < 0x8000_0000_0000_0000
    ensures (x << 1) as int == 2 * x as int
  {
  }

  /** One step of `HashSize`: the next power doubles the word. */
  lemma HashSizeStep(k: bv8)
    requires 0 < k < 64
    ensures HashSize(k as bv32) == HashSize((k - 1) as bv32) << 1
    ensures HashSize((k - 1) as bv32) < 0x8000_0000_0000_0000
    ensures (k - 1) as int == k as int - 1
  {
  }

  /** The next hash power doubles the bucket count, as an integer. */
  lemma HashSizeDoubles(k: bv8)
    requires 0 < k < 64
    ensures HashSize(k as bv32) as int == 2 * HashSize((k - 1) as bv32) as int
    ensures (k - 1) as int == k as int - 1
  {
    HashSizeStep(k);
    Double(HashSize((k - 1) as bv32));
  }

  /** `HashSize` by induction on a small exponent. */
  lemma {:induction false} HashSizeAt(k: bv8)
    requires k < 64
    ensures HashSize(k as bv32) as int == Pow2(k as int)
    decreases k
  {
    if k > 0 {
      HashSizeAt(k - 1);
      HashSizeDoubles(k);
    }
  }

  /** Below 64, the bucket count for hash power `hp` is 2^hp. */
  lemma HashSizePow2(hp: bv32)
    requires hp < 64
    ensures HashSize(hp) as int == Pow2(hp as int)
  {
    HashSizeAt(hp as bv8);
    assert (hp as bv8) as bv32 == hp;
    assert (hp as bv8) as int == hp as int;
  }

  // ---------------------------------------------------------------------------
  // Masks and bucket indices.

  /** Below 64, a word survives the mask exactly when it is a bucket index. */
  lemma MaskSelectsIndices(hp: bv32, x: bv64)
    requires hp < 64
    ensures x & HashMask(hp) == x <==> x < HashSize(hp)
  {
  }

  /** Below 64, a masked word is a bucket index. */
  lemma MaskBound(hp: bv32, x: bv64)
    requires hp < 64
    ensures x & HashMask(hp) < HashSize(hp)
  {
  }

  /** `MaskBound` for every hash power, as an implication. */
  lemma MaskBoundBelow64(hp: bv32, x: bv64)
    ensures hp < 64 ==> x & HashMask(hp) < HashSize(hp)
  {
    if hp < 64 {
      MaskBound(hp, x);
    }
  }

  /** At 64 and above the bucket count wraps to 0 and the mask keeps every bit. */
  lemma MaskAllOnes(hp: bv32, x: bv64)
    requires hp >= 64
    ensures x & HashMask(hp) == x
  {
  }

  /** Masking twice is masking once. */
  lemma MaskIdempotent(m: bv64, x: bv64)
    ensures (x & m) & m == x & m
  {
  }

  /**
   * `indexHash`: the first candidate bucket of a hash, its low `hp` bits.
   * Below 64 it is a bucket index.
   */
  function IndexHash(hp: bv32, h: bv64): (i: bv64)
    ensures hp < 64 ==> i < HashSize(hp)
  {
    MaskBoundBelow64(hp, h);
    h & HashMask(hp)
  }

  /** The definition of `IndexHash`, as a fact to rewrite with. */
  lemma IndexHashDef(hp: bv32, h: bv64)
    ensures IndexHash(hp, h) == h & HashMask(hp)
  {
  }

  /** `h` and its masked bits agree on every bit the mask keeps. */
  lemma MaskAgrees(hp: bv32, h: bv64)
    ensures (h ^ (h & HashMask(hp))) & HashMask(hp) == 0
  {
  }

  /** Below 64, a bucket index that agrees with `h` on the masked bits is `h`'s masked bits. */
  lemma AgreeingIndexUnique(hp: bv32, h: bv64, r: bv64)
    requires hp < 64 && r < HashSize(hp) && (h ^ r) & HashMask(hp) == 0
    ensures r == h & HashMask(hp)
  {
  }

  /**
   * `indexHash` is `h mod 2^hp`: it agrees with `h` on the `hp` low bits
   * (it is congruent to `h` modulo 2^hp), and below 64 no other bucket index does.
   * At 64 and above it is `h` itself.
   */
  lemma IndexHashIsRemainder(hp: bv32, h: bv64, r: bv64)
    ensures (h ^ IndexHash(hp, h)) & HashMask(hp) == 0
    ensures hp < 64 && r < HashSize(hp) && (h ^ r) & HashMask(hp) == 0 ==> r == IndexHash(hp, h)
    ensures hp >= 64 ==> IndexHash(hp, h) == h
  {
    IndexHashDef(hp, h);
    MaskAgrees(hp, h);
    if hp < 64 && r < HashSize(hp) && (h ^ r) & HashMask(hp) == 0 {
      AgreeingIndexUnique(hp, h, r);
    }
    if hp >= 64 {
      MaskAllOnes(hp, h);
    }
  }

  // ---------------------------------------------------------------------------
  // The alternate bucket.

  /**
   * The multiplier `altIndex` XORs into the index: `uint64(partial + 1)` times
   * the MurmurHash2 constant. The increment happens in `uint8`, so it wraps
   * at 255 and the "nonzero tag" is zero for exactly that tag, which makes
   * the multiplier vanish for tag 255 and for no other tag.
   */
  function TagMultiplier(partial: bv8): (k: bv64)
    ensures k == 0 <==> partial == 255
  {
    Spread((partial + 1) as bv64)
  }

  /** Multiplication by the MurmurHash2 constant, wrapping at 2^64. */
  function Spread(t: bv64): bv64
  {
    t * 0xc6a4a7935bd1e995
  }

  /** XOR-ing key `k` into `idx` and keeping the bits of mask `m`: the shape of `altIndex`. */
  function Toggle(m: bv64, k: bv64, idx: bv64): bv64
  {
    (idx ^ k) & m
  }

  /** Toggling twice with the same key restores the masked index: the keys cancel. */
  lemma ToggleTwice(m: bv64, k: bv64, idx: bv64)
    ensures Toggle(m, k, Toggle(m, k, idx)) == idx & m
  {
  }

  /**
   * `altIndex`: the other candidate bucket, the index XOR the tag multiplier,
   * masked to the table. Below 64 it is a bucket index.
   */
  function AltIndex(hp: bv32, partial: bv8, idx: bv64): (j: bv64)
    ensures hp < 64 ==> j < HashSize(hp)
  {
    MaskBoundBelow64(hp, idx ^ TagMultiplier(partial));
    (idx ^ TagMultiplier(partial)) & HashMask(hp)
  }

  /** `AltIndex` is a toggle with the tag's multiplier. */
  lemma AltIndexDef(hp: bv32, partial: bv8, idx: bv64)
    ensures AltIndex(hp, partial, idx) == Toggle(HashMask(hp), TagMultiplier(partial), idx)
  {
  }

  /** The involution: from either candidate bucket, `altIndex` leads to the other. */
  lemma AltIndexInvolution(hp: bv32, partial: bv8, idx: bv64)
    requires idx < HashSize(hp)
    ensures AltIndex(hp, partial, AltIndex(hp, partial, idx)) == idx
  {
    AltIndexDef(hp, partial, idx);
    AltIndexDef(hp, partial, AltIndex(hp, partial, idx));
    ToggleTwice(HashMask(hp), TagMultiplier(partial), idx);
    MaskSelectsIndices(hp, idx);
  }

  /** The involution on a key's first bucket, at every hash power (the test's round trip). */
  lemma AltIndexInvolutionOnIndexHash(hp: bv32, partial: bv8, h: bv64)
    ensures AltIndex(hp, partial, AltIndex(hp, partial, IndexHash(hp, h))) == IndexHash(hp, h)
  {
    var i := IndexHash(hp, h);
    AltIndexDef(hp, partial, i);
    AltIndexDef(hp, partial, AltIndex(hp, partial, i));
    ToggleTwice(HashMask(hp), TagMultiplier(partial), i);
    IndexHashDef(hp, h);
    MaskIdempotent(HashMask(hp), h);
  }

  /** Toggling with a zero key only masks. */
  lemma ToggleZero(m: bv64, idx: bv64)
    ensures Toggle(m, 0, idx) == idx & m
  {
  }

  /**
   * With tag 255 the multiplier wraps to 0 and `altIndex` only masks its
   * argument: a key with that tag has its first bucket as its alternate bucket.
   */
  lemma AltIndexAtTag255(hp: bv32, h: bv64)
    ensures AltIndex(hp, 255, IndexHash(hp, h)) == IndexHash(hp, h)
  {
    var i := IndexHash(hp, h);
    AltIndexDef(hp, 255, i);
    ToggleZero(HashMask(hp), i);
    IndexHashDef(hp, h);
    MaskIdempotent(HashMask(hp), h);
  }

  // ---------------------------------------------------------------------------
  // The intended nonzero multiplier.

  /**
   * The multiplier with the increment done in 64 bits, as the "nonzero tag"
   * comment intends: `(uint64(partial) + 1) * 0xc6a4a7935bd1e995`.
   */
  function CorrectedTagMultiplier(partial: bv8): bv64
  {
    Spread((partial as bv64) + 1)
  }

  /**
   * The corrected multiplier is never zero; indeed its nine low bits are never
   * all zero, because `partial + 1` is at most 256 and the constant is odd.
   */
  lemma CorrectedTagMultiplierNonzero(partial: bv8)
    ensures CorrectedTagMultiplier(partial) & 0x1FF != 0
  {
  }

  /** Below 255 the 8-bit increment does not wrap. */
  lemma TagIncrementAgrees(partial: bv8)
    requires partial != 255
    ensures (partial + 1) as bv64 == (partial as bv64) + 1
  {
  }

  /** The two multipliers differ only at tag 255. */
  lemma TagMultipliersAgree(partial: bv8)
    requires partial != 255
    ensures CorrectedTagMultiplier(partial) == TagMultiplier(partial)
  {
    TagIncrementAgrees(partial);
  }

  /** `altIndex` with the corrected multiplier. Below 64 it is a bucket index. */
  function CorrectedAltIndex(hp: bv32, partial: bv8, idx: bv64): (j: bv64)
    ensures hp < 64 ==> j < HashSize(hp)
  {
    MaskBoundBelow64(hp, idx ^ CorrectedTagMultiplier(partial));
    (idx ^ CorrectedTagMultiplier(partial)) & HashMask(hp)
  }

  /** `CorrectedAltIndex` is a toggle with the corrected multiplier. */
  lemma CorrectedAltIndexDef(hp: bv32, partial: bv8, idx: bv64)
    ensures CorrectedAltIndex(hp, partial, idx) == Toggle(HashMask(hp), CorrectedTagMultiplier(partial), idx)
  {
  }

  /** The corrected alternate bucket agrees with `altIndex` for every tag but 255. */
  lemma CorrectedAltIndexAgrees(hp: bv32, partial: bv8, idx: bv64)
    requires partial != 255
    ensures CorrectedAltIndex(hp, partial, idx) == AltIndex(hp, partial, idx)
  {
    TagMultipliersAgree(partial);
    AltIndexDef(hp, partial, idx);
    CorrectedAltIndexDef(hp, partial, idx);
  }

  /** The involution holds for the corrected alternate bucket as well. */
  lemma CorrectedAltIndexInvolution(hp: bv32, partial: bv8, idx: bv64)
    requires idx < HashSize(hp)
    ensures CorrectedAltIndex(hp, partial, CorrectedAltIndex(hp, partial, idx)) == idx
  {
    CorrectedAltIndexDef(hp, partial, idx);
    CorrectedAltIndexDef(hp, partial, CorrectedAltIndex(hp, partial, idx));
    ToggleTwice(HashMask(hp), CorrectedTagMultiplier(partial), idx);
    MaskSelectsIndices(hp, idx);
  }

  /** From hash power 9 up, the mask keeps the nine low bits. */
  lemma MaskKeepsLow9(hp: bv32)
    requires hp >= 9
    ensures HashMask(hp) & 0x1FF == 0x1FF
  {
  }

  /** A toggle fixes a masked index only when the key has no bit inside the mask. */
  lemma ToggleFixed(m: bv64, k: bv64, idx: bv64)
    requires idx & m == idx && Toggle(m, k, idx) == idx
    ensures k & m == 0
  {
  }

  /** A key with no bit in a mask that keeps the nine low bits has nine zero low bits. */
  lemma KeyOutsideMask(m: bv64, k: bv64)
    requires m & 0x1FF == 0x1FF && k & m == 0
    ensures k & 0x1FF == 0
  {
  }

  /**
   * From hash power 9 up, the corrected alternate bucket of a key's first
   * bucket is always a different bucket.
   */
  lemma CorrectedAltIndexMoves(hp: bv32, partial: bv8, h: bv64)
    requires hp >= 9
    ensures CorrectedAltIndex(hp, partial, IndexHash(hp, h)) != IndexHash(hp, h)
  {
    var i := IndexHash(hp, h);
    var k := CorrectedTagMultiplier(partial);
    IndexHashDef(hp, h);
    MaskIdempotent(HashMask(hp), h);
    CorrectedAltIndexDef(hp, partial, i);
    CorrectedTagMultiplierNonzero(partial);
    MaskKeepsLow9(hp);
    if Toggle(HashMask(hp), k, i) == i {
      ToggleFixed(HashMask(hp), k, i);
      KeyOutsideMask(HashMask(hp), k);
      assert false;
    }
  }

  // ---------------------------------------------------------------------------
  // Growing the table by one hash power.

  /** The next hash power's mask keeps every bit of this one's. */
  lemma MaskNested(hp: bv32)
    requires hp < 63
    ensures HashMask(hp + 1) & HashMask(hp) == HashMask(hp)
  {
  }

  /** Narrowing a mask after a wider one is narrowing it alone. */
  lemma MaskNarrows(wide: bv64, narrow: bv64, x: bv64)
    requires wide & narrow == narrow
    ensures (x & wide) & narrow == x & narrow
  {
  }

  /** A toggle under a wider mask, narrowed, is the toggle under the narrower mask. */
  lemma ToggleNarrows(wide: bv64, narrow: bv64, k: bv64, idx: bv64)
    requires wide & narrow == narrow
    ensures Toggle(wide, k, idx) & narrow == Toggle(narrow, k, idx)
  {
  }

  /**
   * When the table doubles, a key's first bucket keeps its low `hp` bits. The
   * tag does not depend on the hash power, so the same holds for the
   * alternate bucket below.
   */
  lemma IndexHashGrows(hp: bv32, h: bv64)
    requires hp < 63
    ensures IndexHash(hp + 1, h) & HashMask(hp) == IndexHash(hp, h)
  {
    MaskNested(hp);
    IndexHashDef(hp, h);
    IndexHashDef(hp + 1, h);
    MaskNarrows(HashMask(hp + 1), HashMask(hp), h);
  }

  /** When the table doubles, the alternate bucket keeps its low `hp` bits. */
  lemma AltIndexGrows(hp: bv32, partial: bv8, idx: bv64)
    requires hp < 63
    ensures AltIndex(hp + 1, partial, idx) & HashMask(hp) == AltIndex(hp, partial, idx)
  {
    MaskNested(hp);
    AltIndexDef(hp, partial, idx);
    AltIndexDef(hp + 1, partial, idx);
    ToggleNarrows(HashMask(hp + 1), HashMask(hp), TagMultiplier(partial), idx);
  }

}

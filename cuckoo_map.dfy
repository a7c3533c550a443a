/**
 * The map-level layer of the cuckoo hash table (cuckoohash_map.go): sizing a
 * table for a number of elements, the map's configuration and queries over
 * its stripes, and the stripe indices a pair of buckets is locked under.
 */
module CuckooMap {
  import opened Arith
  import opened Wrappers
  import opened Addressing
  import opened LazyArrays
  import opened Buckets

  /** `CUCKOO_NO_MAXIMUM_HASHPOSER`: a maximum hash power of 0 means no maximum. */
  const NoMaximumHashPower: u32 := 0

  /** The panic message of `reserveCalc`. */
  const ReserveOverflow: string := "n > hashsize(blog2) * SlotPerBucket"

  /** The error `SetMaxmumHashPower` returns. */
  const MaximumBelowCurrent: string := "maximum hashpower is less than current hashpower"

  // ---------------------------------------------------------------------------
  // reserveCalc

  /** The bucket count `reserveCalc` asks for: `(n + SlotPerBucket - 1) / SlotPerBucket` in uint64. */
  function BucketsFor(n: u64): u64
  {
    ((n + SlotPerBucket - 1) % Word) / SlotPerBucket
  }

  /** Without wrap-around, `BucketsFor(n)` is the ceiling of n / 128. */
  lemma BucketsForCeiling(n: u64)
    requires n + 127 < Word
    ensures n <= BucketsFor(n) * 128 && (BucketsFor(n) - 1) * 128 < n
  {
    ModSmall(n + 127, Word);
  }

  /** Every bucket count is below 2^57. */
  lemma BucketsForBelow57(n: u64)
    ensures BucketsFor(n) < 0x200_0000_0000_0000
  {
    Pow2Values();
    DivMonotone((n + 127) % Word, Word - 1, 128);
  }

  /** Up to 2^63 elements need at most 2^56 buckets. */
  lemma BucketsForSmall(n: u64)
    requires n <= 0x8000_0000_0000_0000
    ensures BucketsFor(n) <= 0x100_0000_0000_0000
  {
    Pow2Values();
    ModSmall(n + 127, Word);
    DivMonotone(n + 127, 0x8000_0000_0000_007F, 128);
  }

  /** Above 2^63, while `n + 127` does not wrap, more than 2^56 buckets are needed. */
  lemma BucketsForLarge(n: u64)
    requires 0x8000_0000_0000_0000 < n < Word - 127
    ensures 0x100_0000_0000_0000 < BucketsFor(n)
  {
    Pow2Values();
    ModSmall(n + 127, Word);
    DivMonotone(0x8000_0000_0000_0080, n + 127, 128);
  }

  /** When `n + 127` wraps, the bucket count collapses to 0. */
  lemma BucketsForWraps(n: u64)
    requires Word - 127 <= n
    ensures BucketsFor(n) == 0
  {
    ModUnique(n + 127, Word, 1, n + 127 - Word);
  }

  /**
   * After the loop of `reserveCalc`: the check `n > HashSize(blog2) * SlotPerBucket`
   * (a uint64 product) fails exactly when `n` is at most 2^63, and then the
   * table holds `n` slots with `blog2` at most 56.
   */
  lemma ReserveOutcome(n: u64, blog2: nat)
    requires 1 <= blog2 <= 57 && BucketsFor(n) <= Pow2(blog2)
    requires blog2 == 1 || Pow2(blog2 - 1) < BucketsFor(n)
    ensures n > (Pow2(blog2) * SlotPerBucket) % Word <==> n > 0x8000_0000_0000_0000
    ensures n <= 0x8000_0000_0000_0000 ==> blog2 <= 56 && n <= Pow2(blog2) * SlotPerBucket
    ensures n <= 0x8000_0000_0000_0000 ==> BucketsFor(n) == (n + SlotPerBucket - 1) / SlotPerBucket
  {
    Pow2Values();
    var b := BucketsFor(n);
    Pow2Add(blog2, 7);
    if n <= 0x8000_0000_0000_0000 {
      BucketsForSmall(n);
      BucketsForCeiling(n);
      assert blog2 <= 56;
      Pow2Monotone(blog2 + 7, 63);
      ModSmall(Pow2(blog2) * 128, Word);
      MulMonotone(b, Pow2(blog2), 128);
    } else if n < Word - 127 {
      BucketsForLarge(n);
      if blog2 < 57 {
        Pow2Monotone(blog2, 56);
        assert false;
      }
      ModUnique(Pow2(blog2) * 128, Word, 1, 0);
    } else {
      BucketsForWraps(n);
      assert blog2 == 1;
      ModSmall(256, Word);
    }
  }

  /**
   * `reserveCalc(n)`: the smallest hash power, at least 1, whose table has
   * room for `n` elements. The source panics when the final check fails,
   * which happens exactly when `n` exceeds 2^63.
   */
  method ReserveCalc(n: u64) returns (r: Result<u32>)
    ensures r.Ok? <==> n <= 0x8000_0000_0000_0000
    ensures r.Ok? ==> 1 <= r.value <= 56 && n <= Pow2(r.value) * SlotPerBucket
    ensures r.Ok? ==> r.value == 1 || Pow2(r.value - 1) < (n + SlotPerBucket - 1) / SlotPerBucket
  {
    var buckets := ((n + SlotPerBucket - 1) % Word) / SlotPerBucket;
    BucketsForBelow57(n);
    var blog2: u32 := 1;
    while Shl1(blog2) < buckets
      invariant 1 <= blog2 <= 57
      invariant blog2 == 1 || Pow2(blog2 - 1) < buckets
      decreases 57 - blog2
    {
      LoopGuardBelow57(blog2, buckets);
      blog2 := blog2 + 1;
    }
    ReserveExit(n, blog2);
    if n > (Shl1(blog2) * SlotPerBucket) % Word {
      return Err(ReserveOverflow);
    }
    return Ok(blog2);
  }

  /** While the loop of `reserveCalc` runs, `blog2` stays below 57. */
  lemma LoopGuardBelow57(blog2: nat, buckets: nat)
    requires 1 <= blog2 <= 57 && buckets < 0x200_0000_0000_0000 && Shl1(blog2) < buckets
    ensures blog2 < 57 && Pow2(blog2) < buckets
  {
    Shl1Def(blog2);
    if blog2 == 57 {
      Pow2Values();
    }
  }

  /** When the loop of `reserveCalc` stops, `ReserveOutcome` applies to its `blog2`. */
  lemma ReserveExit(n: u64, blog2: nat)
    requires 1 <= blog2 <= 57 && BucketsFor(n) <= Shl1(blog2)
    requires blog2 == 1 || Pow2(blog2 - 1) < BucketsFor(n)
    ensures n > (Shl1(blog2) * SlotPerBucket) % Word <==> n > 0x8000_0000_0000_0000
    ensures n <= 0x8000_0000_0000_0000 ==> blog2 <= 56 && n <= Pow2(blog2) * SlotPerBucket
    ensures n <= 0x8000_0000_0000_0000 ==> BucketsFor(n) == (n + SlotPerBucket - 1) / SlotPerBucket
  {
    if blog2 < 57 {
      Shl1Def(blog2);
    } else {
      Pow2Values();
      Shl1Def(57);
    }
    ReserveOutcome(n, blog2);
  }

  /** `HashSize` as a uint64 shift agrees with the integer shift `Shl1`. */
  lemma HashSizeIsShl1(hp: bv32)
    ensures HashSize(hp) as int == Shl1(hp as int)
  {
    if hp < 64 {
      HashSizePow2(hp);
      assert hp as int < 64;
      Shl1Def(hp as int);
    } else {
      assert hp as int >= 64;
    }
  }

  // ---------------------------------------------------------------------------
  // Stripe counters

  /** The total of the element counters of a run of stripes, without wrap-around. */
  function CounterSum(stripes: seq<Stripe>): nat
  {
    if stripes == [] then 0
    else CounterSum(stripes[..|stripes| - 1]) + stripes[|stripes| - 1].elemCounter
  }

  /** The total is zero exactly when every counter is zero. */
  lemma {:induction false} CounterSumZero(stripes: seq<Stripe>)
    ensures CounterSum(stripes) == 0 <==> forall j :: 0 <= j < |stripes| ==> stripes[j].elemCounter == 0
  {
    if stripes != [] {
      var init := stripes[..|stripes| - 1];
      CounterSumZero(init);
      if CounterSum(stripes) == 0 {
        forall j | 0 <= j < |stripes|
          ensures stripes[j].elemCounter == 0
        {
          if j < |stripes| - 1 {
            assert stripes[j] == init[j];
          }
        }
      }
    }
  }

  /** The total as `Size` accumulates it: each counter added in uint64, wrapping modulo 2^64. */
  function WrappedSum(stripes: seq<Stripe>): u64
  {
    if stripes == [] then 0
    else (WrappedSum(stripes[..|stripes| - 1]) + stripes[|stripes| - 1].elemCounter) % Word
  }

  /** Adding in uint64 one counter at a time gives the true total modulo 2^64. */
  lemma {:induction false} WrappedSumIsCounterSum(stripes: seq<Stripe>)
    ensures WrappedSum(stripes) == CounterSum(stripes) % Word
  {
    if stripes == [] {
      ModSmall(0, Word);
    } else {
      var init := stripes[..|stripes| - 1];
      WrappedSumIsCounterSum(init);
      ModAddLeft(CounterSum(init), stripes[|stripes| - 1].elemCounter, Word);
    }
  }

  // ---------------------------------------------------------------------------
  // The map

  /** `CuckooHashMap`, without its hash and equality functions, load factor and expansion lock. */
  class CuckooHashMap<V> {
    var hashPower: u32
    var buckets: BucketContainer<V>
    var locks: LazyArray
    var maxHashPower: u32

    /** The lock array is the constructor's `NewLazyArray(16, 0, _)`, and there are 2^hashPower buckets. */
    ghost predicate Valid()
      reads this, buckets, buckets.buckets, locks
    {
      && LocksValid() && locks.offsetBits == 16 && locks.segmentBits == 0
      && buckets.Valid() && buckets.size == Shl1(hashPower)
    }

    /** The part of `Valid` the stripe queries rely on: a well-formed lock array whose indices fit a uint64. */
    ghost predicate LocksValid()
      reads this, locks
    {
      locks.Valid() && locks.Bounded()
    }

    /**
     * `NewCuckooHashMap(power)`: 2^power empty buckets, each with fresh slot
     * arrays so that the map may fill them, and the stripes to cover them.
     */
    constructor (power: u32)
      ensures Valid() && HashPower() == power && MaxmumHashPower() == NoMaximumHashPower
      ensures fresh(buckets) && fresh(locks)
      ensures forall i :: 0 <= i < |buckets.buckets| ==>
        && fresh(buckets.buckets[i]) && fresh(buckets.buckets[i].partials)
        && fresh(buckets.buckets[i].occupied) && fresh(buckets.buckets[i].kvpairs)
      ensures forall i, j :: 0 <= i < |buckets.buckets| && 0 <= j < SlotPerBucket ==> !buckets.buckets[i].occupied[j]
      ensures locks.allocatedSegments == ResizedAllocation(0, 16, 0, Shl1(power))
      ensures forall j :: 0 <= j < locks.allocatedSegments ==> locks.segments[j] == locks.CreateArray()
    {
      hashPower := power;
      maxHashPower := NoMaximumHashPower;
      var target := Shl1(power);
      buckets := new BucketContainer(target);
      locks := new LazyArray(16, 0, target);
    }

    /** `HashPower`. */
    function HashPower(): u32
      reads this
    {
      hashPower
    }

    /** `MaxmumHashPower`. */
    function MaxmumHashPower(): u32
      reads this
    {
      maxHashPower
    }

    /** `BucketCount`: the number of buckets the container holds, 2^hashPower as a uint64. */
    function BucketCount(): (n: u64)
      reads this, buckets, buckets.buckets, locks
      requires Valid()
      ensures n == |buckets.buckets|
    {
      buckets.Size()
    }

    /**
     * `Capacity`: the bucket count times `SlotPerBucket`, as a uint64 product:
     * 2^(hashPower + 7) slots below hash power 57, and 0 from there on, where
     * the product wraps.
     */
    function Capacity(): (n: u64)
      reads this, buckets, buckets.buckets, locks
      requires Valid()
      ensures hashPower < 57 ==> n == Pow2(hashPower + 7)
      ensures 57 <= hashPower ==> n == 0
    {
      CapacityOfPower(hashPower);
      (BucketCount() * SlotPerBucket) % Word
    }

    /**
     * `SetMaxmumHashPower(mhp)`: fails, leaving the maximum unchanged, when a
     * maximum is given that the current hash power already exceeds; otherwise
     * stores it.
     */
    method SetMaxmumHashPower(mhp: u32) returns (err: Outcome)
      modifies this`maxHashPower
      ensures err.Fail? <==> mhp != NoMaximumHashPower && HashPower() > mhp
      ensures err.Fail? ==> MaxmumHashPower() == old(MaxmumHashPower())
      ensures err.Pass? ==> MaxmumHashPower() == mhp
    {
      if mhp != NoMaximumHashPower && HashPower() > mhp {
        return Fail(MaximumBelowCurrent);
      }
      maxHashPower := mhp;
      return Pass;
    }

    /** `Size`: the element counters of all allocated stripes, summed in uint64. */
    method Size() returns (s: u64)
      requires LocksValid()
      ensures s == CounterSum(locks.Stripes()) % Word
    {
      ghost var stripes := locks.Stripes();
      StripesLength(locks);
      s := 0;
      var i := 0;
      assert stripes[..0] == [];
      while i < locks.Size()
        invariant 0 <= i <= |stripes|
        invariant s == WrappedSum(stripes[..i])
      {
        SumStep(locks, i, s);
        s := (s + locks.Get(i).elemCounter) % Word;
        i := i + 1;
      }
      assert stripes[..i] == stripes;
      WrappedSumIsCounterSum(stripes);
    }

    /** `Empty`: true exactly when no allocated stripe counts an element. */
    method Empty() returns (e: bool)
      requires LocksValid()
      ensures e <==> forall j :: 0 <= j < |locks.Stripes()| ==> locks.Stripes()[j].elemCounter == 0
    {
      StripesLength(locks);
      var i := 0;
      while i < locks.Size()
        invariant 0 <= i <= locks.Size()
        invariant forall j :: 0 <= j < i ==> locks.Stripes()[j].elemCounter == 0
      {
        GetInRange(locks, i);
        if locks.Get(i).elemCounter > 0 {
          return false;
        }
        i := i + 1;
      }
      return true;
    }

    /**
     * `lockIndex`: the stripe guarding bucket `idx`, `idx & (maxSize - 1)`;
     * the lock array's `maxSize()` is `1 << 16`, so the mask is `HashMask(16)`.
     */
    function LockIndex(idx: bv64): (l: bv64)
      ensures l < 0x10000 && l == IndexHash(16, idx)
      ensures idx < 0x10000 ==> l == idx
    {
      MaskSelectsIndices(16, idx);
      MaskBound(16, idx);
      idx & HashMask(16)
    }

    /**
     * The index ordering of `lockTwo`: the two stripe indices in increasing
     * order, and the stripes locked, earlier first, the second only when it
     * differs from the first.
     */
    method LockTwo(idx1: bv64, idx2: bv64) returns (l1: bv64, l2: bv64, locked: seq<bv64>)
      ensures l1 <= l2
      ensures (l1 == LockIndex(idx1) && l2 == LockIndex(idx2)) || (l1 == LockIndex(idx2) && l2 == LockIndex(idx1))
      ensures locked == if l1 == l2 then [l1] else [l1, l2]
    {
      l1 := LockIndex(idx1);
      l2 := LockIndex(idx2);
      if l2 < l1 {
        l1, l2 := l2, l1;
      }
      locked := [l1];
      if l2 != l1 {
        locked := locked + [l2];
      }
    }
  }

  /** One step of `Size`: adding the counter of stripe `i` extends the running total by one stripe. */
  lemma SumStep(locks: LazyArray, i: u64, s: u64)
    requires locks.Valid() && locks.Bounded() && i < |locks.Stripes()|
    requires s == WrappedSum(locks.Stripes()[..i])
    ensures locks.GetSegment(i) < |locks.segments| && locks.GetOffset(i) < |locks.segments[locks.GetSegment(i)]|
    ensures (s + locks.Get(i).elemCounter) % Word == WrappedSum(locks.Stripes()[..i + 1])
  {
    StripesLength(locks);
    GetInRange(locks, i);
    var st := locks.Stripes();
    assert st[..i + 1][..i] == st[..i];
  }

  /** The map's lock array has 2^16 entries at most, the modulus of `lockIndex`. */
  lemma LockArrayMaxSize<V>(m: CuckooHashMap<V>)
    requires m.Valid()
    ensures m.locks.MaxSize() == HashSize(16) as int == 0x1_0000
  {
    ConstantsArePowers(m.locks);
    Pow2Values();
    HashSizePow2(16);
  }

  /**
   * Every stripe index `lockIndex` produces lies below `maxSize()`, and once
   * one segment is allocated, below `size()`, so its stripe is allocated.
   */
  lemma LockIndexInRange<V>(m: CuckooHashMap<V>, idx: bv64)
    requires m.Valid()
    ensures (m.LockIndex(idx) as int) < m.locks.MaxSize()
    ensures m.locks.allocatedSegments >= 1 ==> (m.LockIndex(idx) as int) < m.locks.Size()
  {
    var l := m.LockIndex(idx);
    Narrow16(l);
    LockArrayMaxSize(m);
    SizeIsProduct(m.locks);
    ConstantsArePowers(m.locks);
    if m.locks.allocatedSegments >= 1 {
      MulMonotone(1, m.locks.allocatedSegments, m.locks.segmentSize);
    }
  }

  /** A word below 2^16 has the value of its low 16 bits. */
  lemma Narrow16(x: bv64)
    requires x < 0x10000
    ensures x as int == (x as bv16) as int < 0x10000
  {
  }

  /** Any target from 1 to 2^64 - 1 allocates exactly the one segment of a 2^16-stripe array. */
  lemma OneSegmentSuffices(t: u64)
    requires t >= 1
    ensures ResizedAllocation(0, 16, 0, t) == 1
  {
    MaxSizeForIsPower(16, 0);
    Pow2Values();
    assert Pow2(0) == 1;
    ResizedAllocationDef(0, 16, 0, t);
    var c := Clamp(t, 0x1_0000);
    ModUnique(c - 1, 0x1_0000, 0, c - 1);
  }

  /** The map's constructor allocates the one segment of stripes whenever its hash power is below 64. */
  lemma NewMapAllocatesOneSegment(power: u32)
    requires power < 64
    ensures ResizedAllocation(0, 16, 0, Shl1(power)) == 1
  {
    Shl1Def(power);
    OneSegmentSuffices(Shl1(power));
  }

  /**
   * The map's stripe array never shrinks: with 16 offset bits and no segment
   * bits it has a single segment, so at most one is allocated, and every
   * `resize` keeps the count or sets it to that one segment.
   */
  lemma MapLocksNeverShrink<V>(m: CuckooHashMap<V>, target: u64)
    requires m.Valid()
    ensures m.locks.allocatedSegments <= 1
    ensures ResizedAllocation(m.locks.allocatedSegments, 16, 0, target) >= m.locks.allocatedSegments
  {
    ConstantsArePowers(m.locks);
    assert Pow2(0) == 1;
    if target >= 1 {
      OneSegmentSuffices(target);
      MaxSizeForIsPower(16, 0);
      assert Clamp(target, MaxSizeFor(16, 0)) != 0;
    }
  }

  /** Below 57, `2^h * 128` is 2^(h+7) and fits in a uint64. */
  lemma CapacityNoWrap(h: nat)
    requires h < 57
    ensures (Pow2(h) * 128) % Word == Pow2(h + 7)
  {
    Pow2Values();
    Pow2Add(h, 7);
    Pow2Monotone(h + 7, 63);
    ModSmall(Pow2(h + 7), Word);
  }

  /** From 57 to 63, `2^h * 128` is a multiple of 2^64, so the uint64 product is 0. */
  lemma CapacityWraps(h: nat)
    requires 57 <= h < 64
    ensures (Pow2(h) * 128) % Word == 0
  {
    Pow2Values();
    Pow2Add(h, 7);
    Pow2Add(64, h - 57);
    ModUnique(Pow2(h) * 128, Word, Pow2(h - 57), 0);
  }

  /** The uint64 product `Shl1(hp) * 128`, by hash power. */
  lemma CapacityOfPower(hp: nat)
    ensures hp < 57 ==> (Shl1(hp) * 128) % Word == Pow2(hp + 7)
    ensures 57 <= hp ==> (Shl1(hp) * 128) % Word == 0
  {
    if hp < 57 {
      Shl1Def(hp);
      CapacityNoWrap(hp);
    } else if hp < 64 {
      Shl1Def(hp);
      CapacityWraps(hp);
    }
  }

  /** Below hash power 64 the map holds 2^hashPower buckets, and none from 64 on. */
  lemma BucketCountOfHashPower<V>(m: CuckooHashMap<V>)
    requires m.Valid()
    ensures m.hashPower < 64 ==> m.buckets.size == Pow2(m.hashPower)
    ensures 64 <= m.hashPower ==> m.buckets.size == 0
  {
    if m.hashPower < 64 {
      Shl1Def(m.hashPower);
    }
  }

  /**
   * The map is empty exactly when the total of its stripe counters is zero;
   * `Size` reports that total modulo 2^64.
   */
  lemma EmptyIffNoElements<V>(m: CuckooHashMap<V>)
    requires m.Valid()
    ensures (forall j :: 0 <= j < |m.locks.Stripes()| ==> m.locks.Stripes()[j].elemCounter == 0)
            <==> CounterSum(m.locks.Stripes()) == 0
  {
    CounterSumZero(m.locks.Stripes());
  }
}

/**
 * Slot storage (bucket.go): a bucket holds `SlotPerBucket` slots, each a
 * partial key, a reference to a key/value pair and an occupancy bit, kept in
 * three parallel arrays; a bucket container holds the table's buckets.
 */
module Buckets {
  import opened Arith
  import opened Wrappers

  /** `SlotPerBucket`: the number of slots in every bucket. */
  const SlotPerBucket: nat := 128

  /** A slot's partial key: the 8-bit tag stored in the `interface{}`, or nil. */
  type Partial = Option<bv8>

  /** `kvpair`: a key and its value, shared between slots by reference. */
  class KVPair<V> {
    const key: string
    const value: V

    constructor (key: string, value: V)
      ensures this.key == key && this.value == value
    {
      this.key := key;
      this.value := value;
    }
  }

  /** The number of set flags in a sequence of occupancy bits. */
  function Count(occupied: seq<bool>): nat
  {
    if occupied == [] then 0
    else Count(occupied[..|occupied| - 1]) + (if occupied[|occupied| - 1] then 1 else 0)
  }

  /** No occupancy bit set means a count of zero, and only then. */
  lemma {:induction false} CountZero(occupied: seq<bool>)
    ensures Count(occupied) == 0 <==> forall i :: 0 <= i < |occupied| ==> !occupied[i]
  {
    if occupied != [] {
      CountZero(occupied[..|occupied| - 1]);
      if Count(occupied) == 0 {
        forall i | 0 <= i < |occupied|
          ensures !occupied[i]
        {
          if i < |occupied| - 1 {
            assert occupied[i] == occupied[..|occupied| - 1][i];
          }
        }
      }
    }
  }

  /**
   * Merging two occupancy maps that share no occupied slot adds their counts:
   * when `merged[i]` is `a[i] || b[i]` everywhere and never both hold, no
   * entry is lost or duplicated.
   */
  lemma {:induction false} CountMerge(a: seq<bool>, b: seq<bool>, merged: seq<bool>)
    requires |a| == |b| == |merged|
    requires forall i :: 0 <= i < |a| ==> merged[i] == (a[i] || b[i]) && !(a[i] && b[i])
    ensures Count(merged) == Count(a) + Count(b)
  {
    if a != [] {
      var n := |a| - 1;
      CountMerge(a[..n], b[..n], merged[..n]);
    }
  }

  /** A bucket: three parallel arrays of `SlotPerBucket` slots. */
  class Bucket<V> {
    const partials: array<Partial>
    const occupied: array<bool>
    const kvpairs: array<KVPair?<V>>

    /** Each array has one entry per slot. */
    ghost predicate Valid()
      reads this
    {
      partials.Length == SlotPerBucket && occupied.Length == SlotPerBucket && kvpairs.Length == SlotPerBucket
    }

    /** A bucket with every slot empty: no tag, no pair, not occupied. */
    constructor ()
      ensures Valid() && fresh(partials) && fresh(occupied) && fresh(kvpairs)
      ensures forall i :: 0 <= i < SlotPerBucket ==> !occupied[i] && partials[i] == None && kvpairs[i] == null
    {
      partials := new Partial[SlotPerBucket](_ => None);
      occupied := new bool[SlotPerBucket](_ => false);
      kvpairs := new KVPair?<V>[SlotPerBucket](_ => null);
    }

    /** `occupied`: whether slot `idx` holds an entry. */
    function Occupied(idx: nat): bool
      reads this, occupied
      requires Valid() && idx < SlotPerBucket
    {
      occupied[idx]
    }

    /** `partial`: the tag at slot `idx`. */
    function PartialAt(idx: nat): Partial
      reads this, partials
      requires Valid() && idx < SlotPerBucket
    {
      partials[idx]
    }

    /** `kvpair`: the pair reference at slot `idx`. */
    function KVPairAt(idx: nat): KVPair?<V>
      reads this, kvpairs
      requires Valid() && idx < SlotPerBucket
    {
      kvpairs[idx]
    }

    /** `key`: the key of the pair at slot `idx`, which must hold a pair. */
    function Key(idx: nat): string
      reads this, kvpairs
      requires Valid() && idx < SlotPerBucket && kvpairs[idx] != null
    {
      kvpairs[idx].key
    }

    /** `value`: the value of the pair at slot `idx`, which must hold a pair. */
    function Value(idx: nat): V
      reads this, kvpairs
      requires Valid() && idx < SlotPerBucket && kvpairs[idx] != null
    {
      kvpairs[idx].value
    }

    /** `setKV`: stores tag `p` and a new pair `(k, v)` at slot `idx` and marks it occupied. */
    method SetKV(idx: nat, p: Partial, k: string, v: V)
      requires Valid() && idx < SlotPerBucket
      modifies partials, occupied, kvpairs
      ensures partials[..] == old(partials[..])[idx := p]
      ensures occupied[..] == old(occupied[..])[idx := true]
      ensures kvpairs[..] == old(kvpairs[..])[idx := kvpairs[idx]]
      ensures kvpairs[idx] != null && fresh(kvpairs[idx])
      ensures Occupied(idx) && PartialAt(idx) == p && Key(idx) == k && Value(idx) == v
    {
      partials[idx] := p;
      occupied[idx] := true;
      var kv := new KVPair(k, v);
      kvpairs[idx] := kv;
    }

    /** `setKV2`: stores tag `p` and the given pair reference at slot `idx`, without copying. */
    method SetKV2(idx: nat, p: Partial, kv: KVPair?<V>)
      requires Valid() && idx < SlotPerBucket
      modifies partials, occupied, kvpairs
      ensures partials[..] == old(partials[..])[idx := p]
      ensures occupied[..] == old(occupied[..])[idx := true]
      ensures kvpairs[..] == old(kvpairs[..])[idx := kv]
      ensures Occupied(idx) && PartialAt(idx) == p && KVPairAt(idx) == kv
    {
      partials[idx] := p;
      occupied[idx] := true;
      kvpairs[idx] := kv;
    }

    /** `eraseKV`: empties slot `idx`. */
    method EraseKV(idx: nat)
      requires Valid() && idx < SlotPerBucket
      modifies partials, occupied, kvpairs
      ensures partials[..] == old(partials[..])[idx := None]
      ensures occupied[..] == old(occupied[..])[idx := false]
      ensures kvpairs[..] == old(kvpairs[..])[idx := null]
      ensures !Occupied(idx) && PartialAt(idx) == None && KVPairAt(idx) == null
    {
      partials[idx] := None;
      kvpairs[idx] := null;
      occupied[idx] := false;
    }

    /** `clear`: empties every slot. */
    method Clear()
      requires Valid()
      modifies partials, occupied, kvpairs
      ensures forall i :: 0 <= i < SlotPerBucket ==> !occupied[i] && partials[i] == None && kvpairs[i] == null
      ensures Count(occupied[..]) == 0
    {
      var i := 0;
      while i < SlotPerBucket
        invariant 0 <= i <= SlotPerBucket
        invariant forall j :: 0 <= j < i ==> !occupied[j] && partials[j] == None && kvpairs[j] == null
      {
        EraseKV(i);
        i := i + 1;
      }
      CountZero(occupied[..]);
    }
  }

  /** The arrays of two buckets are separate objects. */
  ghost predicate Separate<V>(b1: Bucket<V>, b2: Bucket<V>)
    reads b1, b2
  {
    b1.partials != b2.partials && b1.occupied != b2.occupied && b1.kvpairs != b2.kvpairs
  }

  /**
   * `moveToBucket`: moves the entry at `b1[s1]` to `b2[s2]` without copying
   * the pair: `b2[s2]` takes the tag and the same pair reference and becomes
   * occupied, then `b1[s1]` is emptied. Moving a slot onto itself destroys it.
   */
  method MoveToBucket<V>(b1: Bucket<V>, s1: nat, b2: Bucket<V>, s2: nat)
    requires b1.Valid() && b2.Valid() && s1 < SlotPerBucket && s2 < SlotPerBucket
    requires b1 == b2 || Separate(b1, b2)
    modifies b1.partials, b1.occupied, b1.kvpairs, b2.partials, b2.occupied, b2.kvpairs
    ensures b1 != b2 ==>
      && b2.partials[..] == old(b2.partials[..])[s2 := old(b1.partials[s1])]
      && b2.occupied[..] == old(b2.occupied[..])[s2 := true]
      && b2.kvpairs[..] == old(b2.kvpairs[..])[s2 := old(b1.kvpairs[s1])]
      && b1.partials[..] == old(b1.partials[..])[s1 := None]
      && b1.occupied[..] == old(b1.occupied[..])[s1 := false]
      && b1.kvpairs[..] == old(b1.kvpairs[..])[s1 := null]
    ensures b1 == b2 ==>
      && b1.partials[..] == old(b1.partials[..])[s2 := old(b1.partials[s1])][s1 := None]
      && b1.occupied[..] == old(b1.occupied[..])[s2 := true][s1 := false]
      && b1.kvpairs[..] == old(b1.kvpairs[..])[s2 := old(b1.kvpairs[s1])][s1 := null]
  {
    var tomove := b1.KVPairAt(s1);
    b2.SetKV2(s2, b1.PartialAt(s1), tomove);
    b1.EraseKV(s1);
  }

  /**
   * `moveBucket`: moves every occupied slot of `b1` to the same slot of `b2`.
   * Afterwards `b1` is empty, `b2` holds `b1`'s old entries where `b1` was
   * occupied and is unchanged elsewhere, and when the two buckets had no
   * occupied slot in common every entry is kept.
   */
  method MoveBucket<V>(b1: Bucket<V>, b2: Bucket<V>)
    requires b1.Valid() && b2.Valid() && b1 != b2 && Separate(b1, b2)
    modifies b1.partials, b1.occupied, b1.kvpairs, b2.partials, b2.occupied, b2.kvpairs
    ensures forall i :: 0 <= i < SlotPerBucket ==> !b1.occupied[i]
    ensures forall i :: 0 <= i < SlotPerBucket && old(b1.occupied[i]) ==>
      && b2.occupied[i] && b2.partials[i] == old(b1.partials[i]) && b2.kvpairs[i] == old(b1.kvpairs[i])
      && b1.partials[i] == None && b1.kvpairs[i] == null
    ensures forall i :: 0 <= i < SlotPerBucket && !old(b1.occupied[i]) ==>
      && b2.occupied[i] == old(b2.occupied[i]) && b2.partials[i] == old(b2.partials[i])
      && b2.kvpairs[i] == old(b2.kvpairs[i])
      && b1.partials[i] == old(b1.partials[i]) && b1.kvpairs[i] == old(b1.kvpairs[i])
    ensures (forall i :: 0 <= i < SlotPerBucket ==> !(old(b1.occupied[i]) && old(b2.occupied[i]))) ==>
      Count(b2.occupied[..]) == old(Count(b1.occupied[..]) + Count(b2.occupied[..]))
  {
    var i := 0;
    while i < SlotPerBucket
      invariant 0 <= i <= SlotPerBucket
      invariant forall j :: 0 <= j < i ==> !b1.occupied[j]
      invariant forall j :: i <= j < SlotPerBucket ==> b1.occupied[j] == old(b1.occupied[j])
      invariant forall j :: 0 <= j < SlotPerBucket ==> b2.occupied[j] == (old(b2.occupied[j]) || (j < i && old(b1.occupied[j])))
      invariant forall j :: 0 <= j < SlotPerBucket ==>
        if j < i && old(b1.occupied[j]) then
          && b2.partials[j] == old(b1.partials[j]) && b2.kvpairs[j] == old(b1.kvpairs[j])
          && b1.partials[j] == None && b1.kvpairs[j] == null
        else
          && b2.partials[j] == old(b2.partials[j]) && b2.kvpairs[j] == old(b2.kvpairs[j])
          && b1.partials[j] == old(b1.partials[j]) && b1.kvpairs[j] == old(b1.kvpairs[j])
    {
      if b1.Occupied(i) {
        MoveToBucket(b1, i, b2, i);
      }
      i := i + 1;
    }
    if forall j :: 0 <= j < SlotPerBucket ==> !(old(b1.occupied[j]) && old(b2.occupied[j])) {
      CountMerge(old(b1.occupied[..]), old(b2.occupied[..]), b2.occupied[..]);
    }
  }

  /** `bucketContainer`: the table's buckets and their number. */
  class BucketContainer<V> {
    var buckets: seq<Bucket<V>>
    var size: u64

    /**
     * The container holds `size` buckets, each well formed, and no two of
     * them share a bucket object or a slot array, so entries can be moved
     * from any bucket to any other.
     */
    ghost predicate Valid()
      reads this, buckets
    {
      && |buckets| == size
      && (forall i :: 0 <= i < |buckets| ==> buckets[i].Valid())
      && (forall i, j :: 0 <= i < j < |buckets| ==> buckets[i] != buckets[j] && Separate(buckets[i], buckets[j]))
    }

    /**
     * `NewBucketContainer`: `size` fresh buckets with fresh slot arrays, every
     * slot empty, pairwise distinct and with separate slot arrays, so the
     * caller may move entries between any two of them.
     */
    constructor (size: u64)
      ensures Valid() && this.size == size
      ensures forall i :: 0 <= i < size ==> fresh(buckets[i])
      ensures forall i :: 0 <= i < size ==>
        fresh(buckets[i].partials) && fresh(buckets[i].occupied) && fresh(buckets[i].kvpairs)
      ensures forall i, j :: 0 <= i < j < size ==> buckets[i] != buckets[j] && Separate(buckets[i], buckets[j])
      ensures forall i, j :: 0 <= i < size && 0 <= j < SlotPerBucket ==> !buckets[i].occupied[j]
    {
      var bs: seq<Bucket<V>> := [];
      while |bs| < size
        invariant |bs| <= size
        invariant forall i :: 0 <= i < |bs| ==> fresh(bs[i]) && bs[i].Valid()
        invariant forall i :: 0 <= i < |bs| ==> fresh(bs[i].partials) && fresh(bs[i].occupied) && fresh(bs[i].kvpairs)
        invariant forall i, j :: 0 <= i < j < |bs| ==> bs[i] != bs[j] && Separate(bs[i], bs[j])
        invariant forall i, j :: 0 <= i < |bs| && 0 <= j < SlotPerBucket ==> !bs[i].occupied[j]
      {
        var b := new Bucket();
        bs := bs + [b];
      }
      buckets := bs;
      this.size := size;
    }

    /** `size`: the number of buckets, which is the number the container holds. */
    function Size(): (n: u64)
      reads this, buckets
      requires Valid()
      ensures n == |buckets|
    {
      size
    }

    /** `bucket`: the bucket at index `idx`, which must be in range; it is well formed. */
    function Bucket(idx: u32): (b: Bucket<V>)
      reads this, buckets
      requires Valid() && idx < size
      ensures b.Valid() && b in buckets
    {
      buckets[idx]
    }

    /** `swap`: exchanges the buckets and the sizes of two containers. */
    method Swap(other: BucketContainer<V>)
      modifies this, other
      ensures buckets == old(other.buckets) && size == old(other.size)
      ensures other.buckets == old(buckets) && other.size == old(size)
    {
      buckets, other.buckets := other.buckets, buckets;
      size, other.size := other.size, size;
    }
  }

  /** Swapping twice restores both containers. */
  method SwapTwice<V>(a: BucketContainer<V>, b: BucketContainer<V>)
    modifies a, b
    ensures a.buckets == old(a.buckets) && a.size == old(a.size)
    ensures b.buckets == old(b.buckets) && b.size == old(b.size)
  {
    a.Swap(b);
    a.Swap(b);
  }
}

/**
 * The lazy segmented array of stripes (lazyarray.go). An index splits into a
 * high segment part and a low offset part; segments are allocated on request
 * by `resize`, up to a fixed maximum of 2^(offsetBits + segmentBits) entries.
 * Shifts, masks and products are Go's uint64 operations on integers.
 */
module LazyArrays {
  import opened Arith
  import opened Wrappers

  /** A stripe (a `spinLock`), of which the model keeps only its element counter. */
  datatype Stripe = Stripe(elemCounter: u64)

  /** Go's `1 << (offsetBits + segmentBits)`: the sum is a uint8, the shift a uint64. */
  function MaxSizeFor(offsetBits: u8, segmentBits: u8): u64
  {
    Shl1((offsetBits + segmentBits) % 0x100)
  }

  /** The smaller of a target and the maximum size, as `resize` clamps it. */
  function Clamp(target: u64, maxSize: u64): u64
  {
    if maxSize < target then maxSize else target
  }

  /**
   * The number of allocated segments after `resize(target)`: unchanged for a
   * clamped target of 0, otherwise one past the segment of the last index.
   */
  function ResizedAllocation(allocatedSegments: u64, offsetBits: u8, segmentBits: u8, target: u64): u64
  {
    var t := Clamp(target, MaxSizeFor(offsetBits, segmentBits));
    if t == 0 then allocatedSegments else Shr(t - 1, offsetBits) + 1
  }

  /** The stripes of a list of segments, in index order. */
  function Flatten(segs: seq<seq<Stripe>>): seq<Stripe>
  {
    if segs == [] then [] else Flatten(segs[..|segs| - 1]) + segs[|segs| - 1]
  }

  /** Segments of equal width flatten to width times their number of stripes. */
  lemma {:induction false} FlattenLength(segs: seq<seq<Stripe>>, width: nat)
    requires forall j :: 0 <= j < |segs| ==> |segs[j]| == width
    ensures |Flatten(segs)| == |segs| * width
  {
    if segs != [] {
      FlattenLength(segs[..|segs| - 1], width);
      assert |segs| * width == (|segs| - 1) * width + width;
    }
  }

  /** Index `i` of the flattened segments is offset `i % width` of segment `i / width`. */
  lemma {:induction false} FlattenIndex(segs: seq<seq<Stripe>>, width: nat, i: nat)
    requires width >= 1
    requires forall j :: 0 <= j < |segs| ==> |segs[j]| == width
    requires i < |segs| * width
    ensures i / width < |segs| && |Flatten(segs)| == |segs| * width
    ensures Flatten(segs)[i] == segs[i / width][i % width]
  {
    var n := |segs|;
    assert n != 0;
    var init := segs[..n - 1];
    FlattenLength(init, width);
    FlattenLength(segs, width);
    assert n * width == (n - 1) * width + width;
    if i < (n - 1) * width {
      FlattenIndex(init, width, i);
    } else {
      ModUnique(i, width, n - 1, i - (n - 1) * width);
    }
  }

  /** Bounded widths do not wrap: the maximum size is 2^(offsetBits + segmentBits). */
  lemma MaxSizeForIsPower(offsetBits: u8, segmentBits: u8)
    requires offsetBits + segmentBits < 64
    ensures MaxSizeFor(offsetBits, segmentBits) == Pow2(offsetBits + segmentBits)
    ensures MaxSizeFor(offsetBits, segmentBits) == Pow2(offsetBits) * Pow2(segmentBits) < Word
  {
    ModSmall(offsetBits + segmentBits, 0x100);
    Shl1Def(offsetBits + segmentBits);
    Pow2Add(offsetBits, segmentBits);
    Pow2Fits(offsetBits + segmentBits);
  }

  /** `MaxSizeForIsPower` for every pair of widths, as an implication. */
  lemma MaxSizeForBelow64(offsetBits: u8, segmentBits: u8)
    ensures offsetBits + segmentBits < 64 ==> MaxSizeFor(offsetBits, segmentBits) == Pow2(offsetBits + segmentBits)
  {
    if offsetBits + segmentBits < 64 {
      MaxSizeForIsPower(offsetBits, segmentBits);
    }
  }

  /** Below 64, a shift right is a division by a power of two. */
  lemma ShrDef(x: u64, k: nat)
    requires k < 64
    ensures Shr(x, k) == x / Pow2(k)
  {
  }

  /** `q + 1` blocks of `p`, for `q` the quotient of `t - 1`, cover `t`, and fit wherever `t` fits. */
  lemma CeilCover(t: nat, p: nat, n: nat, a: nat)
    requires 1 <= t <= n * p && p >= 1 && a == (t - 1) / p + 1
    ensures a <= n && t <= a * p <= n * p
  {
    var q, r := (t - 1) / p, (t - 1) % p;
    assert t - 1 == q * p + r && r < p;
    assert (q + 1) * p == q * p + p;
    if q >= n {
      MulMonotone(n, q, p);
      assert false;
    }
    MulMonotone(q + 1, n, p);
  }

  /**
   * Every target but 0 ends up covered: the new segments hold at least the
   * clamped target and at most the maximum size, and their number is at
   * most the number of segments.
   */
  lemma ResizeCovers(allocatedSegments: u64, offsetBits: u8, segmentBits: u8, target: u64)
    requires offsetBits + segmentBits < 64 && target != 0
    ensures ResizedAllocation(allocatedSegments, offsetBits, segmentBits, target) <= Pow2(segmentBits)
    ensures Clamp(target, MaxSizeFor(offsetBits, segmentBits))
            <= ResizedAllocation(allocatedSegments, offsetBits, segmentBits, target) * Pow2(offsetBits)
            <= MaxSizeFor(offsetBits, segmentBits)
  {
    MaxSizeForIsPower(offsetBits, segmentBits);
    var t := Clamp(target, MaxSizeFor(offsetBits, segmentBits));
    ResizedAllocationDef(allocatedSegments, offsetBits, segmentBits, target);
    assert Pow2(offsetBits) * Pow2(segmentBits) == Pow2(segmentBits) * Pow2(offsetBits);
    CeilCover(t, Pow2(offsetBits), Pow2(segmentBits), ResizedAllocation(allocatedSegments, offsetBits, segmentBits, target));
  }

  /** For a target that survives clamping, the new count is one past the quotient of `t - 1`. */
  lemma ResizedAllocationDef(allocatedSegments: u64, offsetBits: u8, segmentBits: u8, target: u64)
    requires offsetBits < 64 && Clamp(target, MaxSizeFor(offsetBits, segmentBits)) != 0
    ensures ResizedAllocation(allocatedSegments, offsetBits, segmentBits, target)
            == (Clamp(target, MaxSizeFor(offsetBits, segmentBits)) - 1) / Pow2(offsetBits) + 1
  {
  }

  /** Once a target is reached, a larger target never asks for fewer segments. */
  lemma ResizeGrowsWithTarget(allocatedSegments: u64, offsetBits: u8, segmentBits: u8, t1: u64, t2: u64)
    requires t1 != 0 && t1 <= t2
    ensures var a1 := ResizedAllocation(allocatedSegments, offsetBits, segmentBits, t1);
            ResizedAllocation(a1, offsetBits, segmentBits, t2) >= a1
  {
    var m := MaxSizeFor(offsetBits, segmentBits);
    if m != 0 && offsetBits < 64 {
      DivMonotone(Clamp(t1, m) - 1, Clamp(t2, m) - 1, Pow2(offsetBits));
    }
  }

  /**
   * Once line 61 is corrected (`LazyArray.Resize`), the comment "under no
   * circumstance will the array be shrunk" no longer holds: line 73 sets the
   * count to one past the target's last segment whatever it was before.
   * With one offset bit and one segment bit (two segments of two stripes),
   * the corrected `NewLazyArray(1, 1, 4)` allocates both segments, and a
   * following `resize(1)` drops the count to one.
   */
  lemma ResizeCanShrink()
    ensures ResizedAllocation(0, 1, 1, 4) == 2
    ensures ResizedAllocation(ResizedAllocation(0, 1, 1, 4), 1, 1, 1) == 1
  {
    assert Shr(3, 1) == 1 && Shr(0, 1) == 0 by {
      assert Pow2(1) == 2;
    }
    assert MaxSizeFor(1, 1) == 4 by {
      ModSmall(2, 0x100);
      assert Pow2(2) == 4;
    }
  }

  /**
   * The same shrinking on an array built by the corrected constructor, which
   * satisfies `Valid()`: two segments allocated, then one after `resize(1)`.
   */
  method ShrinkBuiltArray() returns (before: u64, after: u64)
    ensures before == 2 && after == 1
  {
    ResizeCanShrink();
    var la := new LazyArray(1, 1, 4);
    before := la.allocatedSegments;
    la.Resize(1);
    after := la.allocatedSegments;
  }

  /**
   * When a resize shrinks a valid array: exactly when the clamped target is
   * not 0 and the segment of its last index lies below the last allocated
   * segment.
   */
  lemma ResizeShrinksIff(la: LazyArray, target: u64)
    requires la.Valid()
    ensures var t := Clamp(target, la.MaxSize());
            ResizedAllocation(la.allocatedSegments, la.offsetBits, la.segmentBits, target) < la.allocatedSegments
            <==> t != 0 && la.GetSegment(t - 1) + 1 < la.allocatedSegments
  {
  }

  /** Go's runtime message for an index past the end of a slice. */
  const IndexOutOfRange: string := "index out of range"

  /**
   * `resize` as written: line 61 replaces the segments by an empty slice, so
   * the first write of the loop indexes past its end and panics. The result
   * is the new allocation count, or the panic. It panics exactly when the
   * intended resize would grow the array, and otherwise agrees with it on
   * the count.
   */
  function ResizeAsWritten(allocatedSegments: u64, offsetBits: u8, segmentBits: u8, target: u64): (r: Result<u64>)
    ensures r.Err? <==> allocatedSegments < ResizedAllocation(allocatedSegments, offsetBits, segmentBits, target)
    ensures r.Ok? ==> r.value == ResizedAllocation(allocatedSegments, offsetBits, segmentBits, target)
  {
    var t := Clamp(target, MaxSizeFor(offsetBits, segmentBits));
    if t == 0 then Ok(allocatedSegments)
    else
      var lastSegment := Shr(t - 1, offsetBits);
      if allocatedSegments <= lastSegment then Err(IndexOutOfRange)
      else Ok(lastSegment + 1)
  }

  /**
   * A freshly built lazy array panics in its constructor for every target
   * that survives clamping: `NewLazyArray` starts with no allocated segments.
   */
  lemma NewLazyArrayPanics(offsetBits: u8, segmentBits: u8, target: u64)
    requires target != 0 && MaxSizeFor(offsetBits, segmentBits) != 0
    ensures ResizeAsWritten(0, offsetBits, segmentBits, target).Err?
  {
  }
  /**
   * As written, `resize` never grows the array: whenever it does not panic,
   * the count it leaves is at most the one it found. In particular an array
   * the source builds, which starts from no segment, never holds one, and so
   * never shrinks either.
   */
  lemma ResizeAsWrittenNeverGrows(allocatedSegments: u64, offsetBits: u8, segmentBits: u8, target: u64)
    ensures var r := ResizeAsWritten(allocatedSegments, offsetBits, segmentBits, target);
            r.Ok? ==> r.value <= allocatedSegments
    ensures var r := ResizeAsWritten(0, offsetBits, segmentBits, target);
            r.Ok? ==> r.value == 0
  {
  }


  /** The array itself, with resizing done as intended: existing segments are kept. */
  class LazyArray {
    var segments: seq<seq<Stripe>>
    var allocatedSegments: u64
    const offsetBits: u8
    const segmentBits: u8
    const segmentSize: u64
    const numSegments: u64
    const offsetMask: u64

    /** The derived constants, and every allocated segment holds `segmentSize` stripes. */
    ghost predicate Valid()
      reads this
    {
      && segmentSize == Shl1(offsetBits)
      && numSegments == Shl1(segmentBits)
      && offsetMask == (segmentSize - 1) % Word
      && allocatedSegments <= |segments|
      && (forall j :: 0 <= j < allocatedSegments ==> |segments[j]| == segmentSize)
      && (Bounded() ==> allocatedSegments <= numSegments)
    }

    /** The widths for which every index of the array fits in a uint64. */
    predicate Bounded()
    {
      offsetBits + segmentBits < 64
    }

    /** `NewLazyArray`: derives the constants and resizes to `target`. */
    constructor (offsetBits: u8, segmentBits: u8, target: u64)
      ensures Valid()
      ensures this.offsetBits == offsetBits && this.segmentBits == segmentBits
      ensures allocatedSegments == ResizedAllocation(0, offsetBits, segmentBits, target)
      ensures forall j :: 0 <= j < allocatedSegments ==> segments[j] == CreateArray()
      ensures Bounded() && target != 0 ==> Clamp(target, MaxSize()) <= Size() <= MaxSize()
    {
      this.offsetBits := offsetBits;
      this.segmentBits := segmentBits;
      segmentSize := Shl1(offsetBits);
      numSegments := Shl1(segmentBits);
      offsetMask := (Shl1(offsetBits) - 1) % Word;
      segments := [];
      allocatedSegments := 0;
      new;
      Resize(target);
    }

    /** `size`: the number of entries the allocated segments hold, as a uint64 product. */
    function Size(): u64
      reads this
    {
      (allocatedSegments * segmentSize) % Word
    }

    /** `maxSize`: for bounded widths, 2^(offsetBits + segmentBits). */
    function MaxSize(): (m: u64)
      ensures Bounded() ==> m == Pow2(offsetBits + segmentBits)
    {
      MaxSizeForBelow64(offsetBits, segmentBits);
      MaxSizeFor(offsetBits, segmentBits)
    }

    /**
     * `getSegment`: the high part of an index, the number of whole segments
     * of 2^offsetBits stripes that precede it; 0 once every bit is shifted out.
     */
    function GetSegment(i: u64): (s: u64)
      ensures offsetBits < 64 ==> s * Pow2(offsetBits) <= i < (s + 1) * Pow2(offsetBits)
      ensures offsetBits >= 64 ==> s == 0
    {
      DivBracket(i, Pow2(offsetBits));
      Shr(i, offsetBits)
    }

    /** `getOffset`: the low part of an index, which never exceeds the index or the offset mask. */
    function GetOffset(i: u64): (o: u64)
      ensures o <= i && o <= offsetMask
    {
      And(i, offsetMask)
    }

    /** `createArray`: a fresh segment of `segmentSize` stripes with no elements. */
    function CreateArray(): (s: seq<Stripe>)
      ensures |s| == segmentSize && forall j :: 0 <= j < |s| ==> s[j].elemCounter == 0
    {
      seq(segmentSize, _ => Stripe(0))
    }

    /** `get`: the stripe at index `i`, which must lie in an allocated segment. */
    function Get(i: u64): Stripe
      reads this
      requires GetSegment(i) < |segments| && GetOffset(i) < |segments[GetSegment(i)]|
    {
      segments[GetSegment(i)][GetOffset(i)]
    }

    /** The stripes the array holds, in index order. */
    ghost function Stripes(): seq<Stripe>
      reads this
      requires Valid()
    {
      Flatten(segments[..allocatedSegments])
    }

    /**
     * `resize(target)`: clamps the target to the maximum size; for a clamped
     * target `t` of 0 nothing changes, otherwise fresh segments are written from
     * the allocated count up to the segment of index `t - 1`, and the count
     * becomes one past that segment, shrinking when `t` is small.
     */
    method Resize(target: u64)
      requires Valid()
      modifies this
      ensures Valid()
      ensures allocatedSegments == ResizedAllocation(old(allocatedSegments), offsetBits, segmentBits, target)
      ensures old(allocatedSegments) <= |segments| && segments[..old(allocatedSegments)] == old(segments[..allocatedSegments])
      ensures forall j :: old(allocatedSegments) <= j < allocatedSegments ==> segments[j] == CreateArray()
      ensures Bounded() && target != 0 ==> Clamp(target, MaxSize()) <= Size() <= MaxSize()
    {
      var maxSize := MaxSize();
      var t := target;
      if maxSize < t {
        t := maxSize;
      }
      if t == 0 {
        return;
      }
      var lastSegment := GetSegment(t - 1);
      var i := allocatedSegments;
      while i <= lastSegment
        invariant allocatedSegments <= i <= |segments|
        invariant i <= lastSegment + 1 || i == allocatedSegments
        invariant segments[..allocatedSegments] == old(segments[..allocatedSegments])
        invariant forall j :: allocatedSegments <= j < i ==> segments[j] == CreateArray()
      {
        if i < |segments| {
          segments := segments[i := CreateArray()];
        } else {
          segments := segments + [CreateArray()];
        }
        i := i + 1;
      }
      if Bounded() {
        ResizeCovers(old(allocatedSegments), offsetBits, segmentBits, target);
      }
      allocatedSegments := lastSegment + 1;
      assert forall j :: 0 <= j < allocatedSegments ==> |segments[j]| == segmentSize by {
        forall j | 0 <= j < allocatedSegments
          ensures |segments[j]| == segmentSize
        {
          if j < old(allocatedSegments) {
            assert segments[j] == old(segments[j]);
          }
        }
      }
      if Bounded() {
        SizeIsProduct(this);
      }
    }
  }

  /** In a bounded array the size does not wrap, and stays within the maximum size. */
  lemma SizeIsProduct(la: LazyArray)
    requires la.Valid() && la.Bounded()
    ensures la.Size() == la.allocatedSegments * la.segmentSize <= la.MaxSize()
  {
    ConstantsArePowers(la);
    MulMonotone(la.allocatedSegments, la.numSegments, la.segmentSize);
    assert la.numSegments * la.segmentSize == la.segmentSize * la.numSegments;
    ModSmall(la.allocatedSegments * la.segmentSize, Word);
  }

  /**
   * The constructor's constants: the segment size and segment count are
   * powers of two, the offset mask is one less than the segment size, and
   * the maximum size is their product.
   */
  lemma ConstantsArePowers(la: LazyArray)
    requires la.Valid() && la.Bounded()
    ensures la.segmentSize == Pow2(la.offsetBits) && la.numSegments == Pow2(la.segmentBits)
    ensures la.offsetMask == la.segmentSize - 1
    ensures la.MaxSize() == Pow2(la.offsetBits + la.segmentBits) == la.segmentSize * la.numSegments < Word
  {
    MaxSizeForIsPower(la.offsetBits, la.segmentBits);
    Shl1Def(la.offsetBits);
    Shl1Def(la.segmentBits);
    Pow2Fits(la.offsetBits);
    ModSmall(la.segmentSize - 1, Word);
  }

  /**
   * An index is its segment times the segment size plus its offset, and the
   * offset is below the segment size; below the maximum size the segment is
   * below the number of segments.
   */
  lemma SegmentAndOffset(la: LazyArray, i: u64)
    requires la.Valid() && la.Bounded()
    ensures la.GetSegment(i) == i / la.segmentSize && la.GetOffset(i) == i % la.segmentSize
    ensures la.GetSegment(i) * la.segmentSize + la.GetOffset(i) == i
    ensures la.GetOffset(i) < la.segmentSize
    ensures i < la.MaxSize() ==> la.GetSegment(i) < la.numSegments
  {
    ConstantsArePowers(la);
    AndLowBits(i, la.offsetBits);
    ShrDef(i, la.offsetBits);
    SegmentBound(i, la.segmentSize, la.numSegments);
    assert la.numSegments * la.segmentSize == la.segmentSize * la.numSegments;
  }

  /** Quotient and remainder by `p`, and a quotient bound from `i < n * p`. */
  lemma SegmentBound(i: nat, p: nat, n: nat)
    requires p >= 1
    ensures (i / p) * p + i % p == i && i % p < p
    ensures i < n * p ==> i / p < n
  {
    if i < n * p && i / p >= n {
      MulMonotone(n, i / p, p);
      assert false;
    }
  }

  /**
   * Every index below `size()` falls in an allocated segment, so `get` is in
   * range there, and it reads the stripe at that position of `Stripes()`.
   */
  lemma GetInRange(la: LazyArray, i: u64)
    requires la.Valid() && la.Bounded() && i < la.Size()
    ensures la.GetSegment(i) < la.allocatedSegments && la.GetOffset(i) < |la.segments[la.GetSegment(i)]|
    ensures |la.Stripes()| == la.Size() && la.Get(i) == la.Stripes()[i]
  {
    SizeIsProduct(la);
    SegmentAndOffset(la, i);
    ConstantsArePowers(la);
    FlattenIndex(la.segments[..la.allocatedSegments], la.segmentSize, i);
  }

  /** The stripes of a valid bounded array number exactly `size()`. */
  lemma StripesLength(la: LazyArray)
    requires la.Valid() && la.Bounded()
    ensures |la.Stripes()| == la.Size()
  {
    SizeIsProduct(la);
    ConstantsArePowers(la);
    FlattenLength(la.segments[..la.allocatedSegments], la.segmentSize);
  }
}

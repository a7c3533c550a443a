# gocuckoo core, modelled in Dafny

This project models the deterministic layer of gocuckoo, a lock-striped
cuckoo hash table written in Go, in five parts:

- **Tagging** (`hash.dfy`, module `Hash`). `partialKey` folds a key's 64-bit
  hash to an 8-bit tag. `hashedKey` pairs the hash with that tag. The hash is
  an input: the FNV-64 hash itself is library code.
- **Bucket addressing** (`addressing.dfy`, module `Addressing`). `HashSize`,
  `HashMask`, `indexHash` and `altIndex` are written on `bv64`/`bv8`, with
  Go's wrap-around. The headline property is that `altIndex` undoes itself
  on bucket indices.
- **Slot storage** (`bucket.dfy`, module `Buckets`). A bucket is three
  parallel arrays of 128 slots, updated in place. `moveToBucket` and
  `moveBucket` move entries between buckets. The bucket container holds the
  table's buckets and supports `swap`.
- **The lazy stripe array** (`lazyarray.dfy`, module `LazyArrays`). It is
  modelled on integers, with Go's uint64 shifts, masks and products written
  out in module `Arith` (`arith.dfy`).
- **The map layer** (`cuckoo_map.dfy`, module `CuckooMap`). This covers
  `reserveCalc`, the constructor, `BucketCount`, `Capacity`, `Size`, `Empty`,
  `SetMaxmumHashPower`, `lockIndex` and the index ordering of `lockTwo`.

Each stripe (a spin lock in the source) is modelled as a record holding only
its element counter. Error returns are `Result`/`Outcome` values from
`wrappers.dfy`, and so are panics that the model makes reachable.

Where the comments and the code disagree, the model follows the code:

- `resize` claims it never shrinks the array. As written it cannot shrink
  because it never grows: line 61 empties the segment slice, so any write
  panics, and an array the source builds never holds a segment
  (`ResizeAsWrittenNeverGrows`, Findings). Once line 61 is corrected
  (`LazyArray.Resize`), line 73's unconditional assignment does shrink a
  general lazy array. With one offset bit, one segment bit and target 4 the
  corrected constructor allocates two segments, and `resize(1)` leaves one
  (`ResizeCanShrink`, `ShrinkBuiltArray`). The map's own lock array cannot
  shrink even then: with widths 16 and 0 it has a single segment
  (`MapLocksNeverShrink`).
- `altIndex` claims it uses a "nonzero tag". The tag is zero for partial 255
  (see Findings).

## Model

| member | source | states |
|---|---|---|
| Hash.PartialKey | hash.go:25-31 | the 64→32→16→8 fold, with Go's truncating conversions, equals the XOR of the eight bytes of the hash |
| Hash.PartialKeyIgnoresHalfOrder | hash.go:27 | exchanging the two 32-bit halves of a hash leaves its tag unchanged |
| Hash.HashedKey | hash.go:12-19 | the built value keeps the hash, and its tag is `partialKey(hash)`, the XOR of the hash's bytes; the tag has no hash-power input |
| Addressing.HashSize | cuckoohash_map.go:79-82 | below 64 the bucket count is a single set bit (a power of two, never 0); from 64 on Go's shift gives 0 |
| Addressing.HashMask | cuckoohash_map.go:84-87 | below 64 the mask is a run of low one bits below the bucket count; from 64 on it is all ones |
| Addressing.HashSizePow2 | cuckoohash_map.go:79-82 | below 64 the bucket count is 2^hp |
| Addressing.MaskSelectsIndices | cuckoohash_map.go:84-87 | below 64 a word survives the mask exactly when it is below `HashSize(hp)`, so the mask is the low hp bits, 2^hp − 1 |
| Addressing.MaskAllOnes | cuckoohash_map.go:84-87 | from 64 on `HashSize` wraps to 0 and the mask keeps every bit |
| Addressing.IndexHash | cuckoohash_map.go:235-238 | below 64 the first bucket is a bucket index (< `HashSize(hp)`) |
| Addressing.IndexHashIsRemainder | cuckoohash_map.go:235-238 | `indexHash` agrees with the hash on the masked bits, and below 64 it is the only bucket index that does (`h mod 2^hp`); from 64 on it is the hash itself |
| Addressing.AltIndex | cuckoohash_map.go:245-250 | below 64 the alternate bucket is a bucket index |
| Addressing.TagMultiplier | cuckoohash_map.go:248 | the multiplier `uint64(partial+1) * 0xc6a4a7935bd1e995`, with the increment in uint8, is 0 exactly for partial 255 |
| Addressing.AltIndexInvolution | cuckoohash_map.go:240-250 | for every bucket index, `altIndex` applied twice with the same tag returns it |
| Addressing.AltIndexInvolutionOnIndexHash | cuckoohash_map_test.go:12-30 | `altIndex(altIndex(indexHash(h)))` is `indexHash(h)` at every hash power and tag, as the doc comment and the test assert |
| Addressing.AltIndexAtTag255 | cuckoohash_map.go:246-249 | with tag 255 the alternate bucket of a key's first bucket is that same bucket |
| Addressing.CorrectedAltIndexAgrees | cuckoohash_map.go:245-250 | with the increment done in 64 bits, the alternate bucket is unchanged for every tag but 255 |
| Addressing.CorrectedAltIndexInvolution | cuckoohash_map.go:240-243 | the corrected alternate bucket is an involution on bucket indices too |
| Addressing.CorrectedAltIndexMoves | cuckoohash_map.go:246-249 | from hash power 9 on, the corrected alternate bucket always differs from the first bucket |
| Addressing.IndexHashGrows | hash.go:21-24 | when the table doubles, the first bucket keeps its low hp bits |
| Addressing.AltIndexGrows | hash.go:21-24 | when the table doubles, the alternate bucket only grows by its top bit: it keeps its low hp bits |
| Buckets.Bucket.constructor | bucket.go:44-47 | a new bucket has 128 slots, none occupied, with no tag and no pair |
| Buckets.Bucket.KVPairAt | bucket.go:68-70 | the pair reference at slot idx; no contract of its own: `SetKV2` and `EraseKV` state what it reads after them |
| Buckets.Bucket.PartialAt | bucket.go:72-74 | the tag at slot idx; no contract of its own: `SetKV`, `SetKV2` and `EraseKV` state what it reads after them |
| Buckets.Bucket.Occupied | bucket.go:76-78 | the occupancy bit of slot idx; no contract of its own: `SetKV`, `SetKV2` and `EraseKV` state what it reads after them |
| Buckets.Bucket.Key | bucket.go:80-82 | the key of the pair at slot idx, which must hold a pair; no contract of its own: `SetKV` states that it reads k after storing (k, v) |
| Buckets.Bucket.Value | bucket.go:84-86 | the value of the pair at slot idx, which must hold a pair; no contract of its own: `SetKV` states that it reads v after storing (k, v) |
| Buckets.Bucket.SetKV | bucket.go:49-53 | slot idx gets tag p, becomes occupied and holds a fresh pair with key k and value v, as `Occupied`, `PartialAt`, `Key` and `Value` then read; every other slot is unchanged |
| Buckets.Bucket.SetKV2 | bucket.go:55-60 | slot idx gets tag p, becomes occupied and holds the given pair reference, as the getters then read; every other slot is unchanged |
| Buckets.Bucket.EraseKV | bucket.go:62-66 | slot idx loses its tag and pair and is unoccupied, as the getters then read; every other slot is unchanged |
| Buckets.Bucket.Clear | bucket.go:88-92 | no slot is occupied, tagged or paired, so the occupancy count is 0 |
| Buckets.MoveToBucket | bucket.go:94-99 | `b2[s2]` takes `b1[s1]`'s tag and the same pair reference and becomes occupied, then `b1[s1]` is emptied; on one bucket, a slot moved onto itself is destroyed |
| Buckets.MoveBucket | bucket.go:101-109 | `b1` ends with no occupied slot; each slot occupied in `b1` is moved to the same slot of `b2`; other slots of both buckets are unchanged; when no slot was occupied in both, the occupancy counts add up, so no entry is lost |
| Buckets.BucketContainer.constructor | bucket.go:10-18 | the container's size is n and it holds n fresh buckets, every slot empty; every bucket's slot arrays are fresh, and the buckets are pairwise distinct with separate slot arrays, so the caller may move entries between any two of them (also part of the container's invariant) |
| Buckets.BucketContainer.Size | bucket.go:20-22 | `size()` is the number of buckets held |
| Buckets.BucketContainer.Bucket | bucket.go:29-31 | for an index in range, the bucket returned is one the container holds, and it is well formed |
| Buckets.BucketContainer.Swap | bucket.go:24-27 | the two containers exchange their buckets and their sizes |
| Buckets.SwapTwice | bucket.go:24-27 | swapping twice restores both containers |
| LazyArrays.LazyArray.constructor | lazyarray.go:25-34 | the constants are derived from the widths; the allocated count is that of `resize(target)` from 0; every new segment is a fresh `createArray()`; for bounded widths and a target other than 0 the clamped target is at most `size()`, which is at most `maxSize()` |
| LazyArrays.LazyArray.Size | lazyarray.go:36-39 | `size()`, the allocated count times the segment size as a uint64 product; no contract of its own: `SizeIsProduct` states that it does not wrap |
| LazyArrays.LazyArray.MaxSize | lazyarray.go:41-43 | for bounded widths `maxSize()` is 2^(offsetBits + segmentBits) |
| LazyArrays.LazyArray.GetSegment | lazyarray.go:45-47 | below 64 the segment part s of i is the one with s·2^offsetBits ≤ i < (s+1)·2^offsetBits; from 64 on every bit is shifted out and it is 0 |
| LazyArrays.LazyArray.GetOffset | lazyarray.go:49-51 | the offset part of i never exceeds i or the offset mask |
| LazyArrays.LazyArray.Get | lazyarray.go:53-56 | the stripe at segment `getSegment(i)`, offset `getOffset(i)`; no contract of its own: `GetInRange` states that it is the i-th stripe |
| LazyArrays.LazyArray.CreateArray | lazyarray.go:76-78 | a segment of `_segmentSize` stripes, every counter 0 |
| LazyArrays.ConstantsArePowers | lazyarray.go:25-31 | `_segmentSize` is 2^offsetBits, `_numSegments` is 2^segmentBits and `_offsetMask` is `_segmentSize − 1`; `maxSize()` is their product |
| LazyArrays.MaxSizeForIsPower | lazyarray.go:41-43 | without uint8 wrap of the summed widths, `maxSize()` is 2^(offsetBits + segmentBits), the product of the two powers |
| LazyArrays.SizeIsProduct | lazyarray.go:36-39 | in a bounded array, `size()` is the allocated count times the segment size, without wrap, and at most `maxSize()` |
| LazyArrays.SegmentAndOffset | lazyarray.go:45-51 | `getSegment(i) * segmentSize + getOffset(i) == i`, and the offset is below the segment size; below `maxSize()` the segment is below the number of segments |
| LazyArrays.GetInRange | lazyarray.go:53-56 | every index below `size()` lies in an allocated segment, so `get` is in range, and it reads the stripe at that position |
| LazyArrays.StripesLength | lazyarray.go:36-39 | the stripes of the allocated segments number exactly `size()` |
| LazyArrays.ResizeCovers | lazyarray.go:60-74 | for a target other than 0, the new allocation covers the clamped target, stays within `maxSize()`, and uses at most the number of segments |
| LazyArrays.ResizeGrowsWithTarget | lazyarray.go:58-74 | after resizing to t1 ≠ 0, resizing to any t2 ≥ t1 does not shrink the array |
| LazyArrays.ResizeCanShrink | lazyarray.go:58-73 | with line 61 corrected, line 73 contradicts the "never shrunk" comment: a (1, 1)-width array built with target 4 has two segments, and `resize(1)` leaves it one |
| LazyArrays.ShrinkBuiltArray | lazyarray.go:25-34 | the same shrink on an array made by the corrected constructor, so on a well-formed state it reaches: two segments, then one |
| LazyArrays.ResizeShrinksIff | lazyarray.go:58-73 | a resize shrinks a well-formed array exactly when the clamped target is not 0 and the segment of its last index is below the last allocated segment |
| LazyArrays.ResizeAsWritten | lazyarray.go:60-74 | the count `resize` as written leaves, or its panic: it panics exactly when the intended resize would grow the array, and otherwise agrees with it on the count. It returns the count only: the wipe of the segments by line 61 on the paths that do not panic is not modelled |
| LazyArrays.NewLazyArrayPanics | lazyarray.go:61-71 | `resize` as written fails on a fresh array for every target that survives clamping |
| LazyArrays.ResizeAsWrittenNeverGrows | lazyarray.go:58-74 | as written, a `resize` that does not panic never raises the count, and from no segment it leaves none, so an array the source builds neither grows nor shrinks |
| LazyArrays.LazyArray.Resize | lazyarray.go:60-74 | the new count is that of the clamped target, and is unchanged for 0; segments already allocated are kept, and new ones are fresh `createArray()`s; the target is then covered within `maxSize()` |
| CuckooMap.ReserveCalc | cuckoohash_map.go:65-77 | it succeeds exactly when n ≤ 2^63. It then returns a hash power from 1 to 56 with room for n elements, and that power is minimal: 1, or else the previous power of two is below ⌈n/128⌉ |
| CuckooMap.ReserveOutcome | cuckoohash_map.go:72-74 | after the loop, the uint64 check `n > HashSize(blog2)*128` fails exactly when n ≤ 2^63 |
| CuckooMap.HashSizeIsShl1 | cuckoohash_map.go:79-82 | the word `HashSize(hp)` equals the integer shift used by the map, at every hash power |
| CuckooMap.CuckooHashMap.constructor | cuckoohash_map.go:50-63 | the map is valid, with the given hash power and no maximum; there are `HashSize(power)` buckets, every slot empty, each with fresh slot arrays the map may update; the lock array is `NewLazyArray(16, 0, HashSize(power))` with fresh stripes |
| CuckooMap.NewMapAllocatesOneSegment | cuckoohash_map.go:58-60 | below hash power 64 the constructor allocates exactly one 2^16-stripe segment |
| CuckooMap.MapLocksNeverShrink | lazyarray.go:58-59 | the map's lock array, with widths 16 and 0, holds at most one segment, and no `resize` lowers its count |
| CuckooMap.CuckooHashMap.HashPower | cuckoohash_map.go:89-91 | the current hash power; no contract of its own: the constructor and `SetMaxmumHashPower` are stated through it |
| CuckooMap.CuckooHashMap.MaxmumHashPower | cuckoohash_map.go:146-148 | the stored maximum hash power; no contract of its own: the constructor and `SetMaxmumHashPower` are stated through it |
| CuckooMap.CuckooHashMap.BucketCount | cuckoohash_map.go:93-95 | the bucket count is the number of buckets the container holds |
| CuckooMap.BucketCountOfHashPower | cuckoohash_map.go:21-22 | there are 2^hashPower buckets below 64, and 0 from 64 on |
| CuckooMap.CuckooHashMap.Capacity | cuckoohash_map.go:115-117 | `Capacity` is 2^(hashPower+7) below 57, and the uint64 product wraps to 0 from 57 on |
| CuckooMap.CuckooHashMap.SetMaxmumHashPower | cuckoohash_map.go:138-144 | it fails, leaving the maximum unchanged, exactly when mhp ≠ 0 and the hash power exceeds mhp; otherwise it stores mhp |
| CuckooMap.CuckooHashMap.Size | cuckoohash_map.go:106-113 | the result is the sum of the element counters of the stripes below `size()`, modulo 2^64 |
| CuckooMap.WrappedSumIsCounterSum | cuckoohash_map.go:108-112 | adding the counters one at a time in uint64 gives their true sum modulo 2^64 |
| CuckooMap.CuckooHashMap.Empty | cuckoohash_map.go:97-104 | true exactly when every allocated stripe's counter is 0 |
| CuckooMap.EmptyIffNoElements | cuckoohash_map.go:97-113 | every counter is 0 exactly when their sum is 0, so `Empty` holds exactly when the true total that `Size` reports modulo 2^64 is 0 |
| CuckooMap.CuckooHashMap.LockIndex | cuckoohash_map.go:252-255 | the stripe index is below 2^16, equals `indexHash(16, idx)`, and is idx itself below 2^16 |
| CuckooMap.LockArrayMaxSize | cuckoohash_map.go:60 | the map's lock array has `maxSize()` 2^16 = `HashSize(16)` |
| CuckooMap.LockIndexInRange | cuckoohash_map.go:252-255 | every stripe index is below the lock array's `maxSize()`, and below its `size()` once a segment is allocated |
| CuckooMap.CuckooHashMap.LockTwo | cuckoohash_map.go:219-233 | returns the two stripe indices in order (l1 ≤ l2). It locks l1, and then l2 only when it differs from l1 |

## Left out

- Concurrency: the spin locks (spinlock.go), `Lock`/`Unlock`, `snapshotAndLockTwo`'s retry loop, `checkHashPower` and its unlock, the expansion mutex, and the atomic store in `SetMaxmumHashPower`. A stripe is modelled as its element counter alone.
- `Upsert`, `cuckooInsertLoop` and `cuckooInsert` are empty stubs in the source and are not modelled.
- FNV-64 hashing in `hashedKey` and the caller's `_hashFn`/`_equalFn`. The 64-bit hash is a parameter.
- Everything float-valued: `LoadFactor`, `SetMinimumLoadFactor`, `MinimumLoadFactor`.
- The bitset library: occupancy is an `array<bool>` of 128 entries. The source's `NewBucketContainer` builds buckets with a nil bitset, and `NewBucket` discards what it builds. The model gives every bucket its intended empty state (`Buckets.Bucket.constructor`).
- A slot's partial is an `interface{}` in the source; it is modelled as an optional 8-bit tag.
- `createArray` fills a segment with nil spin-lock pointers, and nothing in the source ever allocates a real one. The model fills it with stripes whose counter is 0, the evidently intended state. This hides a second panic: even with line 61 corrected, whenever `size() > 0` (every map below hash power 64) the source dereferences a nil stripe in `Empty` (cuckoohash_map.go:99), `Size` (cuckoohash_map.go:110) and `lockTwo` (cuckoohash_map.go:227 and 230). CuckooMap.CuckooHashMap.Size, CuckooMap.CuckooHashMap.Empty and CuckooMap.CuckooHashMap.LockTwo model those operations on allocated zero-counter stripes, not that panic.
- The lazy array's `_segments` is a sequence of sequences. Its capacity hint `_numSegments` is not modelled.
- LazyArrays.ResizeAsWritten: returns only the new count or the panic. On the paths that do not panic (a clamped target of 0, or no segment to write), line 61 has still replaced the segments by an empty slice; that loss of the segments is not modelled.
- LazyArrays.LazyArray.Resize: models the intended growth. Existing segments are kept and the sequence is extended to `lastSegment + 1`. The code as written is in `ResizeAsWritten` and is listed under Findings.
- CuckooMap.CuckooHashMap.LockIndex: masks with `HashMask(16)`, the value of `maxSize() - 1` for the map's own lock array (`LockArrayMaxSize`), rather than reading `maxSize()` from the lock array.
- CuckooMap.CuckooHashMap.LockTwo: models only the index computation and the order of locking, returned as a sequence. The `hp` argument and `twoBuckets` result are left out.
- Splitting a bucket on doubling (that `indexHash(hp+1, h)` is `indexHash(hp, h)` or that plus 2^hp) is not proved. Only the low-bits half (`IndexHashGrows`) is.

## Findings

| source | as written | input that shows it | evidently intended | confidence | as-written member | corrected member |
|---|---|---|---|---|---|---|
| cuckoohash_map.go:248 | `uint64(partial + 1)` increments in uint8, so tag 255 wraps to a multiplier of 0 | partial = 255, any hash power: `altIndex(hp, 255, i) == i` for every bucket index i, so both candidate buckets are the same | a nonzero tag, `uint64(partial) + 1`, so that from hash power 9 on the two buckets always differ | not executed | Addressing.AltIndexAtTag255 | Addressing.CorrectedAltIndexMoves |
| lazyarray.go:61 | `resize` replaces `_segments` with a slice of length 0, then line 71 writes `_segments[i]` by index, which panics | `NewLazyArray(16, 0, 1)`, reached from `NewCuckooHashMap(p, …)` for every p whose bucket container can be allocated, e.g. the 0..16 the constructor's comment expects | keep the allocated segments and append the new ones | not executed | LazyArrays.NewLazyArrayPanics | LazyArrays.LazyArray.Resize |

/**
 * Hashing and tagging (hash.go). The 64-bit hash of a key is an input here:
 * the FNV-64 hash the source computes is library code outside the model.
 */
module Hash {

  /** A key's 64-bit hash and its 8-bit partial tag (`hashValue`). */
  datatype HashValue = HashValue(hash: bv64, partial: bv8)

  /**
   * The XOR of the eight bytes of `h`, byte 0 being the least significant:
   * an independent definition of the tag, byte by byte.
   */
  function XorOfBytes(h: bv64): bv8
  {
    (h & 0xFF) as bv8 ^ ((h >> 8) & 0xFF) as bv8 ^
    ((h >> 16) & 0xFF) as bv8 ^ ((h >> 24) & 0xFF) as bv8 ^
    ((h >> 32) & 0xFF) as bv8 ^ ((h >> 40) & 0xFF) as bv8 ^
    ((h >> 48) & 0xFF) as bv8 ^ ((h >> 56) & 0xFF) as bv8
  }

  /**
   * `partialKey`: folds the hash 64 -> 32 -> 16 -> 8 bits, XOR-ing the two
   * halves at each step. Go's truncating conversions `uint32(x)`, `uint16(x)`
   * and `uint8(x)` keep the low bits, written here as masks on the 64-bit
   * word (the `>> 32` and `>> 16` shifts see only the bits the previous
   * truncation kept), with one final conversion to a byte.
   * The tag depends on the hash alone: there is no hash-power argument, and
   * the fold computes the XOR of the eight bytes of the hash.
   */
  function PartialKey(h: bv64): (tag: bv8)
    ensures tag == XorOfBytes(h)
  {
    var hash32 := (h & 0xFFFF_FFFF) ^ (h >> 32);
    var hash16 := (hash32 & 0xFFFF) ^ (hash32 >> 16);
    ((hash16 & 0xFF) ^ (hash16 >> 8)) as bv8
  }

  /** Exchanging the two 32-bit halves of a hash leaves its tag unchanged. */
  lemma PartialKeyIgnoresHalfOrder(h: bv64)
    ensures PartialKey((h << 32) | (h >> 32)) == PartialKey(h)
  {
  }

  /** A hash value whose tag is the one its hash determines. */
  predicate TagConsistent(hv: HashValue)
  {
    hv.partial == PartialKey(hv.hash)
  }

  /** `hashedKey`, given the key's 64-bit hash `h`. */
  function HashedKey(h: bv64): (hv: HashValue)
    ensures hv.hash == h && TagConsistent(hv)
    ensures hv.partial == XorOfBytes(h)
  {
    HashValue(h, PartialKey(h))
  }
}

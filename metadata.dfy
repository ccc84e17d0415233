/**
 * Point metadata: the top three bits of the first byte of an encoded point
 * (ZCash serialization of BLS12-381 points).
 */
module Metadata {

  const mMask: bv8 := 0xE0                  // 0b111 << 5
  const mUncompressed: bv8 := 0x00          // 0b000 << 5
  const mUncompressedInfinity: bv8 := 0x40  // 0b010 << 5
  const mCompressedSmallest: bv8 := 0x80    // 0b100 << 5
  const mCompressedLargest: bv8 := 0xA0     // 0b101 << 5
  const mCompressedInfinity: bv8 := 0xC0    // 0b110 << 5

  /** The tag carried by a most significant byte. */
  function Tag(msb: bv8): (t: bv8)
    ensures t & mMask == t && t & 0x1F == 0
    ensures t >> 5 == msb >> 5
  {
    msb & mMask
  }

  /** isCompressed: false exactly for the two uncompressed tags. Any other tag,
      including the three that are not defined, reads as compressed; the
      compressed-size read that follows is what the point parser then rejects.
      Equivalently, the byte is compressed iff bit 7 or bit 5 is set. */
  function IsCompressed(msb: bv8): (b: bool)
    ensures b <==> msb & 0xA0 != 0
  {
    var mData := msb & mMask;
    !(mData == mUncompressed || mData == mUncompressedInfinity)
  }

  /** The five tags are distinct, carry nothing in their low five bits, and
      classify as the format says. */
  lemma TagsWellFormed()
    ensures mUncompressed != mUncompressedInfinity && mUncompressed != mCompressedSmallest
    ensures mUncompressed != mCompressedLargest && mUncompressed != mCompressedInfinity
    ensures mUncompressedInfinity != mCompressedSmallest && mUncompressedInfinity != mCompressedLargest
    ensures mUncompressedInfinity != mCompressedInfinity
    ensures mCompressedSmallest != mCompressedLargest && mCompressedSmallest != mCompressedInfinity
    ensures mCompressedLargest != mCompressedInfinity
    ensures Tag(mUncompressed) == mUncompressed && Tag(mUncompressedInfinity) == mUncompressedInfinity
    ensures Tag(mCompressedSmallest) == mCompressedSmallest && Tag(mCompressedLargest) == mCompressedLargest
    ensures Tag(mCompressedInfinity) == mCompressedInfinity
    ensures !IsCompressed(mUncompressed) && !IsCompressed(mUncompressedInfinity)
    ensures IsCompressed(mCompressedSmallest) && IsCompressed(mCompressedLargest)
    ensures IsCompressed(mCompressedInfinity)
  {
  }

  /** isCompressed looks at the tag bits only. */
  lemma IsCompressedDependsOnTag(a: bv8, b: bv8)
    requires Tag(a) == Tag(b)
    ensures IsCompressed(a) == IsCompressed(b)
  {
  }
}

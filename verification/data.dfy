/**
 * Format constants of the BLUB container (data.go).
 */
module Data {
  import opened Bits
  import opened Wire

  /** Size of the fixed header that precedes the payload. */
  const HeaderSize: nat := 32

  /**
   * The magic tag: the big-endian reading of the bytes 'B', 'L', 'U', 'B', each
   * byte weighted by its position.
   */
  const FormatTag: nat := 'B' as nat * 0x100_0000 + 'L' as nat * 0x1_0000 + 'U' as nat * 0x100 + 'B' as nat

  /** Flag byte bits: RLE alpha mask, and masked-out pixels left out of the pixel section. */
  const FlagCompressAlpha: byte := 0x80
  const FlagExcludeMaskedPixels: byte := 0x40

  /** The bit positions of the two flags (flag == 1 << bit). */
  const CompressAlphaBit: nat := 7
  const ExcludeMaskedPixelsBit: nat := 6

  /** Offset of the first reserved header byte: tag, width, height, two lengths, hue shift and flags take bytes 0..17. */
  const ReservedOffset: nat := 4 + 2 + 2 + 4 + 4 + 1 + 1

  lemma FormatTagSpellsBlub()
    ensures FormatTag == 0x424C5542 && FormatTag < Max32
    ensures BigEndian32(FormatTag) == ['B' as byte, 'L' as byte, 'U' as byte, 'B' as byte]
  {
  }

  /** Each flag is the single bit at its position, the two positions differ, and 14 header bytes are reserved. */
  lemma FlagLayout()
    ensures FlagCompressAlpha == Pow2(CompressAlphaBit) && FlagExcludeMaskedPixels == Pow2(ExcludeMaskedPixelsBit)
    ensures CompressAlphaBit != ExcludeMaskedPixelsBit && CompressAlphaBit < 8 && ExcludeMaskedPixelsBit < 8
    ensures ReservedOffset == 18 && HeaderSize - ReservedOffset == 14
  {
  }
}

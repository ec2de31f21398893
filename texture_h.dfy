/** The three DirectDraw Surface "four character codes" that name the S3TC
    block-compression formats (EXT_texture_compression_s3tc), as the
    32-bit values a little-endian read of the characters produces. */
module FourCC {
  import opened Binary

  const FourCCDxt1: U32 := 0x31545844
  const FourCCDxt3: U32 := 0x33545844
  const FourCCDxt5: U32 := 0x35545844

  /** `FOURCC_DXT1` is the word stored by the characters "DXT1". */
  lemma Dxt1Spelling()
    ensures EncodeLe32(FourCCDxt1) == Ascii("DXT1")
    ensures Le32(Ascii("DXT1"), 0) == FourCCDxt1
  {
  }

  /** `FOURCC_DXT3` is the word stored by the characters "DXT3". */
  lemma Dxt3Spelling()
    ensures EncodeLe32(FourCCDxt3) == Ascii("DXT3")
    ensures Le32(Ascii("DXT3"), 0) == FourCCDxt3
  {
  }

  /** `FOURCC_DXT5` is the word stored by the characters "DXT5". */
  lemma Dxt5Spelling()
    ensures EncodeLe32(FourCCDxt5) == Ascii("DXT5")
    ensures Le32(Ascii("DXT5"), 0) == FourCCDxt5
  {
  }

  /** The three codes agree in their low three bytes ("DXT") and differ in
      the high byte, so no two of them are equal. */
  lemma CodesShareDxtPrefix()
    ensures FourCCDxt1 % 0x100_0000 == FourCCDxt3 % 0x100_0000 == FourCCDxt5 % 0x100_0000
    ensures EncodeLe32(FourCCDxt1)[..3] == Ascii("DXT")
    ensures FourCCDxt1 / 0x100_0000 == '1' as int
    ensures FourCCDxt3 / 0x100_0000 == '3' as int
    ensures FourCCDxt5 / 0x100_0000 == '5' as int
    ensures FourCCDxt1 != FourCCDxt3 && FourCCDxt1 != FourCCDxt5 && FourCCDxt3 != FourCCDxt5
  {
  }
}
